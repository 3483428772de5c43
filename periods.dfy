/**
 * Period boundaries of backend/habitHelpers.js: the current daily, Monday-start weekly or
 * calendar-monthly period around a day, the period-start keys logs are grouped by, and
 * the one-period step back that the streak walk takes.
 */
module Periods {
  import opened Options
  import opened Calendar
  import opened Text
  import opened Walks

  datatype Frequency = Daily | Weekly | Monthly

  /** The frequency a (lower-cased) frequency string names; any other string names none. */
  function ParseFrequency(s: string): (r: Option<Frequency>)
    ensures r.Some? <==> s == "daily" || s == "weekly" || s == "monthly"
    ensures r == Some(Daily) <==> s == "daily"
    ensures r == Some(Weekly) <==> s == "weekly"
    ensures r == Some(Monthly) <==> s == "monthly"
  {
    if s == "daily" then Some(Daily)
    else if s == "weekly" then Some(Weekly)
    else if s == "monthly" then Some(Monthly)
    else None
  }

  /** habit[0].frequency.toLowerCase() read as a frequency; None for SQL NULL or an unknown name. */
  function FrequencyOf(column: Option<string>): (r: Option<Frequency>)
    ensures column.None? ==> r.None?
    ensures column.Some? ==> (r == Some(Daily) <==> Lower(column.value) == "daily")
    ensures column.Some? ==> (r == Some(Weekly) <==> Lower(column.value) == "weekly")
    ensures column.Some? ==> (r == Some(Monthly) <==> Lower(column.value) == "monthly")
  {
    match column
    case None => None
    case Some(s) => ParseFrequency(Lower(s))
  }

  /** Days back to the Monday of the week: 6 on a Sunday, dayOfWeek - 1 otherwise. */
  function MondayOffset(day: int): (offset: int)
    ensures 0 <= offset <= 6
    ensures WeekDay(day - offset) == 1
  {
    var dayOfWeek := WeekDay(day);
    if dayOfWeek == 0 then 6 else dayOfWeek - 1
  }

  /** getWeekStart: the Monday on or before day. */
  function WeekStart(day: int): (monday: int)
    ensures monday <= day < monday + 7
    ensures WeekDay(monday) == 1
  {
    day - MondayOffset(day)
  }

  /** A Monday at most six days back is the week start. */
  lemma WeekStartUnique(day: int, monday: int)
    requires monday <= day < monday + 7 && WeekDay(monday) == 1
    ensures WeekStart(day) == monday
  {
  }

  /** The week start seven days back is the previous Monday. */
  lemma WeekStartLastWeek(day: int)
    ensures WeekStart(day - 7) == WeekStart(day) - 7
  {
    WeekStartUnique(day - 7, WeekStart(day) - 7);
  }

  /** The calendar date of the 1st of the month after the one c lies in. */
  function FirstOfNextMonth(c: CivilDate): CivilDate {
    if c.month == 11 then CivilDate(c.year + 1, 0, 1) else CivilDate(c.year, c.month + 1, 1)
  }

  /** A half-open interval [start, end) of day numbers. */
  datatype Window = Window(start: int, end: int)

  /**
   * The current period as needsReset computes it from todayUTC: the day itself, the
   * Monday-start week around it, or the calendar month around it.
   */
  function CurrentWindow(f: Frequency, today: int): (w: Window)
    ensures w.start <= today < w.end
    ensures f == Daily ==> w.start == today && w.end == w.start + 1
    ensures f == Weekly ==> WeekDay(w.start) == 1 && w.end == w.start + 7
    ensures f == Monthly ==> 28 <= w.end - w.start <= 31
  {
    match f
    case Daily => Window(today, today + 1)
    case Weekly =>
      var start := today - MondayOffset(today);
      Window(start, start + 7)
    case Monthly =>
      // Date.UTC(year, month, 1) and Date.UTC(year, month + 1, 1); see MonthOfIndex
      var mi := MonthOf(today);
      MonthStartStep(mi);
      Window(MonthStart(mi), MonthStart(mi + 1))
  }

  /**
   * The monthly period runs from the 1st of today's UTC month to the 1st of the next
   * month; in December the end is January 1 of the next year.
   */
  lemma MonthlyWindow(today: int)
    ensures DateOf(CurrentWindow(Monthly, today).start)
            == CivilDate(DateOf(today).year, DateOf(today).month, 1)
    ensures DateOf(CurrentWindow(Monthly, today).end) == FirstOfNextMonth(DateOf(today))
    ensures DateOf(today).month == 11 ==>
              DateOf(CurrentWindow(Monthly, today).end) == CivilDate(DateOf(today).year + 1, 0, 1)
  {
    var mi := MonthOf(today);
    DateOfMonthStart(mi);
    DateOfMonthStart(mi + 1);
    NextMonthIndex(mi);
  }

  /**
   * Date.UTC(year, month + k, 1) for the UTC year and month of a day is the start of the
   * month k months from the day's own, also when month + k leaves 0..11.
   */
  lemma MonthOfIndex(day: int, k: int)
    ensures MakeDay(DateOf(day).year, DateOf(day).month + k, 1) == MonthStart(MonthOf(day) + k)
  {
    var mi := MonthOf(day);
    assert 12 * (mi / 12) + mi % 12 + k == mi + k;
  }

  /** The month after month index mi, as a calendar date: December rolls into January. */
  lemma NextMonthIndex(mi: int)
    ensures CivilDate((mi + 1) / 12, (mi + 1) % 12, 1) == FirstOfNextMonth(CivilDate(mi / 12, mi % 12, 1))
  {
  }

  /** Every day of the current period has that same period as its own current period. */
  lemma {:induction false} SamePeriodSameWindow(f: Frequency, today: int, day: int)
    requires CurrentWindow(f, today).start <= day < CurrentWindow(f, today).end
    ensures CurrentWindow(f, day) == CurrentWindow(f, today)
  {
    match f
    case Daily =>
    case Weekly =>
      SameWeekSameWindow(today, day);
    case Monthly =>
      SameMonthSameWindow(today, day);
  }

  lemma SameWeekSameWindow(today: int, day: int)
    requires WeekStart(today) <= day < WeekStart(today) + 7
    ensures CurrentWindow(Weekly, day) == CurrentWindow(Weekly, today)
  {
    WeekStartUnique(day, WeekStart(today));
  }

  lemma SameMonthSameWindow(today: int, day: int)
    requires MonthStart(MonthOf(today)) <= day < MonthStart(MonthOf(today) + 1)
    ensures CurrentWindow(Monthly, day) == CurrentWindow(Monthly, today)
  {
    var mi := MonthOf(today);
    MonthOfUnique(day, mi);
    MonthlyWindowIs(today);
    MonthlyWindowIs(day);
  }

  lemma MonthlyWindowIs(today: int)
    ensures CurrentWindow(Monthly, today) == Window(MonthStart(MonthOf(today)), MonthStart(MonthOf(today) + 1))
  {
  }

  /** Periods move forward with time: a later day never has an earlier period start. */
  lemma {:induction false} WindowMonotone(f: Frequency, t1: int, t2: int)
    requires t1 <= t2
    ensures CurrentWindow(f, t1).start <= CurrentWindow(f, t2).start
    ensures CurrentWindow(f, t1).end <= CurrentWindow(f, t2).end
  {
    match f
    case Daily =>
    case Weekly =>
      if WeekStart(t2) < WeekStart(t1) {
        WeekStartUnique(t2, WeekStart(t1));
      }
    case Monthly =>
      MonthOfMonotone(t1, t2);
      MonthStartMonotone(MonthOf(t1), MonthOf(t2));
      MonthStartMonotone(MonthOf(t1) + 1, MonthOf(t2) + 1);
  }

  /**
   * The key a log dated day is grouped under: the day itself (daily), getWeekStart of it
   * (weekly) or Date.UTC of its year and month on the 1st (monthly, see MonthOfIndex).
   */
  function PeriodKey(f: Frequency, day: int): (key: int)
    ensures key <= day
    ensures f == Daily ==> key == day
    ensures f == Weekly ==> WeekDay(key) == 1 && day < key + 7
    ensures f == Monthly ==> MonthOf(key) == MonthOf(day) && key == MonthStart(MonthOf(key))
  {
    MonthOfMonthStart(MonthOf(day));
    match f
    case Daily => day
    case Weekly => WeekStart(day)
    case Monthly => MonthStart(MonthOf(day))
  }

  /** A log's key is the start of the current period of the day it is dated. */
  lemma KeyIsWindowStart(f: Frequency, day: int)
    ensures PeriodKey(f, day) == CurrentWindow(f, day).start
  {
  }

  /** Two different Mondays are at least a week apart. */
  lemma MondaysApart(a: int, b: int)
    requires a < b && WeekDay(a) == 1 && WeekDay(b) == 1
    ensures a <= b - 7
  {
    if a > b - 7 {
      WeekStartUnique(a, b - 7);
      WeekStartUnique(a, a);
    }
  }

  /** A day lies in today's current period exactly when it is grouped under today's key. */
  lemma {:induction false} InWindowIffSameKey(f: Frequency, today: int, day: int)
    ensures CurrentWindow(f, today).start <= day < CurrentWindow(f, today).end
            <==> PeriodKey(f, day) == PeriodKey(f, today)
  {
    if PeriodKey(f, day) == PeriodKey(f, today) && f == Monthly {
      if MonthOf(day) != MonthOf(today) {
        if MonthOf(day) < MonthOf(today) {
          MonthStartMonotone(MonthOf(day), MonthOf(today));
        } else {
          MonthStartMonotone(MonthOf(today), MonthOf(day));
        }
      }
    }
    if CurrentWindow(f, today).start <= day < CurrentWindow(f, today).end {
      SamePeriodSameWindow(f, today, day);
    }
  }

  /** No period key lies strictly between the previous period's key and the current one. */
  lemma {:induction false} KeyBeforeCurrent(f: Frequency, today: int, day: int)
    requires PeriodKey(f, day) < PeriodKey(f, today)
    ensures PeriodKey(f, day) <= PreviousKey(f, today)
  {
    match f
    case Daily =>
    case Weekly =>
      MondaysApart(PeriodKey(f, day), PeriodKey(f, today));
    case Monthly =>
      MonthBeforeMonth(MonthOf(day), MonthOf(today));
  }

  /** A month that starts before month b starts no later than month b - 1. */
  lemma MonthBeforeMonth(a: int, b: int)
    requires MonthStart(a) < MonthStart(b)
    ensures MonthStart(a) <= MonthStart(b - 1)
  {
    if b <= a {
      MonthStartMonotone(b, a);
    }
    MonthStartMonotone(a, b - 1);
  }

  /**
   * The key of the period before the current one, as each branch writes it:
   * yesterdayUTC, getWeekStart(todayUTC - 7 days), Date.UTC(year, month - 1, 1).
   */
  function PreviousKey(f: Frequency, today: int): (r: int)
    ensures r < PeriodKey(f, today)
    ensures f == Daily ==> r == today - 1
    ensures f == Weekly ==> r == PeriodKey(f, today) - 7
    ensures f == Monthly ==> MonthOf(r) == MonthOf(today) - 1 && r == MonthStart(MonthOf(r))
  {
    MonthOfMonthStart(MonthOf(today) - 1);
    WeekStartLastWeek(today);
    match f
    case Daily => today - 1
    case Weekly => WeekStart(today - 7)
    case Monthly => MonthStart(MonthOf(today) - 1)
  }

  /**
   * One step of the backward walk from a period key: checkDate - 1 day, checkWeek - 7 days,
   * or Date.UTC(year, month - 1, 1) for checkDate's UTC year and month.
   */
  function StepBack(f: Frequency, key: int): (r: int)
    ensures r < key
  {
    match f
    case Daily => key - 1
    case Weekly => key - 7
    case Monthly =>
      MonthStartStep(MonthOf(key) - 1);
      MonthStart(MonthOf(key) - 1)
  }

  /** StepBack for one frequency, as the step of the backward walk. */
  function Step(f: Frequency): (step: int -> int)
    ensures Decreasing(step)
  {
    k => StepBack(f, k)
  }

  /** The grace period is exactly one step back from the current one. */
  lemma PreviousIsStepBack(f: Frequency, today: int)
    ensures PreviousKey(f, today) == StepBack(f, PeriodKey(f, today))
  {
    match f
    case Daily =>
    case Weekly =>
      WeekStartLastWeek(today);
    case Monthly =>
      PreviousIsStepBackMonthly(today);
  }

  lemma PreviousIsStepBackMonthly(today: int)
    ensures PreviousKey(Monthly, today) == StepBack(Monthly, PeriodKey(Monthly, today))
  {
    MonthOfMonthStart(MonthOf(today));
  }

  /** From the 1st of a month, the monthly step lands on the 1st of the month before. */
  lemma StepBackMonthStart(mi: int)
    ensures StepBack(Monthly, MonthStart(mi)) == MonthStart(mi - 1)
  {
    MonthOfMonthStart(mi);
  }

  /** Walking back daily and weekly is a fixed number of days per step. */
  lemma {:induction false} BackFixedStep(f: Frequency, key: int, i: nat)
    requires f != Monthly
    ensures Back(Step(f), key, i) == key - (if f == Daily then 1 else 7) * i
  {
    if i > 0 {
      BackFixedStep(f, key, i - 1);
    }
  }

  /** Walking back monthly moves by calendar months, whatever their lengths. */
  lemma BackMonthly(mi: int, i: nat)
    ensures Back(Step(Monthly), MonthStart(mi), i) == MonthStart(mi - i)
  {
    var g := m => MonthStart(m);
    StepAlongMonths();
    assert forall k :: Step(Monthly)(g(k)) == g(k - 1);
    BackAlong(Step(Monthly), g, mi, i);
    assert g(mi) == MonthStart(mi) && g(mi - i) == MonthStart(mi - i);
  }

  lemma StepAlongMonths()
    ensures forall k :: Step(Monthly)(MonthStart(k)) == MonthStart(k - 1)
  {
    forall k
      ensures Step(Monthly)(MonthStart(k)) == MonthStart(k - 1)
    {
      StepMonthStart(k);
    }
  }

  /** The monthly step, as the function the walk applies, from the 1st of a month. */
  lemma StepMonthStart(mi: int)
    ensures Step(Monthly)(MonthStart(mi)) == MonthStart(mi - 1)
  {
    StepBackMonthStart(mi);
  }
}
