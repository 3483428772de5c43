/**
 * habitHelpers.js at the root of the repository: the early needsReset. It takes midnight
 * of today, moves it back to Monday (weekly) or to the 1st (monthly) by mutating the Date,
 * and then looks only at the single newest log of the habit dated on or after that start,
 * with no upper bound: the habit can be completed unless that log is a completion.
 * The frequency is compared exactly, so NULL, unknown and mixed-case values behave as daily.
 */
module EarlyHelpers {
  import opened Options
  import opened Calendar
  import opened Tables
  import opened Periods

  /** The first day the query looks at: today, its Monday, or the 1st of its month. */
  function WindowStartDay(frequency: Option<string>, today: int): (start: int)
    ensures start <= today
    ensures frequency == Some("weekly") ==> WeekDay(start) == 1 && today < start + 7
    ensures frequency == Some("monthly") ==> DateOf(start) == CivilDate(DateOf(today).year, DateOf(today).month, 1)
    ensures frequency != Some("weekly") && frequency != Some("monthly") ==> start == today
  {
    if frequency == Some("weekly") then WeekStart(today)
    else if frequency == Some("monthly") then
      MonthlyWindow(today);
      CurrentWindow(Monthly, today).start
    else today
  }

  /**
   * The Date startDate of needsReset, updated in place: new Date(), setHours(0, 0, 0, 0),
   * then setDate(getDate() - offset) for weekly or setDate(1) for monthly. The result is
   * the instant startDate ends at.
   */
  method StartOfWindow(frequency: Option<string>, now: int) returns (startDate: int)
    ensures startDate == WindowStartDay(frequency, Day(now)) * MsPerDay
  {
    startDate := now;
    startDate := Day(startDate) * MsPerDay;
    var today := Day(startDate);
    assert today == Day(now);
    var date := DateOf(today);
    MakeDayOfDateOf(today);
    if frequency == Some("weekly") {
      var dayOfWeek := WeekDay(today);
      var offset := if dayOfWeek == 0 then 6 else dayOfWeek - 1;
      startDate := MakeDay(date.year, date.month, date.date - offset) * MsPerDay;
    } else if frequency == Some("monthly") {
      MonthOfIndex(today, 0);
      startDate := MakeDay(date.year, date.month, 1) * MsPerDay;
    }
  }

  /**
   * The row of ORDER BY date DESC LIMIT 1 among the habit's logs dated on or after start:
   * one with the latest date (the first such row in table order when dates tie).
   */
  function Newest(logs: seq<HabitLog>, habitId: int, start: int): (r: Option<HabitLog>)
    ensures r.None? <==> forall l :: l in logs ==> !(l.habitId == habitId && l.day >= start)
    ensures r.Some? ==> r.value in logs && r.value.habitId == habitId && r.value.day >= start
    ensures r.Some? ==> forall l :: l in logs && l.habitId == habitId && l.day >= start ==> l.day <= r.value.day
  {
    if logs == [] then None
    else
      var rest := Newest(logs[1..], habitId, start);
      var l := logs[0];
      assert forall x :: x in logs <==> x == l || x in logs[1..];
      if l.habitId == habitId && l.day >= start && (rest.None? || rest.value.day <= l.day) then Some(l)
      else rest
  }

  /** !completed, where completed means the newest considered log has status true. */
  function CanComplete(logs: seq<HabitLog>, habitId: int, start: int): (open: bool)
    ensures (forall l :: l in logs ==> !(l.habitId == habitId && l.day >= start)) ==> open
    ensures !open ==> exists l :: l in logs && IsCompletionOf(l, habitId) && l.day >= start
                                 && forall m :: m in logs && m.habitId == habitId && m.day >= start ==> m.day <= l.day
  {
    var newest := Newest(logs, habitId, start);
    !(newest.Some? && newest.value.status)
  }

  /** needsReset(habit_id): None when the habit is missing, otherwise whether it can be completed. */
  method NeedsReset(frequencies: FrequencyColumn, logs: seq<HabitLog>, habitId: int, now: int)
    returns (r: Option<bool>)
    ensures r.None? <==> habitId !in frequencies
    ensures r.Some? ==> r.value == CanComplete(logs, habitId, WindowStartDay(frequencies[habitId], Day(now)))
  {
    if habitId !in frequencies {
      return None;
    }
    var frequency := frequencies[habitId];
    var startDate := StartOfWindow(frequency, now);
    var start := Day(startDate);
    var newest := Newest(logs, habitId, start);
    var completed := newest.Some? && newest.value.status;
    r := Some(!completed);
  }

  /** Without any log of the habit on or after the start, the habit can be completed. */
  lemma NoLogMeansOpen(logs: seq<HabitLog>, habitId: int, start: int)
    requires forall l :: l in logs && l.habitId == habitId ==> l.day < start
    ensures CanComplete(logs, habitId, start)
  {
  }

  /** A completion dated after every other considered log closes the habit. */
  lemma NewestCompletionCloses(logs: seq<HabitLog>, habitId: int, start: int, done: HabitLog)
    requires done in logs && IsCompletionOf(done, habitId) && done.day >= start
    requires forall l :: l in logs && l.habitId == habitId && l.day >= start && l != done ==> l.day < done.day
    ensures !CanComplete(logs, habitId, start)
  {
  }

  /**
   * Only the newest considered log counts: a failed log dated after a completion makes the
   * habit completable again, although the period holds a completion.
   */
  lemma LaterFailureReopens(logs: seq<HabitLog>, habitId: int, start: int, done: HabitLog, failed: HabitLog)
    requires done in logs && IsCompletionOf(done, habitId) && done.day >= start
    requires failed in logs && failed.habitId == habitId && !failed.status && failed.day > done.day
    requires forall l :: l in logs && l.habitId == habitId && l.day >= start && l != failed ==> l.day < failed.day
    ensures CanComplete(logs, habitId, start)
  {
  }

  /**
   * The window has no upper bound: a completion dated after today still closes the habit,
   * for every frequency.
   */
  lemma FutureCompletionCloses(frequency: Option<string>, today: int, habitId: int)
    ensures !CanComplete([HabitLog(habitId, today + 1, true)], habitId, WindowStartDay(frequency, today))
  {
    var done := HabitLog(habitId, today + 1, true);
    NewestCompletionCloses([done], habitId, WindowStartDay(frequency, today), done);
  }

  /** For a daily habit, a completion dated yesterday is outside the window. */
  lemma YesterdayDoesNotCount(today: int, habitId: int)
    ensures CanComplete([HabitLog(habitId, today - 1, true)], habitId, WindowStartDay(Some("daily"), today))
  {
  }
}
