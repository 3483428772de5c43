/**
 * The Date arithmetic the habit engine relies on, in the terms of section 21.4.1 of
 * ECMA-262 (the JavaScript Date object): instants are milliseconds since 1970-01-01T00:00Z,
 * days are numbered from that date (day 0, a Thursday), and calendar dates are
 * proleptic Gregorian with 0-based months, as getUTCMonth() returns them.
 *
 * A month is identified by its month index mi = 12 * year + month, so that
 * Date.UTC(y, m, 1) with an out-of-range m (m - 1 == -1 in January, m + 1 == 12 in
 * December) is simply the month index 12 * y + m, as MakeDay prescribes. Date.UTC's
 * reading of a year from 0 to 99 as 1900 + year is not modelled: here Date.UTC is MakeDay.
 */
module Calendar {

  /** 24 * 60 * 60 * 1000 */
  const MsPerDay: int := 86_400_000

  /** The month index of January 1970. */
  const EpochMonth: int := 1970 * 12

  /** A calendar date as getUTCFullYear(), getUTCMonth() and getUTCDate() report it. */
  datatype CivilDate = CivilDate(year: int, month: int, date: int)

  /** Day(t) = floor(t / msPerDay): the day an instant falls on. */
  function Day(t: int): (d: int)
    ensures d * MsPerDay <= t < (d + 1) * MsPerDay
  {
    t / MsPerDay
  }

  /** getUTCDay(): 0 is Sunday, 1 is Monday, ..., 6 is Saturday. */
  function WeekDay(day: int): (w: int)
    ensures 0 <= w < 7
  {
    (day + 4) % 7
  }

  predicate InLeapYear(y: int) {
    y % 4 == 0 && (y % 100 != 0 || y % 400 == 0)
  }

  function DaysInYear(y: int): int {
    if InLeapYear(y) then 366 else 365
  }

  /**
   * DayFromYear(y): the day number of January 1 of year y, counted from 1970 year by
   * year; DayFromYearFormula shows it equals the closed form of ECMA-262.
   */
  function DayFromYear(y: int): (d: int)
    ensures y >= 1970 ==> 365 * (y - 1970) <= d <= 366 * (y - 1970)
    ensures y < 1970 ==> 366 * (y - 1970) <= d <= 365 * (y - 1970)
    decreases if y < 1970 then 1970 - y else y - 1970
  {
    if y == 1970 then 0
    else if y > 1970 then DayFromYear(y - 1) + DaysInYear(y - 1)
    else DayFromYear(y + 1) - DaysInYear(y)
  }

  /** The number of days in month m (0-based) of a year. */
  function DaysInMonth(m: int, leap: bool): (n: int)
    requires 0 <= m < 12
    ensures 28 <= n <= 31
  {
    if m == 1 then (if leap then 29 else 28)
    else if m == 3 || m == 5 || m == 8 || m == 10 then 30
    else 31
  }

  /** The number of days of a year that precede month m (0-based). */
  function DaysBeforeMonth(m: int, leap: bool): int
    requires 0 <= m < 12
  {
    if m == 0 then 0 else DaysBeforeMonth(m - 1, leap) + DaysInMonth(m - 1, leap)
  }

  /** The day number of the 1st of month m (0-based, 0 <= m < 12) of year y. */
  function FirstOfMonth(y: int, m: int): int
    requires 0 <= m < 12
  {
    DayFromYear(y) + DaysBeforeMonth(m, InLeapYear(y))
  }

  /** The length in days of the month with index mi. */
  function MonthLength(mi: int): (n: int)
    ensures 28 <= n <= 31
  {
    DaysInMonth(mi % 12, InLeapYear(mi / 12))
  }

  /**
   * The day number of the 1st of the month with index mi, counted from January 1970
   * month by month; MonthStartIsFirstOfMonth shows it is FirstOfMonth(mi / 12, mi % 12).
   */
  function MonthStart(mi: int): (d: int)
    decreases if mi < EpochMonth then EpochMonth - mi else mi - EpochMonth
  {
    if mi == EpochMonth then 0
    else if mi > EpochMonth then MonthStart(mi - 1) + MonthLength(mi - 1)
    else MonthStart(mi + 1) - MonthLength(mi)
  }

  /**
   * MakeDay(year, month, date): the month is first brought into 0..11 by moving whole
   * years (ym = year + floor(month / 12), mn = month modulo 12), and a date out of range
   * rolls over into the neighbouring months.
   */
  function MakeDay(year: int, month: int, date: int): (d: int)
    ensures d == MonthStart(12 * year + month) + date - 1
  {
    var mi := 12 * year + month;
    assert mi / 12 == year + month / 12 && mi % 12 == month % 12;
    MonthStartIsFirstOfMonth(mi);
    FirstOfMonth(year + month / 12, month % 12) + date - 1
  }

  lemma DayFromYearStep(y: int)
    ensures DayFromYear(y + 1) == DayFromYear(y) + DaysInYear(y)
  {
  }

  /** DayFromYear(y) = 365 * (y - 1970) + floor((y - 1969) / 4) - floor((y - 1901) / 100) + floor((y - 1601) / 400). */
  lemma {:induction false} DayFromYearFormula(y: int)
    ensures DayFromYear(y) == 365 * (y - 1970) + (y - 1969) / 4 - (y - 1901) / 100 + (y - 1601) / 400
    decreases if y < 1970 then 1970 - y else y - 1970
  {
    if y > 1970 {
      DayFromYearFormula(y - 1);
      YearFormulaStep(y - 1);
    } else if y < 1970 {
      DayFromYearFormula(y + 1);
      YearFormulaStep(y);
    }
  }

  /** The closed form grows by the length of the year from one January 1 to the next. */
  lemma YearFormulaStep(y: int)
    ensures 365 * (y + 1 - 1970) + (y + 1 - 1969) / 4 - (y + 1 - 1901) / 100 + (y + 1 - 1601) / 400
            == 365 * (y - 1970) + (y - 1969) / 4 - (y - 1901) / 100 + (y - 1601) / 400 + DaysInYear(y)
  {
    FormulaStep(y);
    LeapCount(y);
  }

  /** The leap-year rule as the three corrections of the closed form. */
  lemma LeapCount(y: int)
    ensures DaysInYear(y) == 365 + (if y % 4 == 0 then 1 else 0) - (if y % 100 == 0 then 1 else 0)
                                 + (if y % 400 == 0 then 1 else 0)
  {
    if y % 400 == 0 {
      Multiple400(y);
      Multiple100(y);
    } else if y % 100 == 0 {
      Multiple100(y);
    }
  }

  lemma Multiple100(y: int)
    requires y % 100 == 0
    ensures y % 4 == 0
  {
    var k := y / 100;
    assert y == 4 * (25 * k);
  }

  lemma Multiple400(y: int)
    requires y % 400 == 0
    ensures y % 100 == 0
  {
    var k := y / 400;
    assert y == 100 * (4 * k);
  }

  lemma FormulaStep(y: int)
    ensures (y - 1968) / 4 == (y - 1969) / 4 + (if y % 4 == 0 then 1 else 0)
    ensures (y - 1900) / 100 == (y - 1901) / 100 + (if y % 100 == 0 then 1 else 0)
    ensures (y - 1600) / 400 == (y - 1601) / 400 + (if y % 400 == 0 then 1 else 0)
  {
    FloorSucc4(y - 1969);
    assert (y - 1968) % 4 == 0 <==> y % 4 == 0;
    FloorSucc100(y - 1901);
    assert (y - 1900) % 100 == 0 <==> y % 100 == 0;
    FloorSucc400(y - 1601);
    assert (y - 1600) % 400 == 0 <==> y % 400 == 0;
  }

  lemma FloorSucc4(a: int)
    ensures (a + 1) / 4 == a / 4 + (if (a + 1) % 4 == 0 then 1 else 0)
  {
    var q, r := a / 4, a % 4;
    assert a == 4 * q + r && 0 <= r < 4;
    if r == 3 {
      assert a + 1 == 4 * (q + 1);
    } else {
      assert a + 1 == 4 * q + (r + 1);
    }
  }

  lemma FloorSucc100(a: int)
    ensures (a + 1) / 100 == a / 100 + (if (a + 1) % 100 == 0 then 1 else 0)
  {
    var q, r := a / 100, a % 100;
    assert a == 100 * q + r && 0 <= r < 100;
    if r == 99 {
      assert a + 1 == 100 * (q + 1);
    } else {
      assert a + 1 == 100 * q + (r + 1);
    }
  }

  lemma FloorSucc400(a: int)
    ensures (a + 1) / 400 == a / 400 + (if (a + 1) % 400 == 0 then 1 else 0)
  {
    var q, r := a / 400, a % 400;
    assert a == 400 * q + r && 0 <= r < 400;
    if r == 399 {
      assert a + 1 == 400 * (q + 1);
    } else {
      assert a + 1 == 400 * q + (r + 1);
    }
  }

  /** Consecutive months: the next month starts right after this one's last day. */
  lemma MonthStartStep(mi: int)
    ensures MonthStart(mi + 1) == MonthStart(mi) + MonthLength(mi)
  {
  }

  /** In the closed form too, the next month starts right after this one's last day. */
  lemma FirstOfMonthStep(mi: int)
    ensures FirstOfMonth((mi + 1) / 12, (mi + 1) % 12) == FirstOfMonth(mi / 12, mi % 12) + MonthLength(mi)
  {
    var y, m := mi / 12, mi % 12;
    if m == 11 {
      assert (mi + 1) / 12 == y + 1 && (mi + 1) % 12 == 0;
      DayFromYearStep(y);
      if InLeapYear(y) {
        assert DaysBeforeMonth(11, true) == 335;
      } else {
        assert DaysBeforeMonth(11, false) == 334;
      }
    } else {
      assert (mi + 1) / 12 == y && (mi + 1) % 12 == m + 1;
    }
  }

  /** Counting months from the epoch agrees with the closed form of the 1st of a month. */
  lemma {:induction false} MonthStartIsFirstOfMonth(mi: int)
    ensures MonthStart(mi) == FirstOfMonth(mi / 12, mi % 12)
    decreases if mi < EpochMonth then EpochMonth - mi else mi - EpochMonth
  {
    if mi > EpochMonth {
      MonthStartIsFirstOfMonth(mi - 1);
      FirstOfMonthStep(mi - 1);
    } else if mi < EpochMonth {
      MonthStartIsFirstOfMonth(mi + 1);
      FirstOfMonthStep(mi);
    } else {
      assert mi / 12 == 1970 && mi % 12 == 0;
    }
  }

  /** Later months start later, by at least 28 days. */
  lemma {:induction false} MonthStartMonotone(a: int, b: int)
    requires a <= b
    ensures MonthStart(a) <= MonthStart(b)
    ensures a < b ==> MonthStart(a) + 28 <= MonthStart(b)
    decreases b - a
  {
    if a < b {
      MonthStartMonotone(a, b - 1);
      MonthStartStep(b - 1);
    }
  }

  /** The month containing day, searching forwards from month mi. */
  function MonthSearchUp(day: int, mi: int): (r: int)
    requires MonthStart(mi) <= day
    ensures MonthStart(r) <= day < MonthStart(r + 1)
    decreases day - MonthStart(mi)
  {
    MonthStartStep(mi);
    if day < MonthStart(mi + 1) then mi else MonthSearchUp(day, mi + 1)
  }

  /** The month containing day, searching backwards from month mi. */
  function MonthSearchDown(day: int, mi: int): (r: int)
    requires day < MonthStart(mi + 1)
    ensures MonthStart(r) <= day < MonthStart(r + 1)
    decreases MonthStart(mi + 1) - day
  {
    MonthStartStep(mi);
    if MonthStart(mi) <= day then mi else MonthSearchDown(day, mi - 1)
  }

  /**
   * The month index of the month containing day: the year is
   * YearFromTime (the largest y with DayFromYear(y) <= day) and the month is MonthFromTime.
   */
  function MonthOf(day: int): (mi: int)
    ensures MonthStart(mi) <= day < MonthStart(mi + 1)
  {
    if 0 <= day then MonthSearchUp(day, EpochMonth) else MonthSearchDown(day, EpochMonth - 1)
  }

  /** Months do not overlap: a day lies in exactly one month. */
  lemma MonthOfUnique(day: int, mi: int)
    requires MonthStart(mi) <= day < MonthStart(mi + 1)
    ensures MonthOf(day) == mi
  {
    var r := MonthOf(day);
    if r < mi {
      MonthStartMonotone(r + 1, mi);
    } else if mi < r {
      MonthStartMonotone(mi + 1, r);
    }
  }

  lemma MonthOfMonthStart(mi: int)
    ensures MonthOf(MonthStart(mi)) == mi
  {
    MonthStartStep(mi);
    MonthOfUnique(MonthStart(mi), mi);
  }

  lemma MonthOfMonotone(d1: int, d2: int)
    requires d1 <= d2
    ensures MonthOf(d1) <= MonthOf(d2)
  {
    if MonthOf(d2) < MonthOf(d1) {
      MonthStartMonotone(MonthOf(d2) + 1, MonthOf(d1));
    }
  }

  /** getUTCFullYear(), getUTCMonth() and getUTCDate() of a day. */
  function DateOf(day: int): (c: CivilDate)
    ensures 0 <= c.month < 12
    ensures 1 <= c.date <= DaysInMonth(c.month, InLeapYear(c.year))
  {
    var mi := MonthOf(day);
    MonthStartStep(mi);
    CivilDate(mi / 12, mi % 12, day - MonthStart(mi) + 1)
  }

  /** Taking a day apart into a date and putting it back together gives the same day. */
  lemma MakeDayOfDateOf(day: int)
    ensures MakeDay(DateOf(day).year, DateOf(day).month, DateOf(day).date) == day
  {
    var mi := MonthOf(day);
    assert 12 * (mi / 12) + mi % 12 == mi;
  }

  /** A valid calendar date survives MakeDay followed by DateOf. */
  lemma DateOfMakeDay(y: int, m: int, d: int)
    requires 0 <= m < 12 && 1 <= d <= DaysInMonth(m, InLeapYear(y))
    ensures DateOf(MakeDay(y, m, d)) == CivilDate(y, m, d)
  {
    var mi := 12 * y + m;
    assert mi / 12 == y && mi % 12 == m;
    MonthStartStep(mi);
    MonthOfUnique(MakeDay(y, m, d), mi);
  }

  /** The first day of month mi is the 1st of that month. */
  lemma DateOfMonthStart(mi: int)
    ensures DateOf(MonthStart(mi)) == CivilDate(mi / 12, mi % 12, 1)
  {
    MonthOfMonthStart(mi);
  }

  /** Two days fall on the same calendar date exactly when they are the same day. */
  lemma DateOfInjective(d1: int, d2: int)
    ensures DateOf(d1) == DateOf(d2) <==> d1 == d2
  {
    if DateOf(d1) == DateOf(d2) {
      MakeDayOfDateOf(d1);
      MakeDayOfDateOf(d2);
    }
  }

  /** Same month index exactly when year and month both agree. */
  lemma SameMonthIndex(d1: int, d2: int)
    ensures MonthOf(d1) == MonthOf(d2) <==>
            DateOf(d1).year == DateOf(d2).year && DateOf(d1).month == DateOf(d2).month
  {
    var a, b := MonthOf(d1), MonthOf(d2);
    assert a == 12 * (a / 12) + a % 12 && b == 12 * (b / 12) + b % 12;
  }
}
