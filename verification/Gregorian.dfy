/**
 * Date arithmetic on day numbers (days since 1970-01-01), with the year, month and
 * day-of-month of a UTC date as ECMA-262 section 21.4.1 defines them.
 */
module Gregorian {
  import opened Basics

  const DAY_MS := 86_400_000

  predicate IsLeapYear(y: int) {
    y % 4 == 0 && (y % 100 != 0 || y % 400 == 0)
  }

  /** Days before month m of a year (the month table of ECMA-262 21.4.1.11); m == 12 is the year's length. */
  function DaysBeforeMonth(m: int, leap: bool): (days: int)
    requires 0 <= m <= 12
  {
    var common := [0, 31, 59, 90, 120, 151, 181, 212, 243, 273, 304, 334, 365];
    common[m] + if leap && m >= 2 then 1 else 0
  }

  function DaysInYear(y: int): (days: int)
    ensures 365 <= days <= 366
  {
    if IsLeapYear(y) then 366 else 365
  }

  /** The day number of January 1st of year y. */
  function DayFromYear(y: int): int
    decreases if y < 1970 then 1970 - y else y - 1970
  {
    if y == 1970 then 0
    else if y > 1970 then DayFromYear(y - 1) + DaysInYear(y - 1)
    else DayFromYear(y + 1) - DaysInYear(y)
  }

  lemma YearLength(y: int)
    ensures DayFromYear(y + 1) == DayFromYear(y) + DaysInYear(y)
    ensures DaysInYear(y) == DaysBeforeMonth(12, IsLeapYear(y))
  {}

  /** DayFromYear as ECMA-262 21.4.1.3 writes it. */
  function DayFromYearFormula(y: int): int {
    365 * (y - 1970) + (y - 1969) / 4 - (y - 1901) / 100 + (y - 1601) / 400
  }

  lemma FormulaNext(y: int)
    ensures DayFromYearFormula(y + 1) == DayFromYearFormula(y) + DaysInYear(y)
  {
    hide IsLeapYear;
    FourthYears(y);
    HundredthYears(y);
    FourHundredthYears(y);
    LeapRule(y);
  }

  lemma FourthYears(y: int)
    ensures (y + 1 - 1969) / 4 - (y - 1969) / 4 == if y % 4 == 0 then 1 else 0
  {}

  lemma HundredthYears(y: int)
    ensures (y + 1 - 1901) / 100 - (y - 1901) / 100 == if y % 100 == 0 then 1 else 0
  {}

  lemma FourHundredthYears(y: int)
    ensures (y + 1 - 1601) / 400 - (y - 1601) / 400 == if y % 400 == 0 then 1 else 0
  {}

  /** Every fourth year, less the centuries, plus every fourth century. */
  lemma LeapRule(y: int)
    ensures (if y % 4 == 0 then 1 else 0) - (if y % 100 == 0 then 1 else 0) + (if y % 400 == 0 then 1 else 0)
            == if IsLeapYear(y) then 1 else 0
  {
    if y % 100 == 0 {
      CenturyIsFourthYear(y);
    }
    if y % 400 == 0 {
      FourthCenturyIsCentury(y);
    }
  }

  lemma CenturyIsFourthYear(y: int)
    requires y % 100 == 0
    ensures y % 4 == 0
  {
    var k := 25 * (y / 100);
    assert y == 4 * k;
  }

  lemma FourthCenturyIsCentury(y: int)
    requires y % 400 == 0
    ensures y % 100 == 0
  {
    var k := 4 * (y / 400);
    assert y == 100 * k;
  }

  /** Counting year lengths agrees with the closed form. */
  lemma {:induction false} DayFromYearIsFormula(y: int)
    ensures DayFromYear(y) == DayFromYearFormula(y)
    decreases if y < 1970 then 1970 - y else y - 1970
  {
    if y == 1970 {
      assert DayFromYearFormula(1970) == 0;
    } else {
      hide DayFromYearFormula;
      if y > 1970 {
        DayFromYearIsFormula(y - 1);
        FormulaNext(y - 1);
      } else {
        DayFromYearIsFormula(y + 1);
        FormulaNext(y);
      }
    }
  }

  /** The year containing day d, found by stepping one year at a time from y. */
  function YearFrom(d: int, y: int): (year: int)
    ensures DayFromYear(year) <= d < DayFromYear(year + 1)
    decreases if DayFromYear(y) <= d then d - DayFromYear(y) else DayFromYear(y) - d + 366
  {
    YearLength(y);
    YearLength(y - 1);
    if d < DayFromYear(y) then YearFrom(d, y - 1)
    else if DayFromYear(y + 1) <= d then YearFrom(d, y + 1)
    else y
  }

  /** getUTCFullYear */
  function YearOf(d: int): (year: int)
    ensures DayFromYear(year) <= d < DayFromYear(year + 1)
  {
    YearFrom(d, 1970)
  }

  /** getUTCMonth, 0 = January. */
  function MonthOf(d: int): (m: int)
    ensures 0 <= m < 12
    ensures var y := YearOf(d);
            DaysBeforeMonth(m, IsLeapYear(y)) <= d - DayFromYear(y) < DaysBeforeMonth(m + 1, IsLeapYear(y))
  {
    var y := YearOf(d);
    var leap := IsLeapYear(y);
    var n := d - DayFromYear(y);
    YearLength(y);
    if n < DaysBeforeMonth(1, leap) then 0
    else if n < DaysBeforeMonth(2, leap) then 1
    else if n < DaysBeforeMonth(3, leap) then 2
    else if n < DaysBeforeMonth(4, leap) then 3
    else if n < DaysBeforeMonth(5, leap) then 4
    else if n < DaysBeforeMonth(6, leap) then 5
    else if n < DaysBeforeMonth(7, leap) then 6
    else if n < DaysBeforeMonth(8, leap) then 7
    else if n < DaysBeforeMonth(9, leap) then 8
    else if n < DaysBeforeMonth(10, leap) then 9
    else if n < DaysBeforeMonth(11, leap) then 10
    else 11
  }

  /** getUTCDate */
  function DateOf(d: int): int {
    d - DayFromYear(YearOf(d)) - DaysBeforeMonth(MonthOf(d), IsLeapYear(YearOf(d))) + 1
  }

  /** getUTCDay: 0 = Sunday; day 0 was a Thursday. */
  function WeekdayOf(d: int): (w: int)
    ensures 0 <= w <= 6
  {
    (d + 4) % 7
  }

  /** ECMA-262 21.4.1.28, MakeDay: months outside 0..11 carry into the year. */
  function MakeDay(y: int, m: int, date: int): int {
    var ym := y + m / 12;
    DayFromYear(ym) + DaysBeforeMonth(m % 12, IsLeapYear(ym)) + date - 1
  }

  /** Date.UTC(y, m, date), as addMonths composes it. */
  function AddMonths(d: int, n: int): int {
    var y := YearOf(d);
    var m := MonthOf(d) + n;
    var lastDay := DateOf(MakeDay(y, m + 1, 0));
    MakeDay(y, m, Min(DateOf(d), lastDay))
  }

  /** 1 January 1970 is day 0, and was a Thursday; weekdays come round every seven days. */
  lemma Epoch(d: int)
    ensures FirstOf(12 * 1970) == 0 && WeekdayOf(0) == 4 && WeekdayOf(d + 1) == (WeekdayOf(d) + 1) % 7
  {
    hide DaysBeforeMonth, IsLeapYear;
    assert 12 * 1970 / 12 == 1970 && 12 * 1970 % 12 == 0;
    JanuaryFirst(IsLeapYear(1970));
  }

  lemma JanuaryFirst(leap: bool)
    ensures DaysBeforeMonth(0, leap) == 0
  {}

  /** dateOnly: the UTC day of a millisecond timestamp. */
  function DateOnly(t: int): (d: int)
    ensures d * DAY_MS <= t < (d + 1) * DAY_MS
  {
    t / DAY_MS
  }

  // ----- months numbered consecutively: month m of year y is month 12 * y + m -----

  /** The first day of the month with consecutive number `month`. */
  function FirstOf(month: int): int {
    DayFromYear(month / 12) + DaysBeforeMonth(month % 12, IsLeapYear(month / 12))
  }

  function MonthLength(month: int): int {
    FirstOf(month + 1) - FirstOf(month)
  }

  function MonthIndex(d: int): int {
    12 * YearOf(d) + MonthOf(d)
  }

  lemma MonthLengths(month: int)
    ensures 28 <= MonthLength(month) <= 31
    ensures MonthLength(month)
        == DaysBeforeMonth(month % 12 + 1, IsLeapYear(month / 12)) - DaysBeforeMonth(month % 12, IsLeapYear(month / 12))
  {
    YearLength(month / 12);
    if month % 12 == 11 {
      assert (month + 1) / 12 == month / 12 + 1 && (month + 1) % 12 == 0;
    } else {
      assert (month + 1) / 12 == month / 12 && (month + 1) % 12 == month % 12 + 1;
    }
  }

  /** Thirty days have April, June, September and November, February 28 or 29, and every other month 31. */
  lemma MonthLengthIs(y: int, m: int)
    requires 0 <= m < 12
    ensures MonthLength(12 * y + m) ==
            if m == 1 then (if y % 4 == 0 && (y % 100 != 0 || y % 400 == 0) then 29 else 28)
            else if m in {3, 5, 8, 10} then 30 else 31
  {
    hide FirstOf, MonthLength;
    assert (12 * y + m) / 12 == y && (12 * y + m) % 12 == m;
    MonthLengths(12 * y + m);
  }

  lemma {:induction false} FirstOfMonotone(a: int, b: int)
    requires a <= b
    ensures FirstOf(a) + 28 * (b - a) <= FirstOf(b)
    decreases b - a
  {
    if a < b {
      MonthLengths(b - 1);
      FirstOfMonotone(a, b - 1);
    }
  }

  /** MakeDay counts months consecutively, whatever year the month is expressed in. */
  lemma MakeDayByMonth(y: int, m: int, date: int)
    ensures MakeDay(y, m, date) == FirstOf(12 * y + m) + date - 1
  {
    assert (12 * y + m) / 12 == y + m / 12;
    assert (12 * y + m) % 12 == m % 12;
  }

  /** Every day is day DateOf(d) of month MonthIndex(d). */
  lemma DayInMonth(d: int)
    ensures d == FirstOf(MonthIndex(d)) + DateOf(d) - 1
    ensures 1 <= DateOf(d) <= MonthLength(MonthIndex(d))
  {
    var y, m := YearOf(d), MonthOf(d);
    assert MonthIndex(d) / 12 == y && MonthIndex(d) % 12 == m;
    MonthLengths(MonthIndex(d));
  }

  /** Year, month and day of month are unique: day k of a month has that month and that date. */
  lemma DayOfMonth(month: int, k: int)
    requires 1 <= k <= MonthLength(month)
    ensures MonthIndex(FirstOf(month) + k - 1) == month
    ensures DateOf(FirstOf(month) + k - 1) == k
  {
    hide DayFromYear, DaysBeforeMonth, IsLeapYear, YearOf, MonthOf, DateOf, FirstOf, MonthIndex;
    var d := FirstOf(month) + k - 1;
    DayInMonth(d);
    var found := MonthIndex(d);
    if found < month {
      FirstOfMonotone(found + 1, month);
    } else if month < found {
      FirstOfMonotone(month + 1, found);
    }
  }

  /** addMonths moves to the same day of the month n months on, clamped to that month's last day. */
  lemma AddMonthsMeaning(d: int, n: int)
    ensures AddMonths(d, n) == FirstOf(MonthIndex(d) + n) + Min(DateOf(d), MonthLength(MonthIndex(d) + n)) - 1
    ensures MonthIndex(AddMonths(d, n)) == MonthIndex(d) + n
    ensures DateOf(AddMonths(d, n)) == Min(DateOf(d), MonthLength(MonthIndex(d) + n))
  {
    hide DayFromYear, DaysBeforeMonth, IsLeapYear, YearOf, MonthOf, DateOf, FirstOf, MakeDay;
    var y, m := YearOf(d), MonthOf(d) + n;
    var target := MonthIndex(d) + n;
    DayInMonth(d);
    MonthLengths(target);
    MakeDayByMonth(y, m + 1, 0);
    DayOfMonth(target, MonthLength(target));
    MakeDayByMonth(y, m, Min(DateOf(d), MonthLength(target)));
    DayOfMonth(target, Min(DateOf(d), MonthLength(target)));
  }

  /** A later day, or more months, never gives an earlier result. */
  lemma AddMonthsMonotone(d: int, n: int, d': int, n': int)
    requires d <= d' && n <= n'
    ensures AddMonths(d, n) <= AddMonths(d', n')
  {
    hide DayFromYear, DaysBeforeMonth, IsLeapYear, YearOf, MonthOf, DateOf, FirstOf, MonthIndex, AddMonths;
    AddMonthsMeaning(d, n);
    AddMonthsMeaning(d', n');
    DayInMonth(d);
    DayInMonth(d');
    var a, b := MonthIndex(d), MonthIndex(d');
    if b < a {
      FirstOfMonotone(b + 1, a);
    }
    MonthLengths(b + n');
    if a + n < b + n' {
      FirstOfMonotone(a + n + 1, b + n');
    }
  }

  /** n >= 1 months on is at least 28 n days on. */
  lemma AddMonthsAdvances(d: int, n: int)
    requires n >= 1
    ensures AddMonths(d, n) > d
  {
    hide DayFromYear, DaysBeforeMonth, IsLeapYear, YearOf, MonthOf, DateOf, FirstOf, MonthIndex, AddMonths;
    AddMonthsMeaning(d, n);
    DayInMonth(d);
    MonthLengths(MonthIndex(d) + n);
    FirstOfMonotone(MonthIndex(d) + 1, MonthIndex(d) + n);
  }

  lemma AddNoMonths(d: int)
    ensures AddMonths(d, 0) == d
  {
    hide AddMonths, FirstOf, MonthIndex, DateOf, MonthLength;
    AddMonthsMeaning(d, 0);
    DayInMonth(d);
  }
}
