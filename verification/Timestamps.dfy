/** Date.prototype.toISOString (ECMA-262 section 21.4.4.36) and the day keys of src/services/case-planning.dates.ts. */
module Timestamps {
  import opened Gregorian
  import opened CanonicalJson

  function Pow10(w: nat): (p: int)
    ensures p > 0
  {
    if w == 0 then 1 else 10 * Pow10(w - 1)
  }

  /** n in decimal, padded to w digits. */
  function Digits(n: int, w: nat): (t: Text)
    requires 0 <= n
    ensures |t| == w
  {
    if w == 0 then [] else Digits(n / 10, w - 1) + [48 + n % 10]
  }

  lemma {:induction false} DigitsInjective(n: int, m: int, w: nat)
    requires 0 <= n < Pow10(w) && 0 <= m < Pow10(w)
    requires Digits(n, w) == Digits(m, w)
    ensures n == m
  {
    if w > 0 {
      var a, b := Digits(n / 10, w - 1), Digits(m / 10, w - 1);
      assert Digits(n, w)[..w - 1] == a && Digits(m, w)[..w - 1] == b;
      assert Digits(n, w)[w - 1] == 48 + n % 10 && Digits(m, w)[w - 1] == 48 + m % 10;
      DigitsInjective(n / 10, m / 10, w - 1);
    }
  }

  /** Years with four digits print plainly, other years with a sign and six digits. */
  function YearText(y: int): Text {
    if 0 <= y <= 9999 then Digits(y, 4)
    else if y > 9999 then [43] + Digits(y, 6)
    else [45] + Digits(-y, 6)
  }

  /** YYYY-MM-DD */
  function DateText(d: int): Text
    requires DateOf(d) >= 0
  {
    YearText(YearOf(d)) + [45] + Digits(MonthOf(d) + 1, 2) + [45] + Digits(DateOf(d), 2)
  }

  /** HH:mm:ss.sss of a time within a day, in milliseconds. */
  function TimeText(ms: int): (t: Text)
    requires 0 <= ms < DAY_MS
    ensures |t| == 12
  {
    Digits(ms / 3_600_000, 2) + [58] + Digits(ms / 60_000 % 60, 2) + [58] + Digits(ms / 1000 % 60, 2) + [46]
        + Digits(ms % 1000, 3)
  }

  function TimeOfDay(t: int): (ms: int)
    ensures 0 <= ms < DAY_MS && t == DateOnly(t) * DAY_MS + ms
  {
    t % DAY_MS
  }

  /** toISOString: date, T, time, Z. */
  function IsoString(t: int): Text {
    DayInMonth(DateOnly(t));
    DateText(DateOnly(t)) + [84] + TimeText(TimeOfDay(t)) + [90]
  }

  /** The years a JavaScript date can have. */
  predicate InDateRange(d: int) {
    -271_821 <= YearOf(d) <= 275_760
  }

  lemma YearTextInjective(y: int, z: int)
    requires -999_999 <= y <= 999_999 && -999_999 <= z <= 999_999
    requires YearText(y) == YearText(z)
    ensures y == z
  {
    assert Pow10(1) == 10 && Pow10(2) == 100 && Pow10(3) == 1000;
    assert Pow10(4) == 10_000 && Pow10(5) == 100_000;
    assert Pow10(6) == 1_000_000;
    assert |YearText(y)| == |YearText(z)|;
    if 0 <= y <= 9999 {
      DigitsInjective(y, z, 4);
    } else {
      assert YearText(y)[0] == YearText(z)[0];
      assert YearText(y)[1..] == YearText(z)[1..];
      if y > 9999 {
        assert YearText(y)[1..] == Digits(y, 6) && YearText(z)[1..] == Digits(z, 6);
        DigitsInjective(y, z, 6);
      } else {
        assert YearText(y)[1..] == Digits(-y, 6) && YearText(z)[1..] == Digits(-z, 6);
        DigitsInjective(-y, -z, 6);
      }
    }
  }

  lemma TwoDigits(n: int, m: int)
    requires 0 <= n < 100 && 0 <= m < 100 && Digits(n, 2) == Digits(m, 2)
    ensures n == m
  {
    assert Pow10(2) == 10 * Pow10(1) && Pow10(1) == 10;
    DigitsInjective(n, m, 2);
  }

  /** The date text splits into its three numbers. */
  lemma DateTextParts(d: int, e: int)
    requires DateOf(d) >= 0 && DateOf(e) >= 0
    requires DateText(d) == DateText(e)
    ensures YearText(YearOf(d)) == YearText(YearOf(e))
    ensures Digits(MonthOf(d) + 1, 2) == Digits(MonthOf(e) + 1, 2)
    ensures Digits(DateOf(d), 2) == Digits(DateOf(e), 2)
  {
    hide Digits, YearText, YearOf, MonthOf, DateOf;
    var n := |DateText(d)|;
    var y, z := YearText(YearOf(d)), YearText(YearOf(e));
    assert |y| == n - 6 == |z|;
    assert DateText(d)[..n - 6] == y && DateText(e)[..n - 6] == z;
    assert DateText(d)[n - 5..n - 3] == Digits(MonthOf(d) + 1, 2)
        && DateText(e)[n - 5..n - 3] == Digits(MonthOf(e) + 1, 2);
    assert DateText(d)[n - 2..] == Digits(DateOf(d), 2) && DateText(e)[n - 2..] == Digits(DateOf(e), 2);
  }

  /** Two days have the same date text only if they are the same day. */
  lemma DateTextInjective(d: int, e: int)
    requires InDateRange(d) && InDateRange(e)
    requires DateOf(d) >= 0 && DateOf(e) >= 0
    requires DateText(d) == DateText(e)
    ensures d == e
  {
    hide DateText, YearText, YearOf, MonthOf, DateOf, DayFromYear, DaysBeforeMonth, IsLeapYear, MonthIndex, FirstOf,
        Digits, MonthLength;
    DateTextParts(d, e);
    YearTextInjective(YearOf(d), YearOf(e));
    TwoDigits(MonthOf(d) + 1, MonthOf(e) + 1);
    DayInMonth(d);
    DayInMonth(e);
    MonthLengths(MonthIndex(d));
    MonthLengths(MonthIndex(e));
    TwoDigits(DateOf(d), DateOf(e));
    SameFieldsSameDay(d, e);
  }

  lemma SameFieldsSameDay(d: int, e: int)
    requires YearOf(d) == YearOf(e) && MonthOf(d) == MonthOf(e) && DateOf(d) == DateOf(e)
    ensures d == e
  {}

  /** The time text splits into its four numbers. */
  lemma TimeTextParts(a: int, b: int)
    requires 0 <= a < DAY_MS && 0 <= b < DAY_MS && TimeText(a) == TimeText(b)
    ensures Digits(a / 3_600_000, 2) == Digits(b / 3_600_000, 2)
    ensures Digits(a / 60_000 % 60, 2) == Digits(b / 60_000 % 60, 2)
    ensures Digits(a / 1000 % 60, 2) == Digits(b / 1000 % 60, 2)
    ensures Digits(a % 1000, 3) == Digits(b % 1000, 3)
  {
    hide Digits;
    var s, t := TimeText(a), TimeText(b);
    assert s[..2] == Digits(a / 3_600_000, 2) && t[..2] == Digits(b / 3_600_000, 2);
    assert s[3..5] == Digits(a / 60_000 % 60, 2) && t[3..5] == Digits(b / 60_000 % 60, 2);
    assert s[6..8] == Digits(a / 1000 % 60, 2) && t[6..8] == Digits(b / 1000 % 60, 2);
    assert s[9..] == Digits(a % 1000, 3) && t[9..] == Digits(b % 1000, 3);
  }

  lemma MillisecondParts(a: int)
    requires 0 <= a < DAY_MS
    ensures a == 3_600_000 * (a / 3_600_000) + 60_000 * (a / 60_000 % 60) + 1000 * (a / 1000 % 60) + a % 1000
    ensures 0 <= a / 3_600_000 < 24
  {
    assert a / 1000 == 60 * (a / 60_000) + a / 1000 % 60;
    assert a / 60_000 == 60 * (a / 3_600_000) + a / 60_000 % 60;
  }

  lemma TimeTextInjective(a: int, b: int)
    requires 0 <= a < DAY_MS && 0 <= b < DAY_MS && TimeText(a) == TimeText(b)
    ensures a == b
  {
    hide Digits, TimeText;
    TimeTextParts(a, b);
    MillisecondParts(a);
    MillisecondParts(b);
    TwoDigits(a / 3_600_000, b / 3_600_000);
    TwoDigits(a / 60_000 % 60, b / 60_000 % 60);
    TwoDigits(a / 1000 % 60, b / 1000 % 60);
    assert Pow10(3) == 10 * Pow10(2) && Pow10(2) == 10 * Pow10(1) && Pow10(1) == 10;
    DigitsInjective(a % 1000, b % 1000, 3);
  }

  /** toISOString tells every two timestamps of the JavaScript date range apart. */
  lemma IsoStringInjective(t: int, u: int)
    requires InDateRange(DateOnly(t)) && InDateRange(DateOnly(u))
    requires IsoString(t) == IsoString(u)
    ensures t == u
  {
    hide DateText, TimeText, InDateRange;
    DayInMonth(DateOnly(t));
    DayInMonth(DateOnly(u));
    var s := IsoString(t);
    var n := |s| - 14;
    assert s[..n] == DateText(DateOnly(t)) && IsoString(u)[..n] == DateText(DateOnly(u));
    assert s[n + 1..n + 13] == TimeText(TimeOfDay(t)) && IsoString(u)[n + 1..n + 13] == TimeText(TimeOfDay(u));
    DateTextInjective(DateOnly(t), DateOnly(u));
    TimeTextInjective(TimeOfDay(t), TimeOfDay(u));
  }

  /** toKey: the first ten characters of the ISO string of a day's midnight. */
  function ToKey(d: int): Text {
    var iso := IsoString(d * DAY_MS);
    if |iso| < 10 then iso else iso[..10]
  }

  /** Holiday keys tell the days of years 0 to 9999 apart, so a set of keys is a set of days. */
  lemma ToKeyInjective(d: int, e: int)
    requires 0 <= YearOf(d) <= 9999 && 0 <= YearOf(e) <= 9999
    ensures ToKey(d) == ToKey(e) <==> d == e
  {
    hide YearOf, MonthOf, DateOf, TimeText, Digits;
    DayInMonth(d);
    DayInMonth(e);
    assert DateOnly(d * DAY_MS) == d && DateOnly(e * DAY_MS) == e;
    assert |DateText(d)| == 10 && |DateText(e)| == 10;
    assert ToKey(d) == DateText(d) && ToKey(e) == DateText(e);
    if DateText(d) == DateText(e) {
      DateTextInjective(d, e);
    }
  }
}
