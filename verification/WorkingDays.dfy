/**
 * Business-day arithmetic of src/services/case-planning.dates.ts.
 * A date is its day number; a holiday key is the day it names.
 */
module WorkingDays {
  import opened Basics
  import opened Gregorian

  datatype PlanningCalendar = PlanningCalendar(workingWeekdays: seq<int>, holidays: set<int>)

  const DEFAULT_CALENDAR := PlanningCalendar([1, 2, 3, 4, 5], {})

  /** What upsertCalendar stores: weekdays between Sunday (0) and Saturday (6). */
  predicate WeekdaysInRange(cal: PlanningCalendar) {
    forall w :: w in cal.workingWeekdays ==> 0 <= w <= 6
  }

  /** A calendar the service can have stored: upsertCalendar refuses an empty weekday list. */
  predicate Valid(cal: PlanningCalendar) {
    WeekdaysInRange(cal) && cal.workingWeekdays != []
  }

  predicate IsWorkingDay(d: int, cal: PlanningCalendar) {
    WeekdayOf(d) in cal.workingWeekdays && d !in cal.holidays
  }

  function AddCalendarDays(d: int, n: int): int {
    d + n
  }

  /** The direction of a walk. */
  type Direction = dir: int | dir == 1 || dir == -1 witness 1

  /** The day k calendar days from d. */
  function Move(d: int, dir: Direction, k: int): int {
    if dir == 1 then d + k else d - k
  }

  // ----- every direction reaches a working day -----

  /** Every weekday comes round within seven days. */
  lemma WeekdayAhead(d: int, dir: Direction, w: int, far: nat) returns (k: nat)
    requires 0 <= w <= 6
    ensures k >= far && WeekdayOf(Move(d, dir, k)) == w
  {
    k := far + if dir == 1 then (w - (d + far + 4)) % 7 else (d - far + 4 - w) % 7;
  }

  /** Holidays are finite and some weekday is a working one, so a walk never runs forever. */
  lemma SomeWorkingDay(d: int, dir: Direction, cal: PlanningCalendar)
    requires Valid(cal)
    ensures exists k: nat :: k > 0 && IsWorkingDay(Move(d, dir, k), cal)
  {
    var bound := FiniteSetBound(cal.holidays);
    var w := cal.workingWeekdays[0];
    assert w in cal.workingWeekdays;
    hide WeekdayOf;
    var k := WeekdayAhead(d, dir, w, bound + (if d < 0 then -d else d) + 1);
    assert IsWorkingDay(Move(d, dir, k), cal);
  }

  ghost function FirstFrom(d: int, dir: Direction, cal: PlanningCalendar, j: nat, k: nat): (first: nat)
    requires 0 < j <= k && IsWorkingDay(Move(d, dir, k), cal)
    requires forall i :: 0 < i < j ==> !IsWorkingDay(Move(d, dir, i), cal)
    ensures first > 0 && IsWorkingDay(Move(d, dir, first), cal)
    ensures forall i :: 0 < i < first ==> !IsWorkingDay(Move(d, dir, i), cal)
    decreases k - j
  {
    if IsWorkingDay(Move(d, dir, j), cal) then j else FirstFrom(d, dir, cal, j + 1, k)
  }

  /** Calendar days to the nearest working day strictly beyond d. */
  ghost function Gap(d: int, dir: Direction, cal: PlanningCalendar): (gap: nat)
    requires Valid(cal)
    ensures gap > 0 && IsWorkingDay(Move(d, dir, gap), cal)
    ensures forall i :: 0 < i < gap ==> !IsWorkingDay(Move(d, dir, i), cal)
  {
    SomeWorkingDay(d, dir, cal);
    var k: nat :| k > 0 && IsWorkingDay(Move(d, dir, k), cal);
    FirstFrom(d, dir, cal, 1, k)
  }

  lemma GapShrinks(d: int, dir: Direction, cal: PlanningCalendar)
    requires Valid(cal)
    requires !IsWorkingDay(Move(d, dir, 1), cal)
    ensures Gap(Move(d, dir, 1), dir, cal) == Gap(d, dir, cal) - 1
  {
    var e := Move(d, dir, 1);
    var a, b := Gap(d, dir, cal), Gap(e, dir, cal);
    assert forall i :: Move(e, dir, i) == Move(d, dir, i + 1);
    assert Move(e, dir, a - 1) == Move(d, dir, a);
    assert Move(d, dir, b + 1) == Move(e, dir, b);
  }

  // ----- the walk -----

  /** The nearest working day strictly beyond d. */
  function Next(d: int, dir: Direction, cal: PlanningCalendar): int
    requires Valid(cal)
    decreases Gap(d, dir, cal)
  {
    if IsWorkingDay(Move(d, dir, 1), cal) then Move(d, dir, 1)
    else
      GapShrinks(d, dir, cal);
      Next(Move(d, dir, 1), dir, cal)
  }

  lemma {:induction false} NextIsNearest(d: int, dir: Direction, cal: PlanningCalendar)
    requires Valid(cal)
    ensures var e := Next(d, dir, cal);
            && IsWorkingDay(e, cal)
            && (if dir == 1 then d < e else e < d)
            && forall x :: (if dir == 1 then d < x < e else e < x < d) ==> !IsWorkingDay(x, cal)
    decreases Gap(d, dir, cal)
  {
    if !IsWorkingDay(Move(d, dir, 1), cal) {
      GapShrinks(d, dir, cal);
      NextIsNearest(Move(d, dir, 1), dir, cal);
    }
  }

  /** The value of walk: n working days from d, or d itself when there is nothing to walk. */
  function Walk(d: int, n: int, dir: Direction, cal: PlanningCalendar): int
    requires Valid(cal)
    decreases n
  {
    if n <= 0 then d else Walk(Next(d, dir, cal), n - 1, dir, cal)
  }

  function AddWorkingDays(d: int, n: int, cal: PlanningCalendar): int
    requires Valid(cal)
  {
    Walk(d, n, 1, cal)
  }

  function SubtractWorkingDays(d: int, n: int, cal: PlanningCalendar): int
    requires Valid(cal)
  {
    Walk(d, n, -1, cal)
  }

  lemma WalkNothing(d: int, n: int, cal: PlanningCalendar)
    requires Valid(cal) && n <= 0
    ensures AddWorkingDays(d, n, cal) == d == SubtractWorkingDays(d, n, cal)
  {}

  /** The loop of walk, with the error it raises on an empty weekday list. */
  method WalkLoop(date: int, n: int, dir: Direction, cal: PlanningCalendar) returns (r: Result<int>)
    requires WeekdaysInRange(cal)
    ensures r == if n > 0 && cal.workingWeekdays == [] then Err(EmptyWeekdaysError)
                 else Ok(if cal.workingWeekdays == [] then date else Walk(date, n, dir, cal))
  {
    if n > 0 && |cal.workingWeekdays| == 0 {
      return Err(EmptyWeekdaysError);
    }
    var d, left := date, n;
    while left > 0
      invariant n > 0 ==> Valid(cal)
      invariant left <= n
      invariant left <= 0 ==> if cal.workingWeekdays == [] then d == date else Walk(date, n, dir, cal) == d
      invariant left > 0 ==> Walk(d, left, dir, cal) == Walk(date, n, dir, cal)
      decreases left, if n > 0 then Gap(d, dir, cal) else 0
    {
      ghost var before := d;
      d := AddCalendarDays(d, dir);
      if IsWorkingDay(d, cal) {
        left := left - 1;
      } else {
        GapShrinks(before, dir, cal);
      }
    }
    return Ok(d);
  }

  // ----- rank: working days numbered consecutively -----

  function Unit(d: int, cal: PlanningCalendar): int {
    if IsWorkingDay(d, cal) then 1 else 0
  }

  /** Working days in 1..d, counted negatively before day 1. */
  ghost function Rank(d: int, cal: PlanningCalendar): int
    decreases if d < 0 then -d else d
  {
    if d == 0 then 0
    else if d > 0 then Rank(d - 1, cal) + Unit(d, cal)
    else Rank(d + 1, cal) - Unit(d + 1, cal)
  }

  lemma RankStep(d: int, cal: PlanningCalendar)
    ensures Rank(d, cal) == Rank(d - 1, cal) + Unit(d, cal)
  {}

  lemma {:induction false} RankMonotone(a: int, b: int, cal: PlanningCalendar)
    requires a <= b
    ensures Rank(a, cal) <= Rank(b, cal)
    ensures Rank(a, cal) == Rank(b, cal) <==> forall x :: a < x <= b ==> !IsWorkingDay(x, cal)
    decreases b - a
  {
    if a < b {
      RankStep(b, cal);
      RankMonotone(a, b - 1, cal);
    }
  }

  /** Rank is strictly increasing on working days, so a working day is determined by its rank. */
  lemma RankInjective(a: int, b: int, cal: PlanningCalendar)
    requires IsWorkingDay(a, cal) && IsWorkingDay(b, cal)
    ensures a < b <==> Rank(a, cal) < Rank(b, cal)
    ensures a == b <==> Rank(a, cal) == Rank(b, cal)
  {
    if a < b {
      RankMonotone(a, b, cal);
    } else if b < a {
      RankMonotone(b, a, cal);
    }
  }

  lemma {:induction false} WalkForward(d: int, n: int, cal: PlanningCalendar)
    requires Valid(cal) && n > 0
    ensures var e := Walk(d, n, 1, cal); d < e && IsWorkingDay(e, cal) && Rank(e, cal) == Rank(d, cal) + n
    decreases n
  {
    var next := Next(d, 1, cal);
    NextIsNearest(d, 1, cal);
    RankStep(next, cal);
    RankMonotone(d, next - 1, cal);
    if n > 1 {
      WalkForward(next, n - 1, cal);
    }
  }

  lemma {:induction false} WalkBackward(d: int, n: int, cal: PlanningCalendar)
    requires Valid(cal) && n > 0
    ensures var e := Walk(d, n, -1, cal); e < d && IsWorkingDay(e, cal) && Rank(e, cal) == Rank(d - 1, cal) - n + 1
    decreases n
  {
    var next := Next(d, -1, cal);
    NextIsNearest(d, -1, cal);
    RankMonotone(next, d - 1, cal);
    RankStep(next, cal);
    if n > 1 {
      WalkBackward(next, n - 1, cal);
    }
  }

  // ----- what the operations mean -----

  function WorkingDaysIn(lo: int, hi: int, cal: PlanningCalendar): set<int> {
    set d | lo <= d <= hi && IsWorkingDay(d, cal)
  }

  lemma {:induction false} RankCounts(lo: int, hi: int, cal: PlanningCalendar)
    requires lo <= hi + 1
    ensures |WorkingDaysIn(lo, hi, cal)| == Rank(hi, cal) - Rank(lo - 1, cal)
    decreases hi - lo + 1
  {
    if lo <= hi {
      RankCounts(lo, hi - 1, cal);
      RankStep(hi, cal);
      assert WorkingDaysIn(lo, hi, cal) ==
             WorkingDaysIn(lo, hi - 1, cal) + if IsWorkingDay(hi, cal) then {hi} else {};
    }
  }

  /** addWorkingDays gives the one working day after d that closes a stretch of exactly n working days. */
  lemma AddWorkingDaysMeaning(d: int, n: int, e: int, cal: PlanningCalendar)
    requires Valid(cal) && n > 0
    ensures e == AddWorkingDays(d, n, cal) <==>
            d < e && IsWorkingDay(e, cal) && |WorkingDaysIn(d + 1, e, cal)| == n
  {
    var r := AddWorkingDays(d, n, cal);
    WalkForward(d, n, cal);
    RankCounts(d + 1, r, cal);
    if d < e && IsWorkingDay(e, cal) {
      RankCounts(d + 1, e, cal);
      RankInjective(e, r, cal);
    }
  }

  /** subtractWorkingDays gives the one working day before d that opens a stretch of exactly n working days. */
  lemma SubtractWorkingDaysMeaning(d: int, n: int, e: int, cal: PlanningCalendar)
    requires Valid(cal) && n > 0
    ensures e == SubtractWorkingDays(d, n, cal) <==>
            e < d && IsWorkingDay(e, cal) && |WorkingDaysIn(e, d - 1, cal)| == n
  {
    var r := SubtractWorkingDays(d, n, cal);
    WalkBackward(d, n, cal);
    RankCounts(r, d - 1, cal);
    RankStep(r, cal);
    if e < d && IsWorkingDay(e, cal) {
      RankCounts(e, d - 1, cal);
      RankStep(e, cal);
      RankInjective(e, r, cal);
    }
  }

  /** Adding n and then m working days is adding n + m. */
  lemma {:induction false} AddsCompose(d: int, n: int, m: int, cal: PlanningCalendar)
    requires Valid(cal) && n >= 0 && m >= 0
    ensures AddWorkingDays(AddWorkingDays(d, n, cal), m, cal) == AddWorkingDays(d, n + m, cal)
    decreases n
  {
    if n > 0 {
      AddsCompose(Next(d, 1, cal), n - 1, m, cal);
    }
  }

  /** Subtracting n working days after adding them lands on the last working day not after d. */
  lemma SubtractAfterAdd(d: int, n: int, cal: PlanningCalendar)
    requires Valid(cal) && n >= 1
    ensures var e := SubtractWorkingDays(AddWorkingDays(d, n, cal), n, cal);
            e <= d && IsWorkingDay(e, cal) && forall x :: e < x <= d ==> !IsWorkingDay(x, cal)
  {
    var a := AddWorkingDays(d, n, cal);
    WalkForward(d, n, cal);
    WalkBackward(a, n, cal);
    RankStep(a, cal);
    var e := SubtractWorkingDays(a, n, cal);
    if d < e {
      RankMonotone(d, e - 1, cal);
      RankStep(e, cal);
    } else {
      RankMonotone(e, d, cal);
    }
  }

  /** Adding n working days after subtracting them lands on the first working day not before d. */
  lemma AddAfterSubtract(d: int, n: int, cal: PlanningCalendar)
    requires Valid(cal) && n >= 1
    ensures var e := AddWorkingDays(SubtractWorkingDays(d, n, cal), n, cal);
            d <= e && IsWorkingDay(e, cal) && forall x :: d <= x < e ==> !IsWorkingDay(x, cal)
  {
    var s := SubtractWorkingDays(d, n, cal);
    WalkBackward(d, n, cal);
    WalkForward(s, n, cal);
    var e := AddWorkingDays(s, n, cal);
    RankStep(e, cal);
    if e < d {
      RankMonotone(e, d - 1, cal);
    } else {
      RankMonotone(d - 1, e - 1, cal);
    }
  }

  // ----- counting -----

  /** The signed count of workingDaysBetween: (from, to] forwards, [to, from) backwards. */
  function WorkingDaysBetween(from: int, to: int, cal: PlanningCalendar): int {
    if from <= to then |WorkingDaysIn(from + 1, to, cal)| else -|WorkingDaysIn(to, from - 1, cal)|
  }

  lemma BetweenByRank(from: int, to: int, cal: PlanningCalendar)
    ensures from <= to ==> WorkingDaysBetween(from, to, cal) == Rank(to, cal) - Rank(from, cal)
    ensures to < from ==> WorkingDaysBetween(from, to, cal) == Rank(to - 1, cal) - Rank(from - 1, cal)
    ensures IsWorkingDay(from, cal) == IsWorkingDay(to, cal) ==>
              WorkingDaysBetween(from, to, cal) == Rank(to, cal) - Rank(from, cal)
  {
    if from <= to {
      RankCounts(from + 1, to, cal);
    } else {
      RankCounts(to, from - 1, cal);
      RankStep(from, cal);
      RankStep(to, cal);
    }
  }

  method CountWorkingDaysBetween(from: int, to: int, cal: PlanningCalendar) returns (n: int)
    ensures n == WorkingDaysBetween(from, to, cal)
  {
    if from == to {
      return 0;
    }
    var dir: Direction := if to > from then 1 else -1;
    var count := 0;
    var d := AddCalendarDays(from, dir);
    BetweenByRank(from, to, cal);
    while true
      invariant if dir == 1 then from < d <= to else to <= d < from
      invariant count == if dir == 1 then Rank(d - 1, cal) - Rank(from, cal) else Rank(from - 1, cal) - Rank(d, cal)
      decreases if dir == 1 then to - d else d - to
    {
      RankStep(d, cal);
      if IsWorkingDay(d, cal) {
        count := count + 1;
      }
      if d == to {
        break;
      }
      d := AddCalendarDays(d, dir);
    }
    return dir * count;
  }

  /** workingDaysBetween undoes addWorkingDays. */
  lemma BetweenAfterAdd(d: int, n: int, cal: PlanningCalendar)
    requires Valid(cal) && n >= 0
    ensures WorkingDaysBetween(d, AddWorkingDays(d, n, cal), cal) == n
  {
    if n > 0 {
      WalkForward(d, n, cal);
    }
    BetweenByRank(d, AddWorkingDays(d, n, cal), cal);
  }

  /** The count is antisymmetric exactly when both ends are working days or neither is. */
  lemma BetweenAntisymmetric(a: int, b: int, cal: PlanningCalendar)
    ensures WorkingDaysBetween(b, a, cal) == -WorkingDaysBetween(a, b, cal) <==>
            IsWorkingDay(a, cal) == IsWorkingDay(b, cal)
  {
    BetweenByRank(a, b, cal);
    BetweenByRank(b, a, cal);
    RankStep(a, cal);
    RankStep(b, cal);
  }

  // ----- monotonicity -----

  /** Calendar `tight` has no working day that `loose` lacks: it has extra holidays or fewer weekdays. */
  ghost predicate Tighter(tight: PlanningCalendar, loose: PlanningCalendar) {
    forall d :: IsWorkingDay(d, tight) ==> IsWorkingDay(d, loose)
  }

  lemma {:induction false} TighterRank(a: int, b: int, tight: PlanningCalendar, loose: PlanningCalendar)
    requires Tighter(tight, loose) && a <= b
    ensures Rank(b, tight) - Rank(a, tight) <= Rank(b, loose) - Rank(a, loose)
    decreases b - a
  {
    if a < b {
      RankStep(b, tight);
      RankStep(b, loose);
      TighterRank(a, b - 1, tight, loose);
    }
  }

  /** A later start, more days or fewer working days never make the sum earlier. */
  lemma AddWorkingDaysMonotone(d: int, n: int, cal: PlanningCalendar, d': int, n': int, cal': PlanningCalendar)
    requires Valid(cal) && Valid(cal') && Tighter(cal', cal)
    requires d <= d' && n <= n'
    ensures AddWorkingDays(d, n, cal) <= AddWorkingDays(d', n', cal')
  {
    var e, e' := AddWorkingDays(d, n, cal), AddWorkingDays(d', n', cal');
    if n' > 0 {
      WalkForward(d', n', cal');
    }
    if n > 0 {
      WalkForward(d, n, cal);
      if e' < e {
        TighterRank(d', e', cal', cal);
        RankMonotone(d, d', cal);
        RankMonotone(e', e - 1, cal);
        RankStep(e, cal);
      }
    }
  }

  // ----- the calendar service -----

  predicate StrictlyAscending(ws: seq<int>) {
    forall i, j :: 0 <= i < j < |ws| ==> ws[i] < ws[j]
  }

  /** Insert w into a strictly increasing list, dropping a duplicate. */
  function InsertWeekday(w: int, sorted: seq<int>): (r: seq<int>)
    requires StrictlyAscending(sorted)
    ensures forall x :: x in r <==> x == w || x in sorted
    ensures StrictlyAscending(r)
  {
    if sorted == [] || w < sorted[0] then [w] + sorted
    else if w == sorted[0] then sorted
    else
      assert sorted == [sorted[0]] + sorted[1..];
      var rest := InsertWeekday(w, sorted[1..]);
      assert forall k :: 0 <= k < |rest| ==> rest[k] in rest;
      [sorted[0]] + rest
  }

  function SortedUnique(ws: seq<int>): (r: seq<int>)
    ensures forall x :: x in r <==> x in ws
    ensures StrictlyAscending(r)
  {
    if ws == [] then [] else
      assert ws == [ws[0]] + ws[1..];
      InsertWeekday(ws[0], SortedUnique(ws[1..]))
  }

  /** upsertCalendar's weekday list: refused unless it is a non-empty list of 0..6. */
  function UpsertWeekdays(ws: seq<int>): (r: Result<seq<int>>)
    ensures r.Ok? <==> ws != [] && forall w :: w in ws ==> 0 <= w <= 6
    ensures r.Ok? ==> StrictlyAscending(r.value)
    ensures r.Ok? ==> forall holidays :: Valid(PlanningCalendar(r.value, holidays))
    ensures r.Ok? ==> forall holidays, d ::
              IsWorkingDay(d, PlanningCalendar(r.value, holidays)) <==> IsWorkingDay(d, PlanningCalendar(ws, holidays))
  {
    if ws == [] || exists w :: w in ws && !(0 <= w <= 6) then Err(ValidationError)
    else
      assert ws[0] in SortedUnique(ws);
      Ok(SortedUnique(ws))
  }
}
