/** The laws of the planner: its passes are inverse to each other, slack is uniform, and plans are monotone. */
module PlanningLaws {
  import opened Basics
  import opened Gregorian
  import opened WorkingDays
  import opened Planning

  // ----- finish and startFromFinish undo each other -----

  /** The starts that survive finish followed by startFromFinish. */
  ghost predicate RecoverableStart(s: int, st: PlanStage, cal: PlanningCalendar) {
    IsMilestone(st) ||
    var v := EffectiveDuration(st).value;
    match st.durationType.value
    case Days => st.externalWaiting || v <= 1 || IsWorkingDay(s, cal)
    case Weeks => true
    case Months =>
      var m, date := MonthIndex(s), DateOf(s);
      if date == 1 then MonthLength(m - 1) <= MonthLength(m + v - 1) else date <= MonthLength(m + v)
  }

  /** The finishes that survive startFromFinish followed by finish. */
  ghost predicate RecoverableFinish(fin: int, st: PlanStage, cal: PlanningCalendar) {
    IsMilestone(st) ||
    var v := EffectiveDuration(st).value;
    var occ := fin - st.bufferDays.GetOr(0);
    match st.durationType.value
    case Days => st.externalWaiting || v <= 1 || IsWorkingDay(occ, cal)
    case Weeks => true
    case Months =>
      var m, date := MonthIndex(occ), DateOf(occ);
      date < MonthLength(m) <==> date < MonthLength(m - v)
  }

  lemma MonthsStartRoundTrip(s: int, v: int)
    ensures AddMonths(AddMonths(s, v) - 1, -v) + 1 == s <==>
            (if DateOf(s) == 1 then MonthLength(MonthIndex(s) - 1) <= MonthLength(MonthIndex(s) + v - 1)
             else DateOf(s) <= MonthLength(MonthIndex(s) + v))
  {
    hide DayFromYear, DaysBeforeMonth, IsLeapYear, YearOf, MonthOf, DateOf, MonthIndex, AddMonths, FirstOf;
    var m, date := MonthIndex(s), DateOf(s);
    DayInMonth(s);
    AddMonthsMeaning(s, v);
    MonthLengths(m + v);
    MonthLengths(m);
    MonthLengths(m - 1);
    MonthLengths(m + v - 1);
    var occ := AddMonths(s, v) - 1;
    if date == 1 {
      DayOfMonth(m + v - 1, MonthLength(m + v - 1));
      assert m + v - 1 + 1 == m + v;
    } else {
      DayOfMonth(m + v, Min(date, MonthLength(m + v)) - 1);
    }
    AddMonthsMeaning(occ, -v);
    assert m - 1 + 1 == m;
  }

  lemma MonthsFinishRoundTrip(occ: int, v: int)
    ensures AddMonths(AddMonths(occ, -v) + 1, v) - 1 == occ <==>
            (DateOf(occ) < MonthLength(MonthIndex(occ)) <==> DateOf(occ) < MonthLength(MonthIndex(occ) - v))
  {
    hide DayFromYear, DaysBeforeMonth, IsLeapYear, YearOf, MonthOf, DateOf, MonthIndex, AddMonths, FirstOf;
    var m, date := MonthIndex(occ), DateOf(occ);
    DayInMonth(occ);
    AddMonthsMeaning(occ, -v);
    MonthLengths(m - v);
    MonthLengths(m);
    MonthLengths(m - v + 1);
    MonthLengths(m + 1);
    var start := AddMonths(occ, -v) + 1;
    if date < MonthLength(m - v) {
      DayOfMonth(m - v, date + 1);
    } else {
      assert start == FirstOf(m - v + 1);
      DayOfMonth(m - v + 1, 1);
    }
    AddMonthsMeaning(start, v);
    assert m - v + 1 + v == m + 1;
  }

  /** startFromFinish recovers a start exactly when the start is recoverable. */
  lemma StartFromFinishInvertsFinish(s: int, st: PlanStage, cal: PlanningCalendar)
    requires Valid(cal)
    ensures StartFromFinish(Finish(s, st, cal), st, cal) == s <==> RecoverableStart(s, st, cal)
  {
    hide AddMonths, MonthIndex, DateOf, MonthLength, IsWorkingDay, Walk;
    if !IsMilestone(st) {
      var v := EffectiveDuration(st).value;
      match st.durationType.value
      case Weeks =>
      case Months => MonthsStartRoundTrip(s, v);
      case Days =>
        if !st.externalWaiting {
          if v > 1 {
            SubtractAfterAdd(s, v - 1, cal);
          } else {
            WalkNothing(s, v - 1, cal);
          }
        }
    }
  }

  /** finish recovers a finish date exactly when that finish is recoverable. */
  lemma FinishInvertsStartFromFinish(fin: int, st: PlanStage, cal: PlanningCalendar)
    requires Valid(cal)
    ensures Finish(StartFromFinish(fin, st, cal), st, cal) == fin <==> RecoverableFinish(fin, st, cal)
  {
    hide AddMonths, MonthIndex, DateOf, MonthLength, IsWorkingDay, Walk;
    if !IsMilestone(st) {
      var v := EffectiveDuration(st).value;
      var occ := fin - st.bufferDays.GetOr(0);
      match st.durationType.value
      case Weeks =>
      case Months => MonthsFinishRoundTrip(occ, v);
      case Days =>
        if !st.externalWaiting {
          if v > 1 {
            AddAfterSubtract(occ, v - 1, cal);
          } else {
            WalkNothing(occ, v - 1, cal);
          }
        }
    }
  }

  /** Days 2 to 28 of any month are recoverable starts of every MONTHS stage, leap years and clamping included. */
  lemma MidMonthStartsAreRecoverable(s: int, st: PlanStage, cal: PlanningCalendar)
    requires Valid(cal) && st.durationType == Some(Months)
    requires 2 <= DateOf(s) <= 28
    ensures StartFromFinish(Finish(s, st, cal), st, cal) == s
  {
    hide AddMonths, MonthIndex, DateOf, MonthLength, FirstOf, Walk, DaysBeforeMonth, DayFromYear, IsLeapYear;
    StartFromFinishInvertsFinish(s, st, cal);
    if !IsMilestone(st) {
      MonthLengths(MonthIndex(s) + EffectiveDuration(st).value);
    }
  }

  // ----- the reverse pass inverts the forward pass -----

  /** No stage has started, and every stage but the first waits for its predecessor. */
  predicate UnstartedChain(stages: seq<PlanStage>) {
    && (forall i :: 0 <= i < |stages| ==> stages[i].startedAt == None)
    && (forall i :: 0 < i < |stages| ==> stages[i].dependsOnPrevious)
  }

  ghost predicate SamePlan(f: seq<ForwardResult>, r: seq<ReverseResult>) {
    && |f| == |r|
    && forall i :: 0 <= i < |f| ==> f[i].plannedStart == r[i].latestStart && f[i].plannedFinish == r[i].latestFinish
  }

  /** Adding a working day after subtracting one returns to d exactly when d is a working day. */
  lemma NextAfterPrevious(d: int, cal: PlanningCalendar)
    requires Valid(cal)
    ensures AddWorkingDays(SubtractWorkingDays(d, 1, cal), 1, cal) == d <==> IsWorkingDay(d, cal)
  {
    AddAfterSubtract(d, 1, cal);
  }

  /** A latest date that the forward pass reproduces: the finish is recoverable and the start is a working day. */
  ghost predicate Reproducible(stages: seq<PlanStage>, r: seq<ReverseResult>, i: nat, cal: PlanningCalendar)
    requires i < |stages| == |r|
  {
    && RecoverableFinish(r[i].latestFinish, stages[i], cal)
    && (i > 0 ==> IsWorkingDay(r[i].latestStart, cal))
  }

  /**
   * The forward pass from the first latest start reproduces every latest start and finish
   * exactly when every latest date is reproducible; it then ends on the target.
   */
  lemma {:induction false} ForwardFromLatestStart(stages: seq<PlanStage>, target: int, cal: PlanningCalendar)
    requires Valid(cal) && stages != [] && UnstartedChain(stages)
    ensures var r := ReversePlan(stages, target, cal);
            var f := ForwardPlan(stages, r[0].latestStart * DAY_MS, cal);
            && (SamePlan(f, r) <==> forall i :: 0 <= i < |stages| ==> Reproducible(stages, r, i, cal))
            && (SamePlan(f, r) ==> f[|f| - 1].plannedFinish == target)
  {
    hide AddMonths, Walk, Finish, StartFromFinish, RecoverableFinish, IsWorkingDay, ForwardPlan, ReversePlan;
    var r := ReversePlan(stages, target, cal);
    var now := r[0].latestStart * DAY_MS;
    var f := ForwardPlan(stages, now, cal);
    if SamePlan(f, r) {
      forall i | 0 <= i < |stages| ensures Reproducible(stages, r, i, cal) {
        assert f[i].plannedFinish == Finish(f[i].plannedStart, stages[i], cal);
        FinishInvertsStartFromFinish(r[i].latestFinish, stages[i], cal);
        if i > 0 {
          assert r[i - 1].latestFinish == LatestFinish(stages, i - 1, r, target, cal);
          assert f[i].plannedStart == PlannedStart(stages, i, f, now, cal);
          NextAfterPrevious(r[i].latestStart, cal);
        }
      }
    }
    if forall i :: 0 <= i < |stages| ==> Reproducible(stages, r, i, cal) {
      ReproducesPrefix(stages, target, now, cal, |stages|);
    }
  }

  lemma {:induction false} ReproducesPrefix(
      stages: seq<PlanStage>, target: int, now: int, cal: PlanningCalendar, n: nat)
    requires Valid(cal) && stages != [] && UnstartedChain(stages) && n <= |stages|
    requires now == ReversePlan(stages, target, cal)[0].latestStart * DAY_MS
    requires forall i :: 0 <= i < |stages| ==> Reproducible(stages, ReversePlan(stages, target, cal), i, cal)
    ensures var r, f := ReversePlan(stages, target, cal), ForwardPlan(stages, now, cal);
            forall i :: 0 <= i < n ==> f[i].plannedStart == r[i].latestStart && f[i].plannedFinish == r[i].latestFinish
  {
    hide AddMonths, Walk, Finish, StartFromFinish, RecoverableFinish, IsWorkingDay, ForwardPlan, ReversePlan;
    if n > 0 {
      ReproducesPrefix(stages, target, now, cal, n - 1);
      var r, f := ReversePlan(stages, target, cal), ForwardPlan(stages, now, cal);
      var i := n - 1;
      assert Reproducible(stages, r, i, cal);
      assert f[i].plannedStart == PlannedStart(stages, i, f, now, cal);
      if i > 0 {
        assert r[i - 1].latestFinish == LatestFinish(stages, i - 1, r, target, cal);
        NextAfterPrevious(r[i].latestStart, cal);
      }
      FinishInvertsStartFromFinish(r[i].latestFinish, stages[i], cal);
      assert f[i].plannedFinish == Finish(f[i].plannedStart, stages[i], cal);
    }
  }

  // ----- uniform slack -----

  /** A chain of milestones and internal DAYS stages without buffers: every date it plans is a working day. */
  predicate InternalChain(stages: seq<PlanStage>) {
    && UnstartedChain(stages)
    && forall i :: 0 <= i < |stages| ==>
         && stages[i].bufferDays.GetOr(0) == 0
         && (IsMilestone(stages[i]) || (stages[i].durationType == Some(Days) && !stages[i].externalWaiting))
  }

  /** Working days a stage adds to its start. */
  function Span(s: PlanStage): int {
    if IsMilestone(s) then 0 else Max(0, EffectiveDuration(s).value - 1)
  }

  lemma SpanOfFinish(start: int, s: PlanStage, cal: PlanningCalendar)
    requires Valid(cal) && InternalChain([s]) && IsWorkingDay(start, cal)
    ensures var e := Finish(start, s, cal); IsWorkingDay(e, cal) && Rank(e, cal) == Rank(start, cal) + Span(s)
  {
    assert [s][0] == s;
    if Span(s) > 0 {
      WalkForward(start, Span(s), cal);
    }
  }

  lemma SpanOfStart(fin: int, s: PlanStage, cal: PlanningCalendar)
    requires Valid(cal) && InternalChain([s]) && IsWorkingDay(fin, cal)
    ensures var e := StartFromFinish(fin, s, cal); IsWorkingDay(e, cal) && Rank(e, cal) == Rank(fin, cal) - Span(s)
  {
    assert [s][0] == s;
    RankStep(fin, cal);
    if Span(s) > 0 {
      WalkBackward(fin, Span(s), cal);
    }
  }

  lemma PreviousRank(d: int, cal: PlanningCalendar)
    requires Valid(cal) && IsWorkingDay(d, cal)
    ensures var e := SubtractWorkingDays(d, 1, cal); IsWorkingDay(e, cal) && Rank(e, cal) == Rank(d, cal) - 1
  {
    RankStep(d, cal);
    WalkBackward(d, 1, cal);
  }

  /** Total span of the first n stages, with the working day between consecutive stages. */
  function Elapsed(stages: seq<PlanStage>, n: nat): int
    requires n < |stages|
  {
    Span(stages[n]) + if n == 0 then 0 else Elapsed(stages, n - 1) + 1
  }

  lemma {:induction false} ForwardRanks(stages: seq<PlanStage>, now: int, cal: PlanningCalendar, i: nat)
    requires Valid(cal) && InternalChain(stages) && i < |stages| && IsWorkingDay(DateOnly(now), cal)
    ensures var f := ForwardPlan(stages, now, cal)[i].plannedFinish;
            IsWorkingDay(f, cal) && Rank(f, cal) == Rank(DateOnly(now), cal) + Elapsed(stages, i)
  {
    var f := ForwardPlan(stages, now, cal);
    assert f[i].plannedStart == PlannedStart(stages, i, f, now, cal);
    assert f[i].plannedFinish == Finish(f[i].plannedStart, stages[i], cal);
    if i > 0 {
      ForwardRanks(stages, now, cal, i - 1);
      WalkForward(f[i - 1].plannedFinish, 1, cal);
    }
    SpanOfFinish(f[i].plannedStart, stages[i], cal);
  }

  lemma {:induction false} ReverseRanks(stages: seq<PlanStage>, target: int, cal: PlanningCalendar, i: nat)
    requires Valid(cal) && InternalChain(stages) && i < |stages| && IsWorkingDay(target, cal)
    ensures var f := ReversePlan(stages, target, cal)[i].latestFinish;
            IsWorkingDay(f, cal)
                && Rank(f, cal) == Rank(target, cal) - Elapsed(stages, |stages| - 1) + Elapsed(stages, i)
    decreases |stages| - i
  {
    var r := ReversePlan(stages, target, cal);
    assert r[i].latestFinish == LatestFinish(stages, i, r, target, cal);
    if i < |stages| - 1 {
      ReverseRanks(stages, target, cal, i + 1);
      assert r[i + 1].latestStart == StartFromFinish(r[i + 1].latestFinish, stages[i + 1], cal);
      SpanOfStart(r[i + 1].latestFinish, stages[i + 1], cal);
      PreviousRank(r[i + 1].latestStart, cal);
    }
  }

  /**
   * Every stage of an internal chain has the same slack k; the plan is feasible iff k >= 0,
   * and the deficit is the shortfall max(0, -k).
   */
  lemma UniformSlack(stages: seq<PlanStage>, now: int, target: int, cal: PlanningCalendar) returns (k: int)
    requires Valid(cal) && InternalChain(stages) && stages != []
    requires IsWorkingDay(DateOnly(now), cal) && IsWorkingDay(target, cal)
    ensures var f, r := ForwardPlan(stages, now, cal), ReversePlan(stages, target, cal);
            && (forall i :: 0 <= i < |stages| ==> Slack(f[i], r[i], cal) == k)
            && ComputeFeasibility(Some(f[|f| - 1].plannedFinish), Some(target), cal)
                == Feasibility(Some(k >= 0), Some(Max(0, -k)))
    ensures k == Rank(target, cal) - Rank(DateOnly(now), cal) - Elapsed(stages, |stages| - 1)
  {
    hide ForwardPlan, ReversePlan, Finish, StartFromFinish, IsWorkingDay, WorkingDaysBetween, InternalChain;
    var f, r := ForwardPlan(stages, now, cal), ReversePlan(stages, target, cal);
    var last := |stages| - 1;
    k := Rank(target, cal) - Rank(DateOnly(now), cal) - Elapsed(stages, last);
    forall i | 0 <= i < |stages| ensures Slack(f[i], r[i], cal) == k {
      ForwardRanks(stages, now, cal, i);
      ReverseRanks(stages, target, cal, i);
      BetweenByRank(f[i].plannedFinish, r[i].latestFinish, cal);
    }
    ForwardRanks(stages, now, cal, last);
    BetweenByRank(target, f[last].plannedFinish, cal);
    RankInjective(target, f[last].plannedFinish, cal);
  }

  // ----- monotonicity -----

  /** s' asks for at least as much time as s: same kind of duration, longer duration, larger buffer. */
  ghost predicate AtLeastAsLong(s: PlanStage, s': PlanStage) {
    && s'.durationType == s.durationType
    && s'.externalWaiting == s.externalWaiting
    && s'.dependsOnPrevious == s.dependsOnPrevious
    && EffectiveDuration(s).GetOr(0) <= EffectiveDuration(s').GetOr(0)
    && s.bufferDays.GetOr(0) <= s'.bufferDays.GetOr(0)
    && (s.startedAt.Some? <==> s'.startedAt.Some?)
    && (s.startedAt.Some? ==> s.startedAt.value <= s'.startedAt.value)
  }

  /** A stage ends before its start only if its duration is negative. */
  lemma OccupiedEndSide(start: int, s: PlanStage, cal: PlanningCalendar)
    requires Valid(cal)
    ensures EffectiveDuration(s).GetOr(0) >= 0 ==> start <= OccupiedEnd(start, s, cal)
    ensures EffectiveDuration(s).GetOr(0) < 0 ==> OccupiedEnd(start, s, cal) <= start
  {
    hide AddMonths, Walk;
    if !IsMilestone(s) {
      var v := EffectiveDuration(s).value;
      match s.durationType.value
      case Weeks =>
      case Months =>
        if v > 0 {
          AddMonthsAdvances(start, v);
        } else {
          AddMonthsMonotone(start, v, start, 0);
          AddNoMonths(start);
        }
      case Days =>
        if v > 1 {
          WalkForward(start, v - 1, cal);
        } else {
          WalkNothing(start, v - 1, cal);
        }
    }
  }

  lemma FinishMonotone(
      start: int, s: PlanStage, cal: PlanningCalendar, start': int, s': PlanStage, cal': PlanningCalendar)
    requires Valid(cal) && Valid(cal') && Tighter(cal', cal)
    requires start <= start' && AtLeastAsLong(s, s')
    ensures Finish(start, s, cal) <= Finish(start', s', cal')
  {
    hide AddMonths, Walk, Tighter;
    OccupiedEndSide(start, s, cal);
    OccupiedEndSide(start', s', cal');
    if !IsMilestone(s) && !IsMilestone(s') {
      var v, v' := EffectiveDuration(s).value, EffectiveDuration(s').value;
      match s.durationType.value
      case Weeks =>
      case Months => AddMonthsMonotone(start, v, start', v');
      case Days => AddWorkingDaysMonotone(start, v - 1, cal, start', v' - 1, cal');
    }
  }

  /**
   * A later now, longer durations, larger buffers, later recorded starts or fewer working
   * days never make any stage's planned start or finish earlier.
   */
  lemma {:induction false} ForwardPlanMonotone(
      stages: seq<PlanStage>, now: int, cal: PlanningCalendar,
      stages': seq<PlanStage>, now': int, cal': PlanningCalendar, i: nat)
    requires Valid(cal) && Valid(cal') && Tighter(cal', cal)
    requires now <= now' && |stages| == |stages'| && i < |stages|
    requires forall j :: 0 <= j < |stages| ==> AtLeastAsLong(stages[j], stages'[j])
    ensures var f, f' := ForwardPlan(stages, now, cal)[i], ForwardPlan(stages', now', cal')[i];
            f.plannedStart <= f'.plannedStart && f.plannedFinish <= f'.plannedFinish
  {
    var f, f' := ForwardPlan(stages, now, cal), ForwardPlan(stages', now', cal');
    assert f[i].plannedStart == PlannedStart(stages, i, f, now, cal);
    assert f'[i].plannedStart == PlannedStart(stages', i, f', now', cal');
    assert AtLeastAsLong(stages[i], stages'[i]);
    if i > 0 {
      ForwardPlanMonotone(stages, now, cal, stages', now', cal', i - 1);
      AddWorkingDaysMonotone(f[i - 1].plannedFinish, 1, cal, f'[i - 1].plannedFinish, 1, cal');
    }
    FinishMonotone(f[i].plannedStart, stages[i], cal, f'[i].plannedStart, stages'[i], cal');
  }

  /** Adding holidays is one way to make a calendar tighter. */
  lemma ExtraHolidaysTighten(cal: PlanningCalendar, extra: set<int>)
    ensures Tighter(cal.(holidays := cal.holidays + extra), cal)
  {}

  /** Holidays added to a calendar never make any stage's planned start or finish earlier. */
  lemma AddedHolidaysNeverHelp(stages: seq<PlanStage>, now: int, cal: PlanningCalendar, extra: set<int>, i: nat)
    requires Valid(cal) && i < |stages|
    ensures var f := ForwardPlan(stages, now, cal)[i];
            var f' := ForwardPlan(stages, now, cal.(holidays := cal.holidays + extra))[i];
            f.plannedStart <= f'.plannedStart && f.plannedFinish <= f'.plannedFinish
  {
    hide ForwardPlan, Tighter;
    ExtraHolidaysTighten(cal, extra);
    ForwardPlanMonotone(stages, now, cal, stages, now, cal.(holidays := cal.holidays + extra), i);
  }

  /** A started stage is planned from its recorded start, whatever precedes it. */
  lemma StartedStageIsAnchored(stages: seq<PlanStage>, now: int, cal: PlanningCalendar, i: nat)
    requires Valid(cal) && i < |stages| && stages[i].startedAt.Some?
    ensures ForwardPlan(stages, now, cal)[i].plannedFinish ==
            Finish(DateOnly(stages[i].startedAt.value), stages[i], cal)
  {
    hide Finish, ForwardPlan;
    var f := ForwardPlan(stages, now, cal);
    assert f[i].plannedStart == PlannedStart(stages, i, f, now, cal);
  }

  // ----- feasibility and slack -----

  /**
   * Without a target or a plan nothing is said; a plan is feasible iff it ends by the target, and its
   * deficit is the number of working days after the target up to its end.
   */
  lemma FeasibilityMeans(finish: Option<int>, target: Option<int>, cal: PlanningCalendar)
    ensures finish == None || target == None ==> ComputeFeasibility(finish, target, cal) == Feasibility(None, None)
    ensures finish.Some? && target.Some? ==>
              var late := finish.value > target.value;
              ComputeFeasibility(finish, target, cal) ==
              Feasibility(Some(!late), Some(if late then |WorkingDaysIn(target.value + 1, finish.value, cal)| else 0))
  {}

  /** Slack counts the working days after the planned finish up to the latest, or, negated, those from it on. */
  lemma SlackMeans(f: ForwardResult, r: ReverseResult, cal: PlanningCalendar)
    ensures Slack(f, r, cal) ==
            if f.plannedFinish <= r.latestFinish then |WorkingDaysIn(f.plannedFinish + 1, r.latestFinish, cal)|
            else -|WorkingDaysIn(r.latestFinish, f.plannedFinish - 1, cal)|
  {}

  // ----- starts that are lost -----

  /** A two-day stage from Saturday 3 January 1970 ends on Monday, from which the planner starts it on Friday. */
  lemma SaturdayStartIsLost()
    ensures var stage := PlanStage(Some(2), Some(Days), false, None, true, None, None);
            && Finish(2, stage, DEFAULT_CALENDAR) == 4
            && StartFromFinish(4, stage, DEFAULT_CALENDAR) == 1
  {
    hide Walk, IsWorkingDay;
    AroundWeekend();
    assert WorkingDaysIn(3, 4, DEFAULT_CALENDAR) == {4};
    AddWorkingDaysMeaning(2, 1, 4, DEFAULT_CALENDAR);
    assert WorkingDaysIn(1, 3, DEFAULT_CALENDAR) == {1};
    SubtractWorkingDaysMeaning(4, 1, 1, DEFAULT_CALENDAR);
  }

  lemma AroundWeekend()
    ensures IsWorkingDay(1, DEFAULT_CALENDAR) && IsWorkingDay(4, DEFAULT_CALENDAR)
    ensures !IsWorkingDay(2, DEFAULT_CALENDAR) && !IsWorkingDay(3, DEFAULT_CALENDAR)
  {
    assert DEFAULT_CALENDAR.workingWeekdays[4] == WeekdayOf(1);
    assert DEFAULT_CALENDAR.workingWeekdays[0] == WeekdayOf(4);
  }

  const JANUARY := 12 * 2026

  /** A one-month stage from 31 January 2026 ends on 27 February, from which the planner starts it on 28 January. */
  lemma ClampedStartIsLost(cal: PlanningCalendar)
    requires Valid(cal)
    ensures var stage := PlanStage(Some(1), Some(Months), false, None, true, None, None);
            && Finish(FirstOf(JANUARY) + 30, stage, cal) == FirstOf(JANUARY + 1) + 26
            && StartFromFinish(FirstOf(JANUARY + 1) + 26, stage, cal) == FirstOf(JANUARY) + 27
  {
    hide FirstOf, MonthIndex, DateOf, AddMonths;
    WinterMonths();
    DayOfMonth(JANUARY, 31);
    AddMonthsMeaning(FirstOf(JANUARY) + 30, 1);
    DayOfMonth(JANUARY + 1, 27);
    AddMonthsMeaning(FirstOf(JANUARY + 1) + 26, -1);
  }

  lemma WinterMonths()
    ensures MonthLength(JANUARY) == 31 && MonthLength(JANUARY + 1) == 28
  {
    hide FirstOf, DayFromYear, MonthLength;
    MonthLengths(JANUARY);
    MonthLengths(JANUARY + 1);
  }
}
