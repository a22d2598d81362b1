/**
 * The completion forecast of src/services/case-forecast.service.ts, and its relation to the
 * planner, whose forward pass it repeats in its own words.
 */
module Forecast {
  import opened Basics
  import opened Gregorian
  import opened WorkingDays
  import opened Planning
  import opened Stages

  datatype Confidence = Insufficient | Low | Moderate | High

  datatype Summary = Summary(sampleCount: nat, medianDays: real)

  datatype Estimate = Estimate(days: real, confidence: Confidence)

  /** A stage row with the two performance summaries read for its key: this case type's and the tenant's. */
  datatype ForecastRow = ForecastRow(
    key: string,
    status: StageStatus,
    plan: PlanStage,
    completedAt: Option<int>,
    primary: Summary,
    wide: Summary)

  /** One stage of the response. */
  datatype ForecastStage = ForecastStage(stageKey: string, estimate: Estimate)

  function ConfidenceFor(sampleCount: nat): Confidence {
    if sampleCount < 5 then Insufficient
    else if sampleCount < 10 then Low
    else if sampleCount < 25 then Moderate
    else High
  }

  function ToDays(value: Option<int>, t: Option<DurationType>): int {
    if value == None then 0
    else match t
      case Some(Weeks) => value.value * 7
      case Some(Months) => value.value * 30
      case Some(Days) => value.value
      case None => 0
  }

  function EstimateForStage(row: ForecastRow): Estimate {
    if row.plan.remainingDurationOverride.Some? then
      Estimate(ToDays(row.plan.remainingDurationOverride, row.plan.durationType) as real, Insufficient)
    else if row.primary.sampleCount >= 5 then Estimate(row.primary.medianDays, ConfidenceFor(row.primary.sampleCount))
    else if row.wide.sampleCount >= 5 then Estimate(row.wide.medianDays, ConfidenceFor(row.wide.sampleCount))
    else Estimate(ToDays(row.plan.durationValue, row.plan.durationType) as real, Insufficient)
  }

  /** Math.round: half goes up. */
  function Round(x: real): int {
    (x + 0.5).Floor
  }

  function ChainFinish(start: int, days: int, statistical: bool, plan: PlanStage, cal: PlanningCalendar): int
    requires Valid(cal)
  {
    var working := !statistical && plan.durationType == Some(Days) && !plan.externalWaiting;
    var occ := if days <= 0 then start
               else if working then AddWorkingDays(start, days - 1, cal)
               else AddCalendarDays(start, days - 1);
    AddCalendarDays(occ, plan.bufferDays.GetOr(0))
  }

  /** The two dates the chain carries from stage to stage. */
  datatype Chain = Chain(prevFinish: Option<int>, lastActual: Option<int>)

  function ChainStep(row: ForecastRow, i: nat, c: Chain, now: int, cal: PlanningCalendar): Chain
    requires Valid(cal)
  {
    var anchor := DateOnly(now);
    if row.status == Completed && row.completedAt.Some? then
      var finish := DateOnly(row.completedAt.value);
      Chain(Some(finish), Some(finish))
    else if Terminal(row.status) then
      Chain(Some(c.prevFinish.GetOr(c.lastActual.GetOr(anchor))), c.lastActual)
    else
      var est := EstimateForStage(row);
      var start := if row.plan.dependsOnPrevious && i > 0 && c.prevFinish.Some?
                   then AddWorkingDays(c.prevFinish.value, 1, cal)
                   else c.lastActual.GetOr(anchor);
      Chain(Some(ChainFinish(start, Round(est.days), est.confidence != Insufficient, row.plan, cal)), c.lastActual)
  }

  /** The chain after the first n stages. */
  function ChainAfter(rows: seq<ForecastRow>, n: nat, now: int, cal: PlanningCalendar): Chain
    requires Valid(cal) && n <= |rows|
  {
    if n == 0 then Chain(None, None)
    else ChainStep(rows[n - 1], n - 1, ChainAfter(rows, n - 1, now, cal), now, cal)
  }

  /** The estimates of the incomplete stages, in sequence order. */
  function Estimates(rows: seq<ForecastRow>): seq<ForecastStage> {
    if rows == [] then []
    else
      var last := rows[|rows| - 1];
      Estimates(rows[..|rows| - 1]) + if Terminal(last.status) then []
          else [ForecastStage(last.key, EstimateForStage(last))]
  }

  method ForecastCase(rows: seq<ForecastRow>, now: int, cal: PlanningCalendar)
    returns (projectedCompletion: Option<int>, stages: seq<ForecastStage>)
    requires Valid(cal)
    ensures projectedCompletion == ChainAfter(rows, |rows|, now, cal).prevFinish
    ensures projectedCompletion == None <==> rows == []
    ensures stages == Estimates(rows)
  {
    stages := [];
    var estimates: map<nat, Estimate> := map[];
    for i := 0 to |rows|
      invariant stages == Estimates(rows[..i])
      invariant forall j :: 0 <= j < i && !Terminal(rows[j].status) ==>
          j in estimates && estimates[j] == EstimateForStage(rows[j])
    {
      assert rows[..i + 1][..i] == rows[..i];
      if !Terminal(rows[i].status) {
        var est := EstimateForStage(rows[i]);
        estimates := estimates[i := est];
        stages := stages + [ForecastStage(rows[i].key, est)];
      }
    }
    assert rows[..|rows|] == rows;

    var anchorNow := DateOnly(now);
    var prevFinish: Option<int>, lastActual: Option<int> := None, None;
    for i := 0 to |rows|
      invariant Chain(prevFinish, lastActual) == ChainAfter(rows, i, now, cal)
      invariant prevFinish == None <==> i == 0
    {
      var s := rows[i];
      var thisFinish;
      if s.status == Completed && s.completedAt.Some? {
        thisFinish := DateOnly(s.completedAt.value);
        lastActual := Some(thisFinish);
      } else if Terminal(s.status) {
        thisFinish := prevFinish.GetOr(lastActual.GetOr(anchorNow));
      } else {
        var est := estimates[i];
        var start := lastActual.GetOr(anchorNow);
        if s.plan.dependsOnPrevious && i > 0 && prevFinish.Some? {
          start := AddWorkingDays(prevFinish.value, 1, cal);
        }
        thisFinish := ChainFinish(start, Round(est.days), est.confidence != Insufficient, s.plan, cal);
      }
      prevFinish := Some(thisFinish);
    }
    return prevFinish, stages;
  }

  // ----- the forecast refines the planner -----

  /** A stage forecast from its configured or overridden duration, not from history. */
  predicate Configured(row: ForecastRow) {
    && !Terminal(row.status)
    && row.plan.startedAt == None
    && (row.plan.remainingDurationOverride.Some? || (row.primary.sampleCount < 5 && row.wide.sampleCount < 5))
  }

  /** The lengths of v months from `month` on, added up. */
  function DaysOfMonths(month: int, v: nat): int {
    if v == 0 then 0 else DaysOfMonths(month, v - 1) + MonthLength(month + v - 1)
  }

  /** v months from a start span these months' days, less what clamping to a shorter month cuts off. */
  function DaysSpanned(start: int, v: nat): int {
    var m := MonthIndex(start);
    DaysOfMonths(m, v) - Max(0, DateOf(start) - MonthLength(m + v))
  }

  /**
   * The starts from which the two forms agree on a stage: the forecast counts a month as 30 days and a
   * negative duration as no time.
   */
  predicate SpansAgree(start: int, s: PlanStage) {
    IsMilestone(s) ||
    var v := EffectiveDuration(s).value;
    match s.durationType.value
    case Days => v > 0 || !s.externalWaiting
    case Weeks => v > 0
    case Months => v > 0 && DaysSpanned(start, v) == 30 * v
  }

  lemma {:induction false} DaysOfMonthsElapse(month: int, v: nat)
    ensures FirstOf(month + v) == FirstOf(month) + DaysOfMonths(month, v)
  {
    hide FirstOf;
    if v > 0 {
      DaysOfMonthsElapse(month, v - 1);
      assert month + v - 1 + 1 == month + v;
    }
  }

  lemma AddMonthsSpans(start: int, v: nat)
    ensures AddMonths(start, v) == start + DaysSpanned(start, v)
  {
    hide FirstOf, MonthLength, AddMonths, MonthIndex, DateOf, DaysOfMonths;
    DayInMonth(start);
    AddMonthsMeaning(start, v);
    DaysOfMonthsElapse(MonthIndex(start), v);
  }

  lemma RoundOfInteger(n: int)
    ensures Round(n as real) == n
  {}

  lemma ChainFinishIsFinish(start: int, row: ForecastRow, cal: PlanningCalendar)
    requires Valid(cal) && Configured(row)
    ensures var est := EstimateForStage(row);
            ChainFinish(start, Round(est.days), est.confidence != Insufficient, row.plan, cal)
                == Finish(start, row.plan, cal)
            <==> SpansAgree(start, row.plan)
  {
    hide AddMonths, Walk, DaysSpanned;
    var v := EffectiveDuration(row.plan).GetOr(0);
    if v > 0 {
      AddMonthsSpans(start, v);
    } else if v < 0 {
      AddMonthsMonotone(start, v, start, 0);
      AddNoMonths(start);
      WalkNothing(start, v - 1, cal);
    }
    var days := ToDays(EffectiveDuration(row.plan), row.plan.durationType);
    RoundOfInteger(days);
  }

  function Plans(rows: seq<ForecastRow>): seq<PlanStage> {
    seq(|rows|, i requires 0 <= i < |rows| => rows[i].plan)
  }

  ghost predicate AgreesUpTo(rows: seq<ForecastRow>, n: nat, now: int, cal: PlanningCalendar)
    requires Valid(cal) && n <= |rows|
  {
    forall i :: 0 <= i < n ==>
      ChainAfter(rows, i + 1, now, cal).prevFinish == Some(ForwardPlan(Plans(rows), now, cal)[i].plannedFinish)
  }

  lemma StageAgrees(rows: seq<ForecastRow>, i: nat, now: int, cal: PlanningCalendar)
    requires Valid(cal) && i < |rows|
    requires Configured(rows[i])
    requires AgreesUpTo(rows, i, now, cal) && ChainAfter(rows, i, now, cal).lastActual == None
    ensures var f := ForwardPlan(Plans(rows), now, cal);
            ChainAfter(rows, i + 1, now, cal).prevFinish == Some(f[i].plannedFinish) <==>
            SpansAgree(f[i].plannedStart, rows[i].plan)
  {
    hide AddMonths, Walk, Finish, ChainFinish, EstimateForStage, SpansAgree;
    var stages := Plans(rows);
    var f := ForwardPlan(stages, now, cal);
    assert f[i].plannedStart == PlannedStart(stages, i, f, now, cal);
    assert f[i].plannedFinish == Finish(f[i].plannedStart, stages[i], cal);
    if i > 0 {
      assert ChainAfter(rows, i - 1 + 1, now, cal).prevFinish == Some(f[i - 1].plannedFinish);
    }
    ChainFinishIsFinish(f[i].plannedStart, rows[i], cal);
  }

  /**
   * For configured stages the forecast's chained finishes are the planner's planned finishes
   * exactly when every MONTHS stage spans 30 days a month from its planned start, and no stage but
   * internal DAYS has a negative duration.
   */
  lemma {:induction false} ForecastRefinesPlanner(rows: seq<ForecastRow>, n: nat, now: int, cal: PlanningCalendar)
    requires Valid(cal) && n <= |rows|
    requires forall i :: 0 <= i < |rows| ==> Configured(rows[i])
    ensures AgreesUpTo(rows, n, now, cal) <==>
            forall i :: 0 <= i < n ==> SpansAgree(ForwardPlan(Plans(rows), now, cal)[i].plannedStart, rows[i].plan)
    ensures ChainAfter(rows, n, now, cal).lastActual == None
  {
    hide AddMonths, Walk, ChainFinish, EstimateForStage, SpansAgree, ForwardPlan;
    if n > 0 {
      var i := n - 1;
      ForecastRefinesPlanner(rows, i, now, cal);
      if AgreesUpTo(rows, i, now, cal) {
        StageAgrees(rows, i, now, cal);
      }
    }
  }

  /** Without MONTHS stages and negative durations the forecast and the planner agree on every finish. */
  lemma ForecastEqualsPlan(rows: seq<ForecastRow>, now: int, cal: PlanningCalendar)
    requires Valid(cal)
    requires forall i :: 0 <= i < |rows| ==>
               && Configured(rows[i])
               && rows[i].plan.durationType != Some(Months)
               && EffectiveDuration(rows[i].plan).GetOr(0) >= 0
    ensures AgreesUpTo(rows, |rows|, now, cal)
  {
    hide ForwardPlan, AgreesUpTo, DaysSpanned, Configured, ChainAfter;
    forall i, start | 0 <= i < |rows| ensures SpansAgree(start, rows[i].plan) {}
    hide SpansAgree, EffectiveDuration;
    ForecastRefinesPlanner(rows, |rows|, now, cal);
  }

  /** A case of one one-month stage, read on 1 March 2026. */
  const MARCH_CASE :=
    [ForecastRow("review", Ready, PlanStage(Some(1), Some(Months), false, None, true, None, None), None,
                 Summary(0, 0.0), Summary(0, 0.0))]
  const MARCH_FIRST := MakeDay(2026, 2, 1)

  /** The plan ends on 31 March and the forecast a day earlier. */
  lemma MonthsDisagree(cal: PlanningCalendar)
    requires Valid(cal)
    ensures ForwardPlan(Plans(MARCH_CASE), MARCH_FIRST * DAY_MS, cal)[0].plannedFinish == MARCH_FIRST + 30
    ensures ChainAfter(MARCH_CASE, 1, MARCH_FIRST * DAY_MS, cal).prevFinish == Some(MARCH_FIRST + 29)
  {
    hide DayFromYear, DaysBeforeMonth, IsLeapYear, YearOf, MonthOf, DateOf, MonthIndex, AddMonths, FirstOf, MakeDay;
    hide MonthLength, ForwardPlan;
    var plans := Plans(MARCH_CASE);
    var f := ForwardPlan(plans, MARCH_FIRST * DAY_MS, cal);
    assert f[0].plannedStart == PlannedStart(plans, 0, f, MARCH_FIRST * DAY_MS, cal) == MARCH_FIRST;
    OneMonthFromMarch();
    assert Round(30 as real) == 30;
    assert ChainAfter(MARCH_CASE, 0, MARCH_FIRST * DAY_MS, cal) == Chain(None, None);
  }

  lemma OneMonthFromMarch()
    ensures AddMonths(MARCH_FIRST, 1) == MARCH_FIRST + 31
  {
    hide DayFromYear, DaysBeforeMonth, IsLeapYear, YearOf, MonthOf, DateOf, MonthIndex, AddMonths, FirstOf, MakeDay;
    var march := 12 * 2026 + 2;
    MakeDayByMonth(2026, 2, 1);
    MonthLengths(march);
    MonthLengths(march + 1);
    DayOfMonth(march, 1);
    AddMonthsMeaning(MARCH_FIRST, 1);
    assert FirstOf(march + 1) == FirstOf(march) + MonthLength(march);
    MarchLength();
  }

  lemma MarchLength()
    ensures MonthLength(12 * 2026 + 2) == 31
  {
    hide FirstOf, MonthLength, IsLeapYear, DayFromYear;
    MonthLengths(12 * 2026 + 2);
  }
}
