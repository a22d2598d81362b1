/**
 * The planning engine of src/services/case-planning.service.ts: forward pass, reverse pass
 * and feasibility over an ordered list of stages. Dates are day numbers, timestamps are
 * milliseconds.
 */
module Planning {
  import opened Basics
  import opened Gregorian
  import opened WorkingDays

  datatype DurationType = Days | Weeks | Months

  /** The columns of a stage that the planner reads. */
  datatype PlanStage = PlanStage(
    durationValue: Option<int>,
    durationType: Option<DurationType>,
    externalWaiting: bool,
    bufferDays: Option<int>,
    dependsOnPrevious: bool,
    remainingDurationOverride: Option<int>,
    startedAt: Option<int>)

  datatype ForwardResult = ForwardResult(plannedStart: int, plannedFinish: int)
  datatype ReverseResult = ReverseResult(latestStart: int, latestFinish: int)
  datatype Feasibility = Feasibility(feasible: Option<bool>, deficitDays: Option<int>)

  function EffectiveDuration(s: PlanStage): Option<int> {
    if s.remainingDurationOverride.Some? then s.remainingDurationOverride else s.durationValue
  }

  /** A stage without a duration, with duration 0 or without a duration type. */
  predicate IsMilestone(s: PlanStage) {
    EffectiveDuration(s) == None || EffectiveDuration(s) == Some(0) || s.durationType == None
  }

  /** The last day a stage occupies, counting its start day. */
  function OccupiedEnd(start: int, s: PlanStage, cal: PlanningCalendar): int
    requires Valid(cal)
  {
    if IsMilestone(s) then start
    else
      var v := EffectiveDuration(s).value;
      match s.durationType.value
      case Days => if s.externalWaiting then AddCalendarDays(start, v - 1) else AddWorkingDays(start, v - 1, cal)
      case Weeks => AddCalendarDays(start, v * 7 - 1)
      case Months => AddCalendarDays(AddMonths(start, v), -1)
  }

  function Finish(start: int, s: PlanStage, cal: PlanningCalendar): int
    requires Valid(cal)
  {
    AddCalendarDays(OccupiedEnd(start, s, cal), s.bufferDays.GetOr(0))
  }

  function StartFromFinish(fin: int, s: PlanStage, cal: PlanningCalendar): int
    requires Valid(cal)
  {
    var occ := AddCalendarDays(fin, -s.bufferDays.GetOr(0));
    if IsMilestone(s) then occ
    else
      var v := EffectiveDuration(s).value;
      match s.durationType.value
      case Days => if s.externalWaiting then AddCalendarDays(occ, -(v - 1)) else SubtractWorkingDays(occ, v - 1, cal)
      case Weeks => AddCalendarDays(occ, -(v * 7 - 1))
      case Months => AddCalendarDays(AddMonths(occ, -v), 1)
  }

  // ----- forward pass -----

  /** The start of stage i, given the results of the stages before it. */
  function PlannedStart(stages: seq<PlanStage>, i: nat, out: seq<ForwardResult>, now: int, cal: PlanningCalendar): int
    requires Valid(cal) && i < |stages| && i <= |out|
  {
    if stages[i].startedAt.Some? then DateOnly(stages[i].startedAt.value)
    else if stages[i].dependsOnPrevious && i > 0 then AddWorkingDays(out[i - 1].plannedFinish, 1, cal)
    else DateOnly(now)
  }

  /** Every stage starts where its predecessor, its recorded start or `now` puts it, and then runs its course. */
  ghost predicate IsForwardPlan(stages: seq<PlanStage>, out: seq<ForwardResult>, now: int, cal: PlanningCalendar)
    requires Valid(cal)
  {
    && |out| == |stages|
    && forall i :: 0 <= i < |stages| ==>
         && out[i].plannedStart == PlannedStart(stages, i, out, now, cal)
         && out[i].plannedFinish == Finish(out[i].plannedStart, stages[i], cal)
  }

  function ForwardPlan(stages: seq<PlanStage>, now: int, cal: PlanningCalendar): (out: seq<ForwardResult>)
    requires Valid(cal)
    ensures IsForwardPlan(stages, out, now, cal)
  {
    if stages == [] then []
    else
      var i := |stages| - 1;
      var before := ForwardPlan(stages[..i], now, cal);
      assert forall j :: 0 <= j < i ==> stages[..i][j] == stages[j];
      var start := PlannedStart(stages, i, before, now, cal);
      before + [ForwardResult(start, Finish(start, stages[i], cal))]
  }

  /** The forward equations have one solution. */
  lemma {:induction false} ForwardPlanUnique(
      stages: seq<PlanStage>, out: seq<ForwardResult>, now: int, cal: PlanningCalendar)
    requires Valid(cal) && IsForwardPlan(stages, out, now, cal)
    ensures out == ForwardPlan(stages, now, cal)
  {
    var plan := ForwardPlan(stages, now, cal);
    for i := 0 to |stages|
      invariant forall j :: 0 <= j < i ==> out[j] == plan[j]
    {
    }
  }

  method ForwardPlanLoop(stages: seq<PlanStage>, now: int, cal: PlanningCalendar) returns (out: seq<ForwardResult>)
    requires Valid(cal)
    ensures out == ForwardPlan(stages, now, cal)
  {
    hide Finish, ForwardPlan, Walk;
    var today := DateOnly(now);
    out := [];
    for i := 0 to |stages|
      invariant |out| == i
      invariant forall j :: 0 <= j < i ==>
                  && out[j].plannedStart == PlannedStart(stages, j, out, now, cal)
                  && out[j].plannedFinish == Finish(out[j].plannedStart, stages[j], cal)
    {
      var s := stages[i];
      var plannedStart;
      if s.startedAt.Some? {
        plannedStart := DateOnly(s.startedAt.value);
      } else if s.dependsOnPrevious && i > 0 {
        plannedStart := AddWorkingDays(out[i - 1].plannedFinish, 1, cal);
      } else {
        plannedStart := today;
      }
      out := out + [ForwardResult(plannedStart, Finish(plannedStart, s, cal))];
    }
    ForwardPlanUnique(stages, out, now, cal);
  }

  // ----- reverse pass -----

  /** The latest finish of stage i, given the results of the stages after it. */
  function LatestFinish(
      stages: seq<PlanStage>, i: nat, out: seq<ReverseResult>, target: int, cal: PlanningCalendar): int
    requires Valid(cal) && i < |stages| == |out|
  {
    if i == |stages| - 1 then target else SubtractWorkingDays(out[i + 1].latestStart, 1, cal)
  }

  ghost predicate IsReversePlan(stages: seq<PlanStage>, out: seq<ReverseResult>, target: int, cal: PlanningCalendar)
    requires Valid(cal)
  {
    && |out| == |stages|
    && forall i :: 0 <= i < |stages| ==>
         && out[i].latestFinish == LatestFinish(stages, i, out, target, cal)
         && out[i].latestStart == StartFromFinish(out[i].latestFinish, stages[i], cal)
  }

  function ReversePlan(stages: seq<PlanStage>, target: int, cal: PlanningCalendar): (out: seq<ReverseResult>)
    requires Valid(cal)
    ensures IsReversePlan(stages, out, target, cal)
  {
    if stages == [] then []
    else
      var after := ReversePlan(stages[1..], target, cal);
      assert forall j :: 0 < j < |stages| ==> stages[1..][j - 1] == stages[j];
      var latestFinish := if |stages| == 1 then target else SubtractWorkingDays(after[0].latestStart, 1, cal);
      var out := [ReverseResult(StartFromFinish(latestFinish, stages[0], cal), latestFinish)] + after;
      assert forall j :: 0 < j < |stages| ==>
        LatestFinish(stages, j, out, target, cal) == LatestFinish(stages[1..], j - 1, after, target, cal);
      out
  }

  /** The reverse equations have one solution. */
  lemma {:induction false} ReversePlanUnique(
      stages: seq<PlanStage>, out: seq<ReverseResult>, target: int, cal: PlanningCalendar)
    requires Valid(cal) && IsReversePlan(stages, out, target, cal)
    ensures out == ReversePlan(stages, target, cal)
  {
    var plan := ReversePlan(stages, target, cal);
    for i := |stages| downto 0
      invariant forall j :: i <= j < |stages| ==> out[j] == plan[j]
    {
    }
  }

  method ReversePlanLoop(
      stages: seq<PlanStage>, target: int, cal: PlanningCalendar) returns (results: seq<ReverseResult>)
    requires Valid(cal)
    ensures results == ReversePlan(stages, target, cal)
  {
    var out := new ReverseResult[|stages|];
    for i := |stages| downto 0
      invariant forall j :: i <= j < |stages| ==>
                  && out[j].latestFinish == LatestFinish(stages, j, out[..], target, cal)
                  && out[j].latestStart == StartFromFinish(out[j].latestFinish, stages[j], cal)
    {
      var latestFinish := target;
      if i != |stages| - 1 {
        latestFinish := SubtractWorkingDays(out[i + 1].latestStart, 1, cal);
      }
      out[i] := ReverseResult(StartFromFinish(latestFinish, stages[i], cal), latestFinish);
    }
    ReversePlanUnique(stages, out[..], target, cal);
    return out[..];
  }

  // ----- feasibility -----

  function ComputeFeasibility(
      finalPlannedFinish: Option<int>, target: Option<int>, cal: PlanningCalendar): Feasibility {
    if target.None? || finalPlannedFinish.None? then Feasibility(None, None)
    else
      var feasible := finalPlannedFinish.value <= target.value;
      Feasibility(Some(feasible),
          Some(if feasible then 0 else WorkingDaysBetween(target.value, finalPlannedFinish.value, cal)))
  }

  /** Slack as recalcInTx reports it: working days from the planned to the latest finish. */
  function Slack(f: ForwardResult, r: ReverseResult, cal: PlanningCalendar): int {
    WorkingDaysBetween(f.plannedFinish, r.latestFinish, cal)
  }
}
