/**
 * The case timeline as values: what each action of src/services/case-timeline.service.ts and each
 * SLA sweep of src/workers/sla.worker.ts does to the stage rows, the timeline row and the event log.
 */
module TimelineModel {
  import opened Basics
  import opened Gregorian
  import opened WorkingDays
  import opened Planning
  import opened Stages
  import opened Sla

  datatype StageDates = StageDates(
    plannedStart: Option<int>, plannedFinish: Option<int>,
    latestStart: Option<int>, latestFinish: Option<int>,
    baselineStart: Option<int>, baselineFinish: Option<int>)

  datatype Stage = Stage(
    status: StageStatus,
    plan: PlanStage,
    enforceRequiredOnComplete: bool,
    completedAt: Option<int>,
    atRiskPercent: Option<int>,
    warnDaysRemaining: Option<int>,
    hardBlock: bool,
    hardBlockUnlockedAt: Option<int>,
    slaState: Option<SlaState>,
    dates: StageDates)

  datatype EventKind = Started | WasCompleted | WasSkipped | Reopened | Paused | Resumed | DurationOverridden
      | WasBlocked | Unblocked

  datatype Event = Event(stage: nat, kind: EventKind, fromStatus: StageStatus, toStatus: StageStatus, createdAt: int)

  datatype TimelineState = TimelineState(
    stages: seq<Stage>,
    completed: bool,
    targetDate: Option<int>,
    feasible: Option<bool>,
    deficitDays: Option<int>,
    exceptionApproved: bool,
    lastPlannedAt: Option<int>,
    events: seq<Event>)

  /**
   * Stages are numbered by their place in the sequence. Flags say whether a reason was given and what validateValues
   * found.
   */
  datatype Action =
    | Start(i: nat)
    | Complete(i: nat, fieldsValid: bool, override: bool, reason: bool)
    | Skip(i: nat, reason: bool)
    | Reopen(i: nat)
    | Pause(i: nat)
    | Resume(i: nat)
    | Unlock(i: nat, reason: bool)
    | OverrideDuration(i: nat, remaining: int, reason: bool)
    | SetTarget(target: Option<int>)
    | Recalculate
    | ApproveException(reason: bool)
    | SlaSweep

  // ----- readiness and timeline status -----

  /** The first stage, an independent stage, or one whose predecessor is done. */
  predicate Eligible(stages: seq<Stage>, i: nat)
    requires i < |stages|
  {
    !stages[i].plan.dependsOnPrevious || i == 0 || Terminal(stages[i - 1].status)
  }

  function ReadyStatus(stages: seq<Stage>, i: nat): StageStatus
    requires i < |stages|
  {
    if stages[i].status != Pending && stages[i].status != Ready then stages[i].status
    else if Eligible(stages, i) then Ready else Pending
  }

  /** recomputeReadiness: decided from the statuses as loaded. */
  function Readied(stages: seq<Stage>): seq<Stage> {
    seq(|stages|, i requires 0 <= i < |stages| => stages[i].(status := ReadyStatus(stages, i)))
  }

  predicate AllTerminal(stages: seq<Stage>) {
    |stages| > 0 && forall i :: 0 <= i < |stages| ==> Terminal(stages[i].status)
  }

  /** recomputeReadiness and syncTimelineStatus. */
  function Settled(s: TimelineState): TimelineState {
    var stages := Readied(s.stages);
    s.(stages := stages, completed := AllTerminal(stages))
  }

  // ----- creation -----

  /** The columns copied from a stage template. */
  datatype Template = Template(
    durationValue: Option<int>,
    durationType: Option<DurationType>,
    externalWaiting: bool,
    bufferDays: Option<int>,
    dependsOnPrevious: bool,
    enforceRequiredOnComplete: bool,
    atRiskPercent: Option<int>,
    warnDaysRemaining: Option<int>,
    hardBlock: bool)

  const NO_DATES := StageDates(None, None, None, None, None, None)

  function FromTemplate(t: Template): Stage {
    Stage(Pending,
        PlanStage(t.durationValue, t.durationType, t.externalWaiting, t.bufferDays, t.dependsOnPrevious, None, None),
          t.enforceRequiredOnComplete, None, t.atRiskPercent, t.warnDaysRemaining, t.hardBlock, None, None, NO_DATES)
  }

  /** A timeline with every stage pending, made ready where it can be. */
  function Created(templates: seq<Template>): TimelineState {
    var pending := seq(|templates|, i requires 0 <= i < |templates| => FromTemplate(templates[i]));
    TimelineState(Readied(pending), false, None, None, None, false, None, [])
  }

  // ----- recalculation -----

  function Plans(stages: seq<Stage>): seq<PlanStage> {
    seq(|stages|, i requires 0 <= i < |stages| => stages[i].plan)
  }

  /** Planned and latest dates are rewritten; a baseline is only ever set where there is none. */
  function PlannedDates(d: StageDates, f: ForwardResult, r: Option<ReverseResult>): StageDates {
    StageDates(
      Some(f.plannedStart), Some(f.plannedFinish),
      if r.Some? then Some(r.value.latestStart) else None, if r.Some? then Some(r.value.latestFinish) else None,
      if d.baselineStart.Some? then d.baselineStart else Some(f.plannedStart),
      if d.baselineFinish.Some? then d.baselineFinish else Some(f.plannedFinish))
  }

  function FinalFinish(forward: seq<ForwardResult>): Option<int> {
    if forward == [] then None else Some(forward[|forward| - 1].plannedFinish)
  }

  /** recalcInTx */
  function Recalculated(s: TimelineState, now: int, cal: PlanningCalendar): TimelineState
    requires Valid(cal)
  {
    var plans := Plans(s.stages);
    var forward := ForwardPlan(plans, now, cal);
    var reverse := if s.targetDate.Some? then ReversePlan(plans, s.targetDate.value, cal) else [];
    var f := ComputeFeasibility(FinalFinish(forward), s.targetDate, cal);
    s.(stages := seq(|s.stages|, i requires 0 <= i < |s.stages| =>
                   var r := if s.targetDate.Some? then Some(reverse[i]) else None;
                   s.stages[i].(dates := PlannedDates(s.stages[i].dates, forward[i], r))),
       feasible := f.feasible, deficitDays := f.deficitDays, lastPlannedAt := Some(now))
  }

  // ----- actions -----

  /** A stage update with its event. */
  function Logged(s: TimelineState, i: nat, stage: Stage, kind: EventKind, now: int): TimelineState
    requires i < |s.stages|
  {
    s.(stages := s.stages[i := stage],
       events := s.events + [Event(i, kind, s.stages[i].status, stage.status, now)])
  }

  /** A new remaining duration with its event. */
  function Overridden(s: TimelineState, i: nat, remaining: int, now: int): TimelineState
    requires i < |s.stages|
  {
    var stage := s.stages[i];
    Logged(s, i, stage.(plan := stage.plan.(remainingDurationOverride := Some(remaining))), DurationOverridden, now)
  }

  /** A stage update with its event, then readiness, timeline status and dates (writeTransition). */
  function Transition(
      s: TimelineState, i: nat, stage: Stage, kind: EventKind, now: int, cal: PlanningCalendar): TimelineState
    requires Valid(cal) && i < |s.stages|
  {
    Recalculated(Settled(Logged(s, i, stage, kind, now)), now, cal)
  }

  function FinalSlaState(stage: Stage, completedAt: int): Option<SlaState> {
    if stage.dates.plannedFinish == None then None
    else if DateOnly(completedAt) <= stage.dates.plannedFinish.value then Some(CompletedOnTime)
    else Some(CompletedLate)
  }

  function StartedStage(stage: Stage, now: int): Stage {
    stage.(status := InProgress, plan := stage.plan.(startedAt := Some(now)))
  }

  function CompletedStage(stage: Stage, now: int): Stage {
    stage.(status := Completed, completedAt := Some(now), slaState := FinalSlaState(stage, now))
  }

  /** A completed stage resumes where it stood; a skipped one may be started. */
  function ReopenedStage(stage: Stage): Stage {
    if stage.status == Completed then stage.(status := InProgress, completedAt := None) else stage.(status := Ready)
  }

  function SlaInput(stage: Stage, exceptionApproved: bool): SlaStage {
    SlaStage(stage.status, stage.completedAt, stage.dates.plannedStart, stage.dates.plannedFinish,
             stage.atRiskPercent, stage.warnDaysRemaining, stage.hardBlock, stage.hardBlockUnlockedAt,
                 exceptionApproved)
  }

  predicate SweepBlocks(stage: Stage, exceptionApproved: bool, now: int, cal: PlanningCalendar) {
    !Terminal(stage.status) &&
    ShouldHardBlock(SlaInput(stage, exceptionApproved),
        ComputeStageSlaState(SlaInput(stage, exceptionApproved), now, cal))
  }

  /** One open stage after a sweep. */
  function Swept(stage: Stage, exceptionApproved: bool, now: int, cal: PlanningCalendar): Stage {
    if Terminal(stage.status) then stage
    else
      var state := ComputeStageSlaState(SlaInput(stage, exceptionApproved), now, cal);
      if SweepBlocks(stage, exceptionApproved, now, cal) then stage.(status := Blocked, slaState := state)
      else stage.(slaState := state)
  }

  /** The BLOCKED events of a sweep over the first n stages. */
  function SweepEvents(stages: seq<Stage>, n: nat, exceptionApproved: bool, now: int, cal: PlanningCalendar): seq<Event>
    requires n <= |stages|
  {
    if n == 0 then []
    else
      SweepEvents(stages, n - 1, exceptionApproved, now, cal) +
      if SweepBlocks(stages[n - 1], exceptionApproved, now, cal)
      then [Event(n - 1, WasBlocked, stages[n - 1].status, Blocked, now)] else []
  }

  lemma SweepEventsNext(stages: seq<Stage>, n: nat, exceptionApproved: bool, now: int, cal: PlanningCalendar)
    requires n < |stages|
    ensures var front := SweepEvents(stages, n, exceptionApproved, now, cal);
            SweepEvents(stages, n + 1, exceptionApproved, now, cal) ==
            if SweepBlocks(stages[n], exceptionApproved, now, cal)
            then front + [Event(n, WasBlocked, stages[n].status, Blocked, now)] else front
  {
    hide SweepBlocks;
  }

  function SweptTimeline(s: TimelineState, now: int, cal: PlanningCalendar): TimelineState {
    if s.completed then s
    else s.(stages :=
        seq(|s.stages|, i requires 0 <= i < |s.stages| => Swept(s.stages[i], s.exceptionApproved, now, cal)),
            events := s.events + SweepEvents(s.stages, |s.stages|, s.exceptionApproved, now, cal))
  }

  function Unlocked(s: TimelineState, i: nat, now: int): TimelineState
    requires i < |s.stages|
  {
    var stage := s.stages[i];
    var to := if stage.plan.startedAt.Some? then InProgress else Ready;
    var settled := Settled(s.(stages := s.stages[i := stage.(status := to, hardBlockUnlockedAt := Some(now))]));
    settled.(events := s.events + [Event(i, Unblocked, Blocked, settled.stages[i].status, now)])
  }

  /** A changed target withdraws an approved exception. */
  function Retargeted(s: TimelineState, target: Option<int>): TimelineState {
    s.(targetDate := target, exceptionApproved := s.exceptionApproved && s.targetDate == target)
  }

  /** Why an action is refused, if it is. */
  function Refusal(s: TimelineState, a: Action): Option<Error> {
    match a
    case Start(i) =>
      if i >= |s.stages| then Some(ResourceNotFoundError)
      else if s.stages[i].status != Ready then Some(BusinessRuleViolationError) else None
    case Complete(i, fieldsValid, override, reason) =>
      if i >= |s.stages| then Some(ResourceNotFoundError)
      else if s.stages[i].status != InProgress then Some(BusinessRuleViolationError)
      else if s.stages[i].enforceRequiredOnComplete && !fieldsValid && !override then Some(BusinessRuleViolationError)
      else if s.stages[i].enforceRequiredOnComplete && !fieldsValid && !reason then Some(ValidationError)
      else None
    case Skip(i, reason) =>
      if !reason then Some(ValidationError)
      else if i >= |s.stages| then Some(ResourceNotFoundError)
      else if s.stages[i].status in {Pending, Ready, InProgress, WaitingExternal} then None
      else Some(BusinessRuleViolationError)
    case Reopen(i) =>
      if i >= |s.stages| then Some(ResourceNotFoundError)
      else if Terminal(s.stages[i].status) then None else Some(BusinessRuleViolationError)
    case Pause(i) =>
      if i >= |s.stages| then Some(ResourceNotFoundError)
      else if s.stages[i].status != InProgress then Some(BusinessRuleViolationError) else None
    case Resume(i) =>
      if i >= |s.stages| then Some(ResourceNotFoundError)
      else if s.stages[i].status != WaitingExternal then Some(BusinessRuleViolationError) else None
    case Unlock(i, reason) =>
      if !reason then Some(BusinessRuleViolationError)
      else if i >= |s.stages| then Some(ResourceNotFoundError)
      else if s.stages[i].status != Blocked then Some(BusinessRuleViolationError) else None
    case OverrideDuration(i, remaining, reason) =>
      if remaining < 0 then Some(ValidationError)
      else if !reason then Some(BusinessRuleViolationError)
      else if i >= |s.stages| then Some(ResourceNotFoundError)
      else if s.stages[i].status in {Ready, InProgress, WaitingExternal} then None
      else Some(BusinessRuleViolationError)
    case ApproveException(reason) =>
      if !reason || s.feasible != Some(false) then Some(BusinessRuleViolationError) else None
    case SetTarget(_) => None
    case Recalculate => None
    case SlaSweep => None
  }

  /** The timeline after an action that is not refused. */
  function Effect(s: TimelineState, a: Action, now: int, cal: PlanningCalendar): TimelineState
    requires Valid(cal) && Refusal(s, a) == None
  {
    match a
    case Start(i) => Transition(s, i, StartedStage(s.stages[i], now), Started, now, cal)
    case Complete(i, _, _, _) => Transition(s, i, CompletedStage(s.stages[i], now), WasCompleted, now, cal)
    case Skip(i, _) => Transition(s, i, s.stages[i].(status := Skipped), WasSkipped, now, cal)
    case Reopen(i) => Transition(s, i, ReopenedStage(s.stages[i]), Reopened, now, cal)
    case Pause(i) => Transition(s, i, s.stages[i].(status := WaitingExternal), Paused, now, cal)
    case Resume(i) => Transition(s, i, s.stages[i].(status := InProgress), Resumed, now, cal)
    case Unlock(i, _) => Unlocked(s, i, now)
    case OverrideDuration(i, remaining, _) => Recalculated(Overridden(s, i, remaining, now), now, cal)
    case SetTarget(target) => Recalculated(Retargeted(s, target), now, cal)
    case Recalculate => Recalculated(s, now, cal)
    case ApproveException(_) => s.(exceptionApproved := true)
    case SlaSweep => SweptTimeline(s, now, cal)
  }

  /** The timeline after an action, refused or not. */
  function Act(s: TimelineState, a: Action, now: int, cal: PlanningCalendar): TimelineState
    requires Valid(cal)
  {
    if Refusal(s, a) == None then Effect(s, a, now, cal) else s
  }

  /** What an action answers. */
  function Outcome(s: TimelineState, a: Action): Result<()> {
    if Refusal(s, a) == None then Ok(()) else Err(Refusal(s, a).value)
  }

  lemma ActOverrideDuration(s: TimelineState, i: nat, remaining: int, reason: bool, now: int, cal: PlanningCalendar)
    requires Valid(cal)
    ensures var a := OverrideDuration(i, remaining, reason);
            Act(s, a, now, cal) ==
            if Refusal(s, a) == None then Recalculated(Overridden(s, i, remaining, now), now, cal) else s
  {
    hide Recalculated, Overridden;
  }

  lemma ActSetTarget(s: TimelineState, target: Option<int>, now: int, cal: PlanningCalendar)
    requires Valid(cal)
    ensures Act(s, SetTarget(target), now, cal) == Recalculated(Retargeted(s, target), now, cal)
  {
    hide Recalculated;
  }
}
