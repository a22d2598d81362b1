/**
 * What each timeline action does, told from the rows before and after: when it goes through, what it
 * writes, what it logs and what it leaves alone (src/services/case-timeline.service.ts).
 */
module ActionLaws {
  import opened Basics
  import opened Gregorian
  import opened WorkingDays
  import opened Planning
  import opened Stages
  import opened Sla
  import opened TimelineModel
  import opened TimelineLaws

  // ----- what an action may touch -----

  /** A row that an action is not about: its planned dates and its readiness may change, and nothing else. */
  predicate Bystander(a: Stage, b: Stage) {
    && b == a.(status := b.status, dates := b.dates)
    && (b.status == a.status || (a.status in {Pending, Ready} && b.status in {Pending, Ready}))
  }

  /** Every row but row i is a bystander. */
  ghost predicate OnlyRow(s: TimelineState, after: TimelineState, i: nat) {
    && i < |s.stages| == |after.stages|
    && forall j :: 0 <= j < |s.stages| && j != i ==> Bystander(s.stages[j], after.stages[j])
  }

  /** Target and approved exception are as before. */
  predicate SameSettings(s: TimelineState, after: TimelineState) {
    after.targetDate == s.targetDate && after.exceptionApproved == s.exceptionApproved
  }

  /** One event is logged for stage i. */
  predicate Logs(s: TimelineState, after: TimelineState, i: nat, kind: EventKind, to: StageStatus, now: int) {
    i < |s.stages| && after.events == s.events + [Event(i, kind, s.stages[i].status, to, now)]
  }

  /** Row i becomes `stage`, except for its dates and the choice between PENDING and READY. */
  ghost predicate Becomes(s: TimelineState, after: TimelineState, i: nat, stage: Stage) {
    && OnlyRow(s, after, i) && SameSettings(s, after)
    && Bystander(stage, after.stages[i])
  }

  lemma TransitionBecomes(s: TimelineState, i: nat, stage: Stage, kind: EventKind, now: int, cal: PlanningCalendar)
    requires Valid(cal) && i < |s.stages|
    ensures var after := Transition(s, i, stage, kind, now, cal);
            Becomes(s, after, i, stage) && Logs(s, after, i, kind, stage.status, now)
  {
    hide Transition, Bystander, Logs, SameSettings;
    TransitionSettings(s, i, stage, kind, now, cal);
    var after := Transition(s, i, stage, kind, now, cal);
    forall j: nat | j < |s.stages| ensures Bystander(if j == i then stage else s.stages[j], after.stages[j]) {
      TransitionBystander(s, i, stage, kind, now, cal, j);
    }
  }

  lemma TransitionBystander(
      s: TimelineState, i: nat, stage: Stage, kind: EventKind, now: int, cal: PlanningCalendar, j: nat)
    requires Valid(cal) && i < |s.stages| && j < |s.stages|
    ensures var after := Transition(s, i, stage, kind, now, cal);
            && |after.stages| == |s.stages|
            && Bystander(if j == i then stage else s.stages[j], after.stages[j])
  {
    hide Transition;
    TransitionRow(s, i, stage, kind, now, cal, j);
  }

  lemma TransitionSettings(s: TimelineState, i: nat, stage: Stage, kind: EventKind, now: int, cal: PlanningCalendar)
    requires Valid(cal) && i < |s.stages|
    ensures var after := Transition(s, i, stage, kind, now, cal);
            |after.stages| == |s.stages| && SameSettings(s, after) && Logs(s, after, i, kind, stage.status, now)
  {
    hide Recalculated, Readied, AllTerminal;
    ReadiedLength(s.stages[i := stage]);
    RecalculatedRows(Settled(Logged(s, i, stage, kind, now)), now, cal);
  }

  // ----- one law per action -----

  /** Start: a READY stage becomes IN_PROGRESS with its start time. */
  lemma StartLaw(s: TimelineState, i: nat, now: int, cal: PlanningCalendar)
    requires Valid(cal)
    ensures var after := Act(s, Start(i), now, cal);
            if i < |s.stages| && s.stages[i].status == Ready then
              var row := s.stages[i];
              && Becomes(s, after, i, row.(status := InProgress, plan := row.plan.(startedAt := Some(now))))
              && Logs(s, after, i, Started, InProgress, now)
            else after == s
  {
    hide Transition;
    if i < |s.stages| {
      TransitionBecomes(s, i, StartedStage(s.stages[i], now), Started, now, cal);
    }
  }

  /** When a completion goes through: in progress, and not stopped by required fields. */
  predicate MayComplete(row: Stage, fieldsValid: bool, override: bool, reason: bool) {
    row.status == InProgress && (!row.enforceRequiredOnComplete || fieldsValid || (override && reason))
  }

  /**
   * Complete: an IN_PROGRESS stage becomes COMPLETED at this time, with the SLA state of its planned finish;
   * with enforcement only if the fields are valid, or overridden with a reason.
   */
  lemma CompleteLaw(
      s: TimelineState, i: nat, fieldsValid: bool, override: bool, reason: bool, now: int, cal: PlanningCalendar)
    requires Valid(cal)
    ensures var after := Act(s, Complete(i, fieldsValid, override, reason), now, cal);
            if i < |s.stages| && MayComplete(s.stages[i], fieldsValid, override, reason) then
              var row := s.stages[i];
              var finish := row.dates.plannedFinish;
              var state := if finish == None then None
                           else if now < (finish.value + 1) * DAY_MS then Some(CompletedOnTime)
                           else Some(CompletedLate);
              && Becomes(s, after, i, row.(status := Completed, completedAt := Some(now), slaState := state))
              && Logs(s, after, i, WasCompleted, Completed, now)
            else after == s
  {
    hide Transition;
    if i < |s.stages| {
      TransitionBecomes(s, i, CompletedStage(s.stages[i], now), WasCompleted, now, cal);
    }
  }

  /** Skip: with a reason, a stage that is neither BLOCKED nor closed becomes SKIPPED. */
  lemma SkipLaw(s: TimelineState, i: nat, reason: bool, now: int, cal: PlanningCalendar)
    requires Valid(cal)
    ensures var after := Act(s, Skip(i, reason), now, cal);
            if i < |s.stages| && reason && s.stages[i].status !in {Blocked, Completed, Skipped} then
              Becomes(s, after, i, s.stages[i].(status := Skipped)) && Logs(s, after, i, WasSkipped, Skipped, now)
            else after == s
  {
    hide Transition;
    if i < |s.stages| {
      TransitionBecomes(s, i, s.stages[i].(status := Skipped), WasSkipped, now, cal);
    }
  }

  /** Reopen: a COMPLETED stage is IN_PROGRESS again without completion time; a SKIPPED one is READY or PENDING. */
  lemma ReopenLaw(s: TimelineState, i: nat, now: int, cal: PlanningCalendar)
    requires Valid(cal)
    ensures var after := Act(s, Reopen(i), now, cal);
            if i < |s.stages| && s.stages[i].status == Completed then
              && Becomes(s, after, i, s.stages[i].(status := InProgress, completedAt := None))
              && Logs(s, after, i, Reopened, InProgress, now)
            else if i < |s.stages| && s.stages[i].status == Skipped then
              Becomes(s, after, i, s.stages[i].(status := Ready)) && Logs(s, after, i, Reopened, Ready, now)
            else after == s
  {
    hide Transition;
    if i < |s.stages| {
      TransitionBecomes(s, i, ReopenedStage(s.stages[i]), Reopened, now, cal);
    }
  }

  /** Pause and resume: IN_PROGRESS becomes WAITING_EXTERNAL and back. */
  lemma PauseResumeLaw(s: TimelineState, i: nat, now: int, cal: PlanningCalendar)
    requires Valid(cal)
    ensures var after := Act(s, Pause(i), now, cal);
            if i < |s.stages| && s.stages[i].status == InProgress then
              && Becomes(s, after, i, s.stages[i].(status := WaitingExternal))
              && Logs(s, after, i, Paused, WaitingExternal, now)
            else after == s
    ensures var after := Act(s, Resume(i), now, cal);
            if i < |s.stages| && s.stages[i].status == WaitingExternal then
              && Becomes(s, after, i, s.stages[i].(status := InProgress))
              && Logs(s, after, i, Resumed, InProgress, now)
            else after == s
  {
    hide Transition;
    if i < |s.stages| {
      TransitionBecomes(s, i, s.stages[i].(status := WaitingExternal), Paused, now, cal);
      TransitionBecomes(s, i, s.stages[i].(status := InProgress), Resumed, now, cal);
    }
  }

  /** Unlock: with a reason, a BLOCKED stage goes on where it stood and is never blocked again; no date changes. */
  lemma UnlockLaw(s: TimelineState, i: nat, reason: bool, now: int, cal: PlanningCalendar)
    requires Valid(cal)
    ensures var after := Act(s, Unlock(i, reason), now, cal);
            if i < |s.stages| && reason && s.stages[i].status == Blocked then
              var row := s.stages[i];
              var to := if row.plan.startedAt.Some? then InProgress else Ready;
              && Becomes(s, after, i, row.(status := to, hardBlockUnlockedAt := Some(now)))
              && Logs(s, after, i, Unblocked, after.stages[i].status, now)
              && (forall j :: 0 <= j < |s.stages| ==> after.stages[j].dates == s.stages[j].dates)
              && after.feasible == s.feasible && after.deficitDays == s.deficitDays
              && after.lastPlannedAt == s.lastPlannedAt
            else after == s
  {
    hide Eligible, AllTerminal;
  }

  /** Override: with a reason, a READY, running or waiting stage gets the remaining duration, if it is not negative. */
  lemma OverrideLaw(s: TimelineState, i: nat, remaining: int, reason: bool, now: int, cal: PlanningCalendar)
    requires Valid(cal)
    ensures var after := Act(s, OverrideDuration(i, remaining, reason), now, cal);
            if i < |s.stages| && remaining >= 0 && reason &&
               s.stages[i].status in {Ready, InProgress, WaitingExternal} then
              var row := s.stages[i];
              && OnlyRow(s, after, i) && SameSettings(s, after) && after.completed == s.completed
              && after.stages[i] ==
                 row.(plan := row.plan.(remainingDurationOverride := Some(remaining)), dates := after.stages[i].dates)
              && Logs(s, after, i, DurationOverridden, row.status, now)
              && (forall j :: 0 <= j < |s.stages| ==> after.stages[j].status == s.stages[j].status)
            else after == s
  {
    ActOverrideDuration(s, i, remaining, reason, now, cal);
    OverrideAllowed(s, i, remaining, reason);
    hide Act, Recalculated, Refusal, Bystander, Overridden;
    if i < |s.stages| {
      OverrideSettings(s, i, remaining, now, cal);
      forall j: nat | j < |s.stages| {
        OverrideRow(s, i, remaining, now, cal, j);
      }
    }
  }

  lemma OverrideSettings(s: TimelineState, i: nat, remaining: int, now: int, cal: PlanningCalendar)
    requires Valid(cal) && i < |s.stages|
    ensures var after := Recalculated(Overridden(s, i, remaining, now), now, cal);
            && |after.stages| == |s.stages| && SameSettings(s, after) && after.completed == s.completed
            && Logs(s, after, i, DurationOverridden, s.stages[i].status, now)
  {
    hide Recalculated;
    RecalculatedRows(Overridden(s, i, remaining, now), now, cal);
  }

  lemma OverrideRow(s: TimelineState, i: nat, remaining: int, now: int, cal: PlanningCalendar, j: nat)
    requires Valid(cal) && i < |s.stages| && j < |s.stages|
    ensures var row, after := s.stages[j], Recalculated(Overridden(s, i, remaining, now), now, cal);
            && j < |after.stages| && after.stages[j].status == row.status
            && (j != i ==> Bystander(row, after.stages[j]))
            && (j == i ==>
                  after.stages[j] ==
                  row.(plan := row.plan.(remainingDurationOverride := Some(remaining)), dates := after.stages[j].dates))
  {
    hide Recalculated;
    RecalculatedRows(Overridden(s, i, remaining, now), now, cal);
  }

  lemma OverrideAllowed(s: TimelineState, i: nat, remaining: int, reason: bool)
    ensures Refusal(s, OverrideDuration(i, remaining, reason)) == None <==>
            i < |s.stages| && remaining >= 0 && reason && s.stages[i].status in {Ready, InProgress, WaitingExternal}
  {}

  /** Set target: the target is stored, and an approved exception survives only if the target is the same. */
  lemma SetTargetLaw(s: TimelineState, target: Option<int>, now: int, cal: PlanningCalendar)
    requires Valid(cal)
    ensures var after := Act(s, SetTarget(target), now, cal);
            && after.targetDate == target && after.completed == s.completed && after.events == s.events
            && (after.exceptionApproved <==> s.exceptionApproved && target == s.targetDate)
            && |after.stages| == |s.stages|
            && forall j :: 0 <= j < |s.stages| ==> after.stages[j] == s.stages[j].(dates := after.stages[j].dates)
  {
    ActSetTarget(s, target, now, cal);
    hide Act, Recalculated;
    RecalculatedRows(Retargeted(s, target), now, cal);
  }

  /** Recalculate: only dates, feasibility and the planning time change. */
  lemma RecalculateLaw(s: TimelineState, now: int, cal: PlanningCalendar)
    requires Valid(cal)
    ensures var after := Act(s, Recalculate, now, cal);
            && SameSettings(s, after) && after.completed == s.completed && after.events == s.events
            && after.lastPlannedAt == Some(now)
            && |after.stages| == |s.stages|
            && forall j :: 0 <= j < |s.stages| ==> after.stages[j] == s.stages[j].(dates := after.stages[j].dates)
  {
    RecalculatedRows(s, now, cal);
    hide PlannedDates, ForwardPlan, ReversePlan, ComputeFeasibility, FinalFinish, Plans;
  }

  /** Approve exception: with a reason, on an infeasible plan; nothing else changes. */
  lemma ApproveLaw(s: TimelineState, reason: bool, now: int, cal: PlanningCalendar)
    requires Valid(cal)
    ensures Act(s, ApproveException(reason), now, cal) ==
            if reason && s.feasible == Some(false) then s.(exceptionApproved := true) else s
  {}

  /** Sweep: an ACTIVE timeline's open rows are classified, and blocked where they must be; nothing else changes. */
  lemma SweepLaw(s: TimelineState, now: int, cal: PlanningCalendar, i: nat)
    requires Valid(cal) && i < |s.stages|
    ensures var after := Act(s, SlaSweep, now, cal);
            && |after.stages| == |s.stages| && SameSettings(s, after) && after.completed == s.completed
            && var row, row' := s.stages[i], after.stages[i];
               if s.completed || row.status == Completed || row.status == Skipped then row' == row
               else
                 && row' == row.(status := row'.status, slaState := row'.slaState)
                 && row'.slaState == ComputeStageSlaState(
                      SlaStage(row.status, row.completedAt, row.dates.plannedStart, row.dates.plannedFinish,
                               row.atRiskPercent, row.warnDaysRemaining, row.hardBlock, row.hardBlockUnlockedAt,
                               s.exceptionApproved),
                      now, cal)
                 && (row'.status == row.status || row'.status == Blocked)
  {
    hide ComputeStageSlaState, ShouldHardBlock, SweepEvents;
  }

  // ----- the answers -----

  /** The actions about one stage. */
  predicate AboutStage(a: Action) {
    !a.SetTarget? && !a.Recalculate? && !a.ApproveException? && !a.SlaSweep?
  }

  /** A reason is missing, or a duration negative, which is found out before the stage is looked up. */
  predicate BadRequest(a: Action) {
    || (a.Skip? && !a.reason) || (a.Unlock? && !a.reason)
    || (a.OverrideDuration? && (a.remaining < 0 || !a.reason))
  }

  /** The stage, or the plan, is in a state in which the action goes through. */
  predicate Allowed(s: TimelineState, a: Action) {
    match a
    case Start(i) => i < |s.stages| && s.stages[i].status == Ready
    case Complete(i, f, o, r) => i < |s.stages| && MayComplete(s.stages[i], f, o, r)
    case Skip(i, _) => i < |s.stages| && s.stages[i].status !in {Blocked, Completed, Skipped}
    case Reopen(i) => i < |s.stages| && s.stages[i].status in {Completed, Skipped}
    case Pause(i) => i < |s.stages| && s.stages[i].status == InProgress
    case Resume(i) => i < |s.stages| && s.stages[i].status == WaitingExternal
    case Unlock(i, _) => i < |s.stages| && s.stages[i].status == Blocked
    case OverrideDuration(i, _, _) => i < |s.stages| && s.stages[i].status in {Ready, InProgress, WaitingExternal}
    case ApproveException(reason) => reason && s.feasible == Some(false)
    case _ => true
  }

  /** An action is answered with success iff the request is complete and the state allows it, else with this error. */
  lemma AnswerLaw(s: TimelineState, a: Action)
    ensures Outcome(s, a) == Ok(()) <==> !BadRequest(a) && Allowed(s, a)
    ensures Outcome(s, a) == Err(ResourceNotFoundError) <==> !BadRequest(a) && AboutStage(a) && a.i >= |s.stages|
    ensures Outcome(s, a) == Err(ValidationError) <==>
            || (a.Skip? && !a.reason)
            || (a.OverrideDuration? && a.remaining < 0)
            || (a.Complete? && a.i < |s.stages| && s.stages[a.i].status == InProgress
                && s.stages[a.i].enforceRequiredOnComplete && !a.fieldsValid && a.override && !a.reason)
    ensures Outcome(s, a).Err? ==>
              Outcome(s, a).error in {ResourceNotFoundError, ValidationError, BusinessRuleViolationError}
  {
    if a.Skip? && a.i < |s.stages| {
      OpenStatuses(s.stages[a.i].status);
    }
  }

  lemma OpenStatuses(status: StageStatus)
    ensures status !in {Blocked, Completed, Skipped} <==> status in {Pending, Ready, InProgress, WaitingExternal}
  {}

  /** An action that is refused changes nothing. */
  lemma RefusedChangesNothing(s: TimelineState, a: Action, now: int, cal: PlanningCalendar)
    requires Valid(cal) && Outcome(s, a).Err?
    ensures Act(s, a, now, cal) == s
  {}

  // ----- the stored plan -----

  /** The planned dates of row i follow from its columns and the row before it. */
  ghost predicate PlannedFrom(s: TimelineState, i: nat, now: int, cal: PlanningCalendar)
    requires Valid(cal) && i < |s.stages|
  {
    var row, d := s.stages[i], s.stages[i].dates;
    && d.plannedStart.Some?
    && d.plannedFinish == Some(Finish(d.plannedStart.value, row.plan, cal))
    && if row.plan.startedAt.Some? then d.plannedStart.value == DateOnly(row.plan.startedAt.value)
       else if i > 0 && row.plan.dependsOnPrevious then
         var before := s.stages[i - 1].dates;
         before.plannedFinish.Some? && d.plannedStart.value == AddWorkingDays(before.plannedFinish.value, 1, cal)
       else d.plannedStart.value == DateOnly(now)
  }

  /** The latest dates of row i follow from its columns, the target and the row after it. */
  ghost predicate LatestFrom(s: TimelineState, i: nat, cal: PlanningCalendar)
    requires Valid(cal) && i < |s.stages|
  {
    var d := s.stages[i].dates;
    if s.targetDate == None then d.latestStart == None && d.latestFinish == None
    else
      && d.latestFinish.Some?
      && d.latestStart == Some(StartFromFinish(d.latestFinish.value, s.stages[i].plan, cal))
      && if i == |s.stages| - 1 then d.latestFinish == s.targetDate
         else
           var after := s.stages[i + 1].dates;
           after.latestStart.Some? && d.latestFinish.value == SubtractWorkingDays(after.latestStart.value, 1, cal)
  }

  /** With a target and stages, feasible says whether the last stage is planned to finish by the target. */
  ghost predicate FeasibleFrom(s: TimelineState, cal: PlanningCalendar) {
    if s.targetDate == None || s.stages == [] then s.feasible == None && s.deficitDays == None
    else
      var finish := s.stages[|s.stages| - 1].dates.plannedFinish;
      && finish.Some?
      && s.feasible == Some(finish.value <= s.targetDate.value)
      && s.deficitDays == Some(|WorkingDaysIn(s.targetDate.value + 1, finish.value, cal)|)
  }

  /** After every action that replans, the stored dates, feasibility and deficit follow from the stored rows. */
  lemma ReplanMeans(s: TimelineState, a: Action, now: int, cal: PlanningCalendar)
    requires Valid(cal) && Replans(a) && Outcome(s, a) == Ok(())
    ensures var after := Act(s, a, now, cal);
            && (forall i :: 0 <= i < |after.stages| ==> PlannedFrom(after, i, now, cal) && LatestFrom(after, i, cal))
            && FeasibleFrom(after, cal) && after.lastPlannedAt == Some(now)
  {
    hide Act, FreshDates, Finish, StartFromFinish, ForwardPlan, ReversePlan, FeasibleFrom, PlannedFrom, LatestFrom;
    ActReplans(s, a, now, cal);
    var after := Act(s, a, now, cal);
    FreshFeasible(after, now, cal);
    forall i | 0 <= i < |after.stages| ensures PlannedFrom(after, i, now, cal) && LatestFrom(after, i, cal) {
      FreshPlanned(after, i, now, cal);
      FreshLatest(after, i, now, cal);
    }
  }

  lemma FreshPlanned(s: TimelineState, i: nat, now: int, cal: PlanningCalendar)
    requires Valid(cal) && FreshPlan(s, now, cal) && i < |s.stages|
    ensures PlannedFrom(s, i, now, cal)
  {
    hide Finish, ReversePlan, ForwardPlan, ComputeFeasibility, FinalFinish, Walk;
    var f := ForwardPlan(Plans(s.stages), now, cal);
    assert FreshDates(s, i, now, cal) && (i > 0 ==> FreshDates(s, i - 1, now, cal));
    assert f[i].plannedStart == PlannedStart(Plans(s.stages), i, f, now, cal);
  }

  lemma FreshLatest(s: TimelineState, i: nat, now: int, cal: PlanningCalendar)
    requires Valid(cal) && FreshPlan(s, now, cal) && i < |s.stages|
    ensures LatestFrom(s, i, cal)
  {
    hide StartFromFinish, ReversePlan, ForwardPlan, ComputeFeasibility, FinalFinish, Walk;
    assert FreshDates(s, i, now, cal) && (i < |s.stages| - 1 ==> FreshDates(s, i + 1, now, cal));
    if s.targetDate.Some? {
      var r := ReversePlan(Plans(s.stages), s.targetDate.value, cal);
      assert r[i].latestFinish == LatestFinish(Plans(s.stages), i, r, s.targetDate.value, cal);
    }
  }

  lemma FreshFeasible(s: TimelineState, now: int, cal: PlanningCalendar)
    requires Valid(cal) && FreshPlan(s, now, cal)
    ensures FeasibleFrom(s, cal)
  {
    hide Finish, StartFromFinish, ForwardPlan, ReversePlan, Walk;
    if s.stages != [] {
      assert FreshDates(s, |s.stages| - 1, now, cal);
    }
  }

  // ----- baselines -----

  /** A baseline that was not set is now what is planned. */
  predicate BaselineSet(before: StageDates, after: StageDates) {
    && (before.baselineStart == None ==> after.baselineStart == after.plannedStart)
    && (before.baselineFinish == None ==> after.baselineFinish == after.plannedFinish)
  }

  lemma RecalculatedBaseline(before: TimelineState, s: TimelineState, now: int, cal: PlanningCalendar, i: nat)
    requires Valid(cal) && i < |before.stages| == |s.stages| && s.stages[i].dates == before.stages[i].dates
    ensures var after := Recalculated(s, now, cal);
            i < |after.stages| && BaselineSet(before.stages[i].dates, after.stages[i].dates)
  {
    hide ForwardPlan, ReversePlan, ComputeFeasibility, FinalFinish, Plans;
  }

  lemma TransitionBaseline(
      s: TimelineState, k: nat, stage: Stage, kind: EventKind, now: int, cal: PlanningCalendar, i: nat)
    requires Valid(cal) && k < |s.stages| && i < |s.stages| && stage.dates == s.stages[k].dates
    ensures var after := Transition(s, k, stage, kind, now, cal);
            i < |after.stages| && BaselineSet(s.stages[i].dates, after.stages[i].dates)
  {
    hide Recalculated, AllTerminal, Eligible, BaselineSet;
    RecalculatedBaseline(s, Settled(Logged(s, k, stage, kind, now)), now, cal, i);
  }

  /** Every action that replans sets the missing baselines to the dates it plans. */
  lemma ReplanSetsBaselines(s: TimelineState, a: Action, now: int, cal: PlanningCalendar, i: nat)
    requires Valid(cal) && Replans(a) && Outcome(s, a) == Ok(()) && i < |s.stages|
    ensures |Act(s, a, now, cal).stages| == |s.stages|
    ensures BaselineSet(s.stages[i].dates, Act(s, a, now, cal).stages[i].dates)
  {
    hide Transition, Recalculated, BaselineSet, FinalSlaState;
    ActLength(s, a, now, cal);
    match a
    case Start(k) => TransitionBaseline(s, k, StartedStage(s.stages[k], now), Started, now, cal, i);
    case Complete(k, _, _, _) => TransitionBaseline(s, k, CompletedStage(s.stages[k], now), WasCompleted, now, cal, i);
    case Skip(k, _) => TransitionBaseline(s, k, s.stages[k].(status := Skipped), WasSkipped, now, cal, i);
    case Reopen(k) => TransitionBaseline(s, k, ReopenedStage(s.stages[k]), Reopened, now, cal, i);
    case Pause(k) => TransitionBaseline(s, k, s.stages[k].(status := WaitingExternal), Paused, now, cal, i);
    case Resume(k) => TransitionBaseline(s, k, s.stages[k].(status := InProgress), Resumed, now, cal, i);
    case OverrideDuration(k, remaining, _) => RecalculatedBaseline(s, Overridden(s, k, remaining, now), now, cal, i);
    case SetTarget(target) => RecalculatedBaseline(s, Retargeted(s, target), now, cal, i);
    case Recalculate => RecalculatedBaseline(s, s, now, cal, i);
    case _ =>
  }

  // ----- readiness -----

  /**
   * In every run a PENDING or READY stage is READY iff it is first, independent or follows a COMPLETED or
   * SKIPPED stage, and the timeline is COMPLETED iff every stage is one of the two.
   */
  lemma ReadinessMeans(templates: seq<Template>, steps: seq<Step>)
    requires templates != [] && ValidSteps(steps)
    ensures var s := After(Created(templates), steps);
            && (forall i :: 0 <= i < |s.stages| && s.stages[i].status in {Pending, Ready} ==>
                  (s.stages[i].status == Ready <==>
                   !s.stages[i].plan.dependsOnPrevious || i == 0 || s.stages[i - 1].status in {Completed, Skipped}))
            && (s.completed <==> forall i :: 0 <= i < |s.stages| ==> s.stages[i].status in {Completed, Skipped})
  {
    hide Act, Created;
    EveryRunIsSound(templates, steps);
  }

  // ----- what completes a stage -----

  /**
   * A stage that is not COMPLETED becomes so exactly by its own Complete, in progress, and with enforcement
   * only if the fields are valid or there is an override with a reason.
   */
  lemma CompletesWhen(s: TimelineState, a: Action, now: int, cal: PlanningCalendar, i: nat)
    requires Valid(cal) && i < |s.stages| && s.stages[i].status != Completed
    ensures |Act(s, a, now, cal).stages| == |s.stages|
    ensures Act(s, a, now, cal).stages[i].status == Completed <==>
            && a.Complete? && a.i == i && s.stages[i].status == InProgress
            && (!s.stages[i].enforceRequiredOnComplete || a.fieldsValid || (a.override && a.reason))
  {
    hide Act;
    ActLength(s, a, now, cal);
    match a
    case Start(k) => StartLaw(s, k, now, cal);
    case Complete(k, f, o, r) => CompleteLaw(s, k, f, o, r, now, cal);
    case Skip(k, r) => SkipLaw(s, k, r, now, cal);
    case Reopen(k) => ReopenLaw(s, k, now, cal);
    case Pause(k) => PauseResumeLaw(s, k, now, cal);
    case Resume(k) => PauseResumeLaw(s, k, now, cal);
    case Unlock(k, r) => UnlockLaw(s, k, r, now, cal);
    case OverrideDuration(k, remaining, r) => OverrideLaw(s, k, remaining, r, now, cal);
    case SetTarget(target) => SetTargetLaw(s, target, now, cal);
    case Recalculate => RecalculateLaw(s, now, cal);
    case ApproveException(r) => ApproveLaw(s, r, now, cal);
    case SlaSweep => SweepLaw(s, now, cal, i);
  }

  /** No action changes the columns that a stage has from its template. */
  lemma TemplateColumnsStay(s: TimelineState, a: Action, now: int, cal: PlanningCalendar, i: nat)
    requires Valid(cal) && i < |s.stages|
    ensures |Act(s, a, now, cal).stages| == |s.stages|
    ensures SameTemplate(s.stages[i], Act(s, a, now, cal).stages[i])
  {
    hide Act;
    ActLength(s, a, now, cal);
    match a
    case Start(k) => StartLaw(s, k, now, cal);
    case Complete(k, f, o, r) => CompleteLaw(s, k, f, o, r, now, cal);
    case Skip(k, r) => SkipLaw(s, k, r, now, cal);
    case Reopen(k) => ReopenLaw(s, k, now, cal);
    case Pause(k) => PauseResumeLaw(s, k, now, cal);
    case Resume(k) => PauseResumeLaw(s, k, now, cal);
    case Unlock(k, r) => UnlockLaw(s, k, r, now, cal);
    case OverrideDuration(k, remaining, r) => OverrideLaw(s, k, remaining, r, now, cal);
    case SetTarget(target) => SetTargetLaw(s, target, now, cal);
    case Recalculate => RecalculateLaw(s, now, cal);
    case ApproveException(r) => ApproveLaw(s, r, now, cal);
    case SlaSweep => SweepLaw(s, now, cal, i);
  }

  predicate SameTemplate(a: Stage, b: Stage) {
    && b.plan.durationValue == a.plan.durationValue && b.plan.durationType == a.plan.durationType
    && b.plan.externalWaiting == a.plan.externalWaiting && b.plan.bufferDays == a.plan.bufferDays
    && b.plan.dependsOnPrevious == a.plan.dependsOnPrevious
    && b.enforceRequiredOnComplete == a.enforceRequiredOnComplete
    && b.atRiskPercent == a.atRiskPercent && b.warnDaysRemaining == a.warnDaysRemaining && b.hardBlock == a.hardBlock
  }

  /** A stage as its template makes it: PENDING or READY, with the template's columns and no others set. */
  predicate FreshFrom(t: Template, row: Stage) {
    && row.status in {Pending, Ready}
    && row.plan.durationValue == t.durationValue && row.plan.durationType == t.durationType
    && row.plan.externalWaiting == t.externalWaiting && row.plan.bufferDays == t.bufferDays
    && row.plan.dependsOnPrevious == t.dependsOnPrevious
    && row.plan.remainingDurationOverride == None && row.plan.startedAt == None
    && row.enforceRequiredOnComplete == t.enforceRequiredOnComplete
    && row.atRiskPercent == t.atRiskPercent && row.warnDaysRemaining == t.warnDaysRemaining
    && row.hardBlock == t.hardBlock
    && row.completedAt == None && row.hardBlockUnlockedAt == None && row.slaState == None
    && row.dates == StageDates(None, None, None, None, None, None)
  }

  lemma CreatedLaw(templates: seq<Template>)
    ensures var s := Created(templates);
            && |s.stages| == |templates|
            && (forall i :: 0 <= i < |templates| ==> FreshFrom(templates[i], s.stages[i]))
            && !s.completed && s.targetDate == None && s.feasible == None && s.deficitDays == None
            && !s.exceptionApproved && s.lastPlannedAt == None && s.events == []
  {
    hide Eligible;
  }

  // ----- runs -----

  /** Step k of the run completes stage i, properly: in progress, and not against its required fields. */
  ghost predicate CompletedBy(templates: seq<Template>, steps: seq<Step>, i: nat, k: nat)
    requires ValidSteps(steps)
  {
    && i < |templates| && k < |steps|
    && steps[k].action.Complete? && steps[k].action.i == i
    && (!templates[i].enforceRequiredOnComplete || steps[k].action.fieldsValid
        || (steps[k].action.override && steps[k].action.reason))
  }

  /** In every run a COMPLETED stage was completed by a Complete that enforcement lets through. */
  lemma {:induction false} CompletionsAreProper(templates: seq<Template>, steps: seq<Step>, i: nat)
    requires i < |templates| && ValidSteps(steps)
    ensures var s := After(Created(templates), steps);
            && |s.stages| == |templates|
            && s.stages[i].enforceRequiredOnComplete == templates[i].enforceRequiredOnComplete
            && (s.stages[i].status == Completed ==> exists k: nat :: CompletedBy(templates, steps, i, k))
  {
    hide Act, Created;
    if steps == [] {
      CreatedLaw(templates);
      assert FreshFrom(templates[i], Created(templates).stages[i]);
    } else {
      var n := |steps| - 1;
      var front, last := steps[..n], steps[n];
      var s := After(Created(templates), front);
      CompletionsAreProper(templates, front, i);
      TemplateColumnsStay(s, last.action, last.now, last.cal, i);
      if After(Created(templates), steps).stages[i].status == Completed {
        if s.stages[i].status == Completed {
          var k: nat :| CompletedBy(templates, front, i, k);
          assert CompletedBy(templates, steps, i, k);
        } else {
          CompletesWhen(s, last.action, last.now, last.cal, i);
          assert CompletedBy(templates, steps, i, n);
        }
      }
    }
  }

  /** In every run the stages keep the columns of their templates. */
  lemma {:induction false} EveryRunKeepsTemplates(templates: seq<Template>, steps: seq<Step>, i: nat)
    requires i < |templates| && ValidSteps(steps)
    ensures var s := After(Created(templates), steps);
            |s.stages| == |templates| && SameTemplate(Created(templates).stages[i], s.stages[i])
  {
    hide Act, Created;
    if steps == [] {
      CreatedLaw(templates);
    } else {
      var front, last := steps[..|steps| - 1], steps[|steps| - 1];
      EveryRunKeepsTemplates(templates, front, i);
      TemplateColumnsStay(After(Created(templates), front), last.action, last.now, last.cal, i);
    }
  }
}
