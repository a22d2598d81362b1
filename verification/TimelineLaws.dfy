/** What every action and every run of the timeline keeps. */
module TimelineLaws {
  import opened Basics
  import opened Gregorian
  import opened WorkingDays
  import opened Planning
  import opened PlanningLaws
  import opened Stages
  import opened Sla
  import opened TimelineModel

  // ----- the status invariants -----

  ghost predicate ReadinessSound(stages: seq<Stage>) {
    forall i :: 0 <= i < |stages| && (stages[i].status == Pending || stages[i].status == Ready) ==>
      (stages[i].status == Ready <==> Eligible(stages, i))
  }

  /** Only completed stages have a completion time; a stage cannot run, wait or be completed without having started. */
  ghost predicate TimesSound(stages: seq<Stage>) {
    forall i :: 0 <= i < |stages| ==>
      && (stages[i].completedAt.Some? <==> stages[i].status == Completed)
      && (stages[i].status in {InProgress, WaitingExternal, Completed} ==> stages[i].plan.startedAt.Some?)
  }

  ghost predicate Sound(s: TimelineState) {
    && s.stages != []
    && ReadinessSound(s.stages)
    && TimesSound(s.stages)
    && (s.completed <==> AllTerminal(s.stages))
  }

  /** One pass of readiness is enough: it never changes whether a stage is terminal. */
  lemma ReadiedIsSound(stages: seq<Stage>)
    requires TimesSound(stages)
    ensures ReadinessSound(Readied(stages)) && TimesSound(Readied(stages))
    ensures Readied(Readied(stages)) == Readied(stages)
  {
    var after := Readied(stages);
    assert forall i :: 0 <= i < |stages| ==> (Terminal(after[i].status) <==> Terminal(stages[i].status));
    assert forall i :: 0 <= i < |stages| ==> (Eligible(after, i) <==> Eligible(stages, i));
  }

  /** Rows that agree on status, completion, start and dependency are equally sound. */
  lemma SoundTransfers(a: seq<Stage>, b: seq<Stage>)
    requires |a| == |b|
    requires forall i :: 0 <= i < |a| ==>
               && a[i].status == b[i].status && a[i].completedAt == b[i].completedAt
               && a[i].plan.startedAt == b[i].plan.startedAt
                   && a[i].plan.dependsOnPrevious == b[i].plan.dependsOnPrevious
    requires ReadinessSound(a) && TimesSound(a)
    ensures ReadinessSound(b) && TimesSound(b)
    ensures AllTerminal(a) <==> AllTerminal(b)
  {
    assert forall i :: 0 <= i < |a| ==> (Eligible(a, i) <==> Eligible(b, i));
  }

  ghost predicate BaselineKept(before: StageDates, after: StageDates) {
    && (before.baselineStart.Some? ==> after.baselineStart == before.baselineStart)
    && (before.baselineFinish.Some? ==> after.baselineFinish == before.baselineFinish)
  }

  /** Recalculation rewrites dates and feasibility, and no baseline that is set. */
  lemma RecalculatedRows(s: TimelineState, now: int, cal: PlanningCalendar)
    requires Valid(cal)
    ensures var after := Recalculated(s, now, cal);
            && |after.stages| == |s.stages|
            && (forall i :: 0 <= i < |s.stages| ==>
                  && after.stages[i] == s.stages[i].(dates := after.stages[i].dates)
                  && BaselineKept(s.stages[i].dates, after.stages[i].dates))
            && after.completed == s.completed && after.events == s.events
            && after.targetDate == s.targetDate && after.exceptionApproved == s.exceptionApproved
  {
    hide ForwardPlan, ReversePlan, ComputeFeasibility, FinalFinish, Plans;
  }

  /** Planned dates play no part in the status invariants. */
  lemma RecalculatedIsSound(s: TimelineState, now: int, cal: PlanningCalendar)
    requires Valid(cal) && Sound(s)
    ensures Sound(Recalculated(s, now, cal))
  {
    hide Recalculated, ReadinessSound, TimesSound, AllTerminal;
    RecalculatedRows(s, now, cal);
    SoundTransfers(s.stages, Recalculated(s, now, cal).stages);
  }

  lemma TransitionIsSound(s: TimelineState, i: nat, stage: Stage, kind: EventKind, now: int, cal: PlanningCalendar)
    requires Valid(cal) && s.stages != [] && TimesSound(s.stages) && i < |s.stages| && TimesSound([stage])
    ensures Sound(Transition(s, i, stage, kind, now, cal))
  {
    hide Recalculated, Readied, ReadinessSound;
    var stages := s.stages[i := stage];
    assert [stage][0] == stage;
    assert TimesSound(stages);
    ReadiedIsSound(stages);
    ReadiedLength(stages);
    RecalculatedIsSound(Settled(Logged(s, i, stage, kind, now)), now, cal);
  }

  lemma ReadiedLength(stages: seq<Stage>)
    ensures |Readied(stages)| == |stages|
  {}

  lemma UnlockedIsSound(s: TimelineState, i: nat, now: int)
    requires Sound(s) && i < |s.stages| && s.stages[i].status == Blocked
    ensures Sound(Unlocked(s, i, now))
  {
    var stage := s.stages[i];
    var to := if stage.plan.startedAt.Some? then InProgress else Ready;
    ReadiedIsSound(s.stages[i := stage.(status := to, hardBlockUnlockedAt := Some(now))]);
  }

  /** A sweep touches only the status and SLA state of open stages, and blocks them if anything. */
  lemma SweptRows(s: TimelineState, now: int, cal: PlanningCalendar)
    ensures var after := SweptTimeline(s, now, cal);
            && |after.stages| == |s.stages| && after.completed == s.completed
            && forall i :: 0 <= i < |s.stages| ==>
                 && after.stages[i]
                     == s.stages[i].(status := after.stages[i].status, slaState := after.stages[i].slaState)
                 && (after.stages[i].status == s.stages[i].status ||
                     (after.stages[i].status == Blocked && !Terminal(s.stages[i].status)))
                 && (Terminal(s.stages[i].status) ==> after.stages[i] == s.stages[i])
  {
    hide ComputeStageSlaState, ShouldHardBlock, SweepEvents;
  }

  /** A sweep blocks no terminal stage, so nobody's readiness changes. */
  lemma SweptIsSound(s: TimelineState, now: int, cal: PlanningCalendar)
    requires Sound(s)
    ensures Sound(SweptTimeline(s, now, cal))
  {
    hide SweptTimeline;
    var after := SweptTimeline(s, now, cal);
    SweptRows(s, now, cal);
    assert forall i :: 0 <= i < |s.stages| ==> (Terminal(after.stages[i].status) <==> Terminal(s.stages[i].status));
    assert forall i :: 0 <= i < |s.stages| ==> (Eligible(after.stages, i) <==> Eligible(s.stages, i));
  }

  /**
   * After every action a PENDING or READY stage is READY iff it is first, independent or follows a
   * terminal stage; the timeline is COMPLETED iff all stages are terminal; completedAt is set iff
   * the stage is COMPLETED.
   */
  lemma ActKeepsSound(s: TimelineState, a: Action, now: int, cal: PlanningCalendar)
    requires Valid(cal) && Sound(s)
    ensures Sound(Act(s, a, now, cal))
  {
    hide Transition, Recalculated, Unlocked, SweptTimeline, ReadinessSound, AllTerminal, FinalSlaState;
    if Refusal(s, a) == None {
      match a
      case Start(i) => TransitionIsSound(s, i, StartedStage(s.stages[i], now), Started, now, cal);
      case Complete(i, _, _, _) => TransitionIsSound(s, i, CompletedStage(s.stages[i], now), WasCompleted, now, cal);
      case Skip(i, _) => TransitionIsSound(s, i, s.stages[i].(status := Skipped), WasSkipped, now, cal);
      case Reopen(i) => TransitionIsSound(s, i, ReopenedStage(s.stages[i]), Reopened, now, cal);
      case Pause(i) => TransitionIsSound(s, i, s.stages[i].(status := WaitingExternal), Paused, now, cal);
      case Resume(i) => TransitionIsSound(s, i, s.stages[i].(status := InProgress), Resumed, now, cal);
      case Unlock(i, _) => UnlockedIsSound(s, i, now);
      case OverrideDuration(i, remaining, _) => OverrideIsSound(s, i, remaining, now, cal);
      case SetTarget(target) =>
        RecalculatedIsSound(Retargeted(s, target), now, cal);
      case Recalculate => RecalculatedIsSound(s, now, cal);
      case ApproveException(_) =>
      case SlaSweep => SweptIsSound(s, now, cal);
    }
  }

  lemma OverrideIsSound(s: TimelineState, i: nat, remaining: int, now: int, cal: PlanningCalendar)
    requires Valid(cal) && Sound(s) && i < |s.stages|
    ensures Sound(Recalculated(Overridden(s, i, remaining, now), now, cal))
  {
    hide Recalculated;
    var overridden := Overridden(s, i, remaining, now);
    assert forall j :: 0 <= j < |s.stages| ==> overridden.stages[j].status == s.stages[j].status;
    assert forall j :: 0 <= j < |s.stages| ==> (Eligible(overridden.stages, j) <==> Eligible(s.stages, j));
    RecalculatedIsSound(overridden, now, cal);
  }

  lemma CreatedIsSound(templates: seq<Template>)
    requires templates != []
    ensures Sound(Created(templates))
  {
    var pending := seq(|templates|, i requires 0 <= i < |templates| => FromTemplate(templates[i]));
    ReadiedIsSound(pending);
    assert !Terminal(Created(templates).stages[0].status);
  }

  // ----- runs -----

  /** An action at a time, under the calendar then in force. */
  datatype Step = Step(action: Action, now: int, cal: PlanningCalendar)

  ghost predicate ValidSteps(steps: seq<Step>) {
    forall k :: 0 <= k < |steps| ==> Valid(steps[k].cal)
  }

  ghost function After(s: TimelineState, steps: seq<Step>): TimelineState
    requires ValidSteps(steps)
  {
    if steps == [] then s
    else
      var last := steps[|steps| - 1];
      Act(After(s, steps[..|steps| - 1]), last.action, last.now, last.cal)
  }

  /** Every run of a created timeline keeps the status invariants. */
  lemma {:induction false} EveryRunIsSound(templates: seq<Template>, steps: seq<Step>)
    requires templates != [] && ValidSteps(steps)
    ensures Sound(After(Created(templates), steps))
  {
    if steps == [] {
      CreatedIsSound(templates);
    } else {
      EveryRunIsSound(templates, steps[..|steps| - 1]);
      var last := steps[|steps| - 1];
      ActKeepsSound(After(Created(templates), steps[..|steps| - 1]), last.action, last.now, last.cal);
    }
  }

  /** No start ever happens before the stage's predecessor is completed or skipped. */
  lemma NoEarlyStart(templates: seq<Template>, steps: seq<Step>, i: nat)
    requires templates != [] && ValidSteps(steps)
    requires Refusal(After(Created(templates), steps), Start(i)) == None
    ensures var s := After(Created(templates), steps);
            i < |s.stages| && (s.stages[i].plan.dependsOnPrevious && i > 0 ==> Terminal(s.stages[i - 1].status))
  {
    EveryRunIsSound(templates, steps);
  }

  // ----- baselines and planned dates -----

  ghost predicate BaselinesKept(before: seq<Stage>, after: seq<Stage>) {
    |after| == |before| && forall i :: 0 <= i < |before| ==> BaselineKept(before[i].dates, after[i].dates)
  }

  lemma TransitionKeepsBaselines(
      s: TimelineState, i: nat, stage: Stage, kind: EventKind, now: int, cal: PlanningCalendar)
    requires Valid(cal) && i < |s.stages| && stage.dates == s.stages[i].dates
    ensures BaselinesKept(s.stages, Transition(s, i, stage, kind, now, cal).stages)
  {
    hide Recalculated, ReadyStatus, AllTerminal;
    RecalculatedRows(Settled(Logged(s, i, stage, kind, now)), now, cal);
  }

  lemma RecalculatedKeepsBaselines(before: TimelineState, s: TimelineState, now: int, cal: PlanningCalendar)
    requires Valid(cal) && |s.stages| == |before.stages|
    requires forall i :: 0 <= i < |s.stages| ==> s.stages[i].dates == before.stages[i].dates
    ensures BaselinesKept(before.stages, Recalculated(s, now, cal).stages)
  {
    hide Recalculated;
    RecalculatedRows(s, now, cal);
  }

  lemma UnlockedKeepsBaselines(s: TimelineState, i: nat, now: int)
    requires i < |s.stages|
    ensures BaselinesKept(s.stages, Unlocked(s, i, now).stages)
  {
    hide ReadyStatus, AllTerminal;
  }

  /** No action resets a baseline that is set. */
  lemma ActKeepsBaselines(s: TimelineState, a: Action, now: int, cal: PlanningCalendar)
    requires Valid(cal)
    ensures BaselinesKept(s.stages, Act(s, a, now, cal).stages)
  {
    hide Transition, Recalculated, Unlocked, SweptTimeline, BaselinesKept, FinalSlaState;
    assert BaselinesKept(s.stages, s.stages) by {
      SameBaselines(s.stages);
    }
    if Refusal(s, a) == None {
      match a
      case Start(i) => TransitionKeepsBaselines(s, i, StartedStage(s.stages[i], now), Started, now, cal);
      case Complete(i, _, _, _) =>
          TransitionKeepsBaselines(s, i, CompletedStage(s.stages[i], now), WasCompleted, now, cal);
      case Skip(i, _) => TransitionKeepsBaselines(s, i, s.stages[i].(status := Skipped), WasSkipped, now, cal);
      case Reopen(i) => TransitionKeepsBaselines(s, i, ReopenedStage(s.stages[i]), Reopened, now, cal);
      case Pause(i) => TransitionKeepsBaselines(s, i, s.stages[i].(status := WaitingExternal), Paused, now, cal);
      case Resume(i) => TransitionKeepsBaselines(s, i, s.stages[i].(status := InProgress), Resumed, now, cal);
      case Unlock(i, _) => UnlockedKeepsBaselines(s, i, now);
      case OverrideDuration(i, remaining, _) =>
        RecalculatedKeepsBaselines(s, Overridden(s, i, remaining, now), now, cal);
      case SetTarget(target) =>
        RecalculatedKeepsBaselines(s, Retargeted(s, target), now, cal);
      case Recalculate => RecalculatedKeepsBaselines(s, s, now, cal);
      case ApproveException(_) =>
      case SlaSweep => SweptKeepsBaselines(s, now, cal);
    }
  }

  lemma SameBaselines(stages: seq<Stage>)
    ensures BaselinesKept(stages, stages)
  {}

  lemma SweptKeepsBaselines(s: TimelineState, now: int, cal: PlanningCalendar)
    ensures BaselinesKept(s.stages, SweptTimeline(s, now, cal).stages)
  {
    hide SweptTimeline;
    SweptRows(s, now, cal);
  }

  lemma {:induction false} EveryRunKeepsBaselines(s: TimelineState, steps: seq<Step>)
    requires ValidSteps(steps)
    ensures BaselinesKept(s.stages, After(s, steps).stages)
  {
    hide Act;
    if steps != [] {
      EveryRunKeepsBaselines(s, steps[..|steps| - 1]);
      var last := steps[|steps| - 1];
      ActKeepsBaselines(After(s, steps[..|steps| - 1]), last.action, last.now, last.cal);
    }
  }

  predicate Replans(a: Action) {
    !a.Unlock? && !a.ApproveException? && !a.SlaSweep?
  }

  /** The dates of row i are what the planner computes from the rows. */
  ghost predicate FreshDates(s: TimelineState, i: nat, now: int, cal: PlanningCalendar)
    requires Valid(cal) && i < |s.stages|
  {
    var f := ForwardPlan(Plans(s.stages), now, cal)[i];
    var d := s.stages[i].dates;
    && d.plannedStart == Some(f.plannedStart) && d.plannedFinish == Some(f.plannedFinish)
    && d.baselineStart.Some? && d.baselineFinish.Some?
    && (s.targetDate == None ==> d.latestStart == None && d.latestFinish == None)
    && (s.targetDate.Some? ==>
          var r := ReversePlan(Plans(s.stages), s.targetDate.value, cal)[i];
          d.latestStart == Some(r.latestStart) && d.latestFinish == Some(r.latestFinish))
  }

  /** The stored dates and feasibility are those of the stored rows. */
  ghost predicate FreshPlan(s: TimelineState, now: int, cal: PlanningCalendar)
    requires Valid(cal)
  {
    && (forall i :: 0 <= i < |s.stages| ==> FreshDates(s, i, now, cal))
    && Feasibility(s.feasible, s.deficitDays)
        == ComputeFeasibility(FinalFinish(ForwardPlan(Plans(s.stages), now, cal)), s.targetDate, cal)
    && s.lastPlannedAt == Some(now)
  }

  lemma SamePlans(s: TimelineState, now: int, cal: PlanningCalendar)
    requires Valid(cal)
    ensures Plans(Recalculated(s, now, cal).stages) == Plans(s.stages)
  {
    hide Recalculated;
    RecalculatedRows(s, now, cal);
  }

  lemma RecalculatedIsFresh(s: TimelineState, now: int, cal: PlanningCalendar)
    requires Valid(cal)
    ensures FreshPlan(Recalculated(s, now, cal), now, cal)
  {
    hide Finish, StartFromFinish, ForwardPlan, ReversePlan, ComputeFeasibility, FinalFinish, Plans;
    SamePlans(s, now, cal);
  }

  lemma TransitionIsFresh(s: TimelineState, i: nat, stage: Stage, kind: EventKind, now: int, cal: PlanningCalendar)
    requires Valid(cal) && i < |s.stages|
    ensures FreshPlan(Transition(s, i, stage, kind, now, cal), now, cal)
  {
    hide Recalculated, FreshPlan, Settled;
    RecalculatedIsFresh(Settled(Logged(s, i, stage, kind, now)), now, cal);
  }

  /** After every action that replans, planned and latest dates and feasibility are those of the rows just written. */
  lemma ActReplans(s: TimelineState, a: Action, now: int, cal: PlanningCalendar)
    requires Valid(cal) && Replans(a) && Refusal(s, a) == None
    ensures FreshPlan(Act(s, a, now, cal), now, cal)
  {
    hide Recalculated, Transition, FreshPlan, FinalSlaState;
    forall replanned: TimelineState ensures FreshPlan(Recalculated(replanned, now, cal), now, cal) {
      RecalculatedIsFresh(replanned, now, cal);
    }
    forall i: nat, stage, kind | i < |s.stages| ensures FreshPlan(Transition(s, i, stage, kind, now, cal), now, cal) {
      TransitionIsFresh(s, i, stage, kind, now, cal);
    }
  }

  // ----- the SLA state written on completion -----

  /** What the sweep's classifier says of row i as it is stored. */
  function Classified(s: TimelineState, i: nat, now: int, cal: PlanningCalendar): Option<SlaState>
    requires i < |s.stages|
  {
    ComputeStageSlaState(SlaInput(s.stages[i], s.exceptionApproved), now, cal)
  }

  /** The planned finish that a recalculation gives a started stage. */
  function StartedFinish(stage: Stage, cal: PlanningCalendar): int
    requires Valid(cal) && stage.plan.startedAt.Some?
  {
    Finish(DateOnly(stage.plan.startedAt.value), stage.plan, cal)
  }

  /** The stored planned finish of every started stage follows from its start under this calendar. */
  ghost predicate StartedDatesFresh(s: TimelineState, cal: PlanningCalendar)
    requires Valid(cal)
  {
    forall i :: 0 <= i < |s.stages| && s.stages[i].plan.startedAt.Some? ==>
      s.stages[i].dates.plannedFinish == Some(StartedFinish(s.stages[i], cal))
  }

  /** The SLA state of a completed row fits the row's own dates. */
  predicate RowSettled(stage: Stage) {
    stage.status == Completed ==>
      stage.completedAt.Some? && stage.slaState == FinalSlaState(stage, stage.completedAt.value)
  }

  lemma FreshIsStartedFresh(s: TimelineState, now: int, cal: PlanningCalendar)
    requires Valid(cal) && FreshPlan(s, now, cal)
    ensures StartedDatesFresh(s, cal)
  {
    hide Finish, ForwardPlan, ReversePlan, ComputeFeasibility, FinalFinish;
    var plans := Plans(s.stages);
    forall i | 0 <= i < |s.stages| && s.stages[i].plan.startedAt.Some?
      ensures s.stages[i].dates.plannedFinish == Some(StartedFinish(s.stages[i], cal))
    {
      assert FreshDates(s, i, now, cal);
      StartedStageIsAnchored(plans, now, cal, i);
    }
  }

  /** What a transition leaves of each row. */
  lemma TransitionRow(
      s: TimelineState, i: nat, stage: Stage, kind: EventKind, now: int, cal: PlanningCalendar, j: nat)
    requires Valid(cal) && i < |s.stages| && j < |s.stages|
    ensures var after := Transition(s, i, stage, kind, now, cal);
            var from := if j == i then stage else s.stages[j];
            && j < |after.stages| == |s.stages|
            && after.stages[j] == from.(status := after.stages[j].status, dates := after.stages[j].dates)
            && (after.stages[j].status == Completed <==> from.status == Completed)
            && (after.stages[j].status == from.status ||
                (after.stages[j].status in {Pending, Ready} && from.status in {Pending, Ready}))
  {
    hide Recalculated, Eligible, AllTerminal;
    RecalculatedRows(Settled(Logged(s, i, stage, kind, now)), now, cal);
  }

  /** The row of a stage just completed: its SLA state comes from the old dates, its dates from the recalculation. */
  lemma CompletedRow(s: TimelineState, a: Action, now: int, cal: PlanningCalendar)
    requires Valid(cal) && Sound(s) && a.Complete? && Refusal(s, a) == None
    ensures var row, after := s.stages[a.i], Act(s, a, now, cal);
            && row.plan.startedAt.Some?
            && a.i < |after.stages|
            && after.stages[a.i].status == Completed
            && after.stages[a.i].completedAt == Some(now)
            && after.stages[a.i].slaState == FinalSlaState(row, now)
            && after.stages[a.i].dates.plannedFinish == Some(StartedFinish(row, cal))
  {
    hide Transition, FinalSlaState, StartedFinish, FreshPlan, ReadinessSound;
    var row := s.stages[a.i];
    TransitionRow(s, a.i, CompletedStage(row, now), WasCompleted, now, cal, a.i);
    ActReplans(s, a, now, cal);
    FreshIsStartedFresh(Act(s, a, now, cal), now, cal);
    SamePlanSameFinish(row, Act(s, a, now, cal).stages[a.i], cal);
  }

  lemma SamePlanSameFinish(a: Stage, b: Stage, cal: PlanningCalendar)
    requires Valid(cal) && a.plan == b.plan && a.plan.startedAt.Some?
    ensures StartedFinish(a, cal) == StartedFinish(b, cal)
  {}

  /**
   * The SLA state written on completion is what the classifier says of the stored row, at any later
   * time, exactly when the planned finish loaded and the planned finish recalculated from the start
   * lie on the same side of the completion day.
   */
  lemma CompletionStateAgrees(
      s: TimelineState, a: Action, now: int, cal: PlanningCalendar, later: int, laterCal: PlanningCalendar)
    requires Valid(cal) && Sound(s) && a.Complete? && Refusal(s, a) == None
    ensures var row, after := s.stages[a.i], Act(s, a, now, cal);
            && row.plan.startedAt.Some? && a.i < |after.stages|
            && (after.stages[a.i].slaState == Classified(after, a.i, later, laterCal) <==>
                && row.dates.plannedFinish.Some?
                && (DateOnly(now) <= row.dates.plannedFinish.value <==> DateOnly(now) <= StartedFinish(row, cal)))
  {
    hide Act, StartedFinish, Sound;
    CompletedRow(s, a, now, cal);
  }

  lemma UnlockedRow(s: TimelineState, i: nat, now: int, j: nat)
    requires i < |s.stages| && j < |s.stages|
    ensures var after := Unlocked(s, i, now);
            && j < |after.stages| == |s.stages|
            && after.stages[j].plan == s.stages[j].plan && after.stages[j].dates == s.stages[j].dates
            && (after.stages[j].status == Completed ==> after.stages[j] == s.stages[j])
  {
    hide Eligible, AllTerminal;
  }

  /** Row j keeps everything but its dates, if it is then COMPLETED. */
  ghost predicate CompletedRowKept(s: TimelineState, after: TimelineState, j: nat) {
    && j < |s.stages| == |after.stages|
    && (after.stages[j].status == Completed ==>
          && s.stages[j].status == Completed
          && after.stages[j] == s.stages[j].(dates := after.stages[j].dates))
  }

  lemma TransitionKeepsCompleted(
      s: TimelineState, i: nat, stage: Stage, kind: EventKind, now: int, cal: PlanningCalendar, j: nat)
    requires Valid(cal) && i < |s.stages| && j < |s.stages| && (i == j ==> stage.status != Completed)
    ensures CompletedRowKept(s, Transition(s, i, stage, kind, now, cal), j)
  {
    hide Transition;
    TransitionRow(s, i, stage, kind, now, cal, j);
  }

  lemma RecalculatedKeepsCompleted(before: TimelineState, s: TimelineState, now: int, cal: PlanningCalendar, j: nat)
    requires Valid(cal) && CompletedRowKept(before, s, j)
    ensures CompletedRowKept(before, Recalculated(s, now, cal), j)
  {
    hide Recalculated;
    RecalculatedRows(s, now, cal);
  }

  lemma OverriddenKeepsCompleted(s: TimelineState, i: nat, remaining: int, now: int, j: nat)
    requires i < |s.stages| && j < |s.stages| && s.stages[i].status != Completed
    ensures CompletedRowKept(s, Overridden(s, i, remaining, now), j)
  {}

  /** What every action leaves of a row that it does not complete. */
  lemma OtherRows(s: TimelineState, a: Action, now: int, cal: PlanningCalendar, j: nat)
    requires Valid(cal) && j < |s.stages| && Refusal(s, a) == None && !(a.Complete? && a.i == j)
    ensures CompletedRowKept(s, Act(s, a, now, cal), j)
    ensures !Replans(a) ==>
              var after := Act(s, a, now, cal);
              after.stages[j].plan == s.stages[j].plan && after.stages[j].dates == s.stages[j].dates
  {
    hide Transition, Recalculated, SweptTimeline, CompletedRowKept, Unlocked, Overridden, CompletedStage;
    match a
    case Unlock(i, _) => UnlockedKeepsCompleted(s, i, now, j);
    case OverrideDuration(i, remaining, _) =>
      OverriddenKeepsCompleted(s, i, remaining, now, j);
      RecalculatedKeepsCompleted(s, Overridden(s, i, remaining, now), now, cal, j);
    case SetTarget(target) =>
      SameRowsKept(s, Retargeted(s, target), j);
      RecalculatedKeepsCompleted(s, Retargeted(s, target), now, cal, j);
    case Recalculate =>
      SameRowsKept(s, s, j);
      RecalculatedKeepsCompleted(s, s, now, cal, j);
    case ApproveException(_) => SameRowsKept(s, s.(exceptionApproved := true), j);
    case SlaSweep => SweptKeepsCompleted(s, now, cal, j);
    case Start(i) => TransitionKeepsCompleted(s, i, StartedStage(s.stages[i], now), Started, now, cal, j);
    case Complete(i, _, _, _) =>
      TransitionKeepsCompleted(s, i, CompletedStage(s.stages[i], now), WasCompleted, now, cal, j);
    case Skip(i, _) => TransitionKeepsCompleted(s, i, s.stages[i].(status := Skipped), WasSkipped, now, cal, j);
    case Reopen(i) => TransitionKeepsCompleted(s, i, ReopenedStage(s.stages[i]), Reopened, now, cal, j);
    case Pause(i) => TransitionKeepsCompleted(s, i, s.stages[i].(status := WaitingExternal), Paused, now, cal, j);
    case Resume(i) => TransitionKeepsCompleted(s, i, s.stages[i].(status := InProgress), Resumed, now, cal, j);
  }

  lemma SameRowsKept(s: TimelineState, after: TimelineState, j: nat)
    requires j < |s.stages| && after.stages == s.stages
    ensures CompletedRowKept(s, after, j)
  {}

  lemma UnlockedKeepsCompleted(s: TimelineState, i: nat, now: int, j: nat)
    requires i < |s.stages| && j < |s.stages|
    ensures var after := Unlocked(s, i, now);
            && CompletedRowKept(s, after, j)
            && after.stages[j].plan == s.stages[j].plan && after.stages[j].dates == s.stages[j].dates
  {
    hide Unlocked;
    UnlockedRow(s, i, now, j);
  }

  lemma SweptKeepsCompleted(s: TimelineState, now: int, cal: PlanningCalendar, j: nat)
    requires j < |s.stages|
    ensures var after := SweptTimeline(s, now, cal);
            && CompletedRowKept(s, after, j)
            && after.stages[j].plan == s.stages[j].plan && after.stages[j].dates == s.stages[j].dates
  {
    hide SweptTimeline;
    SweptRows(s, now, cal);
  }

  lemma RefusedActs(s: TimelineState, a: Action, now: int, cal: PlanningCalendar)
    requires Valid(cal) && Refusal(s, a).Some?
    ensures Act(s, a, now, cal) == s
  {}

  lemma ActLength(s: TimelineState, a: Action, now: int, cal: PlanningCalendar)
    requires Valid(cal)
    ensures |Act(s, a, now, cal).stages| == |s.stages|
  {
    hide Act;
    ActKeepsBaselines(s, a, now, cal);
  }

  /** A recalculation that moves no planned finish leaves the row of a completed stage in line. */
  lemma RowStaysSettled(s: TimelineState, after: TimelineState, i: nat, cal: PlanningCalendar)
    requires Valid(cal) && Sound(s) && StartedDatesFresh(s, cal) && StartedDatesFresh(after, cal)
    requires i < |s.stages| && i < |after.stages| && RowSettled(s.stages[i])
    requires after.stages[i].status == Completed ==>
               && s.stages[i].status == Completed
               && after.stages[i] == s.stages[i].(dates := after.stages[i].dates)
    ensures RowSettled(after.stages[i])
  {
    hide StartedFinish, ReadinessSound, AllTerminal;
    if after.stages[i].status == Completed {
      SamePlanSameFinish(s.stages[i], after.stages[i], cal);
    }
  }

  /** Under an unchanged calendar every action keeps the SLA states of completed rows in line with their dates. */
  lemma ActKeepsSettled(s: TimelineState, a: Action, now: int, cal: PlanningCalendar)
    requires Valid(cal) && Sound(s) && StartedDatesFresh(s, cal)
    requires forall i :: 0 <= i < |s.stages| ==> RowSettled(s.stages[i])
    ensures var after := Act(s, a, now, cal);
            && StartedDatesFresh(after, cal)
            && forall i :: 0 <= i < |after.stages| ==> RowSettled(after.stages[i])
  {
    hide Act, FreshPlan, StartedFinish, ReadinessSound, AllTerminal;
    var after := Act(s, a, now, cal);
    if Refusal(s, a).Some? {
      RefusedActs(s, a, now, cal);
    } else {
      ActLength(s, a, now, cal);
      if Replans(a) {
        ActReplans(s, a, now, cal);
        FreshIsStartedFresh(after, now, cal);
      }
      forall i | 0 <= i < |after.stages| ensures RowSettled(after.stages[i]) {
        if a.Complete? && a.i == i {
          CompletedRow(s, a, now, cal);
        } else {
          OtherRows(s, a, now, cal, i);
          if Replans(a) {
            RowStaysSettled(s, after, i, cal);
          }
        }
      }
      if !Replans(a) {
        forall i | 0 <= i < |after.stages| && after.stages[i].plan.startedAt.Some?
          ensures after.stages[i].dates.plannedFinish == Some(StartedFinish(after.stages[i], cal))
        {
          OtherRows(s, a, now, cal, i);
          SamePlanSameFinish(s.stages[i], after.stages[i], cal);
        }
      }
    }
  }

  ghost predicate OneCalendar(steps: seq<Step>, cal: PlanningCalendar) {
    forall k :: 0 <= k < |steps| ==> steps[k].cal == cal
  }

  lemma {:induction false} EveryRunIsSettled(templates: seq<Template>, steps: seq<Step>, cal: PlanningCalendar)
    requires templates != [] && Valid(cal) && OneCalendar(steps, cal)
    ensures var s := After(Created(templates), steps);
            && StartedDatesFresh(s, cal)
            && forall i :: 0 <= i < |s.stages| ==> RowSettled(s.stages[i])
  {
    hide Act, StartedFinish, Sound;
    if steps != [] {
      var front, last := steps[..|steps| - 1], steps[|steps| - 1];
      EveryRunIsSettled(templates, front, cal);
      EveryRunIsSound(templates, front);
      ActKeepsSettled(After(Created(templates), front), last.action, last.now, cal);
    }
  }

  /**
   * In every run under one calendar the stored SLA state of a completed stage is what the classifier
   * says of its stored row, at any time and whatever exception is approved.
   */
  lemma CompletedStatesAgree(
      templates: seq<Template>, steps: seq<Step>, cal: PlanningCalendar, i: nat, later: int, laterCal: PlanningCalendar)
    requires templates != [] && Valid(cal) && OneCalendar(steps, cal)
    requires var s := After(Created(templates), steps); i < |s.stages| && s.stages[i].status == Completed
    ensures var s := After(Created(templates), steps); s.stages[i].slaState == Classified(s, i, later, laterCal)
  {
    hide StartedDatesFresh;
    EveryRunIsSettled(templates, steps, cal);
  }

  // ----- a holiday removed between start and completion -----

  const WITH_HOLIDAY := PlanningCalendar([0, 1, 2, 3, 4, 5, 6], {1})
  const WITHOUT_HOLIDAY := PlanningCalendar([0, 1, 2, 3, 4, 5, 6], {})
  const TWO_DAYS := Template(Some(2), Some(Days), false, None, true, false, None, None, false)

  /** A two-day stage, started on day 0, when day 1 is a holiday, and completed on day 2, when it no longer is. */
  const REMOVED_HOLIDAY_RUN :=
    [Step(Start(0), 0, WITH_HOLIDAY), Step(Complete(0, true, false, false), 2 * DAY_MS, WITHOUT_HOLIDAY)]

  lemma FinishWithHoliday()
    ensures AddWorkingDays(0, 1, WITH_HOLIDAY) == 2
  {
    hide Walk, IsWorkingDay;
    EveryWeekdayWorks(1, WITH_HOLIDAY);
    EveryWeekdayWorks(2, WITH_HOLIDAY);
    WorkingDaysOfTwo(1, WITH_HOLIDAY);
    AddWorkingDaysMeaning(0, 1, 2, WITH_HOLIDAY);
  }

  /** With all seven weekdays working, only holidays are off. */
  lemma EveryWeekdayWorks(d: int, cal: PlanningCalendar)
    requires cal.workingWeekdays == [0, 1, 2, 3, 4, 5, 6]
    ensures IsWorkingDay(d, cal) <==> d !in cal.holidays
  {
    assert cal.workingWeekdays[WeekdayOf(d)] == WeekdayOf(d);
  }

  lemma WorkingDaysOfTwo(d: int, cal: PlanningCalendar)
    requires !IsWorkingDay(d, cal) && IsWorkingDay(d + 1, cal)
    ensures WorkingDaysIn(d, d + 1, cal) == {d + 1}
  {
    hide IsWorkingDay;
  }

  lemma FinishWithoutHoliday()
    ensures AddWorkingDays(0, 1, WITHOUT_HOLIDAY) == 1
  {
    hide Walk, IsWorkingDay;
    EveryWeekdayWorks(1, WITHOUT_HOLIDAY);
    assert WorkingDaysIn(1, 1, WITHOUT_HOLIDAY) == {1};
    AddWorkingDaysMeaning(0, 1, 1, WITHOUT_HOLIDAY);
  }

  /** The started stage is planned around the holiday. */
  lemma StartedUnderHoliday()
    ensures var s := Act(Created([TWO_DAYS]), Start(0), 0, WITH_HOLIDAY);
            && Sound(s) && |s.stages| == 1
            && s.stages[0].status == InProgress && !s.stages[0].enforceRequiredOnComplete
            && s.stages[0].plan == PlanStage(Some(2), Some(Days), false, None, true, None, Some(0))
            && s.stages[0].dates.plannedFinish == Some(2)
  {
    hide Transition, Sound, Walk, FreshPlan;
    var created := Created([TWO_DAYS]);
    var s := Act(created, Start(0), 0, WITH_HOLIDAY);
    CreatedIsSound([TWO_DAYS]);
    ActKeepsSound(created, Start(0), 0, WITH_HOLIDAY);
    ActLength(created, Start(0), 0, WITH_HOLIDAY);
    TransitionRow(created, 0, StartedStage(created.stages[0], 0), Started, 0, WITH_HOLIDAY, 0);
    ActReplans(created, Start(0), 0, WITH_HOLIDAY);
    FreshIsStartedFresh(s, 0, WITH_HOLIDAY);
    FinishWithHoliday();
  }

  /** The stage is stored as completed on time, and its stored row is classified as late. */
  lemma RemovedHolidayMisleads(later: int, laterCal: PlanningCalendar)
    ensures ValidSteps(REMOVED_HOLIDAY_RUN)
    ensures var s := After(Created([TWO_DAYS]), REMOVED_HOLIDAY_RUN);
            && |s.stages| == 1
            && s.stages[0].slaState == Some(CompletedOnTime)
            && Classified(s, 0, later, laterCal) == Some(CompletedLate)
  {
    hide Act, Sound, Walk, Created;
    var start, finish := REMOVED_HOLIDAY_RUN[0], REMOVED_HOLIDAY_RUN[1];
    assert REMOVED_HOLIDAY_RUN[..1] == [start];
    var started := Act(Created([TWO_DAYS]), start.action, start.now, start.cal);
    assert After(Created([TWO_DAYS]), [start][..0]) == Created([TWO_DAYS]);
    assert After(Created([TWO_DAYS]), [start]) == started;
    StartedUnderHoliday();
    CompletedRow(started, finish.action, finish.now, finish.cal);
    ActLength(started, finish.action, finish.now, finish.cal);
    FinishWithoutHoliday();
  }
}
