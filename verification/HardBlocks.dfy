/**
 * Hard blocks over whole runs of the timeline: a stage is blocked at most once, and how a stage that
 * had not begun can come to be IN_PROGRESS without a start.
 */
module HardBlocks {
  import opened Basics
  import opened Gregorian
  import opened WorkingDays
  import opened Stages
  import opened Sla
  import opened TimelineModel
  import opened TimelineLaws
  import opened Performance

  // ----- what a sweep blocks -----

  /** A sweep blocks exactly the open hard-block rows, never unlocked, whose planned finish has passed. */
  lemma SweepBlocksWhen(stage: Stage, exceptionApproved: bool, now: int, cal: PlanningCalendar)
    ensures var input := SlaInput(stage, exceptionApproved);
            SweepBlocks(stage, exceptionApproved, now, cal) <==>
            && OnTheClock(input) && stage.hardBlock && stage.hardBlockUnlockedAt == None
            && stage.dates.plannedFinish.value < DateOnly(now)
  {
    hide ComputeStageSlaState, ShouldHardBlock;
    HardBlockOnlyWhenOverdue(SlaInput(stage, exceptionApproved), now, cal);
  }

  // ----- what an action does to a stage's block -----

  /** Nothing is logged for stage i and its block is as before. */
  ghost predicate BlockUntouched(s: TimelineState, s': TimelineState, i: nat) {
    && i < |s.stages| == |s'.stages|
    && StageEvents(s'.events, i) == StageEvents(s.events, i)
    && (s'.stages[i].status == Blocked <==> s.stages[i].status == Blocked)
    && s'.stages[i].hardBlockUnlockedAt == s.stages[i].hardBlockUnlockedAt
  }

  /** One event is logged for stage i; it is a block exactly when the stage is then BLOCKED. */
  ghost predicate BlockChanged(s: TimelineState, s': TimelineState, i: nat, e: Event) {
    && i < |s.stages| == |s'.stages|
    && StageEvents(s'.events, i) == StageEvents(s.events, i) + [e]
    && e.fromStatus == s.stages[i].status
    && (e.kind == WasBlocked <==> s'.stages[i].status == Blocked)
    && (e.kind == WasBlocked ==>
          && s.stages[i].status in {Pending, Ready, InProgress}
          && s.stages[i].hardBlockUnlockedAt == None && s'.stages[i].hardBlockUnlockedAt == None)
    && (s.stages[i].status == Blocked || s.stages[i].hardBlockUnlockedAt.Some? ==>
          s'.stages[i].hardBlockUnlockedAt.Some?)
    && (s.stages[i].status != Blocked ==> s'.stages[i].hardBlockUnlockedAt == s.stages[i].hardBlockUnlockedAt)
  }

  ghost predicate BlockStep(s: TimelineState, s': TimelineState, i: nat) {
    BlockUntouched(s, s', i) || exists e :: BlockChanged(s, s', i, e)
  }

  lemma TransitionBlocks(
      s: TimelineState, k: nat, stage: Stage, kind: EventKind, now: int, cal: PlanningCalendar, i: nat)
    requires Valid(cal) && k < |s.stages| && i < |s.stages|
    requires s.stages[k].status != Blocked && stage.status != Blocked && kind != WasBlocked
    requires stage.hardBlockUnlockedAt == s.stages[k].hardBlockUnlockedAt
    ensures BlockStep(s, Transition(s, k, stage, kind, now, cal), i)
  {
    hide Recalculated, Settled, StageEvents;
    var after := Transition(s, k, stage, kind, now, cal);
    var e := Event(k, kind, s.stages[k].status, stage.status, now);
    TransitionRow(s, k, stage, kind, now, cal, i);
    TransitionEvents(s, k, stage, kind, now, cal);
    StageEventsAppend(s.events, e, i);
    if i == k {
      assert BlockChanged(s, after, i, e);
    } else {
      assert BlockUntouched(s, after, i);
    }
  }

  lemma TransitionEvents(s: TimelineState, k: nat, stage: Stage, kind: EventKind, now: int, cal: PlanningCalendar)
    requires Valid(cal) && k < |s.stages|
    ensures Transition(s, k, stage, kind, now, cal).events ==
            s.events + [Event(k, kind, s.stages[k].status, stage.status, now)]
  {
    hide Recalculated;
    RecalculatedRows(Settled(Logged(s, k, stage, kind, now)), now, cal);
  }

  lemma UnlockedBlocks(s: TimelineState, k: nat, now: int, i: nat)
    requires k < |s.stages| && i < |s.stages| && s.stages[k].status == Blocked
    ensures BlockStep(s, Unlocked(s, k, now), i)
  {
    hide StageEvents, Eligible, AllTerminal;
    var after := Unlocked(s, k, now);
    var e := Event(k, Unblocked, Blocked, after.stages[k].status, now);
    StageEventsAppend(s.events, e, i);
    if i == k {
      assert BlockChanged(s, after, i, e);
    } else {
      assert BlockUntouched(s, after, i);
    }
  }

  lemma OverrideBlocks(s: TimelineState, k: nat, remaining: int, now: int, cal: PlanningCalendar, i: nat)
    requires Valid(cal) && k < |s.stages| && i < |s.stages| && s.stages[k].status != Blocked
    ensures BlockStep(s, Recalculated(Overridden(s, k, remaining, now), now, cal), i)
  {
    hide Recalculated, StageEvents;
    var after := Recalculated(Overridden(s, k, remaining, now), now, cal);
    var status := s.stages[k].status;
    var e := Event(k, DurationOverridden, status, status, now);
    RecalculatedRows(Overridden(s, k, remaining, now), now, cal);
    StageEventsAppend(s.events, e, i);
    if i == k {
      assert BlockChanged(s, after, i, e);
    } else {
      assert BlockUntouched(s, after, i);
    }
  }

  lemma SweptBlocks(s: TimelineState, now: int, cal: PlanningCalendar, i: nat)
    requires i < |s.stages|
    ensures BlockStep(s, SweptTimeline(s, now, cal), i)
  {
    hide SweepBlocks, StageEvents, SweepEvents;
    var after := SweptTimeline(s, now, cal);
    if s.completed {
      assert BlockUntouched(s, after, i);
    } else {
      StageEventsConcat(s.events, SweepEvents(s.stages, |s.stages|, s.exceptionApproved, now, cal), i);
      SweepEventsOf(s.stages, |s.stages|, s.exceptionApproved, now, cal, i);
      SweepBlocksWhen(s.stages[i], s.exceptionApproved, now, cal);
      if SweepBlocks(s.stages[i], s.exceptionApproved, now, cal) {
        assert BlockChanged(s, after, i, Event(i, WasBlocked, s.stages[i].status, Blocked, now));
      } else {
        assert BlockUntouched(s, after, i);
      }
    }
  }

  lemma RecalculatedBlocks(s: TimelineState, before: TimelineState, now: int, cal: PlanningCalendar, i: nat)
    requires Valid(cal) && i < |s.stages| && s.stages == before.stages && s.events == before.events
    ensures BlockStep(before, Recalculated(s, now, cal), i)
  {
    hide Recalculated, StageEvents;
    RecalculatedRows(s, now, cal);
    assert BlockUntouched(before, Recalculated(s, now, cal), i);
  }

  /**
   * Every action either leaves a stage's block alone or logs what it does to it; a stage becomes BLOCKED
   * exactly by a sweep of an ACTIVE timeline that blocks it, and ceases to be by its own unlock.
   */
  lemma ActBlocks(s: TimelineState, a: Action, now: int, cal: PlanningCalendar, i: nat)
    requires Valid(cal) && i < |s.stages|
    ensures var after := Act(s, a, now, cal);
            && BlockStep(s, after, i)
            && |after.stages| == |s.stages|
            && (s.stages[i].status != Blocked ==>
                  (after.stages[i].status == Blocked <==>
                   a.SlaSweep? && !s.completed && SweepBlocks(s.stages[i], s.exceptionApproved, now, cal)))
            && (s.stages[i].status == Blocked ==> (after.stages[i].status != Blocked <==> a == Unlock(i, true)))
  {
    hide Act, BlockStep, SweepBlocks;
    ActLength(s, a, now, cal);
    ActLogsBlocks(s, a, now, cal, i);
    BlockedAfter(s, a, now, cal, i);
  }

  lemma BlockedAfterTransition(
      s: TimelineState, k: nat, stage: Stage, kind: EventKind, now: int, cal: PlanningCalendar, i: nat)
    requires Valid(cal) && k < |s.stages| && i < |s.stages| && stage.status != Blocked && s.stages[k].status != Blocked
    ensures var after := Transition(s, k, stage, kind, now, cal);
            |after.stages| == |s.stages| && (after.stages[i].status == Blocked <==> s.stages[i].status == Blocked)
  {
    hide Transition;
    TransitionRow(s, k, stage, kind, now, cal, i);
  }

  lemma BlockedAfterUnlock(s: TimelineState, k: nat, now: int, i: nat)
    requires k < |s.stages| && i < |s.stages|
    ensures var after := Unlocked(s, k, now);
            && |after.stages| == |s.stages|
            && (after.stages[i].status == Blocked <==> i != k && s.stages[i].status == Blocked)
  {
    hide Eligible, AllTerminal;
  }

  lemma BlockedAfterSweep(s: TimelineState, now: int, cal: PlanningCalendar, i: nat)
    requires i < |s.stages|
    ensures var after := SweptTimeline(s, now, cal);
            && |after.stages| == |s.stages|
            && (after.stages[i].status == Blocked <==>
                || s.stages[i].status == Blocked
                || (!s.completed && SweepBlocks(s.stages[i], s.exceptionApproved, now, cal)))
  {
    hide SweepBlocks, SweepEvents, Swept;
    SweptStatus(s.stages[i], s.exceptionApproved, now, cal);
  }

  lemma SweptStatus(stage: Stage, exceptionApproved: bool, now: int, cal: PlanningCalendar)
    ensures Swept(stage, exceptionApproved, now, cal).status ==
            if SweepBlocks(stage, exceptionApproved, now, cal) then Blocked else stage.status
  {
    hide ComputeStageSlaState, ShouldHardBlock;
  }

  lemma BlockedAfter(s: TimelineState, a: Action, now: int, cal: PlanningCalendar, i: nat)
    requires Valid(cal) && i < |s.stages|
    ensures var after := Act(s, a, now, cal);
            && |after.stages| == |s.stages|
            && (after.stages[i].status == Blocked <==>
                if s.stages[i].status == Blocked then a != Unlock(i, true)
                else a.SlaSweep? && !s.completed && SweepBlocks(s.stages[i], s.exceptionApproved, now, cal))
  {
    hide Transition, Recalculated, Unlocked, SweptTimeline, SweepBlocks, Overridden, CompletedStage;
    if Refusal(s, a) == None {
      match a
      case Start(k) => BlockedAfterTransition(s, k, StartedStage(s.stages[k], now), Started, now, cal, i);
      case Complete(k, _, _, _) =>
        CompletedStatus(s.stages[k], now);
        BlockedAfterTransition(s, k, CompletedStage(s.stages[k], now), WasCompleted, now, cal, i);
      case Skip(k, _) => BlockedAfterTransition(s, k, s.stages[k].(status := Skipped), WasSkipped, now, cal, i);
      case Reopen(k) => BlockedAfterTransition(s, k, ReopenedStage(s.stages[k]), Reopened, now, cal, i);
      case Pause(k) => BlockedAfterTransition(s, k, s.stages[k].(status := WaitingExternal), Paused, now, cal, i);
      case Resume(k) => BlockedAfterTransition(s, k, s.stages[k].(status := InProgress), Resumed, now, cal, i);
      case Unlock(k, _) => BlockedAfterUnlock(s, k, now, i);
      case OverrideDuration(k, remaining, _) =>
        OverriddenStatus(s, k, remaining, now, i);
        RecalculatedRows(Overridden(s, k, remaining, now), now, cal);
      case SetTarget(target) => RecalculatedRows(Retargeted(s, target), now, cal);
      case Recalculate => RecalculatedRows(s, now, cal);
      case ApproveException(_) =>
      case SlaSweep => BlockedAfterSweep(s, now, cal, i);
    }
  }

  lemma CompletedStatus(stage: Stage, now: int)
    ensures CompletedStage(stage, now).status == Completed
  {}

  lemma OverriddenStatus(s: TimelineState, k: nat, remaining: int, now: int, i: nat)
    requires k < |s.stages| && i < |s.stages|
    ensures |Overridden(s, k, remaining, now).stages| == |s.stages|
    ensures Overridden(s, k, remaining, now).stages[i].status == s.stages[i].status
  {}

  lemma ActLogsBlocks(s: TimelineState, a: Action, now: int, cal: PlanningCalendar, i: nat)
    requires Valid(cal) && i < |s.stages|
    ensures BlockStep(s, Act(s, a, now, cal), i)
  {
    hide Transition, Recalculated, Unlocked, SweptTimeline, StageEvents, FinalSlaState, BlockStep;
    if Refusal(s, a).Some? {
      NothingHappens(s, s, i);
    } else {
      match a
      case Start(k) => TransitionBlocks(s, k, StartedStage(s.stages[k], now), Started, now, cal, i);
      case Complete(k, _, _, _) => TransitionBlocks(s, k, CompletedStage(s.stages[k], now), WasCompleted, now, cal, i);
      case Skip(k, _) => TransitionBlocks(s, k, s.stages[k].(status := Skipped), WasSkipped, now, cal, i);
      case Reopen(k) => TransitionBlocks(s, k, ReopenedStage(s.stages[k]), Reopened, now, cal, i);
      case Pause(k) => TransitionBlocks(s, k, s.stages[k].(status := WaitingExternal), Paused, now, cal, i);
      case Resume(k) => TransitionBlocks(s, k, s.stages[k].(status := InProgress), Resumed, now, cal, i);
      case Unlock(k, _) => UnlockedBlocks(s, k, now, i);
      case OverrideDuration(k, remaining, _) => OverrideBlocks(s, k, remaining, now, cal, i);
      case SetTarget(target) => RecalculatedBlocks(Retargeted(s, target), s, now, cal, i);
      case Recalculate => RecalculatedBlocks(s, s, now, cal, i);
      case ApproveException(_) => NothingHappens(s, s.(exceptionApproved := true), i);
      case SlaSweep => SweptBlocks(s, now, cal, i);
    }
  }

  lemma NothingHappens(before: TimelineState, after: TimelineState, i: nat)
    requires i < |before.stages| && after.stages == before.stages && after.events == before.events
    ensures BlockStep(before, after, i)
  {
    assert BlockUntouched(before, after, i);
  }

  /** A sweep logs, for every stage it blocks, one block from the stage's status at this time, and nothing else. */
  lemma SweepLogsItsBlocks(s: TimelineState, now: int, cal: PlanningCalendar, i: nat)
    requires Valid(cal) && i < |s.stages|
    ensures var after := Act(s, SlaSweep, now, cal);
            && |after.stages| == |s.stages|
            && StageEvents(after.events, i) ==
               StageEvents(s.events, i) +
               if s.stages[i].status != Blocked && after.stages[i].status == Blocked
               then [Event(i, WasBlocked, s.stages[i].status, Blocked, now)] else []
  {
    hide SweepBlocks, StageEvents, SweepEvents;
    BlockedAfterSweep(s, now, cal, i);
    if !s.completed {
      StageEventsConcat(s.events, SweepEvents(s.stages, |s.stages|, s.exceptionApproved, now, cal), i);
      SweepEventsOf(s.stages, |s.stages|, s.exceptionApproved, now, cal, i);
      SweepBlocksWhen(s.stages[i], s.exceptionApproved, now, cal);
    } else {
      assert StageEvents(s.events, i) + [] == StageEvents(s.events, i);
    }
  }

  // ----- a stage is blocked at most once -----

  function BlockCount(events: seq<Event>): nat {
    if events == [] then 0
    else BlockCount(events[..|events| - 1]) + if events[|events| - 1].kind == WasBlocked then 1 else 0
  }

  lemma BlockCountAppend(events: seq<Event>, e: Event)
    ensures BlockCount(events + [e]) == BlockCount(events) + if e.kind == WasBlocked then 1 else 0
  {
    assert (events + [e])[..|events|] == events;
  }

  /**
   * A stage has been blocked once if it is BLOCKED or has been unlocked, and otherwise never; it is never
   * BLOCKED once it has been unlocked. While it is BLOCKED, its last event is the block.
   */
  ghost predicate BlockSound(s: TimelineState, i: nat) {
    && i < |s.stages|
    && var row, es := s.stages[i], StageEvents(s.events, i);
       && BlockCount(es) == (if row.status == Blocked || row.hardBlockUnlockedAt.Some? then 1 else 0)
       && !(row.status == Blocked && row.hardBlockUnlockedAt.Some?)
       && (row.status == Blocked ==>
             es != [] && es[|es| - 1].kind == WasBlocked && es[|es| - 1].fromStatus in {Pending, Ready, InProgress})
  }

  lemma BlockStepKeepsSound(s: TimelineState, s': TimelineState, i: nat)
    requires BlockSound(s, i) && BlockStep(s, s', i)
    ensures BlockSound(s', i)
  {
    hide StageEvents, BlockCount;
    if e :| BlockChanged(s, s', i, e) {
      BlockCountAppend(StageEvents(s.events, i), e);
    }
  }

  lemma CreatedIsBlockSound(templates: seq<Template>, i: nat)
    requires i < |templates|
    ensures |Created(templates).stages| == |templates| && BlockSound(Created(templates), i)
  {}

  lemma {:induction false} EveryRunIsBlockSound(templates: seq<Template>, steps: seq<Step>, i: nat)
    requires i < |templates| && ValidSteps(steps)
    ensures |After(Created(templates), steps).stages| == |templates|
    ensures BlockSound(After(Created(templates), steps), i)
  {
    hide Act, Created, BlockSound, BlockStep;
    if steps == [] {
      CreatedIsBlockSound(templates, i);
    } else {
      var front, last := steps[..|steps| - 1], steps[|steps| - 1];
      var s := After(Created(templates), front);
      EveryRunIsBlockSound(templates, front, i);
      ActLength(s, last.action, last.now, last.cal);
      ActBlocks(s, last.action, last.now, last.cal, i);
      BlockStepKeepsSound(s, Act(s, last.action, last.now, last.cal), i);
    }
  }

  /** In every run a stage is blocked at most once: an unlock is for good. */
  lemma BlockedAtMostOnce(templates: seq<Template>, steps: seq<Step>, i: nat)
    requires i < |templates| && ValidSteps(steps)
    ensures var s := After(Created(templates), steps);
            && i < |s.stages|
            && BlockCount(StageEvents(s.events, i)) <= 1
            && (s.stages[i].hardBlockUnlockedAt.Some? ==> s.stages[i].status != Blocked)
  {
    hide StageEvents, BlockCount;
    EveryRunIsBlockSound(templates, steps, i);
  }

  // ----- coming to be IN_PROGRESS -----

  /** The status of a stage, or the status it had when it was blocked, which its last event records. */
  function Standing(s: TimelineState, i: nat): StageStatus
    requires i < |s.stages|
  {
    var es := StageEvents(s.events, i);
    if s.stages[i].status == Blocked && es != [] then es[|es| - 1].fromStatus else s.stages[i].status
  }

  lemma TransitionStatus(
      s: TimelineState, k: nat, stage: Stage, kind: EventKind, now: int, cal: PlanningCalendar, i: nat)
    requires Valid(cal) && k < |s.stages| && i < |s.stages|
    ensures var after := Transition(s, k, stage, kind, now, cal);
            && |after.stages| == |s.stages|
            && (after.stages[i].status == InProgress <==>
                (if i == k then stage else s.stages[i]).status == InProgress)
  {
    hide Transition;
    TransitionRow(s, k, stage, kind, now, cal, i);
  }

  lemma UnlockedStatus(s: TimelineState, k: nat, now: int, i: nat)
    requires k < |s.stages| && i < |s.stages|
    ensures |Unlocked(s, k, now).stages| == |s.stages|
    ensures Unlocked(s, k, now).stages[i].status == InProgress <==>
            if i == k then s.stages[k].plan.startedAt.Some? else s.stages[i].status == InProgress
  {
    hide Eligible, AllTerminal;
  }

  /** A stage that is PENDING, READY or BLOCKED comes to be IN_PROGRESS by a start or an unlock of itself only. */
  lemma EntersProgressWhen(s: TimelineState, a: Action, now: int, cal: PlanningCalendar, i: nat)
    requires Valid(cal) && i < |s.stages| && s.stages[i].status in {Pending, Ready, Blocked}
    ensures |Act(s, a, now, cal).stages| == |s.stages|
    ensures Act(s, a, now, cal).stages[i].status == InProgress <==>
            || (a == Start(i) && s.stages[i].status == Ready)
            || (a == Unlock(i, true) && s.stages[i].status == Blocked && s.stages[i].plan.startedAt.Some?)
  {
    hide Transition, Recalculated, Unlocked, SweptTimeline, Overridden, CompletedStage, ReopenedStage;
    if Refusal(s, a) == None {
      match a
      case Start(k) => TransitionStatus(s, k, StartedStage(s.stages[k], now), Started, now, cal, i);
      case Complete(k, _, _, _) =>
        CompletedStatus(s.stages[k], now);
        TransitionStatus(s, k, CompletedStage(s.stages[k], now), WasCompleted, now, cal, i);
      case Skip(k, _) => TransitionStatus(s, k, s.stages[k].(status := Skipped), WasSkipped, now, cal, i);
      case Reopen(k) =>
        assert k != i;
        TransitionStatus(s, k, ReopenedStage(s.stages[k]), Reopened, now, cal, i);
      case Pause(k) => TransitionStatus(s, k, s.stages[k].(status := WaitingExternal), Paused, now, cal, i);
      case Resume(k) => TransitionStatus(s, k, s.stages[k].(status := InProgress), Resumed, now, cal, i);
      case Unlock(k, _) => UnlockedStatus(s, k, now, i);
      case OverrideDuration(k, remaining, _) =>
        OverriddenStatus(s, k, remaining, now, i);
        RecalculatedRows(Overridden(s, k, remaining, now), now, cal);
      case SetTarget(target) => RecalculatedRows(Retargeted(s, target), now, cal);
      case Recalculate => RecalculatedRows(s, now, cal);
      case ApproveException(_) =>
      case SlaSweep => SweptRows(s, now, cal);
    }
  }

  /**
   * In every run, a stage that has not begun, or had not when it was blocked, comes to be IN_PROGRESS
   * while its predecessor is open exactly by the unlock of a block that found it PENDING or READY
   * although it had been started once.
   */
  lemma EarlyProgressIsByUnlock(
      templates: seq<Template>, steps: seq<Step>, a: Action, now: int, cal: PlanningCalendar, i: nat)
    requires i < |templates| && ValidSteps(steps) && Valid(cal)
    requires var s := After(Created(templates), steps); i < |s.stages| && Standing(s, i) in {Pending, Ready}
    ensures var s := After(Created(templates), steps);
            var s' := Act(s, a, now, cal);
            && |s'.stages| == |s.stages|
            && (s'.stages[i].status == InProgress && !Eligible(s.stages, i) <==>
                && a == Unlock(i, true) && s.stages[i].status == Blocked && s.stages[i].plan.startedAt.Some?
                && !Eligible(s.stages, i))
            && (s'.stages[i].status == InProgress && a != Start(i) <==>
                && a == Unlock(i, true) && s.stages[i].status == Blocked && s.stages[i].plan.startedAt.Some?)
  {
    hide Act, Created, StageEvents, Eligible, TimesSound;
    var s := After(Created(templates), steps);
    EveryRunIsBlockSound(templates, steps, i);
    EveryRunIsSound(templates, steps);
    StandingOf(s, i);
    EntersProgressWhen(s, a, now, cal, i);
  }

  lemma StandingOf(s: TimelineState, i: nat)
    requires BlockSound(s, i) && Standing(s, i) in {Pending, Ready}
    ensures s.stages[i].status in {Pending, Ready, Blocked}
  {}

  // ----- a run in which an unlock begins a stage early -----

  const FIRST := Template(None, None, false, None, true, false, None, None, false)
  const SECOND := FIRST.(hardBlock := true)

  /**
   * The first stage is skipped; the second is started, skipped and reopened; the first is reopened; a
   * day later the sweep blocks the second stage, which is unlocked.
   */
  function EarlyRun(cal: PlanningCalendar): seq<Step> {
    [Step(Skip(0, true), 0, cal), Step(Start(1), 0, cal), Step(Skip(1, true), 0, cal), Step(Reopen(1), 0, cal),
     Step(Reopen(0), 0, cal), Step(SlaSweep, DAY_MS, cal), Step(Unlock(1, true), DAY_MS, cal)]
  }

  /** What the run so far has made of the two stages. */
  ghost predicate TwoStages(s: TimelineState, first: StageStatus, second: StageStatus, started: Option<int>) {
    && |s.stages| == 2 && !s.exceptionApproved
    && s.stages[0].status == first && !s.stages[0].hardBlock && s.stages[0].plan.startedAt == None
    && s.stages[1].status == second && s.stages[1].hardBlock && s.stages[1].hardBlockUnlockedAt == None
    && s.stages[1].plan == FromTemplate(SECOND).plan.(startedAt := started)
  }

  lemma TwoStageTransition(s: TimelineState, k: nat, stage: Stage, kind: EventKind, now: int, cal: PlanningCalendar)
    requires Valid(cal) && |s.stages| == 2 && k < 2 && !s.exceptionApproved
    ensures var after := Transition(s, k, stage, kind, now, cal);
            var edited := s.stages[k := stage];
            && |after.stages| == 2 && !after.exceptionApproved
            && (forall j: nat :: j < 2 ==>
                  && after.stages[j].status == ReadyStatus(edited, j)
                  && after.stages[j] ==
                     edited[j].(status := after.stages[j].status, dates := after.stages[j].dates))
  {
    hide Recalculated, AllTerminal, Eligible;
    RecalculatedRows(Settled(Logged(s, k, stage, kind, now)), now, cal);
  }

  lemma SkipFirst(s: TimelineState, cal: PlanningCalendar)
    requires Valid(cal) && TwoStages(s, Ready, Pending, None)
    ensures TwoStages(Act(s, Skip(0, true), 0, cal), Skipped, Ready, None)
  {
    hide Transition, Recalculated;
    TwoStageTransition(s, 0, s.stages[0].(status := Skipped), WasSkipped, 0, cal);
  }

  lemma StartSecond(s: TimelineState, cal: PlanningCalendar)
    requires Valid(cal) && TwoStages(s, Skipped, Ready, None)
    ensures TwoStages(Act(s, Start(1), 0, cal), Skipped, InProgress, Some(0))
  {
    hide Transition, Recalculated;
    TwoStageTransition(s, 1, StartedStage(s.stages[1], 0), Started, 0, cal);
  }

  lemma SkipSecond(s: TimelineState, cal: PlanningCalendar)
    requires Valid(cal) && TwoStages(s, Skipped, InProgress, Some(0))
    ensures TwoStages(Act(s, Skip(1, true), 0, cal), Skipped, Skipped, Some(0))
  {
    hide Transition, Recalculated;
    TwoStageTransition(s, 1, s.stages[1].(status := Skipped), WasSkipped, 0, cal);
  }

  lemma ReopenSecond(s: TimelineState, cal: PlanningCalendar)
    requires Valid(cal) && TwoStages(s, Skipped, Skipped, Some(0))
    ensures TwoStages(Act(s, Reopen(1), 0, cal), Skipped, Ready, Some(0))
  {
    hide Transition, Recalculated;
    TwoStageTransition(s, 1, ReopenedStage(s.stages[1]), Reopened, 0, cal);
  }

  lemma ReopenFirst(s: TimelineState, cal: PlanningCalendar)
    requires Valid(cal) && TwoStages(s, Skipped, Ready, Some(0))
    ensures TwoStages(Act(s, Reopen(0), 0, cal), Ready, Pending, Some(0))
  {
    hide Transition, Recalculated;
    TwoStageTransition(s, 0, ReopenedStage(s.stages[0]), Reopened, 0, cal);
  }

  lemma EarlyPrefix(cal: PlanningCalendar, n: nat)
    requires Valid(cal) && n <= 5
    ensures ValidSteps(EarlyRun(cal)[..n])
    ensures var s := After(Created([FIRST, SECOND]), EarlyRun(cal)[..n]);
            match n
            case 0 => TwoStages(s, Ready, Pending, None)
            case 1 => TwoStages(s, Skipped, Ready, None)
            case 2 => TwoStages(s, Skipped, InProgress, Some(0))
            case 3 => TwoStages(s, Skipped, Skipped, Some(0))
            case 4 => TwoStages(s, Skipped, Ready, Some(0))
            case _ => TwoStages(s, Ready, Pending, Some(0))
  {
    hide Act, TwoStages, Created;
    var run := EarlyRun(cal);
    if n == 0 {
      CreatedTwoStages();
    } else {
      EarlyPrefix(cal, n - 1);
      assert run[..n][..n - 1] == run[..n - 1];
      assert run[..n][n - 1] == run[n - 1];
      var s := After(Created([FIRST, SECOND]), run[..n - 1]);
      match n
      case 1 => SkipFirst(s, cal);
      case 2 => StartSecond(s, cal);
      case 3 => SkipSecond(s, cal);
      case 4 => ReopenSecond(s, cal);
      case _ => ReopenFirst(s, cal);
    }
  }

  lemma CreatedTwoStages()
    ensures TwoStages(Created([FIRST, SECOND]), Ready, Pending, None)
  {}

  /** Before the sweep the second stage is PENDING, and planned to finish on day 0, when it was first started. */
  lemma BeforeSweep(cal: PlanningCalendar)
    requires Valid(cal)
    ensures ValidSteps(EarlyRun(cal)[..5])
    ensures var s := After(Created([FIRST, SECOND]), EarlyRun(cal)[..5]);
            && TwoStages(s, Ready, Pending, Some(0)) && !s.completed
            && s.stages[1].dates.plannedFinish == Some(0)
  {
    hide Act, TwoStages, Sound, FreshPlan;
    var run := EarlyRun(cal);
    EarlyPrefix(cal, 4);
    EarlyPrefix(cal, 5);
    assert run[..5][..4] == run[..4];
    var before, s := After(Created([FIRST, SECOND]), run[..4]), After(Created([FIRST, SECOND]), run[..5]);
    assert s == Act(before, Reopen(0), 0, cal);
    EveryRunIsSound([FIRST, SECOND], run[..5]);
    SecondStage(s, Ready, Pending);
    SecondStage(before, Skipped, Ready);
    ActReplans(before, Reopen(0), 0, cal);
    FreshIsStartedFresh(s, 0, cal);
  }

  lemma SecondStage(s: TimelineState, first: StageStatus, second: StageStatus)
    requires TwoStages(s, first, second, Some(0))
    ensures |s.stages| == 2 && s.stages[0].status == first
    ensures s.stages[1].plan == FromTemplate(SECOND).plan.(startedAt := Some(0))
    ensures Sound(s) && first == Ready ==> !s.completed
    ensures forall cal :: Valid(cal) ==> StartedFinish(s.stages[1], cal) == 0
  {}

  /** The last unlock makes the second stage IN_PROGRESS, though its predecessor is open. */
  lemma UnlockBeginsEarly(cal: PlanningCalendar)
    requires Valid(cal)
    ensures ValidSteps(EarlyRun(cal))
    ensures var blocked := After(Created([FIRST, SECOND]), EarlyRun(cal)[..6]);
            && |blocked.stages| == 2 && blocked.stages[1].status == Blocked && Standing(blocked, 1) == Pending
            && !Eligible(blocked.stages, 1)
    ensures var s := After(Created([FIRST, SECOND]), EarlyRun(cal));
            && |s.stages| == 2
            && s.stages[1].status == InProgress && s.stages[1].plan.dependsOnPrevious
            && s.stages[0].status == Ready
  {
    hide Act, Created;
    var run := EarlyRun(cal);
    BeforeSweep(cal);
    assert run[..6][..5] == run[..5] && run[..6][5] == run[5];
    assert run[..7] == run && run[..7][..6] == run[..6];
    var s := After(Created([FIRST, SECOND]), run[..5]);
    SweepBlocksSecond(s, cal);
    UnlockSecond(Act(s, SlaSweep, DAY_MS, cal), cal);
  }

  lemma SweepBlocksSecond(s: TimelineState, cal: PlanningCalendar)
    requires Valid(cal) && TwoStages(s, Ready, Pending, Some(0)) && !s.completed
    requires s.stages[1].dates.plannedFinish == Some(0)
    ensures var blocked := Act(s, SlaSweep, DAY_MS, cal);
            TwoStages(blocked, Ready, Blocked, Some(0)) && Standing(blocked, 1) == Pending
  {
    hide SweepBlocks, ComputeStageSlaState, StageEvents, SweepEvents;
    SweepBlocksWhen(s.stages[0], false, DAY_MS, cal);
    SweepBlocksWhen(s.stages[1], false, DAY_MS, cal);
    StageEventsConcat(s.events, SweepEvents(s.stages, 2, false, DAY_MS, cal), 1);
    SweepEventsOf(s.stages, 2, false, DAY_MS, cal, 1);
  }

  lemma UnlockSecond(s: TimelineState, cal: PlanningCalendar)
    requires Valid(cal) && TwoStages(s, Ready, Blocked, Some(0))
    ensures !Eligible(s.stages, 1)
    ensures var after := Act(s, Unlock(1, true), DAY_MS, cal);
            && |after.stages| == 2
            && after.stages[0].status == Ready
            && after.stages[1].status == InProgress && after.stages[1].plan.dependsOnPrevious
  {}
}
