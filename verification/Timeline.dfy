/**
 * The case timeline as the service keeps it: rows updated in place, one method per action. Each
 * method is proved to do what TimelineModel says.
 */
module Timeline {
  import opened Basics
  import opened WorkingDays
  import opened Planning
  import opened Stages
  import opened Sla
  import opened TimelineModel
  import opened TimelineLaws

  /** The timeline row with its stages, and the actions on it. */
  class CaseTimeline {
    var stages: seq<Stage>
    var completed: bool
    var targetDate: Option<int>
    var feasible: Option<bool>
    var deficitDays: Option<int>
    var exceptionApproved: bool
    var lastPlannedAt: Option<int>
    var events: seq<Event>

    function State(): TimelineState
      reads this
    {
      TimelineState(stages, completed, targetDate, feasible, deficitDays, exceptionApproved, lastPlannedAt, events)
    }

    ghost predicate Valid()
      reads this
    {
      Sound(State())
    }

    constructor (templates: seq<Template>)
      requires templates != []
      ensures Valid() && State() == Created(templates)
    {
      stages := seq(|templates|, i requires 0 <= i < |templates| => FromTemplate(templates[i]));
      completed := false;
      targetDate, feasible, deficitDays, exceptionApproved, lastPlannedAt, events := None, None, None, false, None, [];
      new;
      CreatedIsSound(templates);
      RecomputeReadiness();
    }

    // ----- steps shared by the actions -----

    method RecomputeReadiness()
      modifies this`stages
      ensures stages == Readied(old(stages))
    {
      var loaded := stages;
      for i := 0 to |loaded|
        invariant |stages| == |loaded|
        invariant forall j :: 0 <= j < |loaded| ==>
                    stages[j] == if j < i then loaded[j].(status := ReadyStatus(loaded, j)) else loaded[j]
      {
        var s := loaded[i];
        if s.status == Pending || s.status == Ready {
          var eligible := !s.plan.dependsOnPrevious || i == 0 || Terminal(loaded[i - 1].status);
          var desired := if eligible then Ready else Pending;
          if s.status != desired {
            stages := stages[i := s.(status := desired)];
          }
        }
      }
    }

    method SyncTimelineStatus()
      modifies this`completed
      ensures completed == AllTerminal(stages)
    {
      var allTerminal := |stages| > 0;
      for i := 0 to |stages|
        invariant allTerminal <==> |stages| > 0 && forall j :: 0 <= j < i ==> Terminal(stages[j].status)
      {
        allTerminal := allTerminal && Terminal(stages[i].status);
      }
      completed := allTerminal;
    }

    /**
     * Plans the rows and writes the dates back row by row; the slack of each row is returned when there is a target.
     */
    method RecalcInTx(now: int, cal: PlanningCalendar) returns (slack: seq<Option<int>>)
      requires WorkingDays.Valid(cal)
      modifies this`stages, this`feasible, this`deficitDays, this`lastPlannedAt
      ensures State() == Recalculated(old(State()), now, cal)
      ensures |slack| == |stages|
      ensures forall i :: 0 <= i < |slack| ==>
                slack[i] == if targetDate == None then None
                            else Some(Slack(ForwardPlan(Plans(old(stages)), now, cal)[i],
                                            ReversePlan(Plans(old(stages)), targetDate.value, cal)[i], cal))
    {
      hide Finish, StartFromFinish, ForwardPlan, ReversePlan, ComputeFeasibility, PlannedDates, Slack, FinalFinish;
      var rows := stages;
      var inputs := Plans(rows);
      var forward := ForwardPlanLoop(inputs, now, cal);
      var reverse := [];
      if targetDate.Some? {
        reverse := ReversePlanLoop(inputs, targetDate.value, cal);
      }
      var f := ComputeFeasibility(FinalFinish(forward), targetDate, cal);
      slack := [];
      for i := 0 to |rows|
        invariant |stages| == |rows| && |slack| == i
        invariant forall j :: 0 <= j < |rows| ==>
                    var r := if targetDate.Some? then Some(reverse[j]) else None;
                    stages[j] ==
                    if j < i then rows[j].(dates := PlannedDates(rows[j].dates, forward[j], r)) else rows[j]
        invariant forall j :: 0 <= j < i ==> slack[j] == if targetDate.Some?
            then Some(Slack(forward[j], reverse[j], cal)) else None
      {
        var r := if targetDate.Some? then Some(reverse[i]) else None;
        stages := stages[i := rows[i].(dates := PlannedDates(rows[i].dates, forward[i], r))];
        slack := slack + [if r.Some? then Some(Slack(forward[i], r.value, cal)) else None];
      }
      feasible, deficitDays, lastPlannedAt := f.feasible, f.deficitDays, Some(now);
    }

    method WriteTransition(i: nat, stage: Stage, kind: EventKind, now: int, cal: PlanningCalendar)
      requires WorkingDays.Valid(cal) && i < |stages|
      modifies this
      ensures State() == Transition(old(State()), i, stage, kind, now, cal)
    {
      hide Recalculated, Readied, AllTerminal, Slack, ForwardPlan, ReversePlan, Plans;
      events := events + [Event(i, kind, stages[i].status, stage.status, now)];
      stages := stages[i := stage];
      RecomputeReadiness();
      SyncTimelineStatus();
      var _ := RecalcInTx(now, cal);
    }

    // ----- actions -----

    method StartStage(i: nat, now: int, cal: PlanningCalendar) returns (r: Result<()>)
      requires WorkingDays.Valid(cal) && Valid()
      modifies this
      ensures Valid()
      ensures r == Outcome(old(State()), Start(i)) && State() == Act(old(State()), Start(i), now, cal)
    {
      hide Sound;
      ActKeepsSound(State(), Start(i), now, cal);
      if i >= |stages| {
        return Err(ResourceNotFoundError);
      }
      var stage := stages[i];
      if stage.status != Ready {
        return Err(BusinessRuleViolationError);
      }
      WriteTransition(i, stage.(status := InProgress, plan := stage.plan.(startedAt := Some(now))), Started, now, cal);
      return Ok(());
    }

    method CompleteStage(
        i: nat, fieldsValid: bool, override: bool, reason: bool, now: int, cal: PlanningCalendar)
      returns (r: Result<()>)
      requires WorkingDays.Valid(cal) && Valid()
      modifies this
      ensures Valid()
      ensures var a := Complete(i, fieldsValid, override, reason);
              r == Outcome(old(State()), a) && State() == Act(old(State()), a, now, cal)
    {
      hide Sound;
      ActKeepsSound(State(), Complete(i, fieldsValid, override, reason), now, cal);
      if i >= |stages| {
        return Err(ResourceNotFoundError);
      }
      var stage := stages[i];
      if stage.status != InProgress {
        return Err(BusinessRuleViolationError);
      }
      if stage.enforceRequiredOnComplete {
        if !fieldsValid {
          if !override {
            return Err(BusinessRuleViolationError);
          }
          if !reason {
            return Err(ValidationError);
          }
        }
      }
      var slaState := FinalSlaState(stage, now);
      WriteTransition(i, stage.(status := Completed, completedAt := Some(now), slaState := slaState), WasCompleted,
          now, cal);
      return Ok(());
    }

    method SkipStage(i: nat, reason: bool, now: int, cal: PlanningCalendar) returns (r: Result<()>)
      requires WorkingDays.Valid(cal) && Valid()
      modifies this
      ensures Valid()
      ensures r == Outcome(old(State()), Skip(i, reason)) && State() == Act(old(State()), Skip(i, reason), now, cal)
    {
      hide Sound;
      ActKeepsSound(State(), Skip(i, reason), now, cal);
      if !reason {
        return Err(ValidationError);
      }
      if i >= |stages| {
        return Err(ResourceNotFoundError);
      }
      var stage := stages[i];
      if stage.status !in {Pending, Ready, InProgress, WaitingExternal} {
        return Err(BusinessRuleViolationError);
      }
      WriteTransition(i, stage.(status := Skipped), WasSkipped, now, cal);
      return Ok(());
    }

    method ReopenStage(i: nat, now: int, cal: PlanningCalendar) returns (r: Result<()>)
      requires WorkingDays.Valid(cal) && Valid()
      modifies this
      ensures Valid()
      ensures r == Outcome(old(State()), Reopen(i)) && State() == Act(old(State()), Reopen(i), now, cal)
    {
      hide Sound;
      ActKeepsSound(State(), Reopen(i), now, cal);
      if i >= |stages| {
        return Err(ResourceNotFoundError);
      }
      var stage := stages[i];
      if stage.status == Completed {
        stage := stage.(status := InProgress, completedAt := None);
      } else if stage.status == Skipped {
        stage := stage.(status := Ready);
      } else {
        return Err(BusinessRuleViolationError);
      }
      WriteTransition(i, stage, Reopened, now, cal);
      return Ok(());
    }

    method PauseStage(i: nat, now: int, cal: PlanningCalendar) returns (r: Result<()>)
      requires WorkingDays.Valid(cal) && Valid()
      modifies this
      ensures Valid()
      ensures r == Outcome(old(State()), Pause(i)) && State() == Act(old(State()), Pause(i), now, cal)
    {
      hide Sound;
      ActKeepsSound(State(), Pause(i), now, cal);
      if i >= |stages| {
        return Err(ResourceNotFoundError);
      }
      if stages[i].status != InProgress {
        return Err(BusinessRuleViolationError);
      }
      WriteTransition(i, stages[i].(status := WaitingExternal), Paused, now, cal);
      return Ok(());
    }

    method ResumeStage(i: nat, now: int, cal: PlanningCalendar) returns (r: Result<()>)
      requires WorkingDays.Valid(cal) && Valid()
      modifies this
      ensures Valid()
      ensures r == Outcome(old(State()), Resume(i)) && State() == Act(old(State()), Resume(i), now, cal)
    {
      hide Sound;
      ActKeepsSound(State(), Resume(i), now, cal);
      if i >= |stages| {
        return Err(ResourceNotFoundError);
      }
      if stages[i].status != WaitingExternal {
        return Err(BusinessRuleViolationError);
      }
      WriteTransition(i, stages[i].(status := InProgress), Resumed, now, cal);
      return Ok(());
    }

    method UnlockStage(i: nat, reason: bool, now: int, cal: PlanningCalendar) returns (r: Result<()>)
      requires WorkingDays.Valid(cal) && Valid()
      modifies this
      ensures Valid()
      ensures r == Outcome(old(State()), Unlock(i, reason)) && State() == Act(old(State()), Unlock(i, reason), now, cal)
    {
      hide Sound;
      ActKeepsSound(State(), Unlock(i, reason), now, cal);
      hide Transition, Recalculated, ReadyStatus, FinalSlaState;
      if !reason {
        return Err(BusinessRuleViolationError);
      }
      if i >= |stages| {
        return Err(ResourceNotFoundError);
      }
      var stage := stages[i];
      if stage.status != Blocked {
        return Err(BusinessRuleViolationError);
      }
      var to := if stage.plan.startedAt.Some? then InProgress else Ready;
      stages := stages[i := stage.(status := to, hardBlockUnlockedAt := Some(now))];
      RecomputeReadiness();
      SyncTimelineStatus();
      events := events + [Event(i, Unblocked, Blocked, stages[i].status, now)];
      return Ok(());
    }

    method OverrideStageDuration(
        i: nat, remaining: int, reason: bool, now: int, cal: PlanningCalendar) returns (r: Result<()>)
      requires WorkingDays.Valid(cal) && Valid()
      modifies this
      ensures Valid()
      ensures var a := OverrideDuration(i, remaining, reason);
              r == Outcome(old(State()), a) && State() == Act(old(State()), a, now, cal)
    {
      hide Sound;
      ActKeepsSound(State(), OverrideDuration(i, remaining, reason), now, cal);
      ActOverrideDuration(State(), i, remaining, reason, now, cal);
      hide Act, Recalculated, Slack, ForwardPlan, ReversePlan, Plans;
      if remaining < 0 {
        return Err(ValidationError);
      }
      if !reason {
        return Err(BusinessRuleViolationError);
      }
      if i >= |stages| {
        return Err(ResourceNotFoundError);
      }
      var stage := stages[i];
      if stage.status !in {Ready, InProgress, WaitingExternal} {
        return Err(BusinessRuleViolationError);
      }
      stages := stages[i := stage.(plan := stage.plan.(remainingDurationOverride := Some(remaining)))];
      events := events + [Event(i, DurationOverridden, stage.status, stage.status, now)];
      assert State() == Overridden(old(State()), i, remaining, now);
      var _ := RecalcInTx(now, cal);
      return Ok(());
    }

    method ChangeTarget(target: Option<int>, now: int, cal: PlanningCalendar)
      requires WorkingDays.Valid(cal) && Valid()
      modifies this
      ensures Valid()
      ensures State() == Act(old(State()), SetTarget(target), now, cal)
    {
      hide Sound, Act, Recalculated, Slack, ForwardPlan, ReversePlan, Plans;
      ActKeepsSound(State(), SetTarget(target), now, cal);
      ActSetTarget(State(), target, now, cal);
      if targetDate != target {
        exceptionApproved := false;
      }
      targetDate := target;
      assert State() == Retargeted(old(State()), target);
      var _ := RecalcInTx(now, cal);
    }

    /** The explicit recalculation; slack is None for every stage when there is no target. */
    method Recalc(now: int, cal: PlanningCalendar) returns (slack: seq<Option<int>>)
      requires WorkingDays.Valid(cal) && Valid()
      modifies this
      ensures Valid()
      ensures State() == Act(old(State()), Recalculate, now, cal)
      ensures |slack| == |stages| && (targetDate == None ==> forall i :: 0 <= i < |slack| ==> slack[i] == None)
      ensures targetDate.Some? ==>
                var forward := ForwardPlan(Plans(stages), now, cal);
                var reverse := ReversePlan(Plans(stages), targetDate.value, cal);
                forall i :: 0 <= i < |slack| ==> slack[i] == Some(Slack(forward[i], reverse[i], cal))
    {
      hide Sound, Recalculated, Slack, ForwardPlan, ReversePlan, Plans;
      ActKeepsSound(State(), Recalculate, now, cal);
      SamePlans(State(), now, cal);
      slack := RecalcInTx(now, cal);
    }

    method ApproveTimelineException(reason: bool, now: int, cal: PlanningCalendar) returns (r: Result<()>)
      requires WorkingDays.Valid(cal) && Valid()
      modifies this`exceptionApproved
      ensures Valid()
      ensures r == Outcome(old(State()), ApproveException(reason))
          && State() == Act(old(State()), ApproveException(reason), now, cal)
    {
      hide Sound;
      ActKeepsSound(State(), ApproveException(reason), now, cal);
      if !reason {
        return Err(BusinessRuleViolationError);
      }
      if feasible != Some(false) {
        return Err(BusinessRuleViolationError);
      }
      exceptionApproved := true;
      return Ok(());
    }

    /** The stage loop of a sweep over an ACTIVE timeline. */
    method SweepStages(now: int, cal: PlanningCalendar)
      requires !completed
      modifies this`stages, this`events
      ensures State() == SweptTimeline(old(State()), now, cal)
    {
      hide ComputeStageSlaState, ShouldHardBlock, SlaInput, Swept, SweepBlocks, SweepEvents, Terminal;
      NoSweepEvents(stages, exceptionApproved, now, cal);
      var rows := stages;
      var log := events;
      for i := 0 to |rows|
        invariant |stages| == |rows|
        invariant forall j :: 0 <= j < |rows| ==> stages[j] == if j < i
            then Swept(rows[j], exceptionApproved, now, cal) else rows[j]
        invariant events == log + SweepEvents(rows, i, exceptionApproved, now, cal)
        invariant State() == old(State()).(stages := stages, events := events)
      {
        var stage := rows[i];
        SweptCases(stage, exceptionApproved, now, cal);
        SweepEventsNext(rows, i, exceptionApproved, now, cal);
        if !Terminal(stage.status) {
          var input := SlaInput(stage, exceptionApproved);
          var newState := ComputeStageSlaState(input, now, cal);
          if ShouldHardBlock(input, newState) {
            stages := stages[i := stage.(status := Blocked, slaState := newState)];
            events := events + [Event(i, WasBlocked, stage.status, Blocked, now)];
          } else if newState != stage.slaState {
            stages := stages[i := stage.(slaState := newState)];
          }
        }
      }
    }

    /** One timeline's part of runSlaSweep: reclassify open stages and block the overdue hard-block ones. */
    method RunSlaSweep(now: int, cal: PlanningCalendar)
      requires WorkingDays.Valid(cal) && Valid()
      modifies this
      ensures Valid()
      ensures State() == Act(old(State()), SlaSweep, now, cal)
    {
      hide Sound;
      ActKeepsSound(State(), SlaSweep, now, cal);
      hide SweptTimeline;
      if completed {
        return;
      }
      SweepStages(now, cal);
    }
  }

  lemma NoSweepEvents(stages: seq<Stage>, exceptionApproved: bool, now: int, cal: PlanningCalendar)
    ensures SweepEvents(stages, 0, exceptionApproved, now, cal) == []
  {}

  lemma SweptCases(stage: Stage, exceptionApproved: bool, now: int, cal: PlanningCalendar)
    ensures var input := SlaInput(stage, exceptionApproved);
            var state := ComputeStageSlaState(input, now, cal);
            && (SweepBlocks(stage, exceptionApproved, now, cal) <==>
                !Terminal(stage.status) && ShouldHardBlock(input, state))
            && Swept(stage, exceptionApproved, now, cal) ==
               if Terminal(stage.status) then stage
               else if ShouldHardBlock(input, state) then stage.(status := Blocked, slaState := state)
               else stage.(slaState := state)
  {
    hide ComputeStageSlaState, ShouldHardBlock, SlaInput;
  }

  /** A case type with its undeleted stage templates in sequence. */
  datatype CaseType = CaseType(active: bool, templates: seq<Template>)

  /** A case row: its type, if it has one, and whether it already has a timeline. */
  datatype DocCase = DocCase(caseTypeId: Option<int>, hasTimeline: bool)

  /** createTimeline: an ACTIVE case type with stage templates, and no timeline yet. */
  method CreateTimeline(cases: map<int, DocCase>, types: map<int, CaseType>, caseId: int)
    returns (r: Result<CaseTimeline>)
    ensures r.Err? <==>
            || caseId !in cases || cases[caseId].caseTypeId == None || cases[caseId].caseTypeId.value !in types
            || !types[cases[caseId].caseTypeId.value].active || cases[caseId].hasTimeline
            || types[cases[caseId].caseTypeId.value].templates == []
    ensures r == Err(ResourceNotFoundError) <==>
            || caseId !in cases
            || (cases[caseId].caseTypeId.Some? && cases[caseId].caseTypeId.value !in types)
    ensures r == Err(DuplicateResourceError) <==>
            && caseId in cases && cases[caseId].caseTypeId.Some? && cases[caseId].caseTypeId.value in types
            && types[cases[caseId].caseTypeId.value].active && cases[caseId].hasTimeline
    ensures r.Err? ==> r.error in {ResourceNotFoundError, DuplicateResourceError, BusinessRuleViolationError}
    ensures r.Ok? ==>
              && fresh(r.value) && r.value.Valid()
              && r.value.State() == Created(types[cases[caseId].caseTypeId.value].templates)
  {
    if caseId !in cases {
      return Err(ResourceNotFoundError);
    }
    var docCase := cases[caseId];
    if docCase.caseTypeId == None {
      return Err(BusinessRuleViolationError);
    }
    if docCase.caseTypeId.value !in types {
      return Err(ResourceNotFoundError);
    }
    var caseType := types[docCase.caseTypeId.value];
    if !caseType.active {
      return Err(BusinessRuleViolationError);
    }
    if docCase.hasTimeline {
      return Err(DuplicateResourceError);
    }
    if |caseType.templates| == 0 {
      return Err(BusinessRuleViolationError);
    }
    var timeline := new CaseTimeline(caseType.templates);
    return Ok(timeline);
  }
}
