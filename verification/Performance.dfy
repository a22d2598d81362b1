/** The statistics of src/services/case-performance.stats.ts, read from the stage event log. */
module Performance {
  import opened Basics
  import opened Gregorian
  import opened WorkingDays
  import opened Stages
  import opened TimelineModel
  import opened TimelineLaws

  // ----- active time -----

  /** Milliseconds between each IN_PROGRESS event and the event after it. */
  function ActiveMs(events: seq<Event>): int {
    if |events| < 2 then 0
    else
      var last := |events| - 1;
      ActiveMs(events[..last]) +
      if events[last - 1].toStatus == InProgress then events[last].createdAt - events[last - 1].createdAt else 0
  }

  /** A new last event closes the interval of the event before it. */
  lemma ActiveMsAppend(events: seq<Event>, e: Event)
    requires events != []
    ensures ActiveMs(events + [e]) ==
            ActiveMs(events) + if events[|events| - 1].toStatus == InProgress
                then e.createdAt - events[|events| - 1].createdAt else 0
  {
    assert (events + [e])[..|events|] == events;
  }

  method ActiveTimeDays(events: seq<Event>) returns (days: real)
    ensures days == ActiveMs(events) as real / DAY_MS as real
  {
    var ms := 0;
    var i := 0;
    while i < |events| - 1
      invariant 0 <= i <= |events|
      invariant events != [] ==> i <= |events| - 1
      invariant ms == ActiveMs(events[..if events == [] then 0 else i + 1])
    {
      assert events[..i + 2][..i + 1] == events[..i + 1];
      if events[i].toStatus == InProgress {
        ms := ms + events[i + 1].createdAt - events[i].createdAt;
      }
      i := i + 1;
    }
    assert events != [] ==> events[..i + 1] == events;
    days := ms as real / DAY_MS as real;
  }

  /** One stage's part of the event log. */
  function StageEvents(events: seq<Event>, i: nat): seq<Event> {
    if events == [] then []
    else
      var front, e := events[..|events| - 1], events[|events| - 1];
      StageEvents(front, i) + if e.stage == i then [e] else []
  }

  lemma StageEventsAppend(events: seq<Event>, e: Event, i: nat)
    ensures StageEvents(events + [e], i) == StageEvents(events, i) + if e.stage == i then [e] else []
  {
    assert (events + [e])[..|events|] == events;
  }

  lemma Regroup(a: seq<Event>, b: seq<Event>, c: seq<Event>)
    ensures a + b + c == a + (b + c)
  {}

  lemma {:induction false} StageEventsConcat(events: seq<Event>, more: seq<Event>, i: nat)
    ensures StageEvents(events + more, i) == StageEvents(events, i) + StageEvents(more, i)
    decreases |more|
  {
    if more == [] {
      assert events + more == events;
    } else {
      hide StageEvents;
      var front, e := more[..|more| - 1], more[|more| - 1];
      StageEventsConcat(events, front, i);
      StageEventsAppend(events + front, e, i);
      StageEventsAppend(front, e, i);
      assert more == front + [e];
      Regroup(events, front, [e]);
      var a, b, x := StageEvents(events, i), StageEvents(front, i), if e.stage == i then [e] else [];
      assert StageEvents(more, i) == b + x;
      assert StageEvents(events + more, i) == (a + b) + x;
      Regroup(a, b, x);
    }
  }

  // ----- every action logs what it does to a stage -----

  /** Either nothing is logged for stage i and it keeps running or not running, or one event at `now` says which. */
  ghost predicate LoggedChange(s: TimelineState, s': TimelineState, i: nat, now: int) {
    && i < |s.stages| == |s'.stages|
    && var es, es' := StageEvents(s.events, i), StageEvents(s'.events, i);
       var running, running' := s.stages[i].status == InProgress, s'.stages[i].status == InProgress;
       || (es' == es && (running <==> running'))
       || (|es'| == |es| + 1 && es == es'[..|es|] && es'[|es|].createdAt == now
           && (running' <==> es'[|es|].toStatus == InProgress))
  }

  lemma SettledKeepsRunning(s: TimelineState, i: nat)
    requires i < |s.stages|
    ensures |Settled(s).stages| == |s.stages| && Settled(s).events == s.events
    ensures Settled(s).stages[i].status == InProgress <==> s.stages[i].status == InProgress
  {
    hide AllTerminal;
  }

  lemma TransitionLogs(s: TimelineState, k: nat, stage: Stage, kind: EventKind, now: int, cal: PlanningCalendar, i: nat)
    requires Valid(cal) && k < |s.stages| && i < |s.stages|
    ensures LoggedChange(s, Transition(s, k, stage, kind, now, cal), i, now)
  {
    hide Recalculated, Settled, StageEvents;
    var updated := Logged(s, k, stage, kind, now);
    SettledKeepsRunning(updated, i);
    RecalculatedRows(Settled(updated), now, cal);
    StageEventsAppend(s.events, Event(k, kind, s.stages[k].status, stage.status, now), i);
  }

  lemma UnlockedLogs(s: TimelineState, k: nat, now: int, i: nat)
    requires k < |s.stages| && i < |s.stages|
    ensures LoggedChange(s, Unlocked(s, k, now), i, now)
  {
    hide Settled, StageEvents;
    var stage := s.stages[k];
    var to := if stage.plan.startedAt.Some? then InProgress else Ready;
    var updated := s.(stages := s.stages[k := stage.(status := to, hardBlockUnlockedAt := Some(now))]);
    SettledKeepsRunning(updated, i);
    StageEventsAppend(s.events, Event(k, Unblocked, Blocked, Settled(updated).stages[k].status, now), i);
  }

  lemma OverrideLogs(s: TimelineState, k: nat, remaining: int, now: int, cal: PlanningCalendar, i: nat)
    requires Valid(cal) && k < |s.stages| && i < |s.stages|
    ensures LoggedChange(s, Recalculated(Overridden(s, k, remaining, now), now, cal), i, now)
  {
    hide Recalculated, StageEvents;
    RecalculatedRows(Overridden(s, k, remaining, now), now, cal);
    var status := s.stages[k].status;
    StageEventsAppend(s.events, Event(k, DurationOverridden, status, status, now), i);
  }

  lemma {:induction false} SweepEventsOf(
      stages: seq<Stage>, n: nat, exceptionApproved: bool, now: int, cal: PlanningCalendar, i: nat)
    requires n <= |stages| && i < |stages|
    ensures StageEvents(SweepEvents(stages, n, exceptionApproved, now, cal), i) ==
            if i < n && SweepBlocks(stages[i], exceptionApproved, now, cal)
            then [Event(i, WasBlocked, stages[i].status, Blocked, now)] else []
  {
    hide SweepBlocks;
    if n > 0 {
      hide StageEvents, SweepEvents;
      var m := n - 1;
      SweepEventsOf(stages, m, exceptionApproved, now, cal, i);
      SweepEventsNext(stages, m, exceptionApproved, now, cal);
      var e := Event(m, WasBlocked, stages[m].status, Blocked, now);
      StageEventsAppend(SweepEvents(stages, m, exceptionApproved, now, cal), e, i);
    }
  }

  lemma SweptLogs(s: TimelineState, now: int, cal: PlanningCalendar, i: nat)
    requires i < |s.stages|
    ensures LoggedChange(s, SweptTimeline(s, now, cal), i, now)
  {
    hide SweepBlocks, StageEvents, SweepEvents;
    if !s.completed {
      var more := SweepEvents(s.stages, |s.stages|, s.exceptionApproved, now, cal);
      StageEventsConcat(s.events, more, i);
      SweepEventsOf(s.stages, |s.stages|, s.exceptionApproved, now, cal, i);
      BlockedStagesWereOpen(s.stages[i], s.exceptionApproved, now, cal);
    }
  }

  lemma BlockedStagesWereOpen(stage: Stage, exceptionApproved: bool, now: int, cal: PlanningCalendar)
    ensures SweepBlocks(stage, exceptionApproved, now, cal) ==> !Terminal(stage.status)
  {}

  lemma ActLogs(s: TimelineState, a: Action, now: int, cal: PlanningCalendar, i: nat)
    requires Valid(cal) && i < |s.stages|
    ensures LoggedChange(s, Act(s, a, now, cal), i, now)
  {
    hide Transition, Recalculated, Unlocked, SweptTimeline, StageEvents, FinalSlaState;
    if Refusal(s, a) == None {
      match a
      case Unlock(k, _) => UnlockedLogs(s, k, now, i);
      case OverrideDuration(k, remaining, _) => OverrideLogs(s, k, remaining, now, cal, i);
      case SetTarget(target) =>
        RecalculatedRows(Retargeted(s, target), now, cal);
      case Recalculate => RecalculatedRows(s, now, cal);
      case ApproveException(_) =>
      case SlaSweep => SweptLogs(s, now, cal, i);
      case _ =>
        forall stage, kind ensures LoggedChange(s, Transition(s, a.i, stage, kind, now, cal), i, now) {
          TransitionLogs(s, a.i, stage, kind, now, cal, i);
        }
    }
  }

  // ----- active time is time in progress -----

  /** Time stage i spent IN_PROGRESS between the steps of a run, up to the last step. */
  ghost function InProgressMs(s: TimelineState, steps: seq<Step>, i: nat): int
    requires ValidSteps(steps)
  {
    if |steps| < 2 then 0
    else
      var n := |steps| - 1;
      var before := After(s, steps[..n]);
      InProgressMs(s, steps[..n], i) +
      if i < |before.stages| && before.stages[i].status == InProgress then steps[n].now - steps[n - 1].now else 0
  }

  /** The interval still open at time t. */
  function OpenMs(events: seq<Event>, t: int): int {
    if events != [] && events[|events| - 1].toStatus == InProgress then t - events[|events| - 1].createdAt else 0
  }

  /** Stage i runs exactly when its last event says so. */
  ghost predicate LogSaysRunning(s: TimelineState, i: nat) {
    && i < |s.stages|
    && var es := StageEvents(s.events, i);
       s.stages[i].status == InProgress <==> es != [] && es[|es| - 1].toStatus == InProgress
  }

  lemma CreatedNotRunning(templates: seq<Template>, i: nat)
    requires i < |templates|
    ensures |Created(templates).stages| == |templates| && LogSaysRunning(Created(templates), i)
    ensures StageEvents(Created(templates).events, i) == []
  {}

  lemma {:induction false} LogAccountsForTime(templates: seq<Template>, steps: seq<Step>, i: nat)
    requires i < |templates| && ValidSteps(steps)
    ensures var s := After(Created(templates), steps);
            var es := StageEvents(s.events, i);
            && LogSaysRunning(s, i)
            && (steps == [] ==> es == [])
            && (steps != [] ==>
                ActiveMs(es) + OpenMs(es, steps[|steps| - 1].now) == InProgressMs(Created(templates), steps, i))
  {
    hide Act, StageEvents, Created, ActiveMs, OpenMs;
    CreatedNotRunning(templates, i);
    if steps != [] {
      var n := |steps| - 1;
      var front, step := steps[..n], steps[n];
      LogAccountsForTime(templates, front, i);
      var s := After(Created(templates), front);
      ActLogs(s, step.action, step.now, step.cal, i);
      var s' := After(Created(templates), steps);
      assert s' == Act(s, step.action, step.now, step.cal);
      var es, es' := StageEvents(s.events, i), StageEvents(s'.events, i);
      assert es' == es || (|es'| == |es| + 1 && es' == es + [es'[|es|]] && es'[|es|].createdAt == step.now);
      NothingLogged();
      SameTotal(es, es', step.now);
      if n > 0 {
        OpenGrows(es, steps[n - 1].now, step.now);
      }
    }
  }

  lemma NothingLogged()
    ensures ActiveMs([]) == 0 && forall t :: OpenMs([], t) == 0
  {}

  /** Logging an event at time t closes what was open at time t. */
  lemma SameTotal(es: seq<Event>, es': seq<Event>, t: int)
    requires es' == es || (|es'| == |es| + 1 && es' == es + [es'[|es|]] && es'[|es|].createdAt == t)
    ensures ActiveMs(es') + OpenMs(es', t) == ActiveMs(es) + OpenMs(es, t)
  {
    if |es'| == |es| + 1 && es != [] {
      ActiveMsAppend(es, es'[|es|]);
    }
  }

  lemma OpenGrows(es: seq<Event>, t: int, u: int)
    ensures OpenMs(es, u) == OpenMs(es, t) + if es != [] && es[|es| - 1].toStatus == InProgress then u - t else 0
  {}

  /**
   * In every run of the timeline, hard blocks included, a COMPLETED stage's active time is the
   * total time its status was IN_PROGRESS.
   */
  lemma ActiveTimeIsTimeInProgress(templates: seq<Template>, steps: seq<Step>, i: nat)
    requires i < |templates| && ValidSteps(steps)
    requires i < |After(Created(templates), steps).stages|
        && After(Created(templates), steps).stages[i].status == Completed
    ensures ActiveMs(StageEvents(After(Created(templates), steps).events, i))
        == InProgressMs(Created(templates), steps, i)
  {
    hide Act, StageEvents, Created;
    LogAccountsForTime(templates, steps, i);
    if steps == [] {
      CreatedHasNoCompleted(templates, i);
    }
  }

  lemma CreatedHasNoCompleted(templates: seq<Template>, i: nat)
    requires i < |templates|
    ensures Created(templates).stages[i].status != Completed
  {}

  // ----- the log is read back by createdAt -----

  ghost predicate Ascending(events: seq<Event>) {
    forall j, k :: 0 <= j < k < |events| ==> events[j].createdAt <= events[k].createdAt
  }

  ghost predicate ClockNeverGoesBack(steps: seq<Step>) {
    forall j, k :: 0 <= j < k < |steps| ==> steps[j].now <= steps[k].now
  }

  /** On a clock that never goes back, the log order of a stage's events is an ascending order. */
  lemma {:induction false} LogIsAscending(templates: seq<Template>, steps: seq<Step>, i: nat)
    requires i < |templates| && ValidSteps(steps) && ClockNeverGoesBack(steps)
    ensures var es := StageEvents(After(Created(templates), steps).events, i);
            && |After(Created(templates), steps).stages| == |templates|
            && Ascending(es)
            && forall k :: 0 <= k < |es| ==> steps != [] && es[k].createdAt <= steps[|steps| - 1].now
  {
    hide Act, StageEvents, Created;
    CreatedNotRunning(templates, i);
    if steps != [] {
      var n := |steps| - 1;
      LogIsAscending(templates, steps[..n], i);
      ActLogs(After(Created(templates), steps[..n]), steps[n].action, steps[n].now, steps[n].cal, i);
    }
  }

  /** A result of reading the log by createdAt: events with equal timestamps come in any order. */
  ghost predicate ReadBack(log: seq<Event>, read: seq<Event>) {
    multiset(read) == multiset(log) && Ascending(read)
  }

  /** Events at the same time agree on whether the stage runs, unless nothing later is logged. */
  ghost predicate TiesAgree(log: seq<Event>) {
    forall j, k, l :: 0 <= j < k < l < |log| && log[j].createdAt == log[k].createdAt < log[l].createdAt ==>
      (log[j].toStatus == InProgress <==> log[k].toStatus == InProgress)
  }

  /** What the k-th event contributes to the active time. */
  function Interval(events: seq<Event>, k: nat): int
    requires k + 1 < |events|
  {
    if events[k].toStatus == InProgress then events[k + 1].createdAt - events[k].createdAt else 0
  }

  /** Logs whose intervals differ at most at q have active times that differ by that much. */
  lemma {:induction false} DifferAt(a: seq<Event>, b: seq<Event>, q: int, n: nat)
    requires n <= |a| == |b|
    requires forall k: nat :: k + 1 < |a| && k != q ==> Interval(a, k) == Interval(b, k)
    ensures ActiveMs(a[..n]) - ActiveMs(b[..n]) == if 0 <= q && q + 1 < n then Interval(a, q) - Interval(b, q) else 0
    decreases n
  {
    if n >= 2 {
      DifferAt(a, b, q, n - 1);
      assert a[..n][..n - 1] == a[..n - 1] && b[..n][..n - 1] == b[..n - 1];
      assert n - 2 != q ==> Interval(a, n - 2) == Interval(b, n - 2);
    }
  }

  function Times(events: seq<Event>): seq<int> {
    seq(|events|, k requires 0 <= k < |events| => events[k].createdAt)
  }

  lemma TimesConcat(a: seq<Event>, b: seq<Event>)
    ensures Times(a + b) == Times(a) + Times(b)
  {}

  lemma {:induction false} TimesOfPermutation(a: seq<Event>, b: seq<Event>)
    requires multiset(a) == multiset(b)
    ensures multiset(Times(a)) == multiset(Times(b))
    decreases |a|
  {
    SameLength(a, b);
    if a != [] {
      hide Times;
      var front, x := a[..|a| - 1], a[|a| - 1];
      assert a == front + [x];
      assert x in multiset(b);
      var j :| 0 <= j < |b| && b[j] == x;
      var left, right := b[..j], b[j + 1..];
      assert b == left + [x] + right;
      RemoveOne(front, x, left, right);
      TimesOfPermutation(front, left + right);
      TimesConcat(front, [x]);
      TimesConcat(left, right);
      TimesConcat(left + [x], right);
      TimesConcat(left, [x]);
    } else {
      assert b == [];
    }
  }

  lemma RemoveOne(front: seq<Event>, x: Event, left: seq<Event>, right: seq<Event>)
    requires multiset(front + [x]) == multiset(left + [x] + right)
    ensures multiset(front) == multiset(left + right)
  {
    assert multiset(front) == multiset(front + [x]) - multiset{x};
    assert multiset(left + right) == multiset(left + [x] + right) - multiset{x};
  }

  lemma SameLength(a: seq<Event>, b: seq<Event>)
    requires multiset(a) == multiset(b)
    ensures |a| == |b|
  {
    assert |multiset(a)| == |a| && |multiset(b)| == |b|;
  }

  ghost predicate Sorted(ts: seq<int>) {
    forall j, k :: 0 <= j < k < |ts| ==> ts[j] <= ts[k]
  }

  lemma LastIsGreatest(ts: seq<int>, t: int)
    requires Sorted(ts) && t in multiset(ts)
    ensures t <= ts[|ts| - 1]
  {
    var k :| 0 <= k < |ts| && ts[k] == t;
  }

  lemma WithoutLast(ts: seq<int>)
    requires ts != []
    ensures multiset(ts) == multiset(ts[..|ts| - 1]) + multiset{ts[|ts| - 1]}
    ensures ts[|ts| - 1] in multiset(ts)
  {
    assert ts == ts[..|ts| - 1] + [ts[|ts| - 1]];
  }

  lemma LastsAgree(a: seq<int>, b: seq<int>)
    requires multiset(a) == multiset(b) && Sorted(a) && Sorted(b) && a != [] && b != []
    ensures a[|a| - 1] == b[|b| - 1]
  {
    hide Sorted;
    WithoutLast(a);
    WithoutLast(b);
    LastIsGreatest(a, b[|b| - 1]);
    LastIsGreatest(b, a[|a| - 1]);
  }

  lemma SortedFront(ts: seq<int>)
    requires Sorted(ts) && ts != []
    ensures Sorted(ts[..|ts| - 1])
  {}

  lemma {:induction false} SortedTimesUnique(a: seq<int>, b: seq<int>)
    requires multiset(a) == multiset(b) && Sorted(a) && Sorted(b)
    ensures a == b
    decreases |a|
  {
    assert |multiset(a)| == |a| && |multiset(b)| == |b|;
    if a != [] {
      var n := |a| - 1;
      SortedFront(a);
      SortedFront(b);
      LastsAgree(a, b);
      hide Sorted;
      WithoutLast(a);
      WithoutLast(b);
      CancelOne(multiset(a[..n]), multiset(b[..n]), a[n]);
      SortedTimesUnique(a[..n], b[..n]);
      assert a == a[..n] + [a[n]] && b == b[..n] + [b[n]];
    }
  }

  lemma CancelOne(a: multiset<int>, b: multiset<int>, t: int)
    requires a + multiset{t} == b + multiset{t}
    ensures a == b
  {
    assert a == a + multiset{t} - multiset{t};
    assert b == b + multiset{t} - multiset{t};
  }

  /** Every ascending order of the same events has the same timestamps, place by place. */
  lemma SameTimes(log: seq<Event>, read: seq<Event>)
    requires Ascending(log) && ReadBack(log, read)
    ensures |read| == |log| && forall k :: 0 <= k < |log| ==> read[k].createdAt == log[k].createdAt
  {
    SameLength(log, read);
    TimesOfPermutation(log, read);
    SortedTimesUnique(Times(log), Times(read));
    assert forall k :: 0 <= k < |log| ==> Times(log)[k] == log[k].createdAt && Times(read)[k] == read[k].createdAt;
  }

  /** The event read in place k is tied with the one logged there, so they agree unless the interval is empty. */
  lemma SameInterval(log: seq<Event>, read: seq<Event>, k: nat)
    requires Ascending(log) && TiesAgree(log) && ReadBack(log, read)
    requires |read| == |log| && forall m :: 0 <= m < |log| ==> read[m].createdAt == log[m].createdAt
    requires k + 1 < |log|
    ensures Interval(log, k) == Interval(read, k)
  {
    assert read[k] in multiset(read);
    var m :| 0 <= m < |log| && log[m] == read[k];
    if log[k].createdAt < log[k + 1].createdAt {
      assert m <= k;
    }
  }

  lemma AgreeingTiesAreHarmless(log: seq<Event>, read: seq<Event>)
    requires Ascending(log) && TiesAgree(log) && ReadBack(log, read)
    ensures ActiveMs(read) == ActiveMs(log)
  {
    hide ActiveMs, ReadBack, Interval, TiesAgree, Ascending;
    SameTimes(log, read);
    forall k: nat | k + 1 < |log| ensures Interval(log, k) == Interval(read, k) {
      SameInterval(log, read, k);
    }
    DifferAt(log, read, |log|, |log|);
    assert log[..|log|] == log && read[..|log|] == read;
  }

  /** The last of the events at the same time as event k. */
  lemma {:induction false} LastOfTie(log: seq<Event>, k: nat, l: nat) returns (q: nat)
    requires Ascending(log) && k < l < |log| && log[k].createdAt < log[l].createdAt
    ensures k <= q < l && log[q].createdAt == log[k].createdAt < log[q + 1].createdAt
    decreases l - k
  {
    if log[k].createdAt < log[k + 1].createdAt {
      q := k;
    } else {
      q := LastOfTie(log, k + 1, l);
    }
  }

  /**
   * Two events at the same time, of which only the second is the last of its tie and the two disagree, read in the
   * other order.
   */
  lemma SwapTie(log: seq<Event>, m: nat, q: nat) returns (read: seq<Event>)
    requires Ascending(log) && m < q && q + 1 < |log|
    requires log[m].createdAt == log[q].createdAt < log[q + 1].createdAt
    requires !(log[m].toStatus == InProgress <==> log[q].toStatus == InProgress)
    ensures ReadBack(log, read) && ActiveMs(read) != ActiveMs(log)
  {
    hide ActiveMs;
    read := log[m := log[q]][q := log[m]];
    assert forall p :: 0 <= p < |log| ==> read[p].createdAt == log[p].createdAt;
    forall n: nat | n + 1 < |log| && n != q ensures Interval(log, n) == Interval(read, n) {
      assert n == m ==> log[m].createdAt == log[m + 1].createdAt;
    }
    DifferAt(log, read, q, |log|);
    assert log[..|log|] == log && read[..|log|] == read;
  }

  /** Two events at the same time that disagree can be read so that the active time changes. */
  lemma DisagreeingTieMisleads(log: seq<Event>, j: nat, k: nat, l: nat) returns (read: seq<Event>)
    requires Ascending(log) && j < k < l < |log| && log[j].createdAt == log[k].createdAt < log[l].createdAt
    requires !(log[j].toStatus == InProgress <==> log[k].toStatus == InProgress)
    ensures ReadBack(log, read) && ActiveMs(read) != ActiveMs(log)
  {
    hide ActiveMs, ReadBack;
    var q := LastOfTie(log, k, l);
    read := SwapTie(log, if log[q].toStatus == InProgress <==> log[j].toStatus == InProgress then k else j, q);
  }

  /** Reading the log back by createdAt gives its active time, in whatever order ties come, exactly when ties agree. */
  lemma ReadBackIsExact(log: seq<Event>)
    requires Ascending(log)
    ensures (forall read :: ReadBack(log, read) ==> ActiveMs(read) == ActiveMs(log)) <==> TiesAgree(log)
  {
    hide ActiveMs, ReadBack, Ascending;
    if TiesAgree(log) {
      forall read | ReadBack(log, read) ensures ActiveMs(read) == ActiveMs(log) {
        AgreeingTiesAreHarmless(log, read);
      }
    } else {
      var j: nat, k: nat, l: nat :| j < k < l < |log| && log[j].createdAt == log[k].createdAt < log[l].createdAt
                                    && !(log[j].toStatus == InProgress <==> log[k].toStatus == InProgress);
      var read := DisagreeingTieMisleads(log, j, k, l);
    }
  }

  /**
   * On a clock that never goes back, the active time computed from a COMPLETED stage's events as
   * read back is the time it was IN_PROGRESS, exactly when its tied events agree.
   */
  lemma ActiveTimeAsReadBack(templates: seq<Template>, steps: seq<Step>, i: nat)
    requires i < |templates| && ValidSteps(steps) && ClockNeverGoesBack(steps)
    requires i < |After(Created(templates), steps).stages|
        && After(Created(templates), steps).stages[i].status == Completed
    ensures var log := StageEvents(After(Created(templates), steps).events, i);
            (forall read :: ReadBack(log, read) ==> ActiveMs(read) == InProgressMs(Created(templates), steps, i)) <==>
                TiesAgree(log)
  {
    hide Act, StageEvents, Created, ActiveMs, TiesAgree, ReadBack;
    LogIsAscending(templates, steps, i);
    ActiveTimeIsTimeInProgress(templates, steps, i);
    ReadBackIsExact(StageEvents(After(Created(templates), steps).events, i));
  }

  function Closed(e: Event, next: Event): int {
    if e.toStatus == InProgress then next.createdAt - e.createdAt else 0
  }

  lemma ActiveMsOfFour(a: Event, b: Event, c: Event, d: Event)
    ensures ActiveMs([a, b, c, d]) == Closed(a, b) + Closed(b, c) + Closed(c, d)
  {
    assert ActiveMs([a]) == 0;
    hide ActiveMs;
    ActiveMsAppend([a], b);
    assert [a] + [b] == [a, b];
    ActiveMsAppend([a, b], c);
    assert [a, b] + [c] == [a, b, c];
    ActiveMsAppend([a, b, c], d);
    assert [a, b, c] + [d] == [a, b, c, d];
  }

  lemma SwapMiddle(a: Event, b: Event, c: Event, d: Event)
    ensures multiset([a, b, c, d]) == multiset([a, c, b, d])
  {}

  // ----- a run whose log misleads -----

  const MILESTONE := Template(None, None, false, None, true, false, None, None, false)

  /** Started at 0, paused and resumed at 1, completed at 2. */
  function HastyRun(cal: PlanningCalendar): seq<Step> {
    [Step(Start(0), 0, cal), Step(Pause(0), 1, cal), Step(Resume(0), 1, cal),
     Step(Complete(0, true, false, false), 2, cal)]
  }

  const STARTED := Event(0, Started, Ready, InProgress, 0)
  const PAUSED := Event(0, Paused, InProgress, WaitingExternal, 1)
  const RESUMED := Event(0, Resumed, WaitingExternal, InProgress, 1)
  const COMPLETED := Event(0, WasCompleted, InProgress, Completed, 2)

  /** One transition of a one-stage timeline whose stage is neither PENDING nor READY afterwards. */
  lemma OneStageTransition(s: TimelineState, stage: Stage, kind: EventKind, now: int, cal: PlanningCalendar)
    requires Valid(cal) && |s.stages| == 1 && stage.status != Pending && stage.status != Ready
    ensures var after := Transition(s, 0, stage, kind, now, cal);
            && |after.stages| == 1
            && after.stages[0].status == stage.status
            && after.stages[0].enforceRequiredOnComplete == stage.enforceRequiredOnComplete
            && after.events == s.events + [Event(0, kind, s.stages[0].status, stage.status, now)]
  {
    hide Recalculated;
    RecalculatedRows(Settled(Logged(s, 0, stage, kind, now)), now, cal);
  }

  /** The one stage of the timeline has this status, and this is the log. */
  ghost predicate OneStage(s: TimelineState, status: StageStatus, log: seq<Event>) {
    |s.stages| == 1 && s.stages[0].status == status && !s.stages[0].enforceRequiredOnComplete && s.events == log
  }

  lemma HastyStart(s: TimelineState, cal: PlanningCalendar)
    requires Valid(cal) && OneStage(s, Ready, [])
    ensures OneStage(Act(s, Start(0), 0, cal), InProgress, [STARTED])
  {
    hide Transition;
    OneStageTransition(s, StartedStage(s.stages[0], 0), Started, 0, cal);
  }

  lemma HastyPause(s: TimelineState, cal: PlanningCalendar)
    requires Valid(cal) && OneStage(s, InProgress, [STARTED])
    ensures OneStage(Act(s, Pause(0), 1, cal), WaitingExternal, [STARTED, PAUSED])
  {
    hide Transition;
    OneStageTransition(s, s.stages[0].(status := WaitingExternal), Paused, 1, cal);
  }

  lemma HastyResume(s: TimelineState, cal: PlanningCalendar)
    requires Valid(cal) && OneStage(s, WaitingExternal, [STARTED, PAUSED])
    ensures OneStage(Act(s, Resume(0), 1, cal), InProgress, [STARTED, PAUSED, RESUMED])
  {
    hide Transition;
    OneStageTransition(s, s.stages[0].(status := InProgress), Resumed, 1, cal);
  }

  lemma HastyComplete(s: TimelineState, cal: PlanningCalendar)
    requires Valid(cal) && OneStage(s, InProgress, [STARTED, PAUSED, RESUMED])
    ensures OneStage(
      Act(s, Complete(0, true, false, false), 2, cal), Completed, [STARTED, PAUSED, RESUMED, COMPLETED])
  {
    hide Transition, FinalSlaState;
    OneStageTransition(s, CompletedStage(s.stages[0], 2), WasCompleted, 2, cal);
  }

  lemma CreatedOneStage()
    ensures OneStage(Created([MILESTONE]), Ready, [])
  {}

  lemma HastyLog(cal: PlanningCalendar)
    requires Valid(cal)
    ensures ValidSteps(HastyRun(cal))
    ensures OneStage(After(Created([MILESTONE]), HastyRun(cal)), Completed, [STARTED, PAUSED, RESUMED, COMPLETED])
  {
    hide Act, Created, OneStage;
    var run := HastyRun(cal);
    var s0 := Created([MILESTONE]);
    var s1 := Act(s0, Start(0), 0, cal);
    var s2 := Act(s1, Pause(0), 1, cal);
    var s3 := Act(s2, Resume(0), 1, cal);
    CreatedOneStage();
    HastyStart(s0, cal);
    HastyPause(s1, cal);
    HastyResume(s2, cal);
    HastyComplete(s3, cal);
    assert run[..1][..0] == [] && run[..2][..1] == run[..1] && run[..3][..2] == run[..2];
    assert After(s0, run[..1]) == s1;
    assert After(s0, run[..2]) == s2;
    assert After(s0, run[..3]) == s3;
  }

  /**
   * With equal timestamps the order matters: this run's log, read back with the pause and the
   * resumption swapped, loses one of the two milliseconds that the stage was IN_PROGRESS.
   */
  lemma TiesMislead(cal: PlanningCalendar) returns (read: seq<Event>)
    requires Valid(cal)
    ensures ValidSteps(HastyRun(cal))
    ensures var s := After(Created([MILESTONE]), HastyRun(cal));
            var log := StageEvents(s.events, 0);
            && |s.stages| == 1 && s.stages[0].status == Completed
            && !TiesAgree(log)
            && ReadBack(log, read)
            && InProgressMs(Created([MILESTONE]), HastyRun(cal), 0) == 2 && ActiveMs(read) == 1
  {
    hide ActiveMs, Act, Created, InProgressMs, TiesAgree, ReadBack, StageEvents;
    var run := HastyRun(cal);
    HastyLog(cal);
    var events := [STARTED, PAUSED, RESUMED, COMPLETED];
    AllOfOneStage(events);
    ActiveTimeIsTimeInProgress([MILESTONE], run, 0);
    read := [STARTED, RESUMED, PAUSED, COMPLETED];
    SwappedLog();
  }

  lemma SwappedLog()
    ensures var log, read := [STARTED, PAUSED, RESUMED, COMPLETED], [STARTED, RESUMED, PAUSED, COMPLETED];
            !TiesAgree(log) && ReadBack(log, read) && ActiveMs(log) == 2 && ActiveMs(read) == 1
  {
    hide ActiveMs, ReadBack, TiesAgree;
    SwappedReadBack();
    ActiveMsOfFour(STARTED, PAUSED, RESUMED, COMPLETED);
    ActiveMsOfFour(STARTED, RESUMED, PAUSED, COMPLETED);
    TiedPause([STARTED, PAUSED, RESUMED, COMPLETED]);
  }

  lemma SwappedReadBack()
    ensures ReadBack([STARTED, PAUSED, RESUMED, COMPLETED], [STARTED, RESUMED, PAUSED, COMPLETED])
  {
    SwapMiddle(STARTED, PAUSED, RESUMED, COMPLETED);
  }

  lemma TiedPause(log: seq<Event>)
    requires |log| == 4 && log[1] == PAUSED && log[2] == RESUMED && log[3] == COMPLETED
    ensures !TiesAgree(log)
  {
    assert log[1].createdAt == log[2].createdAt < log[3].createdAt;
  }

  lemma {:induction false} AllOfOneStage(events: seq<Event>)
    requires forall k :: 0 <= k < |events| ==> events[k].stage == 0
    ensures StageEvents(events, 0) == events
  {
    if events != [] {
      AllOfOneStage(events[..|events| - 1]);
    }
  }
}
