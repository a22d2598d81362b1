/**
 * What the forecast of src/services/case-forecast.service.ts projects, stage by stage, told from the rows.
 */
module ForecastLaws {
  import opened Basics
  import opened Gregorian
  import opened WorkingDays
  import opened Planning
  import opened Stages
  import opened Forecast

  /** The row anchors the chain: it was completed, and it is known when. */
  predicate Anchors(row: ForecastRow) {
    row.status == Completed && row.completedAt.Some?
  }

  /** The day of the last completion among the first n rows. */
  function LastCompletion(rows: seq<ForecastRow>, n: nat): Option<int>
    requires n <= |rows|
  {
    if n == 0 then None
    else if Anchors(rows[n - 1]) then Some(DateOnly(rows[n - 1].completedAt.value))
    else LastCompletion(rows, n - 1)
  }

  /** The finish that the chain projects for row i. */
  function Projected(rows: seq<ForecastRow>, i: nat, now: int, cal: PlanningCalendar): int
    requires Valid(cal) && i < |rows|
  {
    ChainAfter(rows, i + 1, now, cal).prevFinish.GetOr(0)
  }

  /** A dependent row starts the working day after its predecessor, any other at the last completion, or today. */
  function ProjectedStart(rows: seq<ForecastRow>, i: nat, now: int, cal: PlanningCalendar): int
    requires Valid(cal) && i < |rows|
  {
    if rows[i].plan.dependsOnPrevious && i > 0 then AddWorkingDays(Projected(rows, i - 1, now, cal), 1, cal)
    else LastCompletion(rows, i).GetOr(DateOnly(now))
  }

  lemma {:induction false} ChainHolds(rows: seq<ForecastRow>, n: nat, now: int, cal: PlanningCalendar)
    requires Valid(cal) && n <= |rows|
    ensures ChainAfter(rows, n, now, cal).prevFinish.Some? <==> n > 0
    ensures ChainAfter(rows, n, now, cal).lastActual == LastCompletion(rows, n)
  {
    hide ChainFinish, EstimateForStage, Walk;
    if n > 0 {
      ChainHolds(rows, n - 1, now, cal);
    }
  }

  /** Row i is the last before row n to anchor the chain. */
  ghost predicate LastAnchor(rows: seq<ForecastRow>, i: nat, n: nat) {
    i < n <= |rows| && Anchors(rows[i]) && forall k :: i < k < n ==> !Anchors(rows[k])
  }

  lemma {:induction false} LastCompletionIs(rows: seq<ForecastRow>, i: nat, n: nat)
    requires LastAnchor(rows, i, n)
    ensures LastCompletion(rows, n) == Some(DateOnly(rows[i].completedAt.value))
  {
    if i < n - 1 {
      LastCompletionIs(rows, i, n - 1);
    }
  }

  lemma {:induction false} NoCompletion(rows: seq<ForecastRow>, n: nat)
    requires n <= |rows| && forall k :: 0 <= k < n ==> !Anchors(rows[k])
    ensures LastCompletion(rows, n) == None
  {
    if n > 0 {
      NoCompletion(rows, n - 1);
    }
  }

  /** A row that waits for none starts on the day of the last completion before it, or today if there is none. */
  lemma IndependentStartsAtLastCompletion(
      rows: seq<ForecastRow>, j: nat, now: int, cal: PlanningCalendar)
    requires Valid(cal) && j < |rows| && (j == 0 || !rows[j].plan.dependsOnPrevious)
    ensures forall i: nat {:trigger LastAnchor(rows, i, j)} :: LastAnchor(rows, i, j) ==>
              ProjectedStart(rows, j, now, cal) == DateOnly(rows[i].completedAt.value)
    ensures (forall k :: 0 <= k < j ==> !Anchors(rows[k])) ==> ProjectedStart(rows, j, now, cal) == DateOnly(now)
  {
    forall i: nat | LastAnchor(rows, i, j)
      ensures ProjectedStart(rows, j, now, cal) == DateOnly(rows[i].completedAt.value)
    {
      LastCompletionIs(rows, i, j);
    }
    if forall k :: 0 <= k < j ==> !Anchors(rows[k]) {
      NoCompletion(rows, j);
    }
  }

  // ----- closed rows -----

  /** A completed row ends at its completion day, whatever was projected before it. */
  lemma CompletedRowAnchors(rows: seq<ForecastRow>, i: nat, now: int, cal: PlanningCalendar)
    requires Valid(cal) && i < |rows| && Anchors(rows[i])
    ensures Projected(rows, i, now, cal) == DateOnly(rows[i].completedAt.value)
  {
    hide ChainFinish, EstimateForStage, Walk;
  }

  /** A skipped row, or a completed one without a time, leaves the chain where it was. */
  lemma SkippedRowAddsNothing(rows: seq<ForecastRow>, i: nat, now: int, cal: PlanningCalendar)
    requires Valid(cal) && i < |rows| && Terminal(rows[i].status) && !Anchors(rows[i])
    ensures Projected(rows, i, now, cal) == if i == 0 then DateOnly(now) else Projected(rows, i - 1, now, cal)
  {
    hide ChainFinish, EstimateForStage, Walk;
    ChainHolds(rows, i, now, cal);
  }

  // ----- open rows -----

  /** What an open row is forecast from. */
  datatype Source = FromOverride(days: int) | FromHistory(medianDays: real, samples: nat) | FromDuration(days: int)

  /** Days of a configured or overridden duration: weeks count seven, months thirty, and no type none. */
  predicate CountsAs(value: Option<int>, t: Option<DurationType>, days: int) {
    match (value, t)
    case (Some(v), Some(Days)) => days == v
    case (Some(v), Some(Weeks)) => days == 7 * v
    case (Some(v), Some(Months)) => days == 30 * v
    case _ => days == 0
  }

  /** An override wins, then five samples of the case type, then five of the tenant, then the configured duration. */
  ghost predicate ForecastFrom(row: ForecastRow, source: Source) {
    if row.plan.remainingDurationOverride.Some? then
      source.FromOverride? && CountsAs(row.plan.remainingDurationOverride, row.plan.durationType, source.days)
    else if row.primary.sampleCount >= 5 then source == FromHistory(row.primary.medianDays, row.primary.sampleCount)
    else if row.wide.sampleCount >= 5 then source == FromHistory(row.wide.medianDays, row.wide.sampleCount)
    else source.FromDuration? && CountsAs(row.plan.durationValue, row.plan.durationType, source.days)
  }

  /** n is x rounded to the nearest integer, halves upwards. */
  predicate RoundsTo(x: real, n: int) {
    n as real - 0.5 <= x < n as real + 0.5
  }

  lemma RoundMeans(x: real)
    ensures RoundsTo(x, Round(x))
  {}

  lemma RoundUnique(x: real, n: int)
    requires RoundsTo(x, n)
    ensures Round(x) == n
  {
    RoundMeans(x);
  }

  /**
   * A stage forecast from history takes its rounded median in calendar days, its first day counted, and
   * then its buffer: given its start, no calendar matters.
   */
  lemma HistoryChainsCalendarDays(
      rows: seq<ForecastRow>, i: nat, now: int, cal: PlanningCalendar, median: real, samples: nat, n: int)
    requires Valid(cal) && i < |rows| && !Terminal(rows[i].status)
    requires ForecastFrom(rows[i], FromHistory(median, samples)) && RoundsTo(median, n)
    ensures Projected(rows, i, now, cal) ==
            ProjectedStart(rows, i, now, cal) + Max(0, n - 1) + rows[i].plan.bufferDays.GetOr(0)
  {
    hide Walk;
    ChainHolds(rows, i, now, cal);
    RoundUnique(median, n);
  }

  /**
   * A stage forecast from its duration takes it in working days if it is internal DAYS and in calendar
   * days otherwise, its first day counted, and then its buffer; without positive length only the buffer.
   */
  lemma DurationChainsItsOwnDays(
      rows: seq<ForecastRow>, i: nat, now: int, cal: PlanningCalendar, source: Source)
    requires Valid(cal) && i < |rows| && !Terminal(rows[i].status)
    requires ForecastFrom(rows[i], source) && !source.FromHistory?
    ensures var start, plan := ProjectedStart(rows, i, now, cal), rows[i].plan;
            Projected(rows, i, now, cal) - plan.bufferDays.GetOr(0) ==
            if source.days <= 0 then start
            else if plan.durationType == Some(Days) && !plan.externalWaiting
            then AddWorkingDays(start, source.days - 1, cal)
            else start + source.days - 1
  {
    hide Walk;
    ChainHolds(rows, i, now, cal);
    RoundOfInteger(source.days);
  }

  // ----- the response -----

  /** The projected completion is the last row's projected finish. */
  lemma CompletionIsLastProjected(rows: seq<ForecastRow>, now: int, cal: PlanningCalendar)
    requires Valid(cal)
    ensures ChainAfter(rows, |rows|, now, cal).prevFinish ==
            if rows == [] then None else Some(Projected(rows, |rows| - 1, now, cal))
  {
    hide ChainStep;
    ChainHolds(rows, |rows|, now, cal);
  }

  /** The stages of the response are those of the open rows, in order. */
  lemma {:induction false} EstimatesConcat(a: seq<ForecastRow>, b: seq<ForecastRow>)
    ensures Estimates(a + b) == Estimates(a) + Estimates(b)
    decreases |b|
  {
    hide EstimateForStage;
    if b == [] {
      assert a + b == a;
    } else {
      var front := b[..|b| - 1];
      EstimatesConcat(a, front);
      assert (a + b)[..|a + b| - 1] == a + front;
    }
  }

  predicate HasConfidence(samples: nat, c: Confidence) {
    match c
    case Insufficient => samples < 5
    case Low => 5 <= samples < 10
    case Moderate => 10 <= samples < 25
    case High => samples >= 25
  }

  /** A closed row contributes nothing; an open one its key, its source's days and the confidence of their number. */
  lemma EstimateOfRow(row: ForecastRow, source: Source)
    requires ForecastFrom(row, source)
    ensures Terminal(row.status) ==> Estimates([row]) == []
    ensures !Terminal(row.status) ==>
              && |Estimates([row])| == 1
              && var stage := Estimates([row])[0];
                 && stage.stageKey == row.key
                 && (source.FromHistory? ==>
                       stage.estimate.days == source.medianDays &&
                       HasConfidence(source.samples, stage.estimate.confidence))
                 && (!source.FromHistory? ==>
                       stage.estimate.days == source.days as real && stage.estimate.confidence == Insufficient)
  {
    assert [row][..0] == [];
  }

  // ----- a stage forecast over a weekend -----

  const HISTORY_CASE :=
    [ForecastRow("review", Ready, PlanStage(Some(10), Some(Days), false, None, true, None, None), None,
                 Summary(5, 3.0), Summary(0, 0.0))]

  /** Read on Friday 2 January 1970, a median of three days ends on Sunday. */
  lemma HistoryRunsOverTheWeekend()
    ensures ChainAfter(HISTORY_CASE, 1, DAY_MS, DEFAULT_CALENDAR).prevFinish == Some(3)
  {
    hide ChainStep;
    CompletionIsLastProjected(HISTORY_CASE, DAY_MS, DEFAULT_CALENDAR);
    assert ForecastFrom(HISTORY_CASE[0], FromHistory(3.0, 5));
    HistoryChainsCalendarDays(HISTORY_CASE, 0, DAY_MS, DEFAULT_CALENDAR, 3.0, 5, 3);
  }
}
