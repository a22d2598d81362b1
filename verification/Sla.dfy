/** The SLA classification of src/services/case-sla.compute.ts. */
module Sla {
  import opened Basics
  import opened Gregorian
  import opened WorkingDays
  import opened Stages

  datatype SlaState = OnTrack | AtRisk | Overdue | CompletedOnTime | CompletedLate | ExceptionApproved
      | SlaWaitingExternal

  datatype SlaStage = SlaStage(
    status: StageStatus,
    completedAt: Option<int>,
    plannedStart: Option<int>,
    plannedFinish: Option<int>,
    atRiskPercent: Option<int>,
    warnDaysRemaining: Option<int>,
    hardBlock: bool,
    hardBlockUnlockedAt: Option<int>,
    exceptionApproved: bool)

  const DEFAULT_AT_RISK_PERCENT := 80
  const DEFAULT_WARN_DAYS_REMAINING := 2

  /** Share of the planned span gone by, in percent. */
  function ElapsedPercent(s: SlaStage, today: int): real
    requires s.plannedFinish.Some?
  {
    if s.plannedStart.Some? && s.plannedFinish.value > s.plannedStart.value then
      (today - s.plannedStart.value) as real / (s.plannedFinish.value - s.plannedStart.value) as real * 100.0
    else 100.0
  }

  function ComputeStageSlaState(s: SlaStage, now: int, cal: PlanningCalendar): Option<SlaState> {
    if s.status == Completed then
      if s.plannedFinish == None then None
      else if s.completedAt == None || DateOnly(s.completedAt.value) <= s.plannedFinish.value then Some(CompletedOnTime)
      else Some(CompletedLate)
    else if s.status == Skipped then None
    else if s.exceptionApproved then Some(ExceptionApproved)
    else if s.status == WaitingExternal then Some(SlaWaitingExternal)
    else if s.status == Blocked then Some(Overdue)
    else if s.plannedFinish == None then None
    else
      var today := DateOnly(now);
      if today > s.plannedFinish.value then Some(Overdue)
      else if || ElapsedPercent(s, today) >= s.atRiskPercent.GetOr(DEFAULT_AT_RISK_PERCENT) as real
              || WorkingDaysBetween(today, s.plannedFinish.value, cal) <=
                 s.warnDaysRemaining.GetOr(DEFAULT_WARN_DAYS_REMAINING)
      then Some(AtRisk)
      else Some(OnTrack)
  }

  function ShouldHardBlock(s: SlaStage, state: Option<SlaState>): bool {
    state == Some(Overdue) && s.hardBlock && s.hardBlockUnlockedAt == None && s.status != Blocked
  }

  /** The stages whose classification depends on the clock. */
  predicate OnTheClock(s: SlaStage) {
    && (s.status == Pending || s.status == Ready || s.status == InProgress)
    && !s.exceptionApproved
    && s.plannedFinish.Some?
  }

  function Severity(state: Option<SlaState>): int {
    if state == Some(OnTrack) then 0 else if state == Some(AtRisk) then 1 else if state == Some(Overdue) then 2 else -1
  }

  lemma ElapsedPercentMonotone(s: SlaStage, today: int, later: int)
    requires s.plannedFinish.Some? && today <= later
    ensures ElapsedPercent(s, today) <= ElapsedPercent(s, later)
  {
    if s.plannedStart.Some? && s.plannedFinish.value > s.plannedStart.value {
      var span := (s.plannedFinish.value - s.plannedStart.value) as real;
      var a, b := (today - s.plannedStart.value) as real, (later - s.plannedStart.value) as real;
      assert b / span - a / span == (b - a) / span >= 0.0;
    }
  }

  /**
   * As time passes a stage on the clock only moves from ON_TRACK to AT_RISK to OVERDUE, whatever the calendar and
   * thresholds.
   */
  lemma SeverityNeverDrops(s: SlaStage, now: int, later: int, cal: PlanningCalendar)
    requires OnTheClock(s) && now <= later
    ensures 0 <= Severity(ComputeStageSlaState(s, now, cal)) <= Severity(ComputeStageSlaState(s, later, cal)) <= 2
  {
    hide ElapsedPercent, WorkingDaysBetween;
    var finish, today, then' := s.plannedFinish.value, DateOnly(now), DateOnly(later);
    assert today <= then';
    ElapsedPercentMonotone(s, today, then');
    if then' <= finish {
      BetweenByRank(today, finish, cal);
      BetweenByRank(then', finish, cal);
      RankMonotone(today, then', cal);
    }
  }

  /** The share of the planned days gone by reaches the percentage. */
  predicate PercentReached(s: SlaStage, today: int)
    requires s.plannedFinish.Some?
  {
    var percent := if s.atRiskPercent == None then 80 else s.atRiskPercent.value;
    if s.plannedStart.Some? && s.plannedStart.value < s.plannedFinish.value then
      100 * (today - s.plannedStart.value) >= percent * (s.plannedFinish.value - s.plannedStart.value)
    else percent <= 100
  }

  /** So few working days are left until the planned finish, today not counted, that a warning is due. */
  predicate FewDaysLeft(s: SlaStage, today: int, cal: PlanningCalendar)
    requires s.plannedFinish.Some?
  {
    |WorkingDaysIn(today + 1, s.plannedFinish.value, cal)| <=
    if s.warnDaysRemaining == None then 2 else s.warnDaysRemaining.value
  }

  /**
   * A stage on the clock is OVERDUE from the midnight after its planned finish, and before that AT_RISK
   * exactly when the percentage is reached (80 unless configured) or few working days are left (2 unless
   * configured), else ON_TRACK.
   */
  lemma ClockMeans(s: SlaStage, now: int, cal: PlanningCalendar)
    requires OnTheClock(s)
    ensures var state := ComputeStageSlaState(s, now, cal);
            && (state == Some(Overdue) <==> now >= (s.plannedFinish.value + 1) * DAY_MS)
            && (state == Some(AtRisk) <==>
                now < (s.plannedFinish.value + 1) * DAY_MS &&
                (PercentReached(s, DateOnly(now)) || FewDaysLeft(s, DateOnly(now), cal)))
            && (state == Some(OnTrack) <==> state != Some(Overdue) && state != Some(AtRisk))
  {
    PercentMeans(s, DateOnly(now));
    hide ElapsedPercent, PercentReached, WorkingDaysIn;
  }

  lemma PercentMeans(s: SlaStage, today: int)
    requires s.plannedFinish.Some?
    ensures ElapsedPercent(s, today) >= s.atRiskPercent.GetOr(DEFAULT_AT_RISK_PERCENT) as real <==>
        PercentReached(s, today)
  {
    if s.plannedStart.Some? && s.plannedFinish.value > s.plannedStart.value {
      var percent := s.atRiskPercent.GetOr(DEFAULT_AT_RISK_PERCENT);
      Share(today - s.plannedStart.value, s.plannedFinish.value - s.plannedStart.value, percent);
    }
  }

  lemma Share(part: int, whole: int, percent: int)
    requires whole > 0
    ensures part as real / whole as real * 100.0 >= percent as real <==> 100 * part >= percent * whole
  {
    var p, w, c := part as real, whole as real, percent as real;
    var q := p / w;
    assert q * w == p;
    if q * 100.0 >= c {
      assert q * 100.0 * w >= c * w;
      assert (100 * part) as real >= (percent * whole) as real;
    } else {
      assert q * 100.0 * w < c * w;
      assert (100 * part) as real < (percent * whole) as real;
    }
  }

  /**
   * A stage off the clock: closed stages keep what their completion makes of the planned finish, an
   * approved exception covers every open stage, and after it waiting and blocked stages say so.
   */
  lemma OffTheClockMeans(s: SlaStage, now: int, cal: PlanningCalendar)
    requires !OnTheClock(s)
    ensures ComputeStageSlaState(s, now, cal) ==
            if s.status == Skipped then None
            else if s.status == Completed then
              if s.plannedFinish == None then None
              else if s.completedAt.Some? && s.completedAt.value >= (s.plannedFinish.value + 1) * DAY_MS then
                Some(CompletedLate)
              else Some(CompletedOnTime)
            else if s.exceptionApproved then Some(ExceptionApproved)
            else if s.status == WaitingExternal then Some(SlaWaitingExternal)
            else if s.status == Blocked then Some(Overdue)
            else None
  {}

  /**
   * Only an open, overdue, never unlocked hard-block stage is blocked, and never before its planned finish has
   * passed.
   */
  lemma HardBlockOnlyWhenOverdue(s: SlaStage, now: int, cal: PlanningCalendar)
    ensures ShouldHardBlock(s, ComputeStageSlaState(s, now, cal)) <==>
            && OnTheClock(s) && s.hardBlock && s.hardBlockUnlockedAt == None
            && s.plannedFinish.value < DateOnly(now)
  {}
}
