# Case planning, audit chain, field rules and stage timelines: a Dafny model

This project models the logic at the centre of a case-management backend and proves what it keeps:

- **The working-day planner** (`Gregorian`, `WorkingDays`, `Planning`, `PlanningLaws`, `Forecast`,
  `ForecastLaws`, `Sla`). Dates are day numbers counted from 1970-01-01; a calendar is a list of weekdays
  and a finite set of holidays. `Rank` numbers the working days consecutively, which turns the planner into
  integer arithmetic. The forward pass, the reverse pass, the counting loop and the day walk are methods
  with the source's loops, each proved equal to a specification function; the laws are about those
  functions.
- **The per-tenant audit hash chain** (`CanonicalJson`, `JsonDecoding`, `JsonReader`, `Timestamps`,
  `AuditHash`, `HashReader`, `AuditChain`, `TamperEvidence`, `AuditProtocol`, `AuditRuns`,
  `AuditProgress`). Texts are sequences of UTF-16 code units, so the canonical printer, its escapes and the
  ISO timestamp are modelled character by character. `AuditProtocol` is a state machine of READ COMMITTED
  transactions whose steps (begin, take the advisory lock, three separate leaf queries, insert, commit,
  abort) interleave freely. The digest is a parameter: it prints lower-case hexadecimal, and the theorems
  assume only that no two texts hashed in the run considered collide (a fixed-length digest cannot be
  injective on all texts). A run may start from earlier rows, version-0 rows with opaque hashes included,
  that form one chain per tenant.
- **The case-field rule engine** (`FieldRules`, `Conditions`, `Hiding`, `RuleGraph`, `RuleLaws`,
  `OptionTree`): conditions, the ordered one-pass evaluation of hidden, required and default state, the
  separate required-field validation, the worklist cycle guard of the rule graph, and the parent-chain guard
  of option trees.
- **The stage timeline** (`Stages`, `TimelineModel`, `Timeline`, `TimelineLaws`, `ActionLaws`,
  `Performance`, `HardBlocks`): every stage action and the SLA sweep, as methods that update the rows in
  place, keep the class invariant `Valid()` and are proved against one transition function
  `TimelineModel.Act`, whose actions are described one by one from the rows before and after; invariants
  over every run; and the active-time statistic read from the event log.
- **The last-administrator guard** (`AdminLockout`, `RequestLaws`).

`Basics` holds option, result and error values.

## What the proofs say where the program falls short

- `startFromFinish(finish(s))` gives back `s` exactly on the starts described by
  `PlanningLaws.RecoverableStart`: an internal DAYS stage of two or more days needs a working-day start; a
  MONTHS stage needs a start whose day of month exists in the month it finishes in (or, for the first of a
  month, a preceding month no longer than the one the stage ends in). Days 2 to 28 always qualify.
  `PlanningLaws.SaturdayStartIsLost` and `PlanningLaws.ClampedStartIsLost` are starts that are lost.
- The forecast counts a month as 30 days and a negative duration as none. `Forecast.SpansAgree` gives, in
  month lengths, exactly the stages on which it equals the planner; `Forecast.MonthsDisagree` is an input on
  which it does not.
- `workingDaysBetween` is documented as the signed count of `(from, to]`; backwards the code counts `[to,
  from)`. The model follows the code, and `WorkingDays.BetweenAntisymmetric` says exactly when swapping the
  ends only changes the sign.
- With acyclic rules hiding has one meaning. The one-pass loop computes it when no two firing HIDE rules are
  in the wrong order (one targets the condition field of an earlier one); for given stored values it does so
  for every static set exactly when, for each such pair, another firing rule stands in
  (`Hiding.ComputedHidingIsExact`). The cycle guard does not enforce this order, which priority and creation
  time decide: `Hiding.WrongOrderMisleads` is an input that it admits and that fails.
- Events are read back by `createdAt` alone. The active time of a completed stage is the time it was in
  progress, in whatever order equal timestamps come back, exactly when events at one time agree on whether
  the stage runs, unless nothing later is logged (`Performance.ActiveTimeAsReadBack`).
  `Performance.TiesMislead` is a run whose log, read back, loses time. In log order the statistic is always
  exact, hard blocks included.
- `findLeaf` looks for a branch only when the newest row is not a leaf, so on a corrupted, branched log it
  may still answer with a leaf. `AuditChain.RefusalIsExact` says exactly on which logs it refuses, and
  `AuditChain.BranchedLogIsAnswered` is a branched log that it extends.
- A tip's hash commits to the whole history only as far back as the rows are of version 1
  (`TamperEvidence.SharedHashSharedPast`); the content of an older row is only linked, and can be replaced
  unnoticed (`TamperEvidence.UnhashedContentIsNotFound`).
- The SLA state stored on completion is computed from the planned finish before the recalculation that the
  completion itself makes. Under one calendar it always fits the stored row; after a calendar change, which
  does not replan, it fits exactly under the condition of `TimelineLaws.CompletionStateAgrees`, and
  `TimelineLaws.RemovedHolidayMisleads` is a run where it does not.
- A stage is never started before its predecessor is terminal, but an unlock does not look at the
  predecessor. A stage that was started once, skipped and reopened keeps its start time; blocked while
  PENDING or READY, it is made IN_PROGRESS by the unlock even if its predecessor has been reopened.
  `HardBlocks.EarlyProgressIsByUnlock` says that this is the only way, and `HardBlocks.UnlockBeginsEarly` is
  such a run.
- The rule cycle guard refuses some updates that it need not: those of a rule that stays inactive
  (`RuleGraph.UpdateRefusal`, `RuleGraph.InactiveUpdateRefused`).

## Model

| member | source | states |
|---|---|---|
| Gregorian.DayFromYearIsFormula | src/services/case-planning.dates.ts:42-47 | The year starts behind getUTCFullYear and Date.UTC, counted year by year with leap years, agree with the closed form of ECMA-262 section 21.4.1.3. |
| Gregorian.YearOf | src/services/case-planning.dates.ts:43 | The year of a date is the one whose first day is not after it and whose successor starts after it. |
| Gregorian.MonthOf | src/services/case-planning.dates.ts:44 | The month of a date is the one whose day range contains it. |
| Gregorian.DateOnly | src/services/case-planning.service.ts:35-37 | dateOnly gives the UTC day that contains the timestamp. |
| Gregorian.Epoch | src/services/case-planning.dates.ts:15-17 | Day 0 is 1 January 1970, a Thursday, and weekdays come round every seven days. |
| Gregorian.MonthLengthIs | src/services/case-planning.dates.ts:42-47 | Every month of every year has the length of the Gregorian calendar, February by the leap rule. |
| Gregorian.DayInMonth | src/services/case-planning.dates.ts:42-47 | Every date is a valid day of month of exactly its year and month. |
| Gregorian.DayOfMonth | src/services/case-planning.dates.ts:42-47 | Year, month and day of month determine each other: day k of a month has that month and that date. |
| Gregorian.MakeDayByMonth | src/services/case-planning.dates.ts:44-46 | Date.UTC carries months outside 0..11 into the year, so months count consecutively. |
| Gregorian.AddMonthsMeaning | src/services/case-planning.dates.ts:42-47 | addMonths moves to the same day of the month n months on, clamped to that month's last day, for negative n too. |
| Gregorian.AddMonthsMonotone | src/services/case-planning.dates.ts:42-47 | A later date or more months never give an earlier result, clamping included. |
| Gregorian.AddMonthsAdvances | src/services/case-planning.dates.ts:42-47 | One or more months on is strictly later. |
| WorkingDays.SomeWorkingDay | src/services/case-planning.dates.ts:24-32 | With a non-empty weekday list within 0..6 and finitely many holidays, a working day lies ahead in either direction, so the walk terminates. |
| WorkingDays.NextIsNearest | src/services/case-planning.dates.ts:27-30 | One counted step lands on a working day, strictly beyond the date, with no working day in between. |
| WorkingDays.WalkLoop | src/services/case-planning.dates.ts:24-32 | The walk loop ends and gives the walk's value, and fails exactly on an empty weekday list with a positive count. |
| WorkingDays.AddWorkingDaysMeaning | src/services/case-planning.dates.ts:34-36 | The sum is the one later working day with exactly n working days in (d, sum]. |
| WorkingDays.SubtractWorkingDaysMeaning | src/services/case-planning.dates.ts:38-40 | The difference is the one earlier working day with exactly n working days in [difference, d). |
| WorkingDays.AddsCompose | src/services/case-planning.dates.ts:34-36 | Adding n and then m working days is adding n + m. |
| WorkingDays.SubtractAfterAdd | src/services/case-planning.dates.ts:34-40 | Subtracting n after adding n gives the last working day not after the date. |
| WorkingDays.AddAfterSubtract | src/services/case-planning.dates.ts:34-40 | Adding n after subtracting n gives the first working day not before the date. |
| WorkingDays.RankInjective | src/services/case-planning.dates.ts:15-17 | Working days are ordered by their rank, so a working day is determined by it. |
| WorkingDays.CountWorkingDaysBetween | src/services/case-planning.dates.ts:50-61 | The counting loop ends and gives the signed number of working days, over (from, to] forwards and [to, from) backwards. |
| WorkingDays.BetweenAfterAdd | src/services/case-planning.dates.ts:34-61 | workingDaysBetween undoes addWorkingDays. |
| WorkingDays.BetweenAntisymmetric | src/services/case-planning.dates.ts:49-61 | Swapping the ends negates the count iff both ends are working days or neither is. |
| WorkingDays.AddWorkingDaysMonotone | src/services/case-planning.dates.ts:34-36 | A later start, more days or a calendar with fewer working days never make the sum earlier. |
| WorkingDays.UpsertWeekdays | src/services/case-calendar.service.ts:52-59 | A weekday list is accepted iff non-empty and within 0..6; what is stored is sorted without duplicates, has the same working days and lets every walk terminate. |
| Planning.ForwardPlan | src/services/case-planning.service.ts:74-86 | Every stage starts at its recorded start, the working day after its predecessor's finish, or now, and finishes accordingly. |
| Planning.ForwardPlanUnique | src/services/case-planning.service.ts:74-86 | Those equations have one solution. |
| Planning.ForwardPlanLoop | src/services/case-planning.service.ts:74-86 | The forward loop computes that solution. |
| Planning.ReversePlan | src/services/case-planning.service.ts:89-97 | The last stage's latest finish is the target, every other one is the working day before the next latest start, and latest starts follow. |
| Planning.ReversePlanUnique | src/services/case-planning.service.ts:89-97 | Those equations have one solution. |
| Planning.ReversePlanLoop | src/services/case-planning.service.ts:89-97 | The backwards loop over the preallocated array computes that solution. |
| PlanningLaws.StartFromFinishInvertsFinish | src/services/case-planning.service.ts:44-71 | For durations of every type and sign and any buffer, startFromFinish recovers the start iff the start is a working day (internal DAYS of 2 or more), or its day of month survives the clamping (MONTHS), or always (external DAYS, shorter internal DAYS, WEEKS, milestones). |
| PlanningLaws.FinishInvertsStartFromFinish | src/services/case-planning.service.ts:44-71 | Likewise finish recovers a finish date iff the finish less buffer is a working day (internal DAYS of 2 or more), or is month-end in both or neither of the two months (MONTHS), or always. |
| PlanningLaws.MidMonthStartsAreRecoverable | src/services/case-planning.service.ts:44-71 | Starts on days 2 to 28 of any month survive the round trip through every MONTHS stage. |
| PlanningLaws.SaturdayStartIsLost | src/services/case-planning.service.ts:44-71 | Under the default calendar a two-day stage from a Saturday ends on Monday, from which startFromFinish gives Friday. |
| PlanningLaws.ClampedStartIsLost | src/services/case-planning.service.ts:44-71 | A one-month stage from 31 January 2026 ends on 27 February, from which startFromFinish gives 28 January. |
| PlanningLaws.ForwardFromLatestStart | src/services/case-planning.service.ts:56-97 | For unstarted dependent chains, MONTHS included, the forward pass from the first latest start reproduces every latest date iff each latest finish is recoverable and each later latest start is a working day, and then ends on the target. |
| PlanningLaws.UniformSlack | src/services/case-planning.service.ts:74-171 | In unstarted internal DAYS or milestone chains without buffers, with working-day now and target, every stage has the same slack k, the plan is feasible iff k >= 0, and deficitDays is max(0, -k). |
| PlanningLaws.FeasibilityMeans | src/services/case-planning.service.ts:100-104 | Feasible iff the plan ends by the target; the deficit is the number of working days after the target up to its end; nothing is said without target or plan. |
| PlanningLaws.SlackMeans | src/services/case-planning.service.ts:171 | Slack is the signed number of working days between the planned and the latest finish. |
| PlanningLaws.FinishMonotone | src/services/case-planning.service.ts:44-58 | A later start, longer duration (negative ones included), larger buffer or tighter calendar never make a finish earlier. |
| PlanningLaws.ForwardPlanMonotone | src/services/case-planning.service.ts:44-86 | The whole forward plan is jointly monotone in now, recorded starts, durations of all types, buffers and the calendar. |
| PlanningLaws.AddedHolidaysNeverHelp | src/services/case-planning.service.ts:74-86 | Adding holidays never makes any planned start or finish earlier. |
| Forecast.ForecastCase | src/services/case-forecast.service.ts:116-170 | The two loops give the key and estimate of each open stage in order, and as projected completion the end of the chain, which is missing iff there are no stages. |
| Forecast.AddMonthsSpans | src/services/case-planning.dates.ts:42-47 | v months span the lengths of those months added up, less what clamping to a shorter month cuts off. |
| Forecast.ChainFinishIsFinish | src/services/case-forecast.service.ts:54-61 | For a configured stage the forecast's finish is the planner's iff it is a milestone, internal DAYS, external DAYS or WEEKS of positive length, or MONTHS whose months, less the clamped days, add up to 30 days each. |
| Forecast.ForecastRefinesPlanner | src/services/case-forecast.service.ts:144-169 | For configured stages each chained finish is the forward plan's planned finish, for every prefix, iff every stage of the prefix meets that condition at its planned start. |
| Forecast.ForecastEqualsPlan | src/services/case-forecast.service.ts:37-169 | Without MONTHS stages and negative durations the forecast and the planner agree on every finish, buffers and external waits included. |
| Forecast.MonthsDisagree | src/services/case-forecast.service.ts:38-46 | For a one-month stage on 1 March 2026 the plan ends on 31 March and the forecast a day earlier, under every calendar. |
| ForecastLaws.CompletedRowAnchors | src/services/case-forecast.service.ts:152-154 | A completed row's finish is its completion day, whatever precedes it. |
| ForecastLaws.IndependentStartsAtLastCompletion | src/services/case-forecast.service.ts:161-163 | An independent row starts at the last completion day before it, or today. |
| ForecastLaws.SkippedRowAddsNothing | src/services/case-forecast.service.ts:155-157 | A skipped row leaves the chain where it was. |
| ForecastLaws.HistoryChainsCalendarDays | src/services/case-forecast.service.ts:48-61 | A row forecast from five samples of its case type, else of the tenant, takes its rounded median in calendar days from its start, and then its buffer, under every calendar. |
| ForecastLaws.DurationChainsItsOwnDays | src/services/case-forecast.service.ts:48-61 | A row forecast from an override or its configured duration takes working days if internal DAYS, calendar days otherwise, and then its buffer. |
| ForecastLaws.CompletionIsLastProjected | src/services/case-forecast.service.ts:169 | The projected completion is the last row's projected finish. |
| ForecastLaws.EstimatesConcat | src/services/case-forecast.service.ts:130-142 | The stages of the response are those of the rows, in order. |
| ForecastLaws.EstimateOfRow | src/services/case-forecast.service.ts:74-110 | An open row's key, days and confidence follow from what it is forecast from; a closed row gives none. |
| ForecastLaws.HistoryRunsOverTheWeekend | src/services/case-forecast.service.ts:54-61 | A median of three days read on a Friday ends on Sunday. |
| Sla.SeverityNeverDrops | src/services/case-sla.compute.ts:35-47 | For an open, unblocked, non-excepted stage with a planned finish, ON_TRACK, AT_RISK, OVERDUE never decreases as time passes, for every calendar and thresholds. |
| Sla.ClockMeans | src/services/case-sla.compute.ts:35-47 | On the clock: OVERDUE from the midnight after the planned finish, before that AT_RISK iff the elapsed share reaches its percentage (80 by default) or few enough working days are left (2 by default), else ON_TRACK. |
| Sla.OffTheClockMeans | src/services/case-sla.compute.ts:25-35 | Every other stage's state, in the order of closed, excepted, waiting and blocked. |
| CanonicalJson.EqualValuesPrintAlike | src/services/audit.service.ts:72-78 | Values equal up to property order, at every depth, print the same text. |
| JsonDecoding.QuoteDecodes | src/services/audit.service.ts:74-77 | A quoted, escaped string followed by anything determines the string and what follows. |
| JsonDecoding.PrintDecodes | src/services/audit.service.ts:72-78 | A printed value followed by anything that cannot continue it determines the value and what follows. |
| JsonDecoding.CanonicalJsonIsFaithful | src/services/audit.service.ts:72-78 | Two values print alike iff they are the same JSON value up to property order. |
| JsonReader.ReadClosed | src/services/audit.service.ts:74-77 | A strict reader of JSON strings, written from the standards, undoes the escaping of every string. |
| JsonReader.BeforeMeans | src/services/audit.service.ts:76 | The key order is that of the first differing code unit, a proper prefix first. |
| JsonReader.ReadPrinted | src/services/audit.service.ts:72-78 | A JSON reader written independently of the printer reads every printed value, whatever delimited text follows, as the same value with ascending keys. |
| JsonReader.CanonicalJsonReadsBack | src/services/audit.service.ts:72-78 | The whole canonical text reads back as the value, with the keys of every object, at every depth, in ascending order. |
| Timestamps.IsoStringInjective | src/services/audit.service.ts:97-98 | The ISO text of a timestamp determines it, over the whole JavaScript date range. |
| Timestamps.ToKeyInjective | src/services/case-planning.dates.ts:11-13 | Holiday keys tell the days of years 0 to 9999 apart. |
| HashReader.IsoStringReadsBack | src/services/audit.service.ts:98 | The timestamp holds year, month, day, hours, minutes, seconds and milliseconds of UTC, each in its place, over the whole date range. |
| HashReader.ToKeyReadsBack | src/services/case-planning.dates.ts:11-13 | A holiday key holds year, month and day of the date. |
| AuditHash.HashInputDecodes | src/services/audit.service.ts:101-106 | Two hash inputs are equal iff previous hash, payload, before state, after state (up to property order) and timestamp are. |
| HashReader.HashInputReadsBack | src/services/audit.service.ts:101-106 | The hashed text reads back as version 1, previous hash, payload, state before, state after and timestamp, in this order. |
| AuditChain.FindLeaf | src/services/audit.service.ts:28-70 | The answer is nothing for an empty log, else a newest row if it is a leaf, else the only leaf, else a refusal; on a chain it is the tip, whatever the timestamps. |
| AuditChain.RefusalIsExact | src/services/audit.service.ts:34-69 | On any log an append is certainly refused iff no newest row is a leaf and there is not just one leaf, and certainly answered iff every newest row is a leaf or there is just one. |
| AuditChain.BranchedLogIsAnswered | src/services/audit.service.ts:47-53 | On a genesis row with two successors, a log with two leaves that is no chain, every append is answered with the newer leaf. |
| AuditChain.TipIsOnlyLeaf | src/services/audit.service.ts:56-67 | A chain has exactly one leaf, its last row. |
| AuditChain.ChainExtends | src/services/audit.service.ts:85-136 | A row chained to the tip with a new hash makes a longer chain. |
| AuditChain.IndexByPreviousHash | src/services/audit.service.ts:188-195 | The map groups the rows by previous hash, in reading order. |
| AuditChain.WalkForward | src/services/audit.service.ts:197-234 | The loop ends; it visits a walk in which each row is the only successor of the one before, and records each content mismatch in order and then what stopped it. |
| AuditChain.EndedWalkUnique | src/services/audit.service.ts:197-234 | A log has at most one such walk, so the report is determined by the rows. |
| AuditChain.WalkFollowsChain | src/services/audit.service.ts:216-233 | In a valid log the walk visits the chain in order. |
| AuditChain.CompleteWalkIsLinear | src/services/audit.service.ts:197-240 | A walk that reached a leaf and every row is a chain with distinct hashes. |
| AuditChain.RejectedWalk | src/services/audit.service.ts:203-240 | If the walk stopped early, missed rows or found a wrong content hash, no order makes the log valid. |
| AuditChain.VerifyChain | src/services/audit.service.ts:159-243 | A log is valid iff it is empty or one linear chain with distinct hashes and correct version-1 contents; otherwise the report is the genesis problem, or the walk's mismatches, its stop and exactly the rows not reached. |
| TamperEvidence.HashFixesRecord | src/services/audit.service.ts:101-111 | Without a collision, version-1 rows with equal hashes have equal previous hash and the same content. |
| TamperEvidence.AcceptedIffRowMatches | src/services/audit.service.ts:203-218 | Replacing a row's content under its hash leaves an accepted log accepted iff that row passes the content check. |
| TamperEvidence.ChangedContentIsFound | src/services/audit.service.ts:203-218 | With a version-1 row's content replaced under its hash, an accepted log is accepted again iff the content is the same JSON up to property order at the same time. |
| TamperEvidence.UnhashedContentIsNotFound | src/services/audit.service.ts:206 | The content of a row of another version can be replaced unnoticed. |
| TamperEvidence.SharedHashSharedPast | src/services/audit.service.ts:101-111 | Two chains that meet in a hash agree row by row as far back as both consist of version-1 rows. |
| TamperEvidence.TipFixesHistory | src/services/audit.service.ts:101-111 | Two chains of version-1 rows with equal tip hashes have the same length and the same records in the same order. |
| TamperEvidence.TipCommitsToLog | src/services/audit.service.ts:159-243 | Two accepted logs of version-1 rows with equal tip hashes hold the same records: a change, insertion, deletion or reordering changes the tip's hash. |
| AuditProtocol.FreshHash | src/services/audit.service.ts:101-111 | Without collisions, a row chained to a leaf has a hash no visible row has. |
| AuditProtocol.StepKeeps | src/services/audit.service.ts:24-136 | Every step of every transaction keeps the locking, chain and what-was-read invariants. |
| AuditProtocol.EveryRunKeeps | src/services/audit.service.ts:24-136 | Every interleaving keeps them, from any earlier rows of any hash version that form one chain per tenant. |
| AuditProtocol.LogOnlyGrows | src/services/audit.service.ts:113-133 | No step takes a committed row out of the log. |
| AuditProtocol.CommittedRowsFormOneChain | src/services/audit.service.ts:85-136 | After every interleaving, from an empty log or earlier chains, each tenant's committed rows are one linear chain with distinct hashes, and no append is refused, even when lock keys clash and clocks tie or go back. |
| AuditProtocol.AppendsToTheTip | src/services/audit.service.ts:24-70 | A transaction about to insert has found the only leaf of the rows it sees, or nothing when it sees none. |
| AuditProtocol.EveryRunVerifies | src/services/audit.service.ts:159-243 | After every interleaving the verifier accepts a tenant's committed rows, in any reading order, iff the earlier version-1 rows match their contents. |
| AuditRuns.LogHoldsCommittedAppends | src/services/audit.service.ts:113-133 | After every schedule the log holds exactly the earlier rows and one row per accepted insert whose transaction committed later, with the tenant, id and content asked for. |
| AuditRuns.LogIsTheCommittedInserts | src/services/audit.service.ts:113-147 | An entry is in the log iff it was there before, or some accepted insert asked for it and the first end of its transaction after that is a commit; nothing of an aborted or open transaction is. |
| AuditRuns.FirstAppendIsCommitted | src/services/audit.service.ts:85-147 | Begin, lock, lookup, insert and commit on an empty log leave exactly one genesis row with the digest of its content. |
| AuditRuns.TwoAppendsAreCommitted | src/services/audit.service.ts:85-147 | A second append in the same transaction finds the first row and is chained to it. |
| AuditProgress.LocksAreHeldToTheEnd | src/services/audit.service.ts:24-26 | In every run a lock is held by exactly the open transaction that took it: no two hold one, and a commit or abort frees it. |
| AuditProgress.AppendWaitsWhen | src/services/audit.service.ts:24-26 | An append waits exactly while another open transaction has taken its tenant's lock. |
| AuditProgress.LookupFinds | src/services/audit.service.ts:28-70 | Once the lock is held, whichever newest row the first query answers, the lookup reaches the tip in at most two more. |
| AuditProgress.TipExists | src/services/audit.service.ts:28-70 | Without collisions, what an open transaction sees of a tenant has a tip in every run. |
| AuditProgress.AppendGetsThrough | src/services/audit.service.ts:85-147 | From every point of every run, a transaction that need not wait can append its row to the tip and commit by its own steps alone, whatever the others are doing and whichever newest row its first query answers. |
| FieldRules.SortIsInOrder | src/services/case-field-value.validation.ts:203 | The sort puts rules by priority, then creation time. |
| FieldRules.SortIsStable | src/services/case-field-value.validation.ts:203 | Rules with equal priority and creation time keep their order, and no rule is dropped or repeated. |
| Conditions.PresenceMeans | src/services/case-field-value.validation.ts:115-120 | When a select, a multi-select and any other field has a value. |
| Conditions.AbsentFiresOnlyIsEmpty | src/services/case-field-value.validation.ts:133-139 | On an absent value IS_EMPTY fires and no other operator; IS_NOT_EMPTY is its complement. |
| Conditions.ComparisonMeans | src/services/case-field-value.validation.ts:154-170 | On a number against a number, or a date against a date text, each operator fires as the values compare. |
| Conditions.ExactlyOneFires | src/services/case-field-value.validation.ts:160-168 | There exactly one of EQUALS, LESS_THAN and GREATER_THAN fires. |
| Conditions.ComparisonsAreMonotone | src/services/case-field-value.validation.ts:167-168 | Raising the stored value never turns GREATER_THAN off, and lowering it never turns LESS_THAN off. |
| Conditions.DateAgainstNoDate | src/services/case-field-value.validation.ts:155-168 | A date is unequal and incomparable to what is no date text. |
| Conditions.PlainEqualityMeans | src/services/case-field-value.validation.ts:155-166 | Booleans and texts equal exactly the same JSON scalar, and are never less or greater. |
| Conditions.NotEqualsComplements | src/services/case-field-value.validation.ts:161-166 | On every present value but a multi-select's NOT_EQUALS is the complement of EQUALS. |
| Conditions.SelectEqualsMeans | src/services/case-field-value.validation.ts:141-145 | A single select equals a condition iff the option ids agree. |
| Conditions.MultiSelectInMeans | src/services/case-field-value.validation.ts:146-153 | A multi-select is IN a list iff the two share an option, NOT_IN otherwise. |
| FieldRules.ComputeFieldRuntime | src/services/case-field-value.validation.ts:197-228 | The two in-place passes give each field its hidden, required and default state as specified. |
| Conditions.RequiredMeans | src/services/case-field-value.validation.ts:217-222 | A field is required iff it is visible and some REQUIRE rule that targets it fires. |
| Conditions.RequiredAboveThreshold | src/services/case-field-value.validation.ts:217-222 | A visible field is required by a GREATER_THAN rule on a number exactly when the stored number exceeds the condition. |
| FieldRules.HiddenSuspends | src/services/case-field-value.validation.ts:189-226 | Hidden fields are never required nor defaulted, present fields are not defaulted, static hiding always holds. |
| FieldRules.LastDefaultWins | src/services/case-field-value.validation.ts:223-224 | A visible field without value gets the default of a firing rule that no other firing default rule follows, and none if none fires. |
| Hiding.PassSolves | src/services/case-field-value.validation.ts:207-212 | When some firing rule stands in wherever two firing rules are in the wrong order, the pass solves the hiding equation. |
| Hiding.SolutionUnique | src/services/case-field-value.validation.ts:207-212 | On acyclic rules, in any order, the hiding equation has at most one solution. |
| Hiding.OnePassIsExactWhenFiring | src/services/case-field-value.validation.ts:207-212 | For acyclic rules and any given firing rules, the pass solves the equation for all static sets iff a rule stands in for every such pair. |
| Hiding.OnePassIsExact | src/services/case-field-value.validation.ts:207-212 | Quantified over every set of firing rules, whether or not stored values can produce it, the pass solves the equation iff each field's hiders precede the rules conditioned on it. |
| Hiding.GuardedRulesNeedOrder | src/services/case-field-value.validation.ts:203-212 | In particular on the sorted HIDE rules of any rules that the cycle guard keeps acyclic. |
| Hiding.ComputedHidingIsExact | src/services/case-field-value.validation.ts:203-212 | For rules that the cycle guard keeps acyclic and any stored values, the sorted pass computes the meaning of hiding for all static sets iff a firing rule stands in wherever two firing HIDE rules are in the wrong order. |
| Hiding.MeaningUnique | src/services/case-field-value.validation.ts:206-212 | With acyclic rules there is at most one hidden set in which a field is hidden iff static or targeted by a firing HIDE rule with a visible condition field. |
| Hiding.WrongOrderMisleads | src/services/case-field-value.validation.ts:203-215 | Two acyclic rules and two filled fields for which computeFieldRuntime hides a field that the meaning leaves visible. |
| Hiding.LateHiderIsHarmless | src/services/case-field-value.validation.ts:207-212 | A list that is not in dependency order and still computes the meaning for all stored values and static sets. |
| Hiding.HiddenIsStratified | src/services/case-field-value.validation.ts:203-215 | When every HIDE rule targeting a field sorts before every HIDE rule conditioned on it, computeFieldRuntime hides exactly the fields of the one meaning. |
| FieldRules.RuntimeIgnoresListOrder | src/services/case-field-value.validation.ts:203 | With distinct (priority, createdAt) pairs the runtime does not depend on the order of the rule list. |
| FieldRules.MissingFields | src/services/case-field-value.service.ts:364-372 | The loop reports one entry, with rule and field, for each unsuspended firing REQUIRE rule whose target has no value, in rule order. |
| FieldRules.ValidateValues | src/services/case-field-value.service.ts:329-374 | Those entries; a field is among them iff the runtime requires it and it is absent; valid iff nothing is reported. |
| RuleGraph.EdgeClosesCycle | src/services/case-field.validation.ts:215 | A new edge keeps an acyclic graph acyclic iff its start is not reachable from its end. |
| RuleGraph.AssertNoRuleCycle | src/services/case-field.validation.ts:207-225 | The worklist search ends, also on cyclic graphs, and throws iff the start is reachable from the end over the given edges. |
| RuleGraph.RuleTable.ValidateRuleInput | src/services/case-field.service.ts:670-787 | The checks in order, with the cycle guard over the other live rules as reachability. |
| RuleGraph.RuleTable.CreateRule | src/services/case-field.service.ts:525-573 | The rows after a create, the answer, and acyclicity kept. |
| RuleGraph.RuleTable.UpdateRule | src/services/case-field.service.ts:575-639 | The rows after an update with merged values and re-activation, the answer, and acyclicity kept. |
| RuleGraph.RuleTable.ArchiveRule | src/services/case-field.service.ts:641-664 | The rows after an archive, the answer, and acyclicity kept. |
| RuleGraph.PerformKeepsAcyclic | src/services/case-field.service.ts:525-664 | No request, refused or not, makes the graph of live rules cyclic. |
| RuleGraph.EveryRunStaysAcyclic | src/services/case-field.service.ts:525-664 | Nor does any serial sequence of create, update and archive requests. |
| RuleGraph.CreateRefusedOnlyForCycles | src/services/case-field.service.ts:771-776 | An otherwise valid create succeeds iff the graph with its edge is acyclic. |
| RuleGraph.UpdateRefusal | src/services/case-field.service.ts:598-608 | An otherwise valid update succeeds iff its edge closes no cycle with the other live rules; when the row written is live this is exactly acyclicity of the new graph, otherwise every refusal is needless. |
| RuleGraph.InactiveUpdateRefused | src/services/case-field.service.ts:598-608 | Renaming an inactive rule whose edge runs against a live one is refused. |
| RuleLaws.CreateLaw | src/services/case-field.service.ts:525-573 | A create that names two fields goes through iff name, operator and effect are known, the fields are different, DRAFT or ACTIVE, nothing else is wrong and no cycle closes; it adds one active rule. |
| RuleLaws.CreateErrors | src/services/case-field.service.ts:692-769 | Which error a create that fails a check before the cycle guard gives. |
| RuleLaws.UpdateLaw | src/services/case-field.service.ts:575-639 | When an update goes through; it keeps what it does not give, never undeletes and touches no other row. |
| RuleLaws.UnknownRule | src/services/case-field.service.ts:593-644 | An update or archive of an unknown rule is answered as not found. |
| RuleLaws.ArchiveLaw | src/services/case-field.service.ts:641-664 | An archive makes an undeleted rule inactive and deleted; a second one is refused. |
| RuleLaws.EveryRunKeepsRows | src/services/case-field.service.ts:525-664 | In every serial sequence the rules connect different usable fields, and an archived rule is never live again. |
| OptionTree.AssertNoOptionCycle | src/services/case-field.validation.ts:155-178 | Ends on any data; accepts iff there is no parent, or its chain reaches a root without meeting the option. |
| OptionTree.SetParentKeepsForest | src/services/case-field.service.ts:408-453 | An accepted parent keeps every chain of the field ending at a root. |
| OptionTree.OptionTable.AssertValidParent | src/services/case-field.service.ts:488-508 | Accepts iff the parent is an unarchived option of the field and its chain reaches a root avoiding the option. |
| OptionTree.OptionTable.CreateOption | src/services/case-field.service.ts:376-389 | When a create is accepted, the parents after it, and the forest kept. |
| OptionTree.OptionTable.UpdateOption | src/services/case-field.service.ts:419-438 | When an update is accepted, the parents after it, and the forest kept. |
| OptionTree.OptionTable.ArchiveOption | src/services/case-field.service.ts:455-485 | Archives iff the option exists, is not archived and no rule refers to it; parents unchanged. |
| Timeline.CreateTimeline | src/services/case-timeline.service.ts:179-216 | Which error a creation gives for a missing case, type, ACTIVE status, templates or an existing timeline; otherwise the readied template stages. |
| Timeline.CaseTimeline.constructor | src/services/case-timeline.service.ts:197-210 | The rows copied from the templates, pending and then readied. |
| Timeline.CaseTimeline.RecomputeReadiness | src/services/case-timeline.service.ts:229-239 | One pass sets every PENDING or READY stage by its predecessor's loaded status and changes nothing else. |
| Timeline.CaseTimeline.SyncTimelineStatus | src/services/case-timeline.service.ts:242-246 | COMPLETED iff there are stages and all are terminal. |
| Timeline.CaseTimeline.RecalcInTx | src/services/case-planning.service.ts:139-176 | The row-by-row write-back stores both passes, feasibility and missing baselines, and returns each stage's slack. |
| Timeline.CaseTimeline.WriteTransition | src/services/case-timeline.service.ts:248-261 | The stage update and its event, then readiness, timeline status and dates, with nothing else changed. |
| Timeline.CaseTimeline.StartStage | src/services/case-timeline.service.ts:263-271 | Answer and whole new state of a start. |
| Timeline.CaseTimeline.CompleteStage | src/services/case-timeline.service.ts:273-299 | Answer and whole new state of a completion, with required-field enforcement and its override. |
| Timeline.CaseTimeline.UnlockStage | src/services/case-timeline.service.ts:302-320 | Answer and whole new state of an unlock; the event records the status after readiness. |
| Timeline.CaseTimeline.SkipStage | src/services/case-timeline.service.ts:322-332 | Answer and whole new state of a skip. |
| Timeline.CaseTimeline.ReopenStage | src/services/case-timeline.service.ts:334-346 | Answer and whole new state of a reopening. |
| Timeline.CaseTimeline.PauseStage | src/services/case-timeline.service.ts:348-356 | Answer and whole new state of a pause. |
| Timeline.CaseTimeline.ResumeStage | src/services/case-timeline.service.ts:358-366 | Answer and whole new state of a resumption. |
| Timeline.CaseTimeline.ChangeTarget | src/services/case-timeline.service.ts:370-387 | Whole new state of a target change; a changed target withdraws an approved exception. |
| Timeline.CaseTimeline.Recalc | src/services/case-timeline.service.ts:390-399 | Whole new state of an explicit recalculation, and the slack of every stage against the target. |
| Timeline.CaseTimeline.ApproveTimelineException | src/services/case-timeline.service.ts:402-416 | Approved iff a reason is given and the plan is infeasible; nothing else changes. |
| Timeline.CaseTimeline.OverrideStageDuration | src/services/case-timeline.service.ts:419-438 | Answer and whole new state of a duration override. |
| Timeline.CaseTimeline.SweepStages | src/workers/sla.worker.ts:74-116 | The stage loop classifies from the loaded rows, blocks, and appends one event per block, in order. |
| Timeline.CaseTimeline.RunSlaSweep | src/workers/sla.worker.ts:71-117 | Whole new state of a sweep, which passes over completed timelines. |
| ActionLaws.CreatedLaw | src/services/case-timeline.service.ts:197-210 | Created stages have their templates' columns and no other set; the timeline is active and empty. |
| ActionLaws.AnswerLaw | src/services/case-timeline.service.ts:263-438 | Every action succeeds iff the request is complete and the state allows it; when each error is given otherwise. |
| ActionLaws.RefusedChangesNothing | src/services/case-timeline.service.ts:263-438 | A refused action changes nothing. |
| ActionLaws.StartLaw | src/services/case-timeline.service.ts:263-271 | A READY stage becomes IN_PROGRESS with its start time and one event; other rows keep all but dates and readiness; otherwise nothing happens. |
| ActionLaws.CompleteLaw | src/services/case-timeline.service.ts:273-299 | Likewise a completion, under enforcement only with valid fields or an override with a reason, with the SLA state of the planned finish. |
| ActionLaws.SkipLaw | src/services/case-timeline.service.ts:322-332 | Likewise a skip with a reason of a stage neither BLOCKED nor closed. |
| ActionLaws.ReopenLaw | src/services/case-timeline.service.ts:334-346 | Likewise a reopening: COMPLETED to IN_PROGRESS without completion time, SKIPPED to READY or PENDING. |
| ActionLaws.PauseResumeLaw | src/services/case-timeline.service.ts:348-366 | Likewise pause and resumption between IN_PROGRESS and WAITING_EXTERNAL. |
| ActionLaws.UnlockLaw | src/services/case-timeline.service.ts:302-320 | Likewise an unlock with a reason, which changes no date and records the unlock time. |
| ActionLaws.OverrideLaw | src/services/case-timeline.service.ts:419-438 | Likewise an override of the remaining duration by a natural, with a reason; no status changes. |
| ActionLaws.SetTargetLaw | src/services/case-timeline.service.ts:370-387 | The target is stored and an approved exception survives only an equal target; of the rows only dates change. |
| ActionLaws.RecalculateLaw | src/services/case-timeline.service.ts:390-399 | Only dates, feasibility and the planning time change. |
| ActionLaws.ApproveLaw | src/services/case-timeline.service.ts:402-416 | An exception is approved iff a reason is given and the plan is infeasible; nothing else changes. |
| ActionLaws.SweepLaw | src/workers/sla.worker.ts:74-116 | On an ACTIVE timeline each open row gets the state of its loaded columns and may be blocked; nothing else changes. |
| ActionLaws.CompletesWhen | src/services/case-timeline.service.ts:273-288 | A stage becomes COMPLETED exactly by its own Complete, in progress, and under enforcement only with valid fields or an override with a reason. |
| ActionLaws.CompletionsAreProper | src/services/case-timeline.service.ts:273-288 | In every run each COMPLETED stage was completed by such a Complete. |
| ActionLaws.EveryRunKeepsTemplates | src/services/case-timeline.service.ts:263-438 | In every run the stages keep the columns of their templates. |
| ActionLaws.ReadinessMeans | src/services/case-timeline.service.ts:228-246 | In every run a PENDING or READY stage is READY iff first, independent or after a COMPLETED or SKIPPED stage, and the timeline is COMPLETED iff every stage is one of the two. |
| ActionLaws.ReplanMeans | src/services/case-planning.service.ts:138-175 | After every action that replans, each stored row's planned dates follow from its columns and the row before, its latest dates from the target and the row after, and feasible and deficit from the last row's finish and the target. |
| ActionLaws.ReplanSetsBaselines | src/services/case-planning.service.ts:164-166 | Every action that replans sets missing baselines to the dates it plans. |
| HardBlocks.SweepLogsItsBlocks | src/workers/sla.worker.ts:90-99 | A sweep logs one block, from the stage's status at this time, for every stage it blocks, and nothing else. |
| TimelineLaws.ReadiedIsSound | src/services/case-timeline.service.ts:228-239 | One readiness pass suffices: its result is sound and a second pass changes nothing. |
| TimelineLaws.ActKeepsSound | src/services/case-timeline.service.ts:179-438 | After every action a PENDING or READY stage is READY iff first, independent or after a terminal stage; the timeline is COMPLETED iff all stages are terminal; completedAt is set iff the stage is COMPLETED. |
| TimelineLaws.EveryRunIsSound | src/services/case-timeline.service.ts:179-438 | So it is after every sequence of actions and sweeps from creation, under changing calendars and any clock. |
| TimelineLaws.NoEarlyStart | src/services/case-timeline.service.ts:263-271 | In no reachable state can a dependent stage be started before its predecessor is terminal. |
| HardBlocks.ActBlocks | src/workers/sla.worker.ts:86-102 | A stage becomes BLOCKED exactly by a sweep of an ACTIVE timeline that blocks it, and ceases to be exactly by its own unlock; every action leaves its log alone or adds the one event that says what happened. |
| HardBlocks.BlockedAtMostOnce | src/services/case-sla.compute.ts:50-52 | In every run a stage is blocked at most once: an unlock is for good. |
| HardBlocks.EntersProgressWhen | src/services/case-timeline.service.ts:263-366 | A PENDING, READY or BLOCKED stage comes to be IN_PROGRESS exactly by its own start when READY, or its own unlock when it has a start time. |
| HardBlocks.EarlyProgressIsByUnlock | src/services/case-timeline.service.ts:302-320 | In every run a stage that is PENDING or READY, or was when it was blocked, becomes IN_PROGRESS other than by a start exactly by the unlock of a row whose start time is set; so too while its predecessor is open. |
| HardBlocks.UnlockBeginsEarly | src/services/case-timeline.service.ts:302-346 | A run of skip, start, skip, reopenings, sweep and unlock that makes a stage IN_PROGRESS, although it was PENDING when blocked and its predecessor is open. |
| TimelineLaws.ActKeepsBaselines | src/services/case-planning.service.ts:164-166 | No action resets a baseline that is set. |
| TimelineLaws.EveryRunKeepsBaselines | src/services/case-planning.service.ts:164-166 | No sequence of actions does. |
| TimelineLaws.ActReplans | src/services/case-planning.service.ts:139-176 | After every action that replans, stored dates and feasibility are what the planner computes from the rows just stored. |
| TimelineLaws.CompletionStateAgrees | src/services/case-timeline.service.ts:291-293 | After a completion and its recalculation, the stored SLA state is what the classifier says of the stored row at any later time iff the planned finish loaded and the one recalculated from the start lie on the same side of the completion day. |
| TimelineLaws.ActKeepsSettled | src/services/case-timeline.service.ts:248-438 | Under an unchanged calendar every action and sweep keeps completed rows' SLA states in line with their dates. |
| TimelineLaws.CompletedStatesAgree | src/services/case-sla.compute.ts:25-30 | In every sequence of actions under one calendar, each COMPLETED stage's stored state is what the classifier says of its stored row at any time. |
| TimelineLaws.RemovedHolidayMisleads | src/services/case-timeline.service.ts:289-293 | A two-day stage started before a holiday that is removed before its completion is stored as on time and classified as late. |
| Performance.ActiveTimeDays | src/services/case-performance.stats.ts:10-18 | The loop sums, in days, the time from each IN_PROGRESS event to the next event. |
| Performance.ActLogs | src/services/case-timeline.service.ts:248-438 | Every action either logs one event for a stage, which says whether it then runs, or leaves it running or not as before. |
| Performance.LogAccountsForTime | src/services/case-performance.stats.ts:10-18 | At every point of every run, closed plus open intervals of the log are the time in progress. |
| Performance.ActiveTimeIsTimeInProgress | src/services/case-performance.stats.ts:10-18 | For a COMPLETED stage the active time of its log is the total time it was IN_PROGRESS, hard blocks, unlocks and reopenings included. |
| Performance.LogIsAscending | src/services/case-performance.service.ts:20-24 | On a clock that never goes back the log order is one of the orders by createdAt. |
| Performance.ReadBackIsExact | src/services/case-performance.service.ts:20-31 | All orders by createdAt give the same active time iff tied events before a later one agree on running. |
| Performance.ActiveTimeAsReadBack | src/services/case-performance.service.ts:20-31 | For a COMPLETED stage every order read back gives its time in progress iff its tied events agree. |
| Performance.TiesMislead | src/services/case-performance.service.ts:20-24 | In a run that starts, pauses, resumes and completes a stage, with pause and resumption in one millisecond, its log read back swapped loses one of two milliseconds in progress. |
| AdminLockout.RoleStore.WithAdminGuard | src/services/admin-lockout.service.ts:11-58 | Passes iff role:manage does not exist or some active user of the tenant keeps a live role carrying it without what is skipped. |
| AdminLockout.RoleStore.Revoke | src/routes/roles.router.ts:227-256 | Answer and new state of a permission revocation, guarded only for role:manage. |
| AdminLockout.RoleStore.Unassign | src/routes/roles.router.ts:381-408 | Answer and new state of a role unassignment, guarded only when the role carries role:manage. |
| AdminLockout.RoleStore.Delete | src/routes/roles.router.ts:435-470 | Answer and new state of a role deletion with its assignments and grants. |
| AdminLockout.RoleStore.Suspend | src/routes/users.router.ts:178-208 | Answer and new state of a suspension, user-service checks included. |
| AdminLockout.RoleStore.Terminate | src/routes/users.router.ts:215-246 | Answer and new state of a termination, user-service checks included. |
| RequestLaws.GuardMeans | src/services/admin-lockout.service.ts:20-57 | The guard passes iff role:manage does not exist or some active, undeleted user of the tenant has a live role of it that carries role:manage, without what is skipped. |
| RequestLaws.RevokeLaw | src/routes/roles.router.ts:227-256 | When a revocation goes through and that it takes just the one grant; unknown and system roles. |
| RequestLaws.UnassignLaw | src/routes/roles.router.ts:381-408 | When an unassignment goes through and that it takes just the one assignment. |
| RequestLaws.DeleteLaw | src/routes/roles.router.ts:435-470 | When a deletion goes through and that it takes the role with all that mentions it, and nothing else. |
| RequestLaws.SuspendLaw | src/routes/users.router.ts:178-208 | When a suspension goes through and that only the user's status changes, from ACTIVE to SUSPENDED. |
| RequestLaws.TerminateLaw | src/routes/users.router.ts:215-246 | When a termination goes through and that only the user's status changes, to TERMINATED. |
| RequestLaws.EveryRunOnlyTakesAway | src/routes/roles.router.ts:227-470 | In every sequence of requests system roles stay with all their grants, and nothing is given to anybody. |
| RequestLaws.TenantsAreApart | src/routes/roles.router.ts:227-470 | A request of one tenant touches no user, role, grant or assignment of another. |
| AdminLockout.GuardIsExact | src/services/admin-lockout.service.ts:20-57 | A guarded request that passes the other checks is refused iff it would leave the tenant no administrator. |
| AdminLockout.PerformKeepsAdmin | src/services/admin-lockout.service.ts:20-57 | No request, guarded or not, takes the last administrator from any tenant. |
| AdminLockout.EveryRunKeepsAnAdmin | src/services/admin-lockout.service.ts:20-57 | In every serial sequence of revocations, role deletions, unassignments, suspensions and terminations over all tenants, a tenant with an administrator keeps one. |

## Left out

- Dates: Date.UTC's remapping of years 0 to 99 and the range limit of JavaScript dates in the planner; the planner is proved on the proleptic Gregorian calendar for all day numbers. Holidays are day numbers, which `Timestamps.ToKeyInjective` justifies for years 0 to 9999.
- Floating point: percentages and estimates are real numbers, so rounding of a computed percentage near a threshold is not modelled.
- JSON: `undefined` members and `Date` objects, which do not survive storage; numbers are carried by the text they print as.
- SHA-256 internals: the digest is a parameter with hexadecimal output; the chain theorems hold for every digest without a collision among the texts hashed in the run, and between those and the opaque hashes of earlier rows.
- Isolation: only the audit protocol is concurrent. The rule graph, option tree, timeline and administrator theorems are for serial sequences of requests.
- Clocks: the service's `new Date()` and the database's `now()` within one timeline action are one instant.
- Forecast.ForecastCase: explanation texts, trends and the lazy creation of summaries; medians and sample counts are inputs.
- Performance.ActiveTimeDays: `median`, `summarize`, `confidenceFor` over the samples and half-day rounding would add only easy members.
- RuleGraph.RuleTable.ValidateRuleInput: the checks of operator, value, options and default payload against the field types are one outcome parameter at their place in the order, because each is a one-branch check.
- RuleGraph.RuleTable.CreateRule: the rule's name check is a parameter, and columns other than the edge are not kept.
- RuleGraph.RuleTable.UpdateRule: likewise the name check, and the columns other than the edge and the two flags.
- OptionTree.OptionTable.CreateOption: key, label, field-status and field-type checks, and duplicate keys.
- OptionTree.OptionTable.UpdateOption: key, label and field-status checks; only the parent link is kept.
- FieldRules.ComputeFieldRuntime: selectability of a default option, static visibility rules and the choice of applicable fields, which are inputs.
- AuditChain.VerifyChain: message texts; errors are kinds with the row ids they name.
- Timeline.CaseTimeline.RunSlaSweep: notifications and their edge trigger, and the batching by tenant.
- Timeline.CaseTimeline.CompleteStage: the refresh of performance summaries; the outcome of required-field validation is an input, proved about separately as `FieldRules.ValidateValues`.
- The audit rows, notes and actors that the other services write, and request correlation.
- Value coercion, free-text validators and patching of values with their history.
- Sessions ended by a suspension or termination, and the remaining user-status changes.
- Routing, permissions, email, storage, caching and the database client.
- Lead import, contacts, invoices, dashboards and the finite status-transition tables.
