/**
 * What a schedule of appends leaves in the log, told from the schedule: an appended row is committed
 * exactly when its transaction's commit is carried out later (src/services/audit.service.ts).
 */
module AuditRuns {
  import opened Basics
  import opened AuditHash
  import opened AuditChain
  import opened AuditProtocol

  /** What a caller asks to be logged. */
  datatype LogEntry = LogEntry(tenant: int, id: int, content: Content)

  function EntriesOf(rows: set<Row>): set<LogEntry> {
    set r | r in rows :: LogEntry(r.tenant, r.id, r.content)
  }

  /** The last step of the schedule could be taken when its turn came. */
  ghost predicate LastCarriedOut(env: Env, steps: seq<Step>)
    requires steps != []
  {
    Enabled(env, After(env, steps[..|steps| - 1]), steps[|steps| - 1])
  }

  /** The tenant of a transaction's latest append: the one it last took the lock for. */
  ghost function TenantOf(env: Env, steps: seq<Step>, t: int): Option<int> {
    if steps == [] then None
    else
      var front, last := steps[..|steps| - 1], steps[|steps| - 1];
      if LastCarriedOut(env, steps) && last.Acquire? && last.tx == t then Some(last.tenant)
      else TenantOf(env, front, t)
  }

  /** The last step is an insert of t that the database accepts. */
  ghost predicate LastInserts(env: Env, steps: seq<Step>, t: int) {
    && steps != [] && LastCarriedOut(env, steps)
    && steps[|steps| - 1].Insert? && steps[|steps| - 1].tx == t
    && t in After(env, steps).txs && !After(env, steps).txs[t].phase.Failed?
  }

  /** What t has inserted since it began, while it is open. */
  ghost function Pending(env: Env, steps: seq<Step>, t: int): set<LogEntry> {
    if steps == [] then {}
    else
      var front, last := steps[..|steps| - 1], steps[|steps| - 1];
      if !LastCarriedOut(env, steps) || last.tx != t then Pending(env, front, t)
      else if last.Begin? || last.Commit? || last.Abort? then {}
      else if LastInserts(env, steps, t) && TenantOf(env, front, t).Some? then
        Pending(env, front, t) + {LogEntry(TenantOf(env, front, t).value, last.id, last.content)}
      else Pending(env, front, t)
  }

  /** What the commits carried out so far have put into the log. */
  ghost function Durable(env: Env, steps: seq<Step>): set<LogEntry> {
    if steps == [] then {}
    else
      var front, last := steps[..|steps| - 1], steps[|steps| - 1];
      if LastCarriedOut(env, steps) && last.Commit? then Durable(env, front) + Pending(env, front, last.tx)
      else Durable(env, front)
  }

  // ----- the states agree with the schedule -----

  /** What the state after a schedule holds of it. */
  ghost predicate Tracks(env: Env, steps: seq<Step>, s: State) {
    && EntriesOf(s.committed) == EntriesOf(env.initial) + Durable(env, steps)
    && (forall t :: t in s.txs ==> EntriesOf(s.txs[t].own) == Pending(env, steps, t))
    && (forall t :: t in s.txs && s.txs[t].phase.LeafKnown? ==>
          TenantOf(env, steps, t) == Some(s.txs[t].phase.tenant))
    && (forall t ::
        t in s.txs && (s.txs[t].phase.Locked? || s.txs[t].phase.NewestRead? || s.txs[t].phase.SuccessorFound?) ==>
          TenantOf(env, steps, t) == Some(s.txs[t].phase.tenant))
  }

  lemma EntriesOfUnion(a: set<Row>, b: set<Row>)
    ensures EntriesOf(a + b) == EntriesOf(a) + EntriesOf(b)
  {}

  lemma EntriesOfRow(r: Row)
    ensures EntriesOf({r}) == {LogEntry(r.tenant, r.id, r.content)}
  {}

  lemma StartTracks(env: Env)
    ensures Tracks(env, [], StartOf(env))
  {}

  /** A step that is not carried out leaves everything as it was. */
  lemma IdleStepTracks(env: Env, steps: seq<Step>)
    requires steps != [] && !LastCarriedOut(env, steps)
    requires Tracks(env, steps[..|steps| - 1], After(env, steps[..|steps| - 1]))
    ensures Tracks(env, steps, After(env, steps))
  {
    hide Enabled, Apply;
  }

  /** What the last step changes in the account of the schedule, transaction by transaction. */
  lemma AccountOfOthers(env: Env, steps: seq<Step>, t: int)
    requires steps != [] && LastCarriedOut(env, steps) && steps[|steps| - 1].tx != t
    ensures Pending(env, steps, t) == Pending(env, steps[..|steps| - 1], t)
    ensures TenantOf(env, steps, t) == TenantOf(env, steps[..|steps| - 1], t)
  {
    hide Enabled, After;
  }

  lemma AccountOfOwn(env: Env, steps: seq<Step>)
    requires steps != [] && LastCarriedOut(env, steps)
    ensures var front, last := steps[..|steps| - 1], steps[|steps| - 1];
            && TenantOf(env, steps, last.tx) ==
               (if last.Acquire? then Some(last.tenant) else TenantOf(env, front, last.tx))
            && Durable(env, steps) == Durable(env, front) + (if last.Commit? then Pending(env, front, last.tx) else {})
            && (last.Begin? || last.Commit? || last.Abort? ==> Pending(env, steps, last.tx) == {})
            && (last.Acquire? || last.ReadNewest? || last.ReadSuccessor? || last.ReadLeaves? ==>
                  Pending(env, steps, last.tx) == Pending(env, front, last.tx))
            && (last.Insert? && TenantOf(env, front, last.tx).Some? ==>
                  Pending(env, steps, last.tx) ==
                  Pending(env, front, last.tx) +
                  if LastInserts(env, steps, last.tx)
                  then {LogEntry(TenantOf(env, front, last.tx).value, last.id, last.content)} else {})
  {
    hide Enabled, After;
  }

  /** The steps that take nothing in or out: only one transaction's phase changes. */
  lemma PhaseStepTracks(env: Env, steps: seq<Step>, s: State, s': State)
    requires steps != [] && LastCarriedOut(env, steps) && Tracks(env, steps[..|steps| - 1], s)
    requires var last := steps[|steps| - 1];
             && (last.Acquire? || last.ReadNewest? || last.ReadSuccessor? || last.ReadLeaves?)
             && last.tx in s.txs && s'.committed == s.committed && s'.txs.Keys == s.txs.Keys
             && (forall u :: u in s.txs && u != last.tx ==> s'.txs[u] == s.txs[u])
             && s'.txs[last.tx].own == s.txs[last.tx].own
             && (s'.txs[last.tx].phase.LeafKnown? || s'.txs[last.tx].phase.Locked? || s'.txs[last.tx].phase.NewestRead?
                   || s'.txs[last.tx].phase.SuccessorFound? ==>
                   if last.Acquire? then s'.txs[last.tx].phase.tenant == last.tenant
                   else TenantOf(env, steps[..|steps| - 1], last.tx) == Some(s'.txs[last.tx].phase.tenant))
    ensures Tracks(env, steps, s')
  {
    hide EntriesOf, Pending, TenantOf, Durable, LastCarriedOut, After;
    var front, t := steps[..|steps| - 1], steps[|steps| - 1].tx;
    AccountOfOwn(env, steps);
    forall u | u in s'.txs && u != t
      ensures Pending(env, steps, u) == Pending(env, front, u) && TenantOf(env, steps, u) == TenantOf(env, front, u)
    {
      AccountOfOthers(env, steps, u);
    }
  }

  lemma ReadingTracks(env: Env, steps: seq<Step>, s: State)
    requires steps != [] && LastCarriedOut(env, steps) && s == After(env, steps[..|steps| - 1])
    requires Tracks(env, steps[..|steps| - 1], s)
    requires steps[|steps| - 1].Acquire? || steps[|steps| - 1].ReadNewest? ||
             steps[|steps| - 1].ReadSuccessor? || steps[|steps| - 1].ReadLeaves?
    ensures Tracks(env, steps, Apply(env, s, steps[|steps| - 1]))
  {
    hide EntriesOf, Pending, Durable, After, TenantOf, Visible, Leaves, IsNewest, HashInput;
    PhaseStepTracks(env, steps, s, Apply(env, s, steps[|steps| - 1]));
  }

  lemma BeginTracks(env: Env, steps: seq<Step>, s: State)
    requires steps != [] && LastCarriedOut(env, steps) && s == After(env, steps[..|steps| - 1])
    requires Tracks(env, steps[..|steps| - 1], s) && steps[|steps| - 1].Begin?
    ensures Tracks(env, steps, Apply(env, s, steps[|steps| - 1]))
  {
    hide Pending, TenantOf, Durable, After;
    var front, t := steps[..|steps| - 1], steps[|steps| - 1].tx;
    AccountOfOwn(env, steps);
    forall u | u in s.txs && u != t
      ensures Pending(env, steps, u) == Pending(env, front, u) && TenantOf(env, steps, u) == TenantOf(env, front, u)
    {
      AccountOfOthers(env, steps, u);
    }
  }

  lemma InsertTracks(env: Env, steps: seq<Step>, s: State)
    requires steps != [] && LastCarriedOut(env, steps) && s == After(env, steps[..|steps| - 1])
    requires After(env, steps) == Apply(env, s, steps[|steps| - 1])
    requires Tracks(env, steps[..|steps| - 1], s) && steps[|steps| - 1].Insert?
    ensures Tracks(env, steps, Apply(env, s, steps[|steps| - 1]))
  {
    hide Pending, TenantOf, Durable, After, EntriesOf, HashInput, ValidContent, Visible;
    var front, last := steps[..|steps| - 1], steps[|steps| - 1];
    var t := last.tx;
    var s' := Apply(env, s, last);
    AccountOfOwn(env, steps);
    forall u | u in s.txs && u != t
      ensures Pending(env, steps, u) == Pending(env, front, u) && TenantOf(env, steps, u) == TenantOf(env, front, u)
    {
      AccountOfOthers(env, steps, u);
    }
    var row := NewRow(env, s.txs[t].phase.tenant, s.txs[t].phase.leaf, last.id, last.content);
    EntriesOfRow(row);
    EntriesOfUnion(s.txs[t].own, {row});
  }

  lemma EndTracks(env: Env, steps: seq<Step>, s: State)
    requires steps != [] && LastCarriedOut(env, steps) && s == After(env, steps[..|steps| - 1])
    requires Tracks(env, steps[..|steps| - 1], s) && (steps[|steps| - 1].Commit? || steps[|steps| - 1].Abort?)
    ensures Tracks(env, steps, Apply(env, s, steps[|steps| - 1]))
  {
    hide Pending, TenantOf, Durable, After, EntriesOf;
    var front, last := steps[..|steps| - 1], steps[|steps| - 1];
    AccountOfOwn(env, steps);
    forall u | u in s.txs && u != last.tx
      ensures Pending(env, steps, u) == Pending(env, front, u) && TenantOf(env, steps, u) == TenantOf(env, front, u)
    {
      AccountOfOthers(env, steps, u);
    }
    EntriesOfUnion(s.committed, s.txs[last.tx].own);
  }

  lemma {:induction false} EveryRunTracks(env: Env, steps: seq<Step>)
    ensures Tracks(env, steps, After(env, steps))
  {
    hide Tracks, Enabled, Apply, StartOf;
    if steps == [] {
      StartTracks(env);
    } else {
      var front, last := steps[..|steps| - 1], steps[|steps| - 1];
      var s := After(env, front);
      EveryRunTracks(env, front);
      if !LastCarriedOut(env, steps) {
        IdleStepTracks(env, steps);
      } else {
        match last
        case Begin(_) => BeginTracks(env, steps, s);
        case Insert(_, _, _) => InsertTracks(env, steps, s);
        case Commit(_) => EndTracks(env, steps, s);
        case Abort(_) => EndTracks(env, steps, s);
        case _ => ReadingTracks(env, steps, s);
      }
    }
  }

  // ----- what the log holds -----

  /**
   * After every schedule the log holds exactly the earlier rows and one row for every accepted insert of a
   * transaction whose commit was carried out later, each with the tenant, id and content asked for.
   */
  lemma LogHoldsCommittedAppends(env: Env, steps: seq<Step>)
    requires HexDigest(env.sha) && GoodStart(env)
    ensures var log := After(env, steps).committed;
            && EntriesOf(log) == EntriesOf(env.initial) + Durable(env, steps)
            && env.initial <= log
            && (forall a, b :: a in log && b in log && a.id == b.id ==> a == b)
  {
    EveryRunTracks(env, steps);
    EveryRunKeeps(env, steps);
    LogOnlyGrows(env, steps, 0);
    assert steps[..0] == [];
    IdsDiffer(env, After(env, steps));
  }

  lemma IdsDiffer(env: Env, s: State)
    requires Structural(env, s)
    ensures forall a, b :: a in s.committed && b in s.committed && a.id == b.id ==> a == b
  {
    hide Appended, Opaque, LocksSound, PhaseSound;
    forall a | a in s.committed ensures InSystem(s, a) {}
  }

  /** Step i of the schedule is an insert of t, accepted by the database. */
  ghost predicate Accepted(env: Env, steps: seq<Step>, i: nat, t: int) {
    i < |steps| && LastInserts(env, steps[..i + 1], t)
  }

  /** Step k ends t: its commit or abort, carried out. */
  ghost predicate Ends(env: Env, steps: seq<Step>, k: nat, t: int) {
    && k < |steps| && LastCarriedOut(env, steps[..k + 1])
    && (steps[k].Commit? || steps[k].Abort?) && steps[k].tx == t
  }

  /** The entry of step i is committed at step k: k is the first end of its transaction after i, and a commit. */
  ghost predicate CommittedAt(env: Env, steps: seq<Step>, i: nat, k: nat, e: LogEntry) {
    && i < k < |steps| && steps[i].Insert?
    && Accepted(env, steps, i, steps[i].tx)
    && TenantOf(env, steps[..i], steps[i].tx) == Some(e.tenant)
    && e.id == steps[i].id && e.content == steps[i].content
    && Ends(env, steps, k, steps[i].tx) && steps[k].Commit?
    && forall j :: i < j < k ==> !Ends(env, steps, j, steps[i].tx)
  }

  /** The entry of step i is still uncommitted after the schedule, in an open transaction. */
  ghost predicate OpenAt(env: Env, steps: seq<Step>, i: nat, e: LogEntry, t: int) {
    && i < |steps| && steps[i].Insert? && steps[i].tx == t
    && Accepted(env, steps, i, t)
    && TenantOf(env, steps[..i], t) == Some(e.tenant)
    && e.id == steps[i].id && e.content == steps[i].content
    && forall j :: i < j < |steps| ==> !Ends(env, steps, j, t)
  }

  lemma SameSlices(steps: seq<Step>, m: nat)
    requires steps != [] && m <= |steps| - 1
    ensures steps[..|steps| - 1][..m] == steps[..m]
  {}

  lemma OpenBefore(env: Env, steps: seq<Step>, i: nat, e: LogEntry, t: int)
    requires steps != [] && i < |steps| - 1
    ensures OpenAt(env, steps, i, e, t) <==>
            OpenAt(env, steps[..|steps| - 1], i, e, t) && !Ends(env, steps, |steps| - 1, t)
  {
    hide LastInserts, LastCarriedOut, TenantOf;
    var front := steps[..|steps| - 1];
    SameSlices(steps, i);
    SameSlices(steps, i + 1);
    forall j | i < j < |front| ensures Ends(env, front, j, t) <==> Ends(env, steps, j, t) {
      SameSlices(steps, j + 1);
    }
  }

  lemma OpenLast(env: Env, steps: seq<Step>, e: LogEntry, t: int)
    requires steps != []
    ensures var n := |steps| - 1;
            OpenAt(env, steps, n, e, t) <==>
            && LastInserts(env, steps, t)
            && TenantOf(env, steps[..n], t) == Some(e.tenant)
            && e.id == steps[n].id && e.content == steps[n].content
  {
    assert steps[..|steps|] == steps;
  }

  /** What is pending is what was inserted and not yet ended, by a transaction that is still open. */
  lemma {:induction false} PendingMeans(env: Env, steps: seq<Step>, e: LogEntry, t: int)
    ensures e in Pending(env, steps, t) <==> exists i: nat :: OpenAt(env, steps, i, e, t)
    ensures e in Pending(env, steps, t) ==> t in After(env, steps).txs
  {
    hide OpenAt, Ends, Pending, LastInserts, TenantOf, After;
    if steps == [] {
      NothingOpen(env, e, t);
    } else {
      var n := |steps| - 1;
      var front := steps[..n];
      PendingMeans(env, front, e, t);
      OpenLast(env, steps, e, t);
      PendingStep(env, steps, e, t);
      forall i: nat | i < n
        ensures OpenAt(env, steps, i, e, t) <==> OpenAt(env, front, i, e, t) && !Ends(env, steps, n, t)
      {
        OpenBefore(env, steps, i, e, t);
      }
      forall i: nat ensures (OpenAt(env, steps, i, e, t) ==> i <= n) && (OpenAt(env, front, i, e, t) ==> i < n) {
        OpenInRange(env, steps, i, e, t);
        OpenInRange(env, front, i, e, t);
      }
      if e in Pending(env, steps, t) {
        if i: nat :| OpenAt(env, front, i, e, t) && !Ends(env, steps, n, t) {
          assert OpenAt(env, steps, i, e, t);
        } else {
          assert OpenAt(env, steps, n, e, t);
        }
      }
      if i: nat :| OpenAt(env, steps, i, e, t) {
        assert i < n ==> OpenAt(env, front, i, e, t);
      }
    }
  }

  lemma OpenInRange(env: Env, steps: seq<Step>, i: nat, e: LogEntry, t: int)
    ensures OpenAt(env, steps, i, e, t) ==> i < |steps|
  {
    hide TenantOf;
  }

  lemma NothingOpen(env: Env, e: LogEntry, t: int)
    ensures (forall i: nat :: !OpenAt(env, [], i, e, t)) && Pending(env, [], t) == {}
  {
    hide TenantOf;
  }

  /** How the last step changes what t has pending. */
  lemma PendingStep(env: Env, steps: seq<Step>, e: LogEntry, t: int)
    requires steps != []
    requires e in Pending(env, steps[..|steps| - 1], t) ==> t in After(env, steps[..|steps| - 1]).txs
    ensures var n := |steps| - 1;
            var front := steps[..n];
            && (e in Pending(env, steps, t) <==>
                || (e in Pending(env, front, t) && !Ends(env, steps, n, t))
                || (LastInserts(env, steps, t) && TenantOf(env, front, t) == Some(e.tenant)
                    && e.id == steps[n].id && e.content == steps[n].content))
            && (e in Pending(env, steps, t) ==> t in After(env, steps).txs)
  {
    hide TenantOf, HashInput, ValidContent, Visible, Leaves;
    assert steps[..|steps|] == steps;
  }

  lemma CommittedBefore(env: Env, steps: seq<Step>, i: nat, k: nat, e: LogEntry)
    requires steps != [] && k < |steps| - 1
    ensures CommittedAt(env, steps, i, k, e) <==> CommittedAt(env, steps[..|steps| - 1], i, k, e)
  {
    hide LastInserts, LastCarriedOut, TenantOf;
    if i < k {
      var front := steps[..|steps| - 1];
      SameSlices(steps, i);
      SameSlices(steps, i + 1);
      forall j | i < j <= k ensures Ends(env, front, j, steps[i].tx) <==> Ends(env, steps, j, steps[i].tx) {
        SameSlices(steps, j + 1);
      }
    }
  }

  lemma CommittedLast(env: Env, steps: seq<Step>, i: nat, e: LogEntry)
    requires steps != []
    ensures var n := |steps| - 1;
            CommittedAt(env, steps, i, n, e) <==>
            LastCarriedOut(env, steps) && steps[n].Commit? && OpenAt(env, steps[..n], i, e, steps[n].tx)
  {
    hide LastInserts, LastCarriedOut, TenantOf;
    var n := |steps| - 1;
    assert steps[..n + 1] == steps;
    if i < n {
      SameSlices(steps, i);
      SameSlices(steps, i + 1);
      forall j | i < j < n ensures Ends(env, steps[..n], j, steps[n].tx) <==> Ends(env, steps, j, steps[n].tx) {
        SameSlices(steps, j + 1);
      }
    }
  }

  lemma {:induction false} DurableMeans(env: Env, steps: seq<Step>, e: LogEntry)
    ensures e in Durable(env, steps) <==> exists i: nat, k: nat :: CommittedAt(env, steps, i, k, e)
  {
    hide CommittedAt, OpenAt, Pending, LastCarriedOut;
    if steps == [] {
      NothingCommitted(env, e);
    } else {
      var n := |steps| - 1;
      var front := steps[..n];
      DurableMeans(env, front, e);
      PendingMeans(env, front, e, steps[n].tx);
      forall i: nat ensures
        CommittedAt(env, steps, i, n, e) <==>
        LastCarriedOut(env, steps) && steps[n].Commit? && OpenAt(env, front, i, e, steps[n].tx)
      {
        CommittedLast(env, steps, i, e);
      }
      forall i: nat, k: nat | k < n ensures CommittedAt(env, steps, i, k, e) <==> CommittedAt(env, front, i, k, e) {
        CommittedBefore(env, steps, i, k, e);
      }
      forall i: nat, k: nat ensures CommittedAt(env, steps, i, k, e) ==> k <= n {
        CommittedInRange(env, steps, i, k, e);
      }
      forall i: nat, k: nat ensures CommittedAt(env, front, i, k, e) ==> k < n {
        CommittedInRange(env, front, i, k, e);
      }
      if e in Durable(env, steps) {
        if i: nat, k: nat :| CommittedAt(env, front, i, k, e) {
          assert CommittedAt(env, steps, i, k, e);
        } else {
          var i: nat :| OpenAt(env, front, i, e, steps[n].tx);
          assert CommittedAt(env, steps, i, n, e);
        }
      }
      if i: nat, k: nat :| CommittedAt(env, steps, i, k, e) {
        assert k < n ==> CommittedAt(env, front, i, k, e);
      }
    }
  }

  lemma CommittedInRange(env: Env, steps: seq<Step>, i: nat, k: nat, e: LogEntry)
    ensures CommittedAt(env, steps, i, k, e) ==> i < k < |steps|
  {}

  lemma NothingCommitted(env: Env, e: LogEntry)
    ensures forall i: nat, k: nat :: !CommittedAt(env, [], i, k, e)
  {
    hide LastInserts, LastCarriedOut, TenantOf;
  }

  /**
   * An entry is in the log after a schedule iff it was there before, or some accepted insert asked for it
   * and the first end of its transaction after that is a commit. Nothing else is there: no insert of an
   * aborted or still open transaction.
   */
  lemma LogIsTheCommittedInserts(env: Env, steps: seq<Step>, e: LogEntry)
    requires HexDigest(env.sha) && GoodStart(env)
    ensures e in EntriesOf(After(env, steps).committed) <==>
            e in EntriesOf(env.initial) || exists i: nat, k: nat :: CommittedAt(env, steps, i, k, e)
  {
    hide CommittedAt, EntriesOf, HexDigest, GoodStart;
    LogHoldsCommittedAppends(env, steps);
    DurableMeans(env, steps, e);
  }

  // ----- an append that goes through -----

  /** One transaction appends to a tenant without rows and commits. */
  function FirstAppend(t: int, tenant: int, id: int, content: Content): seq<Step> {
    [Begin(t), Acquire(t, tenant), ReadNewest(t, None), Insert(t, id, content), Commit(t)]
  }

  /** From an empty log it leaves exactly its row, a genesis row with the digest of its content. */
  lemma FirstAppendIsCommitted(env: Env, t: int, tenant: int, id: int, content: Content)
    requires env.initial == {} && ValidContent(content)
    ensures After(env, FirstAppend(t, tenant, id, content)).committed ==
            {Row(id, tenant, None, env.sha(HashInput(None, content)), 1, content)}
  {
    hide HashInput, ValidContent;
    var run := FirstAppend(t, tenant, id, content);
    FirstAppendUpToInsert(env, t, tenant, id, content);
    StepTaken(env, run, 4, After(env, run[..4]));
    assert run[..5] == run;
  }

  /** A step that can be taken is. */
  lemma StepTaken(env: Env, run: seq<Step>, n: nat, s: State)
    requires n < |run| && After(env, run[..n]) == s && Enabled(env, s, run[n])
    ensures After(env, run[..n + 1]) == Apply(env, s, run[n])
  {
    hide Enabled, Apply;
    assert run[..n + 1][..n] == run[..n];
  }

  lemma StartOfEmpty(env: Env)
    requires env.initial == {}
    ensures StartOf(env) == State({}, map[], map[], {}, {})
  {}

  lemma NothingVisible(s: State, t: int, tenant: int)
    requires t in s.txs && s.committed == {} && s.txs[t].own == {}
    ensures Visible(s, t, tenant) == {}
  {}

  lemma FirstInsert(env: Env, s: State, t: int, tenant: int, id: int, content: Content)
    requires ValidContent(content) && t in s.txs && s.txs[t] == Tx(LeafKnown(tenant, None), {})
    requires s.committed == {} && s.usedIds == {}
    ensures var step := Insert(t, id, content);
            Enabled(env, s, step) &&
            var s' := Apply(env, s, step);
            && s'.committed == {} && s'.usedIds == {id} && s'.holders == s.holders && t in s'.txs
            && s'.txs[t] == Tx(Idle, {Row(id, tenant, None, env.sha(HashInput(None, content)), 1, content)})
  {
    hide HashInput, ValidContent;
    NothingVisible(s, t, tenant);
    var row := NewRow(env, tenant, None, id, content);
    assert {} + {row} == {row};
    assert {} + {id} == {id};
  }

  lemma FirstAppendUpToInsert(env: Env, t: int, tenant: int, id: int, content: Content)
    requires env.initial == {} && ValidContent(content)
    ensures var s := After(env, FirstAppend(t, tenant, id, content)[..4]);
            && s.committed == {} && t in s.txs && s.txs[t].phase == Idle && s.usedIds == {id}
            && (env.lockOf(tenant) in s.holders ==> s.holders[env.lockOf(tenant)] == t)
            && s.txs[t].own == {Row(id, tenant, None, env.sha(HashInput(None, content)), 1, content)}
  {
    hide HashInput, ValidContent, StartOf, After, Visible;
    var run := FirstAppend(t, tenant, id, content);
    StartOfEmpty(env);
    NoSteps(env);
    assert run[..0] == [];
    StepTaken(env, run, 0, StartOf(env));
    var s1 := After(env, run[..1]);
    assert s1 == State({}, map[t := Tx(Idle, {})], map[], {}, {});
    StepTaken(env, run, 1, s1);
    var s2 := After(env, run[..2]);
    assert s2 == State({}, map[t := Tx(Locked(tenant), {})], map[env.lockOf(tenant) := t], {}, {});
    NothingVisible(s2, t, tenant);
    StepTaken(env, run, 2, s2);
    var s3 := After(env, run[..3]);
    assert s3 == State({}, map[t := Tx(LeafKnown(tenant, None), {})], map[env.lockOf(tenant) := t], {}, {});
    FirstInsert(env, s3, t, tenant, id, content);
    StepTaken(env, run, 3, s3);
  }

  lemma NoSteps(env: Env)
    ensures After(env, []) == StartOf(env)
  {}

  /** One transaction appends twice to a tenant without rows and commits; the second lookup finds the first row. */
  function TwoAppends(env: Env, t: int, tenant: int, a: LogEntry, b: LogEntry): seq<Step> {
    FirstAppend(t, tenant, a.id, a.content)[..4] +
    [Acquire(t, tenant), ReadNewest(t, Some(FirstRow(env, tenant, a))), ReadSuccessor(t), Insert(t, b.id, b.content),
        Commit(t)]
  }

  function FirstRow(env: Env, tenant: int, a: LogEntry): Row {
    Row(a.id, tenant, None, env.sha(HashInput(None, a.content)), 1, a.content)
  }

  /** From an empty log it leaves the two rows, the second chained to the first, if their hashes do not collide. */
  lemma TwoAppendsAreCommitted(env: Env, t: int, tenant: int, a: LogEntry, b: LogEntry)
    requires env.initial == {} && ValidContent(a.content) && ValidContent(b.content) && a.id != b.id
    requires var first := FirstRow(env, tenant, a);
             env.sha(HashInput(Some(first.currentHash), b.content)) != first.currentHash
    ensures var first := FirstRow(env, tenant, a);
            var hash := Some(first.currentHash);
            After(env, TwoAppends(env, t, tenant, a, b)).committed ==
            {first, Row(b.id, tenant, hash, env.sha(HashInput(hash, b.content)), 1, b.content)}
  {
    hide HashInput, ValidContent, StartOf;
    var run := TwoAppends(env, t, tenant, a, b);
    FirstAppendUpToInsert(env, t, tenant, a.id, a.content);
    assert run[..4] == FirstAppend(t, tenant, a.id, a.content)[..4];
    SecondAppend(env, run, t, tenant, a, b);
    StepTaken(env, run, 8, After(env, run[..8]));
    assert run[..9] == run;
  }

  lemma SecondInsert(env: Env, s: State, t: int, tenant: int, first: Row, b: LogEntry)
    requires ValidContent(b.content) && t in s.txs && s.committed == {} && b.id !in s.usedIds && first.tenant == tenant
    requires s.txs[t] == Tx(LeafKnown(tenant, Some(first.currentHash)), {first})
    requires env.sha(HashInput(Some(first.currentHash), b.content)) != first.currentHash
    ensures var step := Insert(t, b.id, b.content);
            var hash := Some(first.currentHash);
            Enabled(env, s, step) &&
            var s' := Apply(env, s, step);
            && s'.committed == {} && t in s'.txs
            && s'.txs[t] ==
               Tx(Idle, {first, Row(b.id, tenant, hash, env.sha(HashInput(hash, b.content)), 1, b.content)})
  {
    hide HashInput, ValidContent;
    assert Visible(s, t, tenant) == {first};
    var row := NewRow(env, tenant, Some(first.currentHash), b.id, b.content);
    assert {first} + {row} == {first, row};
  }

  lemma OneVisible(s: State, t: int, first: Row)
    requires t in s.txs && s.committed == {} && s.txs[t].own == {first}
    ensures Visible(s, t, first.tenant) == {first} && IsNewest(first, {first})
  {}

  lemma SecondAppend(env: Env, run: seq<Step>, t: int, tenant: int, a: LogEntry, b: LogEntry)
    requires ValidContent(a.content) && ValidContent(b.content) && a.id != b.id
    requires var first := FirstRow(env, tenant, a);
             && env.sha(HashInput(Some(first.currentHash), b.content)) != first.currentHash
             && |run| == 9 && run[4] == Acquire(t, tenant) && run[5] == ReadNewest(t, Some(first))
             && run[6] == ReadSuccessor(t) && run[7] == Insert(t, b.id, b.content)
             && var s := After(env, run[..4]);
                && s.committed == {} && t in s.txs && s.txs[t] == Tx(Idle, {first})
                && s.usedIds == {a.id} && (env.lockOf(tenant) in s.holders ==> s.holders[env.lockOf(tenant)] == t)
    ensures var first := FirstRow(env, tenant, a);
            var hash := Some(first.currentHash);
            var s := After(env, run[..8]);
            && s.committed == {} && t in s.txs
            && s.txs[t] == Tx(Idle, {first, Row(b.id, tenant, hash, env.sha(HashInput(hash, b.content)), 1, b.content)})
  {
    hide HashInput, ValidContent, StartOf, After, Visible, IsNewest;
    var first := FirstRow(env, tenant, a);
    var s4 := After(env, run[..4]);
    StepTaken(env, run, 4, s4);
    var s5 := After(env, run[..5]);
    assert s5.txs[t] == Tx(Locked(tenant), {first}) && s5.committed == {} && s5.usedIds == {a.id};
    OneVisible(s5, t, first);
    StepTaken(env, run, 5, s5);
    var s6 := After(env, run[..6]);
    assert s6.txs[t] == Tx(NewestRead(tenant, first.currentHash), {first});
    assert s6.committed == {} && s6.usedIds == {a.id};
    OneVisible(s6, t, first);
    StepTaken(env, run, 6, s6);
    var s7 := After(env, run[..7]);
    assert s7.txs[t] == Tx(LeafKnown(tenant, Some(first.currentHash)), {first});
    assert s7.committed == {} && s7.usedIds == {a.id};
    SecondInsert(env, s7, t, tenant, first, b);
    StepTaken(env, run, 7, s7);
  }
}
