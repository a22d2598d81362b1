/**
 * Concurrent appends to the audit log (src/services/audit.service.ts, appendInTx): READ COMMITTED
 * transactions that take a per-tenant advisory lock, look up the leaf in up to three queries,
 * insert, and commit or abort. Every interleaving is a sequence of steps.
 */
module AuditProtocol {
  import opened Basics
  import opened CanonicalJson
  import opened AuditHash
  import opened AuditChain

  /**
   * The digest, the lock key that pg_advisory_xact_lock derives from a tenant (keys may clash), and the
   * rows committed before the run.
   */
  datatype Env = Env(sha: Digest, lockOf: int -> int, initial: set<Row>)

  /** Where a transaction stands inside appendInTx. */
  datatype Phase =
    | Idle
    | Locked(tenant: int)
    | NewestRead(tenant: int, tip: Text)
    | SuccessorFound(tenant: int)
    | LeafKnown(tenant: int, leaf: Option<Text>)
    | Failed

  /** own: the rows inserted and not yet committed. */
  datatype Tx = Tx(phase: Phase, own: set<Row>)

  /** hashed: every text digested so far. usedIds: every row id generated so far. */
  datatype State = State(committed: set<Row>, txs: map<int, Tx>, holders: map<int, int>, hashed: set<Text>,
      usedIds: set<int>)

  datatype Step =
    | Begin(tx: int)
    | Acquire(tx: int, tenant: int)
    | ReadNewest(tx: int, newest: Option<Row>)
    | ReadSuccessor(tx: int)
    | ReadLeaves(tx: int)
    | Insert(tx: int, id: int, content: Content)
    | Commit(tx: int)
    | Abort(tx: int)

  /** An earlier row whose hash is known to be the digest of a text; the hash of any other is opaque. */
  ghost predicate Genuine(env: Env, r: Row) {
    && r.hashVersion == 1
    && ValidContent(r.content)
    && (r.previousHash.Some? ==> IsHash(r.previousHash.value))
    && r.currentHash == env.sha(HashInput(r.previousHash, r.content))
  }

  ghost function StartOf(env: Env): State {
    State(
      env.initial, map[], map[],
      set r | r in env.initial && Genuine(env, r) :: HashInput(r.previousHash, r.content),
      set r | r in env.initial :: r.id)
  }

  /** The earlier rows, of whatever hash version, form one chain per tenant under distinct ids. */
  ghost predicate GoodStart(env: Env) {
    && (forall r :: r in env.initial ==> IsHash(r.currentHash))
    && (forall a, b :: a in env.initial && b in env.initial && a.id == b.id ==> a == b)
    && (forall tenant :: IsChain(RowsOf(env.initial, tenant)))
  }

  function RowsOf(rows: set<Row>, tenant: int): set<Row> {
    set r | r in rows && r.tenant == tenant
  }

  /** What a query of transaction t sees of a tenant: committed rows and its own. */
  function Visible(s: State, t: int, tenant: int): set<Row>
    requires t in s.txs
  {
    RowsOf(s.committed + s.txs[t].own, tenant)
  }

  /** The row that an append would insert. */
  function NewRow(env: Env, tenant: int, leaf: Option<Text>, id: int, content: Content): Row {
    Row(id, tenant, leaf, env.sha(HashInput(leaf, content)), 1, content)
  }

  /** When a step can be taken; an Acquire whose lock another transaction holds must wait. */
  ghost predicate Enabled(env: Env, s: State, step: Step) {
    match step
    case Begin(t) => t !in s.txs
    case Acquire(t, tenant) =>
      && t in s.txs && s.txs[t].phase.Idle?
      && (env.lockOf(tenant) in s.holders ==> s.holders[env.lockOf(tenant)] == t)
    case ReadNewest(t, newest) =>
      && t in s.txs && s.txs[t].phase.Locked?
      && var rows := Visible(s, t, s.txs[t].phase.tenant);
         if newest.Some? then IsNewest(newest.value, rows) else rows == {}
    case ReadSuccessor(t) => t in s.txs && s.txs[t].phase.NewestRead?
    case ReadLeaves(t) => t in s.txs && s.txs[t].phase.SuccessorFound?
    case Insert(t, id, content) =>
      t in s.txs && s.txs[t].phase.LeafKnown? && id !in s.usedIds && ValidContent(content)
    case Commit(t) => t in s.txs && s.txs[t].phase.Idle?
    case Abort(t) => t in s.txs
  }

  function SetPhase(s: State, t: int, phase: Phase): State
    requires t in s.txs
  {
    s.(txs := s.txs[t := s.txs[t].(phase := phase)])
  }

  /** Ends transaction t; its locks go with it. */
  function End(s: State, t: int, committed: set<Row>): State
    requires t in s.txs
  {
    s.(committed := committed, txs := s.txs - {t},
       holders := map k | k in s.holders && s.holders[k] != t :: s.holders[k])
  }

  ghost function Apply(env: Env, s: State, step: Step): State
    requires Enabled(env, s, step)
  {
    match step
    case Begin(t) => s.(txs := s.txs[t := Tx(Idle, {})])
    case Acquire(t, tenant) =>
      SetPhase(s.(holders := s.holders[env.lockOf(tenant) := t]), t, Locked(tenant))
    case ReadNewest(t, newest) =>
      var tenant := s.txs[t].phase.tenant;
      SetPhase(s, t, if newest.Some? then NewestRead(tenant, newest.value.currentHash) else LeafKnown(tenant, None))
    case ReadSuccessor(t) =>
      var NewestRead(tenant, tip) := s.txs[t].phase;
      SetPhase(s, t,
        if exists r :: r in Visible(s, t, tenant) && r.previousHash == Some(tip) then SuccessorFound(tenant)
        else LeafKnown(tenant, Some(tip)))
    case ReadLeaves(t) =>
      var tenant := s.txs[t].phase.tenant;
      var leaves := Leaves(Visible(s, t, tenant));
      SetPhase(s, t,
        if exists r :: leaves == {r} then
          var r :| leaves == {r}; LeafKnown(tenant, Some(r.currentHash))
        else Failed)
    case Insert(t, id, content) =>
      var LeafKnown(tenant, leaf) := s.txs[t].phase;
      var row := NewRow(env, tenant, leaf, id, content);
      var hashed := s.hashed + {HashInput(leaf, content)};
      // @@unique([tenantId, currentHash]) refuses a second row with the same hash
      if exists r :: r in Visible(s, t, tenant) && r.currentHash == row.currentHash then
        SetPhase(s, t, Failed).(hashed := hashed, usedIds := s.usedIds + {id})
      else
        s.(txs := s.txs[t := Tx(Idle, s.txs[t].own + {row})], hashed := hashed, usedIds := s.usedIds + {id})
    case Commit(t) => End(s, t, s.committed + s.txs[t].own)
    case Abort(t) => End(s, t, s.committed)
  }

  /** The state after a schedule; a step that cannot be taken changes nothing. */
  ghost function After(env: Env, steps: seq<Step>): State {
    if steps == [] then StartOf(env)
    else
      var s := After(env, steps[..|steps| - 1]);
      var step := steps[|steps| - 1];
      if Enabled(env, s, step) then Apply(env, s, step) else s
  }

  /** SHA-256 prints hexadecimal digests. */
  ghost predicate HexDigest(sha: Digest) {
    forall t :: IsHash(sha(t))
  }

  /** No two of the given texts have the same digest, and none has the opaque hash of an earlier row. */
  ghost predicate CollisionFree(env: Env, texts: set<Text>) {
    && (forall a, b :: a in texts && b in texts && env.sha(a) == env.sha(b) ==> a == b)
    && (forall t, r :: t in texts && r in env.initial && !Genuine(env, r) ==> env.sha(t) != r.currentHash)
  }

  // ----- invariants -----

  ghost predicate Holds(env: Env, s: State, t: int, tenant: int) {
    env.lockOf(tenant) in s.holders && s.holders[env.lockOf(tenant)] == t
  }

  ghost predicate InSystem(s: State, r: Row) {
    r in s.committed || exists t :: t in s.txs && r in s.txs[t].own
  }

  /** A row inserted by appendInTx. */
  ghost predicate Appended(env: Env, hashed: set<Text>, r: Row) {
    Genuine(env, r) && HashInput(r.previousHash, r.content) in hashed
  }

  /** A row of which only the hash is known. */
  ghost predicate Opaque(env: Env, r: Row) {
    r in env.initial && !Genuine(env, r) && IsHash(r.currentHash)
  }

  ghost predicate RowsSound(env: Env, s: State) {
    && (forall r :: InSystem(s, r) ==> (Appended(env, s.hashed, r) || Opaque(env, r)) && r.id in s.usedIds)
    && (forall a, b :: InSystem(s, a) && InSystem(s, b) && a.id == b.id ==> a == b)
  }

  /** Whoever has rows of a tenant, or is appending one, holds the tenant's lock. */
  ghost predicate LocksSound(env: Env, s: State) {
    && (forall t, r :: t in s.txs && r in s.txs[t].own ==> Holds(env, s, t, r.tenant))
    && (forall t :: t in s.txs && !s.txs[t].phase.Idle? && !s.txs[t].phase.Failed? ==>
        Holds(env, s, t, s.txs[t].phase.tenant))
  }

  /** What a transaction has read still holds of the rows it sees. */
  ghost predicate PhaseSound(s: State, t: int)
    requires t in s.txs
  {
    match s.txs[t].phase
    case NewestRead(tenant, tip) => exists r :: r in Visible(s, t, tenant) && r.currentHash == tip
    case SuccessorFound(tenant) => Visible(s, t, tenant) != {}
    case LeafKnown(tenant, leaf) =>
      if leaf == None then Visible(s, t, tenant) == {}
      else exists r :: IsLeaf(r, Visible(s, t, tenant)) && leaf == Some(r.currentHash)
    case _ => true
  }

  ghost predicate Structural(env: Env, s: State) {
    RowsSound(env, s) && LocksSound(env, s) && forall t :: t in s.txs ==> PhaseSound(s, t)
  }

  /** Every transaction sees one chain per tenant, so does everyone else, and no append fails. */
  ghost predicate Chained(s: State) {
    && (forall tenant :: IsChain(RowsOf(s.committed, tenant)))
    && (forall t, tenant :: t in s.txs ==> IsChain(Visible(s, t, tenant)))
    && (forall t :: t in s.txs ==> !s.txs[t].phase.Failed?)
  }

  ghost predicate Inv(env: Env, s: State) {
    Structural(env, s) && (CollisionFree(env, s.hashed) ==> Chained(s))
  }

  // ----- steps that insert and end nothing -----

  /** Changing only t's phase keeps what everyone sees. */
  lemma PhaseChangeKeeps(env: Env, s: State, t: int, phase: Phase)
    requires Inv(env, s) && t in s.txs
    requires phase.Idle? || phase.Failed? || Holds(env, s, t, phase.tenant)
    requires PhaseSound(SetPhase(s, t, phase), t)
    requires CollisionFree(env, s.hashed) ==> !phase.Failed?
    ensures Inv(env, SetPhase(s, t, phase))
  {
    var s' := SetPhase(s, t, phase);
    assert forall u :: u in s'.txs ==> u in s.txs && s'.txs[u].own == s.txs[u].own;
    assert forall r :: InSystem(s', r) ==> InSystem(s, r);
    assert forall u, tenant :: u in s'.txs ==> Visible(s', u, tenant) == Visible(s, u, tenant);
    forall u | u in s'.txs ensures PhaseSound(s', u) {
      if u != t {
        assert PhaseSound(s, u);
      }
    }
  }

  /** What an invariant state says about one transaction. */
  lemma InvAt(env: Env, s: State, t: int)
    requires Inv(env, s) && t in s.txs
    ensures PhaseSound(s, t)
    ensures !s.txs[t].phase.Idle? && !s.txs[t].phase.Failed? ==> Holds(env, s, t, s.txs[t].phase.tenant)
    ensures CollisionFree(env, s.hashed) ==> forall tenant :: IsChain(Visible(s, t, tenant))
  {}

  lemma BeginKeeps(env: Env, s: State, t: int)
    requires Inv(env, s) && t !in s.txs
    ensures Inv(env, s.(txs := s.txs[t := Tx(Idle, {})]))
  {
    var s' := s.(txs := s.txs[t := Tx(Idle, {})]);
    assert forall r :: InSystem(s', r) ==> InSystem(s, r);
    assert forall u, tenant :: u in s.txs ==> Visible(s', u, tenant) == Visible(s, u, tenant);
    assert forall tenant :: Visible(s', t, tenant) == RowsOf(s.committed, tenant);
    forall u | u in s'.txs ensures PhaseSound(s', u) {
      if u != t {
        assert PhaseSound(s, u);
      }
    }
  }

  lemma AcquireKeeps(env: Env, s: State, t: int, tenant: int)
    requires Inv(env, s) && Enabled(env, s, Acquire(t, tenant))
    ensures Inv(env, Apply(env, s, Acquire(t, tenant)))
  {
    var held := s.(holders := s.holders[env.lockOf(tenant) := t]);
    assert forall r :: InSystem(held, r) ==> InSystem(s, r);
    assert forall u, x :: u in s.txs ==> Visible(held, u, x) == Visible(s, u, x);
    assert forall u :: u in s.txs && PhaseSound(s, u) ==> PhaseSound(held, u);
    assert Inv(env, held);
    PhaseChangeKeeps(env, held, t, Locked(tenant));
  }

  lemma ReadNewestKeeps(env: Env, s: State, t: int, newest: Option<Row>)
    requires Inv(env, s) && Enabled(env, s, ReadNewest(t, newest))
    ensures Inv(env, Apply(env, s, ReadNewest(t, newest)))
  {
    hide Inv, HashInput, IsChain, CollisionFree;
    InvAt(env, s, t);
    var tenant := s.txs[t].phase.tenant;
    var phase := if newest.Some? then NewestRead(tenant, newest.value.currentHash) else LeafKnown(tenant, None);
    assert Visible(SetPhase(s, t, phase), t, tenant) == Visible(s, t, tenant);
    PhaseChangeKeeps(env, s, t, phase);
  }

  lemma ReadSuccessorKeeps(env: Env, s: State, t: int)
    requires Inv(env, s) && Enabled(env, s, ReadSuccessor(t))
    ensures Inv(env, Apply(env, s, ReadSuccessor(t)))
  {
    hide Inv, HashInput, IsChain, CollisionFree;
    InvAt(env, s, t);
    var NewestRead(tenant, tip) := s.txs[t].phase;
    var rows := Visible(s, t, tenant);
    var r :| r in rows && r.currentHash == tip;
    var phase := if exists r :: r in rows && r.previousHash == Some(tip) then SuccessorFound(tenant)
        else LeafKnown(tenant, Some(tip));
    assert Visible(SetPhase(s, t, phase), t, tenant) == rows;
    assert phase.LeafKnown? ==> IsLeaf(r, rows);
    PhaseChangeKeeps(env, s, t, phase);
  }

  /** A non-empty chain has exactly one leaf. */
  lemma ChainHasOneLeaf(rows: set<Row>)
    requires IsChain(rows) && rows != {}
    ensures exists r :: Leaves(rows) == {r}
  {
    var order: seq<Row> :| Orders(order, rows) && Linear(order);
    var tip := order[|order| - 1];
    forall r ensures r in Leaves(rows) <==> r == tip {
      TipIsOnlyLeaf(order, rows, r);
    }
    assert Leaves(rows) == {tip};
  }

  lemma ReadLeavesKeeps(env: Env, s: State, t: int)
    requires Inv(env, s) && Enabled(env, s, ReadLeaves(t))
    ensures Inv(env, Apply(env, s, ReadLeaves(t)))
  {
    hide Inv, HashInput, IsChain, CollisionFree;
    InvAt(env, s, t);
    var tenant := s.txs[t].phase.tenant;
    var rows := Visible(s, t, tenant);
    var phase := Apply(env, s, ReadLeaves(t)).txs[t].phase;
    assert Visible(SetPhase(s, t, phase), t, tenant) == rows;
    if exists r :: Leaves(rows) == {r} {
      var r :| Leaves(rows) == {r} && phase == LeafKnown(tenant, Some(r.currentHash));
      assert r in Leaves(rows);
      assert IsLeaf(r, rows);
    } else if CollisionFree(env, s.hashed) {
      ChainHasOneLeaf(rows);
    }
    PhaseChangeKeeps(env, s, t, phase);
  }

  // ----- insert -----

  /** A row chained to the leaf has a new hash: an equal hash would mean another row already follows the leaf. */
  lemma FreshHash(env: Env, hashed: set<Text>, rows: set<Row>, row: Row)
    requires HexDigest(env.sha) && CollisionFree(env, hashed)
    requires Appended(env, hashed, row)
    requires forall r :: r in rows ==> Appended(env, hashed, r) || Opaque(env, r)
    requires if row.previousHash == None then rows == {}
             else exists leaf :: IsLeaf(leaf, rows) && row.previousHash == Some(leaf.currentHash)
    ensures forall r :: r in rows ==> r.currentHash != row.currentHash
  {
    hide HashInput, ValidContent, SameContent;
    if rows != {} {
      var leaf :| IsLeaf(leaf, rows) && row.previousHash == Some(leaf.currentHash);
      forall r | r in rows ensures r.currentHash != row.currentHash {
        assert !Follows(r, leaf);
        if r.currentHash == row.currentHash {
          HashInputDecodes(r.previousHash, r.content, row.previousHash, row.content);
        }
      }
    }
  }

  /** While u holds a tenant's lock, t has no uncommitted rows of that tenant. */
  lemma OthersDoNotSee(env: Env, s: State, t: int, u: int, tenant: int)
    requires LocksSound(env, s) && t in s.txs && u in s.txs && u != t && Holds(env, s, u, tenant)
    ensures forall r :: r in s.txs[t].own ==> r.tenant != tenant
  {}

  /** The state after t has inserted a row. */
  function Inserted(s: State, t: int, row: Row, text: Text): State
    requires t in s.txs
  {
    s.(txs := s.txs[t := Tx(Idle, s.txs[t].own + {row})], hashed := s.hashed + {text}, usedIds := s.usedIds + {row.id})
  }

  lemma InsertKeepsViews(s: State, t: int, row: Row, text: Text)
    requires t in s.txs
    ensures var s' := Inserted(s, t, row, text);
            && (forall u, x :: u in s.txs && (u != t || x != row.tenant) ==> Visible(s', u, x) == Visible(s, u, x))
            && Visible(s', t, row.tenant) == Visible(s, t, row.tenant) + {row}
            && forall r :: InSystem(s', r) ==> InSystem(s, r) || r == row
  {}

  lemma InsertKeepsStructure(env: Env, s: State, t: int, row: Row, text: Text)
    requires Structural(env, s) && t in s.txs && s.txs[t].phase.LeafKnown?
    requires row.tenant == s.txs[t].phase.tenant
    requires row.id !in s.usedIds && Appended(env, s.hashed + {text}, row)
    ensures Structural(env, Inserted(s, t, row, text))
  {
    hide HashInput, ValidContent, Visible;
    var s' := Inserted(s, t, row, text);
    InsertKeepsViews(s, t, row, text);
    assert RowsSound(env, s');
    assert LocksSound(env, s');
    forall u | u in s'.txs ensures PhaseSound(s', u) {
      assert PhaseSound(s, u);
    }
  }

  lemma InsertKeepsChains(env: Env, s: State, t: int, row: Row, text: Text)
    requires HexDigest(env.sha) && Inv(env, s) && t in s.txs && s.txs[t].phase.LeafKnown?
    requires row.tenant == s.txs[t].phase.tenant && row.previousHash == s.txs[t].phase.leaf
    requires Appended(env, s.hashed + {text}, row)
    requires CollisionFree(env, s.hashed + {text})
    ensures Chained(Inserted(s, t, row, text))
  {
    hide HashInput, ValidContent, Visible, IsChain, Inv, CollisionFree, Appended, HexDigest;
    InsertExtendsChain(env, s, t, row, text);
    InsertKeepsViews(s, t, row, text);
  }

  lemma InsertExtendsChain(env: Env, s: State, t: int, row: Row, text: Text)
    requires HexDigest(env.sha) && Inv(env, s) && t in s.txs && s.txs[t].phase.LeafKnown?
    requires row.tenant == s.txs[t].phase.tenant && row.previousHash == s.txs[t].phase.leaf
    requires Appended(env, s.hashed + {text}, row)
    requires CollisionFree(env, s.hashed + {text})
    ensures IsChain(Visible(s, t, row.tenant) + {row})
    ensures forall r :: r in Visible(s, t, row.tenant) ==> r.currentHash != row.currentHash
    ensures Chained(s)
  {
    var rows := Visible(s, t, row.tenant);
    assert PhaseSound(s, t);
    forall r | r in rows ensures Appended(env, s.hashed + {text}, r) || Opaque(env, r) {
      assert InSystem(s, r);
    }
    FreshHash(env, s.hashed + {text}, rows, row);
    assert CollisionFree(env, s.hashed);
    assert IsChain(rows);
    if rows == {} {
      ChainExtends([], rows, row);
    } else {
      var order: seq<Row> :| Orders(order, rows) && Linear(order);
      var leaf :| IsLeaf(leaf, rows) && row.previousHash == Some(leaf.currentHash);
      TipIsOnlyLeaf(order, rows, leaf);
      ChainExtends(order, rows, row);
    }
  }

  lemma InsertKeeps(env: Env, s: State, t: int, id: int, content: Content)
    requires HexDigest(env.sha) && Inv(env, s) && Enabled(env, s, Insert(t, id, content))
    ensures Inv(env, Apply(env, s, Insert(t, id, content)))
  {
    hide HashInput, ValidContent, Visible, Chained, IsChain, CollisionFree;
    var LeafKnown(tenant, leaf) := s.txs[t].phase;
    var row := NewRow(env, tenant, leaf, id, content);
    var text := HashInput(leaf, content);
    NewRowIsAppended(env, s, t, id, content);
    var collisionFree := CollisionFree(env, s.hashed + {text});
    if collisionFree {
      InsertExtendsChain(env, s, t, row, text);
    }
    if exists r :: r in Visible(s, t, tenant) && r.currentHash == row.currentHash {
      RefusedInsertKeeps(env, s, t, id, text);
    } else {
      InsertKeepsStructure(env, s, t, row, text);
      if collisionFree {
        InsertKeepsChains(env, s, t, row, text);
      }
    }
  }

  lemma NewRowIsAppended(env: Env, s: State, t: int, id: int, content: Content)
    requires HexDigest(env.sha) && Structural(env, s) && t in s.txs && s.txs[t].phase.LeafKnown?
        && ValidContent(content)
    ensures var LeafKnown(tenant, leaf) := s.txs[t].phase;
            Appended(env, s.hashed + {HashInput(leaf, content)}, NewRow(env, tenant, leaf, id, content))
  {
    hide HashInput, ValidContent;
    assert PhaseSound(s, t);
    var leaf := s.txs[t].phase.leaf;
    if leaf.Some? {
      var r :| IsLeaf(r, Visible(s, t, s.txs[t].phase.tenant)) && leaf == Some(r.currentHash);
      assert InSystem(s, r);
    }
  }

  lemma RefusedInsertKeeps(env: Env, s: State, t: int, id: int, text: Text)
    requires Structural(env, s) && t in s.txs && !CollisionFree(env, s.hashed + {text})
    ensures Inv(env, SetPhase(s, t, Failed).(hashed := s.hashed + {text}, usedIds := s.usedIds + {id}))
  {
    var s' := SetPhase(s, t, Failed).(hashed := s.hashed + {text}, usedIds := s.usedIds + {id});
    assert forall r :: InSystem(s', r) ==> InSystem(s, r);
    assert forall u, tenant :: u in s'.txs ==> Visible(s', u, tenant) == Visible(s, u, tenant);
    forall u | u in s'.txs ensures PhaseSound(s', u) {
      assert PhaseSound(s, u);
    }
  }

  // ----- commit and abort -----

  /** Ending t changes no other transaction's view of a tenant whose lock that transaction holds. */
  lemma EndKeepsViews(env: Env, s: State, t: int, committed: set<Row>, u: int, tenant: int)
    requires LocksSound(env, s) && t in s.txs && u in s.txs && u != t
    requires committed == s.committed || committed == s.committed + s.txs[t].own
    requires Holds(env, s, u, tenant) || committed == s.committed
    ensures Visible(End(s, t, committed), u, tenant) == Visible(s, u, tenant)
  {
    var s' := End(s, t, committed);
    if committed != s.committed {
      OthersDoNotSee(env, s, t, u, tenant);
    }
    assert s'.txs[u] == s.txs[u];
  }

  lemma EndKeepsStructure(env: Env, s: State, t: int, committed: set<Row>)
    requires Structural(env, s) && t in s.txs
    requires committed == s.committed || committed == s.committed + s.txs[t].own
    ensures Structural(env, End(s, t, committed))
  {
    hide Appended, Opaque;
    var s' := End(s, t, committed);
    assert forall r :: InSystem(s', r) ==> InSystem(s, r);
    assert RowsSound(env, s');
    assert LocksSound(env, s');
    forall u | u in s'.txs ensures PhaseSound(s', u) {
      assert PhaseSound(s, u);
      if !s.txs[u].phase.Idle? && !s.txs[u].phase.Failed? {
        EndKeepsViews(env, s, t, committed, u, s.txs[u].phase.tenant);
      }
    }
  }

  lemma EndKeepsChains(env: Env, s: State, t: int, committed: set<Row>)
    requires LocksSound(env, s) && Chained(s) && t in s.txs
    requires committed == s.committed || committed == s.committed + s.txs[t].own
    ensures Chained(End(s, t, committed))
  {
    hide IsChain;
    var s' := End(s, t, committed);
    forall tenant ensures IsChain(RowsOf(committed, tenant)) {
      assert IsChain(RowsOf(s.committed, tenant)) && IsChain(Visible(s, t, tenant));
    }
    forall u, tenant | u in s'.txs ensures IsChain(Visible(s', u, tenant)) {
      assert IsChain(Visible(s, u, tenant));
      if Holds(env, s, u, tenant) {
        EndKeepsViews(env, s, t, committed, u, tenant);
      } else {
        assert Visible(s', u, tenant) == RowsOf(committed, tenant);
      }
    }
  }

  lemma EndKeeps(env: Env, s: State, t: int, committed: set<Row>)
    requires Inv(env, s) && t in s.txs
    requires committed == s.committed || committed == s.committed + s.txs[t].own
    ensures Inv(env, End(s, t, committed))
  {
    hide CollisionFree, Chained, RowsSound, LocksSound, PhaseSound;
    EndKeepsStructure(env, s, t, committed);
    if CollisionFree(env, s.hashed) {
      EndKeepsChains(env, s, t, committed);
    }
  }

  // ----- every run -----

  lemma StepKeeps(env: Env, s: State, step: Step)
    requires HexDigest(env.sha) && Inv(env, s) && Enabled(env, s, step)
    ensures Inv(env, Apply(env, s, step))
  {
    match step
    case Begin(t) => BeginKeeps(env, s, t);
    case Acquire(t, tenant) => AcquireKeeps(env, s, t, tenant);
    case ReadNewest(t, newest) => ReadNewestKeeps(env, s, t, newest);
    case ReadSuccessor(t) => ReadSuccessorKeeps(env, s, t);
    case ReadLeaves(t) => ReadLeavesKeeps(env, s, t);
    case Insert(t, id, content) => InsertKeeps(env, s, t, id, content);
    case Commit(t) => EndKeeps(env, s, t, s.committed + s.txs[t].own);
    case Abort(t) => EndKeeps(env, s, t, s.committed);
  }

  /** The earlier rows satisfy the invariants before any step. */
  lemma StartKeeps(env: Env)
    requires GoodStart(env)
    ensures Inv(env, StartOf(env))
  {
    hide HashInput, IsChain, Genuine;
    var s := StartOf(env);
    forall r | InSystem(s, r) ensures (Appended(env, s.hashed, r) || Opaque(env, r)) && r.id in s.usedIds {
      assert r in env.initial;
    }
  }

  lemma {:induction false} EveryRunKeeps(env: Env, steps: seq<Step>)
    requires HexDigest(env.sha) && GoodStart(env)
    ensures Inv(env, After(env, steps))
  {
    hide Inv, StartOf;
    if steps == [] {
      StartKeeps(env);
    } else {
      EveryRunKeeps(env, steps[..|steps| - 1]);
      var s := After(env, steps[..|steps| - 1]);
      var step := steps[|steps| - 1];
      if Enabled(env, s, step) {
        StepKeeps(env, s, step);
      }
    }
  }

  /** Nothing is ever taken out of the log. */
  lemma {:induction false} LogOnlyGrows(env: Env, steps: seq<Step>, n: nat)
    requires n <= |steps|
    ensures After(env, steps[..n]).committed <= After(env, steps).committed
    decreases |steps|
  {
    if n == |steps| {
      assert steps[..n] == steps;
    } else {
      var front := steps[..|steps| - 1];
      LogOnlyGrows(env, front, n);
      assert front[..n] == steps[..n];
    }
  }

  /**
   * Whatever the schedule, the clocks and the lock keys, and whatever chains the run starts from: as
   * long as no two hashed texts collide, each tenant's committed rows are one linear chain, and no
   * append is refused.
   */
  lemma CommittedRowsFormOneChain(env: Env, steps: seq<Step>, tenant: int)
    requires HexDigest(env.sha) && GoodStart(env) && CollisionFree(env, After(env, steps).hashed)
    ensures IsChain(RowsOf(After(env, steps).committed, tenant))
    ensures forall t :: t in After(env, steps).txs ==> !After(env, steps).txs[t].phase.Failed?
  {
    hide IsChain, CollisionFree, Structural;
    EveryRunKeeps(env, steps);
  }

  /** A transaction about to insert chains to the unique tip of all the rows it sees. */
  lemma AppendsToTheTip(env: Env, steps: seq<Step>, t: int)
    requires HexDigest(env.sha) && GoodStart(env) && CollisionFree(env, After(env, steps).hashed)
    requires t in After(env, steps).txs && After(env, steps).txs[t].phase.LeafKnown?
    ensures var s := After(env, steps);
            var rows := Visible(s, t, s.txs[t].phase.tenant);
            if rows == {} then s.txs[t].phase.leaf == None
            else exists r :: Leaves(rows) == {r} && s.txs[t].phase.leaf == Some(r.currentHash)
  {
    EveryRunKeeps(env, steps);
    LeafIsTip(env, After(env, steps), t);
  }

  lemma LeafIsTip(env: Env, s: State, t: int)
    requires Inv(env, s) && CollisionFree(env, s.hashed) && t in s.txs && s.txs[t].phase.LeafKnown?
    ensures var rows := Visible(s, t, s.txs[t].phase.tenant);
            if rows == {} then s.txs[t].phase.leaf == None
            else exists r :: Leaves(rows) == {r} && s.txs[t].phase.leaf == Some(r.currentHash)
  {
    hide Inv, IsChain, CollisionFree;
    InvAt(env, s, t);
    var rows := Visible(s, t, s.txs[t].phase.tenant);
    if rows != {} {
      ChainHasOneLeaf(rows);
      var r :| IsLeaf(r, rows) && s.txs[t].phase.leaf == Some(r.currentHash);
      assert r in Leaves(rows);
    }
  }

  /** Every committed row was there from the start or carries the digest of its own content. */
  lemma CommittedRowMatches(env: Env, s: State, r: Row)
    requires Structural(env, s) && r in s.committed
    ensures r in env.initial || ContentMatches(env.sha, r)
  {
    hide HashInput, ValidContent, LocksSound, PhaseSound;
    assert InSystem(s, r);
  }

  lemma CommittedIdsDiffer(env: Env, s: State, rows: seq<Row>)
    requires Structural(env, s) && forall r :: r in rows ==> r in s.committed
    requires forall i, j :: 0 <= i < j < |rows| ==> rows[i] != rows[j]
    ensures DistinctIds(rows)
  {
    hide Appended, Opaque, LocksSound, PhaseSound;
    forall i | 0 <= i < |rows| ensures InSystem(s, rows[i]) {
      assert rows[i] in rows;
    }
  }

  lemma ChainIsAccepted(sha: Digest, mine: set<Row>, rows: seq<Row>)
    requires IsChain(mine) && forall r :: r in rows <==> r in mine
    ensures ChainAccepted(sha, rows) <==> forall r :: r in rows ==> ContentMatches(sha, r)
  {
    hide ContentMatches, Linear;
    if rows != [] {
      assert rows[0] in rows;
      var order: seq<Row> :| Orders(order, mine) && Linear(order);
      if forall r :: r in rows ==> ContentMatches(sha, r) {
        assert ChainWitness(sha, rows, order);
      }
    }
  }

  /**
   * After every run the verifier accepts a tenant's committed rows, in whatever order they are read,
   * exactly when the version-1 rows among those that the run started from match their contents.
   */
  lemma EveryRunVerifies(env: Env, steps: seq<Step>, tenant: int, rows: seq<Row>)
    requires HexDigest(env.sha) && GoodStart(env) && CollisionFree(env, After(env, steps).hashed)
    requires forall r :: r in rows <==> r in RowsOf(After(env, steps).committed, tenant)
    requires forall i, j :: 0 <= i < j < |rows| ==> rows[i] != rows[j]
    ensures DistinctIds(rows)
    ensures ChainAccepted(env.sha, rows) <==>
            forall r :: r in RowsOf(env.initial, tenant) ==> ContentMatches(env.sha, r)
  {
    hide CollisionFree, IsChain, ContentMatches, ChainAccepted, Structural, DistinctIds, GoodStart;
    EveryRunKeeps(env, steps);
    LogOnlyGrows(env, steps, 0);
    assert steps[..0] == [];
    var s := After(env, steps);
    CommittedIdsDiffer(env, s, rows);
    ChainIsAccepted(env.sha, RowsOf(s.committed, tenant), rows);
    forall r | r in rows ensures r in env.initial || ContentMatches(env.sha, r) {
      CommittedRowMatches(env, s, r);
    }
  }
}
