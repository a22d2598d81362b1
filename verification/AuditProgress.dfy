/**
 * When an append waits, and that one left to itself always gets through: the advisory lock of
 * src/services/audit.service.ts is held from its Acquire to the end of the transaction and no longer.
 */
module AuditProgress {
  import opened Basics
  import opened CanonicalJson
  import opened AuditHash
  import opened AuditChain
  import opened AuditProtocol
  import opened AuditRuns

  // ----- who holds a lock -----

  /** t began, and has not ended since. */
  ghost predicate Open(env: Env, steps: seq<Step>, t: int) {
    steps != [] &&
    var front, last := steps[..|steps| - 1], steps[|steps| - 1];
    if LastCarriedOut(env, steps) && last.tx == t then !last.Commit? && !last.Abort? else Open(env, front, t)
  }

  /** t took the lock with this key, and has not ended since. */
  ghost predicate Took(env: Env, steps: seq<Step>, t: int, key: int) {
    steps != [] &&
    var front, last := steps[..|steps| - 1], steps[|steps| - 1];
    if LastCarriedOut(env, steps) && last.tx == t then
      && !last.Commit? && !last.Abort?
      && ((last.Acquire? && env.lockOf(last.tenant) == key) || Took(env, front, t, key))
    else Took(env, front, t, key)
  }

  lemma {:induction false} TookIsOpen(env: Env, steps: seq<Step>, t: int, key: int)
    requires Took(env, steps, t, key)
    ensures Open(env, steps, t)
  {
    var front, last := steps[..|steps| - 1], steps[|steps| - 1];
    if !(LastCarriedOut(env, steps) && last.tx == t) {
      TookIsOpen(env, front, t, key);
    }
  }

  ghost predicate LocksTrack(env: Env, steps: seq<Step>, s: State) {
    && (forall t :: t in s.txs <==> Open(env, steps, t))
    && (forall t, key :: Took(env, steps, t, key) <==> key in s.holders && s.holders[key] == t)
  }

  /** What a step does to the set of open transactions and to the locks. */
  lemma StepOnLocks(env: Env, s: State, step: Step)
    requires Enabled(env, s, step)
    ensures var s', t := Apply(env, s, step), step.tx;
            if step.Commit? || step.Abort? then
              && (forall u :: u in s'.txs <==> u in s.txs && u != t)
              && (forall key :: key in s'.holders <==> key in s.holders && s.holders[key] != t)
              && (forall key :: key in s'.holders ==> s'.holders[key] == s.holders[key])
            else
              && (forall u :: u in s'.txs <==> u in s.txs || u == t)
              && s'.holders == if step.Acquire? then s.holders[env.lockOf(step.tenant) := t] else s.holders
    ensures step.Begin? <==> step.tx !in s.txs
    ensures step.Acquire? && env.lockOf(step.tenant) in s.holders ==> s.holders[env.lockOf(step.tenant)] == step.tx
  {
    hide HashInput, ValidContent, Visible, Leaves, NewRow, IsNewest;
  }

  /** A lock is held by exactly the open transaction that took it: no two hold one, and none keeps it. */
  lemma {:induction false} LocksAreHeldToTheEnd(env: Env, steps: seq<Step>)
    ensures LocksTrack(env, steps, After(env, steps))
  {
    hide Enabled, Apply;
    if steps != [] {
      var front, last := steps[..|steps| - 1], steps[|steps| - 1];
      LocksAreHeldToTheEnd(env, front);
      var s, s' := After(env, front), After(env, steps);
      if LastCarriedOut(env, steps) {
        StepOnLocks(env, s, last);
      }
      forall t, key ensures Took(env, steps, t, key) <==> key in s'.holders && s'.holders[key] == t {
        assert Took(env, front, t, key) <==> key in s.holders && s.holders[key] == t;
        if Took(env, front, t, key) {
          TookIsOpen(env, front, t, key);
        }
      }
      forall t ensures t in s'.txs <==> Open(env, steps, t) {
        assert t in s.txs <==> Open(env, front, t);
      }
    }
  }

  /** An append waits exactly while another open transaction has taken its tenant's lock. */
  lemma AppendWaitsWhen(env: Env, steps: seq<Step>, t: int, tenant: int)
    ensures Open(env, steps, t) <==> t in After(env, steps).txs
    ensures Open(env, steps, t) && After(env, steps).txs[t].phase.Idle? ==>
              (Enabled(env, After(env, steps), Acquire(t, tenant)) <==>
               forall u :: u != t ==> !Took(env, steps, u, env.lockOf(tenant)))
  {
    LocksAreHeldToTheEnd(env, steps);
    hide Took, Open;
    var s, key := After(env, steps), env.lockOf(tenant);
    if key in s.holders {
      var holder := s.holders[key];
      assert Took(env, steps, holder, key);
      assert forall u :: Took(env, steps, u, key) <==> u == holder;
    } else {
      assert forall u :: !Took(env, steps, u, key);
    }
    assert Open(env, steps, t) <==> t in s.txs;
  }

  // ----- an append left to itself -----

  /** The hash of the last of the rows, if there are any. */
  ghost predicate IsTip(leaf: Option<Text>, rows: set<Row>) {
    if rows == {} then leaf == None else exists r :: SoleLeaf(r, rows) && leaf == Some(r.currentHash)
  }

  lemma OneMore(env: Env, steps: seq<Step>, step: Step)
    requires Enabled(env, After(env, steps), step)
    ensures After(env, steps + [step]) == Apply(env, After(env, steps), step)
  {
    hide Enabled, Apply;
    assert (steps + [step])[..|steps|] == steps;
  }

  ghost predicate StepsOf(steps: seq<Step>, t: int) {
    forall k :: 0 <= k < |steps| ==> steps[k].tx == t
  }

  /** What the first query may answer: any of the newest rows, or none when there are none. */
  ghost predicate Answer(newest: Option<Row>, rows: set<Row>) {
    if newest.Some? then IsNewest(newest.value, rows) else rows == {}
  }

  /** Whatever the first query answers, the lookup reaches the tip in at most two more. */
  lemma LookupFinds(env: Env, steps: seq<Step>, t: int, tenant: int, newest: Option<Row>, leaf: Option<Text>)
    returns (lookup: seq<Step>)
    requires t in After(env, steps).txs && After(env, steps).txs[t].phase == Locked(tenant)
    requires Answer(newest, Visible(After(env, steps), t, tenant))
    requires IsTip(leaf, Visible(After(env, steps), t, tenant))
    ensures 1 <= |lookup| <= 3 && StepsOf(lookup, t) && lookup[0] == ReadNewest(t, newest)
    ensures After(env, steps + lookup) == SetPhase(After(env, steps), t, LeafKnown(tenant, leaf))
  {
    hide After;
    var s := After(env, steps);
    var rows := Visible(s, t, tenant);
    var first := ReadNewest(t, newest);
    OneMore(env, steps, first);
    if newest == None {
      return [first];
    }
    var tip :| SoleLeaf(tip, rows) && leaf == Some(tip.currentHash);
    var s1 := After(env, steps + [first]);
    assert s1 == SetPhase(s, t, NewestRead(tenant, newest.value.currentHash));
    assert Visible(s1, t, tenant) == rows;
    OneMore(env, steps + [first], ReadSuccessor(t));
    var s2 := After(env, steps + [first] + [ReadSuccessor(t)]);
    assert steps + [first] + [ReadSuccessor(t)] == steps + [first, ReadSuccessor(t)];
    if r :| r in rows && r.previousHash == Some(newest.value.currentHash) {
      assert s2 == SetPhase(s, t, SuccessorFound(tenant));
      assert Visible(s2, t, tenant) == rows;
      OneMore(env, steps + [first] + [ReadSuccessor(t)], ReadLeaves(t));
      assert steps + [first] + [ReadSuccessor(t)] + [ReadLeaves(t)] == steps + [first, ReadSuccessor(t), ReadLeaves(t)];
      return [first, ReadSuccessor(t), ReadLeaves(t)];
    } else {
      assert newest.value in Leaves(rows);
      assert s2 == SetPhase(s, t, LeafKnown(tenant, leaf));
      return [first, ReadSuccessor(t)];
    }
  }

  /** What a transaction sees of a tenant has a tip, as long as no hashes collide. */
  lemma TipExists(env: Env, steps: seq<Step>, t: int, tenant: int) returns (leaf: Option<Text>)
    requires HexDigest(env.sha) && GoodStart(env) && CollisionFree(env, After(env, steps).hashed)
    requires Open(env, steps, t)
    ensures t in After(env, steps).txs && IsTip(leaf, Visible(After(env, steps), t, tenant))
  {
    hide Open, After, IsChain, CollisionFree, HexDigest, GoodStart, Inv, Visible, Leaves;
    EveryRunKeeps(env, steps);
    LocksAreHeldToTheEnd(env, steps);
    InvAt(env, After(env, steps), t);
    var rows := Visible(After(env, steps), t, tenant);
    if rows == {} {
      return None;
    }
    ChainHasOneLeaf(rows);
    var r :| Leaves(rows) == {r};
    assert SoleLeaf(r, rows);
    return Some(r.currentHash);
  }

  /** What one more append of t would insert: a row of the tenant chained to the tip of what t sees. */
  function NextRow(env: Env, tenant: int, leaf: Option<Text>, e: LogEntry): Row {
    Row(e.id, tenant, leaf, env.sha(HashInput(leaf, e.content)), 1, e.content)
  }

  /**
   * From every point of every run: if a transaction need not wait for the tenant's lock, then some steps
   * of its own append the row to the tip and commit it with what it had inserted before, whatever the
   * other transactions are in the middle of and whichever newest row its first query answers, provided
   * the new hash collides with none.
   */
  lemma AppendGetsThrough(
      env: Env, steps: seq<Step>, t: int, newest: Option<Row>, leaf: Option<Text>, e: LogEntry)
    returns (more: seq<Step>)
    requires HexDigest(env.sha) && GoodStart(env)
    requires Enabled(env, After(env, steps), Acquire(t, e.tenant))
    requires e.id !in After(env, steps).usedIds && ValidContent(e.content)
    requires Answer(newest, Visible(After(env, steps), t, e.tenant))
    requires IsTip(leaf, Visible(After(env, steps), t, e.tenant))
    requires CollisionFree(env, After(env, steps).hashed + {HashInput(leaf, e.content)})
    ensures 2 <= |more| <= 6 && StepsOf(more, t) && more[1] == ReadNewest(t, newest)
    ensures var s, s' := After(env, steps), After(env, steps + more);
            && s'.committed == s.committed + s.txs[t].own + {NextRow(env, e.tenant, leaf, e)}
            && s'.txs == s.txs - {t}
  {
    hide After, CollisionFree, HexDigest, GoodStart, HashInput, ValidContent, Visible, IsTip, Answer, Inv;
    var s := After(env, steps);
    var acquire, insert, commit := Acquire(t, e.tenant), Insert(t, e.id, e.content), Commit(t);
    OneMore(env, steps, acquire);
    var s1 := After(env, steps + [acquire]);
    SameViews(s, s1, t, e.tenant);
    var lookup := LookupFinds(env, steps + [acquire], t, e.tenant, newest, leaf);
    var before := steps + [acquire] + lookup;
    OneMore(env, before, insert);
    var s3 := After(env, before + [insert]);
    EveryRunKeeps(env, before + [insert]);
    NoFailure(env, s3, t);
    assert s3.txs[t] == Tx(Idle, s.txs[t].own + {NextRow(env, e.tenant, leaf, e)});
    OneMore(env, before + [insert], commit);
    more := [acquire] + lookup + [insert, commit];
    assert steps + more == before + [insert] + [commit];
  }

  lemma SameViews(s: State, s': State, t: int, tenant: int)
    requires t in s.txs && t in s'.txs && s.committed == s'.committed && s.txs[t].own == s'.txs[t].own
    ensures Visible(s', t, tenant) == Visible(s, t, tenant)
  {}

  lemma NoFailure(env: Env, s: State, t: int)
    requires Inv(env, s) && CollisionFree(env, s.hashed) && t in s.txs
    ensures !s.txs[t].phase.Failed?
  {
    hide Structural, CollisionFree;
  }
}
