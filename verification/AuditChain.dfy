/**
 * The rows of one tenant's audit log, the leaf lookup that an append relies on and the verifier
 * that walks the chain (src/services/audit.service.ts). SHA-256 is a parameter.
 */
module AuditChain {
  import opened Basics
  import opened CanonicalJson
  import opened AuditHash

  datatype Row = Row(id: int, tenant: int, previousHash: Option<Text>, currentHash: Text, hashVersion: int,
      content: Content)

  type Digest = Text -> Text

  /** A version-1 row carries the digest of its own content; other versions are not checked. */
  predicate ContentMatches(sha: Digest, r: Row) {
    r.hashVersion == 1 ==> sha(HashInput(r.previousHash, r.content)) == r.currentHash
  }

  /** One genesis row, every other row chained to the one before it, all hashes distinct. */
  ghost predicate Linear(order: seq<Row>) {
    && order != []
    && order[0].previousHash == None
    && (forall i :: 0 < i < |order| ==> order[i].previousHash == Some(order[i - 1].currentHash))
    && (forall i, j :: 0 <= i < j < |order| ==> order[i].currentHash != order[j].currentHash)
  }

  ghost predicate Orders(order: seq<Row>, rows: set<Row>) {
    forall r :: r in order <==> r in rows
  }

  /** The rows form one linear chain. */
  ghost predicate IsChain(rows: set<Row>) {
    rows == {} || exists order: seq<Row> :: Orders(order, rows) && Linear(order)
  }

  predicate Follows(s: Row, r: Row) {
    s.previousHash == Some(r.currentHash)
  }

  predicate IsLeaf(r: Row, rows: set<Row>) {
    r in rows && forall s :: s in rows ==> !Follows(s, r)
  }

  /** The successor of a row of a chain is the next row, and the last row has none. */
  lemma ChainSuccessor(order: seq<Row>, i: nat, j: nat)
    requires Linear(order) && i < |order| && j < |order|
    ensures Follows(order[j], order[i]) <==> j == i + 1
  {
    if j > 0 {
      assert order[j].previousHash == Some(order[j - 1].currentHash);
    }
  }

  /** The last row of a chain is its only leaf. */
  lemma TipIsOnlyLeaf(order: seq<Row>, rows: set<Row>, r: Row)
    requires Linear(order) && Orders(order, rows)
    ensures IsLeaf(r, rows) <==> r == order[|order| - 1]
  {
    var last := |order| - 1;
    assert order[last] in rows;
    forall s | s in rows ensures !Follows(s, order[last]) {
      var j: nat :| j < |order| && order[j] == s;
      ChainSuccessor(order, last, j);
    }
    if r in rows && r != order[last] {
      var i: nat :| i < |order| && order[i] == r;
      ChainSuccessor(order, i, i + 1);
      assert order[i + 1] in rows && Follows(order[i + 1], r);
    }
  }

  /** A row chained to the tip, with a hash not yet in the chain, extends the chain. */
  lemma ChainExtends(order: seq<Row>, rows: set<Row>, r: Row)
    requires rows == {} || (Orders(order, rows) && Linear(order))
    requires r.previousHash == if rows == {} then None else Some(order[|order| - 1].currentHash)
    requires forall s :: s in rows ==> s.currentHash != r.currentHash
    ensures IsChain(rows + {r})
  {
    hide Linear;
    if rows == {} {
      LinearStart(r);
      assert Orders([r], rows + {r});
    } else {
      forall i | 0 <= i < |order| ensures order[i].currentHash != r.currentHash {
        assert order[i] in rows;
      }
      LinearAppend(order, r);
      assert Orders(order + [r], rows + {r});
    }
  }

  lemma LinearStart(r: Row)
    requires r.previousHash == None
    ensures Linear([r])
  {}

  lemma LinearAppend(order: seq<Row>, r: Row)
    requires Linear(order) && r.previousHash == Some(order[|order| - 1].currentHash)
    requires forall i :: 0 <= i < |order| ==> order[i].currentHash != r.currentHash
    ensures Linear(order + [r])
  {
    var longer := order + [r];
    forall i | 0 < i < |longer| ensures longer[i].previousHash == Some(longer[i - 1].currentHash) {
      assert longer[i - 1] == order[i - 1];
    }
  }

  // ----- findLeaf -----

  function Leaves(rows: set<Row>): set<Row> {
    set r | r in rows && IsLeaf(r, rows)
  }

  predicate IsNewest(r: Row, rows: set<Row>) {
    r in rows && forall s :: s in rows ==> s.content.createdAt <= r.content.createdAt
  }

  lemma {:induction false} SomeNewest(rows: set<Row>)
    requires rows != {}
    ensures exists r :: IsNewest(r, rows)
    decreases rows
  {
    var r :| r in rows;
    if rows == {r} {
      assert IsNewest(r, rows);
    } else {
      var rest := rows - {r};
      SomeNewest(rest);
      var s :| IsNewest(s, rest);
      var best := if s.content.createdAt < r.content.createdAt then r else s;
      assert IsNewest(best, rows);
    }
  }

  ghost predicate SoleLeaf(r: Row, rows: set<Row>) {
    Leaves(rows) == {r}
  }

  /** The answer when the first query returned `newest`: itself if it is a leaf, else the sole leaf, else a refusal. */
  ghost predicate AnswersFrom(newest: Row, rows: set<Row>, leaf: Result<Option<Text>>) {
    if IsLeaf(newest, rows) then leaf == Ok(Some(newest.currentHash))
    else if exists r :: SoleLeaf(r, rows) then exists r :: SoleLeaf(r, rows) && leaf == Ok(Some(r.currentHash))
    else leaf == Err(AuditChainBranchError)
  }

  lemma SizeOneIsSole(rows: set<Row>)
    ensures |Leaves(rows)| == 1 <==> exists r :: SoleLeaf(r, rows)
  {
    var leaves := Leaves(rows);
    if |leaves| == 1 {
      var r :| r in leaves;
      assert |leaves - {r}| == 0;
      assert SoleLeaf(r, rows);
    }
  }

  /**
   * The hash to chain the next row to. The first query may return any row with the latest
   * createdAt; the answer does not depend on which when the rows form a chain.
   */
  method FindLeaf(rows: set<Row>) returns (leaf: Result<Option<Text>>)
    ensures rows == {} <==> leaf == Ok(None)
    ensures rows != {} ==> exists newest :: IsNewest(newest, rows) && AnswersFrom(newest, rows, leaf)
    ensures forall order: seq<Row> :: Orders(order, rows) && Linear(order) ==>
        leaf == Ok(Some(order[|order| - 1].currentHash))
  {
    if |rows| == 0 {
      return Ok(None);
    }
    SomeNewest(rows);
    var newest :| newest in rows && IsNewest(newest, rows);
    var successors := set s | s in rows && Follows(s, newest);
    if |successors| == 0 {
      assert forall s :: s in rows && Follows(s, newest) ==> s in successors;
      assert IsLeaf(newest, rows);
      forall order: seq<Row> | Orders(order, rows) && Linear(order) ensures newest == order[|order| - 1] {
        TipIsOnlyLeaf(order, rows, newest);
      }
      return Ok(Some(newest.currentHash));
    }
    var leaves := Leaves(rows);
    forall order: seq<Row> | Orders(order, rows) && Linear(order) ensures leaves == {order[|order| - 1]} {
      forall r ensures r in leaves <==> r == order[|order| - 1] {
        TipIsOnlyLeaf(order, rows, r);
      }
    }
    SizeOneIsSole(rows);
    assert !IsLeaf(newest, rows);
    if |leaves| == 1 {
      var r :| r in leaves;
      assert SoleLeaf(r, rows);
      return Ok(Some(r.currentHash));
    }
    return Err(AuditChainBranchError);
  }

  // ----- what findLeaf does on logs that are no chain -----

  /**
   * An append is certainly refused exactly when no newest row is a leaf and the log has not just one
   * leaf, and certainly answered exactly when every newest row is a leaf or the log has just one.
   */
  lemma RefusalIsExact(rows: set<Row>)
    requires rows != {}
    ensures (forall newest, leaf :: IsNewest(newest, rows) && AnswersFrom(newest, rows, leaf) ==> leaf.Err?) <==>
            (forall r :: (IsNewest(r, rows) ==> !IsLeaf(r, rows)) && !SoleLeaf(r, rows))
    ensures (forall newest, leaf :: IsNewest(newest, rows) && AnswersFrom(newest, rows, leaf) ==> leaf.Ok?) <==>
            ((forall r :: IsNewest(r, rows) ==> IsLeaf(r, rows)) || (exists r :: SoleLeaf(r, rows)))
  {
    hide IsNewest, IsLeaf, SoleLeaf;
    SomeNewest(rows);
    forall newest | IsNewest(newest, rows) ensures exists leaf :: AnswersFrom(newest, rows, leaf) {
      SomeAnswer(newest, rows);
    }
  }

  lemma SomeAnswer(newest: Row, rows: set<Row>)
    ensures exists leaf :: AnswersFrom(newest, rows, leaf)
  {
    if IsLeaf(newest, rows) {
      assert AnswersFrom(newest, rows, Ok(Some(newest.currentHash)));
    } else if r :| SoleLeaf(r, rows) {
      assert AnswersFrom(newest, rows, Ok(Some(r.currentHash)));
    } else {
      assert AnswersFrom(newest, rows, Err(AuditChainBranchError));
    }
  }

  function PlainRow(id: int, previousHash: Option<Text>, hash: Text, createdAt: int): Row {
    Row(id, 0, previousHash, hash, 0, Content(JObj([]), JNull, JNull, createdAt))
  }

  const GENESIS := PlainRow(0, None, [48], 0)
  const FIRST_BRANCH := PlainRow(1, Some([48]), [49], 1)
  const SECOND_BRANCH := PlainRow(2, Some([48]), [50], 2)

  /** A log with two leaves, no chain in any order, on which every append is answered with the newer leaf. */
  lemma BranchedLogIsAnswered()
    ensures var rows := {GENESIS, FIRST_BRANCH, SECOND_BRANCH};
            && IsLeaf(FIRST_BRANCH, rows) && IsLeaf(SECOND_BRANCH, rows) && !IsChain(rows)
            && forall newest, leaf :: IsNewest(newest, rows) && AnswersFrom(newest, rows, leaf) ==>
                 leaf == Ok(Some(SECOND_BRANCH.currentHash))
  {
    var rows := {GENESIS, FIRST_BRANCH, SECOND_BRANCH};
    forall order: seq<Row> | Orders(order, rows) && Linear(order) ensures false {
      TipIsOnlyLeaf(order, rows, FIRST_BRANCH);
      TipIsOnlyLeaf(order, rows, SECOND_BRANCH);
    }
    forall newest | IsNewest(newest, rows) ensures newest == SECOND_BRANCH {
      assert SECOND_BRANCH in rows;
    }
  }

  // ----- verifyChain -----

  datatype ChainError =
    | NoGenesis
    | MultipleGenesis(ids: seq<int>)
    | ContentMismatch(id: int)
    | Branch(id: int)
    | Circular(id: int)
    | Disconnected(ids: seq<int>)

  ghost predicate DistinctIds(rows: seq<Row>) {
    forall i, j :: 0 <= i < j < |rows| ==> rows[i].id != rows[j].id
  }

  /** What a valid log is: empty, or orderable into one linear chain whose version-1 contents all match. */
  ghost predicate ChainAccepted(sha: Digest, rows: seq<Row>) {
    rows == [] || exists order: seq<Row> :: ChainWitness(sha, rows, order)
  }

  ghost predicate ChainWitness(sha: Digest, rows: seq<Row>, order: seq<Row>) {
    && (forall r :: r in order <==> r in rows)
    && Linear(order)
    && forall r :: r in rows ==> ContentMatches(sha, r)
  }

  function GenesisRows(rows: seq<Row>): (g: seq<Row>)
    ensures forall r :: r in g <==> r in rows && r.previousHash == None
  {
    if rows == [] then []
    else
      var last := rows[|rows| - 1];
      assert rows == rows[..|rows| - 1] + [last];
      GenesisRows(rows[..|rows| - 1]) + if last.previousHash == None then [last] else []
  }

  /** The list stored under a hash in the map from previous hash to rows. */
  function Successors(rows: seq<Row>, hash: Text): (s: seq<Row>)
    ensures forall r :: r in s <==> r in rows && r.previousHash == Some(hash)
  {
    if rows == [] then []
    else
      var last := rows[|rows| - 1];
      assert rows == rows[..|rows| - 1] + [last];
      Successors(rows[..|rows| - 1], hash) + if last.previousHash == Some(hash) then [last] else []
  }

  lemma {:induction false} SuccessorsDistinct(rows: seq<Row>, hash: Text)
    requires DistinctIds(rows)
    ensures DistinctIds(Successors(rows, hash))
  {
    if rows != [] {
      var front := rows[..|rows| - 1];
      SuccessorsDistinct(front, hash);
      forall r | r in Successors(front, hash) ensures r.id != rows[|rows| - 1].id {
        var i :| 0 <= i < |front| && front[i] == r;
        assert rows[i] == r;
      }
    }
  }

  lemma {:induction false} GenesisDistinct(rows: seq<Row>)
    requires DistinctIds(rows)
    ensures DistinctIds(GenesisRows(rows))
  {
    if rows != [] {
      var front := rows[..|rows| - 1];
      GenesisDistinct(front);
      forall r | r in GenesisRows(front) ensures r.id != rows[|rows| - 1].id {
        var i :| 0 <= i < |front| && front[i] == r;
        assert rows[i] == r;
      }
    }
  }

  function Ids(rows: seq<Row>): (ids: set<int>)
    ensures forall x :: x in ids <==> exists i :: 0 <= i < |rows| && rows[i].id == x
  {
    set i | 0 <= i < |rows| :: rows[i].id
  }

  lemma {:induction false} IdCount(rows: seq<Row>)
    requires DistinctIds(rows)
    ensures |Ids(rows)| == |rows|
  {
    if rows != [] {
      var front := rows[..|rows| - 1];
      IdCount(front);
      assert Ids(rows) == Ids(front) + {rows[|rows| - 1].id};
      forall x | x in Ids(front) ensures x != rows[|rows| - 1].id {
        var i :| 0 <= i < |front| && front[i].id == x;
        assert rows[i].id == x;
      }
    }
  }

  lemma SameRow(rows: seq<Row>, a: Row, b: Row)
    requires DistinctIds(rows) && a in rows && b in rows && a.id == b.id
    ensures a == b
  {}

  /** A walk from the genesis row: each row visited is the only successor of the one before. */
  ghost predicate IsWalk(rows: seq<Row>, walk: seq<Row>) {
    && walk != []
    && GenesisRows(rows) == [walk[0]]
    && (forall i :: 0 <= i < |walk| ==> walk[i] in rows)
    && (forall i :: 0 < i < |walk| ==> Successors(rows, walk[i - 1].currentHash) == [walk[i]])
    && DistinctIds(walk)
  }

  /** In a valid log the walk follows the chain. */
  lemma {:induction false} WalkFollowsChain(sha: Digest, rows: seq<Row>, walk: seq<Row>, order: seq<Row>, n: nat)
    requires IsWalk(rows, walk) && ChainWitness(sha, rows, order) && n <= |walk|
    ensures n <= |order| && walk[..n] == order[..n]
  {
    hide ContentMatches, DistinctIds, Successors, GenesisRows;
    if n == 1 {
      assert order[0] in GenesisRows(rows);
    } else if n > 1 {
      WalkFollowsChain(sha, rows, walk, order, n - 1);
      assert walk[n - 2] == walk[..n - 1][n - 2] == order[..n - 1][n - 2] == order[n - 2];
      assert walk[n - 1] in Successors(rows, order[n - 2].currentHash);
      var j: nat :| j < |order| && order[j] == walk[n - 1];
      ChainSuccessor(order, n - 2, j);
      assert walk[..n] == walk[..n - 1] + [walk[n - 1]];
    }
  }

  /** In a valid log the successors of a row are the next row of the chain, if any. */
  lemma ChainSuccessors(sha: Digest, rows: seq<Row>, order: seq<Row>, i: nat)
    requires ChainWitness(sha, rows, order) && DistinctIds(rows) && i < |order|
    ensures Successors(rows, order[i].currentHash) == if i + 1 < |order| then [order[i + 1]] else []
  {
    hide Successors, ContentMatches, DistinctIds;
    var next := Successors(rows, order[i].currentHash);
    SuccessorsDistinct(rows, order[i].currentHash);
    forall r ensures r in next <==> i + 1 < |order| && r == order[i + 1] {
      NextInChain(sha, rows, order, i, r);
    }
    if i + 1 < |order| {
      Singleton(next, order[i + 1]);
    } else if next != [] {
      ElementOf(next, 0);
    }
  }

  lemma NextInChain(sha: Digest, rows: seq<Row>, order: seq<Row>, i: nat, r: Row)
    requires ChainWitness(sha, rows, order) && i < |order|
    ensures r in Successors(rows, order[i].currentHash) <==> i + 1 < |order| && r == order[i + 1]
  {
    hide Successors, ContentMatches;
    if r in order {
      var j: nat :| j < |order| && order[j] == r;
      ChainSuccessor(order, i, j);
    }
    if i + 1 < |order| {
      ChainSuccessor(order, i, i + 1);
    }
  }

  lemma Singleton(s: seq<Row>, r: Row)
    requires DistinctIds(s) && forall x :: x in s <==> x == r
    ensures s == [r]
  {
    assert r in s;
    if |s| > 1 {
      ElementOf(s, 0);
      ElementOf(s, 1);
    } else {
      ElementOf(s, 0);
    }
  }

  lemma ElementOf(s: seq<Row>, k: nat)
    requires k < |s|
    ensures s[k] in s
  {}

  /** In a valid log the last visited row has at most one successor, and never an earlier row. */
  lemma ChainHasNoBranch(sha: Digest, rows: seq<Row>, walk: seq<Row>, order: seq<Row>)
    requires IsWalk(rows, walk) && ChainWitness(sha, rows, order) && DistinctIds(rows)
    ensures var next := Successors(rows, walk[|walk| - 1].currentHash);
            if |walk| < |order| then next == [order[|walk|]] && next[0].id !in Ids(walk) else next == []
  {
    hide Successors, ContentMatches, GenesisRows;
    WalkFollowsChain(sha, rows, walk, order, |walk|);
    assert walk[..|walk|] == walk;
    var i := |walk| - 1;
    ChainSuccessors(sha, rows, order, i);
    if i + 1 < |order| {
      forall k | 0 <= k < |walk| ensures walk[k].id != order[i + 1].id {
        assert order[k] in order && order[i + 1] in order && order[k].currentHash != order[i + 1].currentHash;
        if order[k].id == order[i + 1].id {
          SameRow(rows, order[k], order[i + 1]);
        }
      }
    }
  }

  /** A walk that reached a leaf and every row is a chain with distinct hashes. */
  lemma CompleteWalkIsLinear(rows: seq<Row>, walk: seq<Row>)
    requires IsWalk(rows, walk) && DistinctIds(rows) && |walk| == |rows|
    requires Successors(rows, walk[|walk| - 1].currentHash) == []
    ensures Linear(walk) && forall r :: r in walk <==> r in rows
  {
    assert walk[0] in GenesisRows(rows);
    forall i | 0 < i < |walk| ensures walk[i].previousHash == Some(walk[i - 1].currentHash) {
      assert walk[i] in Successors(rows, walk[i - 1].currentHash);
    }
    forall i, j | 0 <= i < j < |walk| ensures walk[i].currentHash != walk[j].currentHash {
      assert Successors(rows, walk[i + 1 - 1].currentHash) == [walk[i + 1]];
      assert j + 1 < |walk| ==> Successors(rows, walk[j + 1 - 1].currentHash) == [walk[j + 1]];
    }
    IdCount(walk);
    IdCount(rows);
    SubsetOfSameSize(Ids(walk), Ids(rows));
    forall r | r in rows ensures r in walk {
      assert r.id in Ids(rows);
      var k :| 0 <= k < |walk| && walk[k].id == r.id;
      SameRow(rows, walk[k], r);
    }
  }

  lemma SubsetOfSameSize(a: set<int>, b: set<int>)
    requires a <= b && |a| == |b|
    ensures a == b
  {
    assert |b - a| == 0;
  }

  /** byPreviousHash.get(hash) || [] */
  function Lookup(index: map<Text, seq<Row>>, hash: Text): seq<Row> {
    if hash in index then index[hash] else []
  }

  method IndexByPreviousHash(rows: seq<Row>) returns (index: map<Text, seq<Row>>)
    ensures forall h :: Lookup(index, h) == Successors(rows, h)
  {
    index := map[];
    for i := 0 to |rows|
      invariant forall h :: Lookup(index, h) == Successors(rows[..i], h)
    {
      assert rows[..i + 1][..i] == rows[..i];
      if rows[i].previousHash.Some? {
        var hash := rows[i].previousHash.value;
        index := index[hash := Lookup(index, hash) + [rows[i]]];
      }
    }
    assert rows[..|rows|] == rows;
  }

  /** How the walk from the genesis row ended. */
  datatype WalkEnd = AtLeaf | AtBranch | AtCycle

  /** What the end of a walk says about the last row's successors. */
  ghost predicate Ended(rows: seq<Row>, walk: seq<Row>, end: WalkEnd)
    requires walk != []
  {
    var next := Successors(rows, walk[|walk| - 1].currentHash);
    match end
    case AtLeaf => next == []
    case AtBranch => |next| > 1
    case AtCycle => |next| == 1 && next[0].id in Ids(walk)
  }

  /** The content errors along a walk. */
  function Mismatches(sha: Digest, walk: seq<Row>): (errors: seq<ChainError>)
    ensures errors == [] <==> forall i :: 0 <= i < |walk| ==> ContentMatches(sha, walk[i])
  {
    if walk == [] then []
    else
      var front, r := walk[..|walk| - 1], walk[|walk| - 1];
      assert walk == front + [r];
      Mismatches(sha, front) + if ContentMatches(sha, r) then [] else [ContentMismatch(r.id)]
  }

  lemma MismatchesAppend(sha: Digest, walk: seq<Row>, r: Row)
    ensures Mismatches(sha, walk + [r]) == Mismatches(sha, walk) + if ContentMatches(sha, r) then []
        else [ContentMismatch(r.id)]
  {
    assert (walk + [r])[..|walk|] == walk;
  }

  /** The error that stopped a walk, if it did not stop at a leaf. */
  ghost function EndErrors(rows: seq<Row>, walk: seq<Row>, end: WalkEnd): (errors: seq<ChainError>)
    requires walk != [] && Ended(rows, walk, end)
  {
    var last := walk[|walk| - 1];
    match end
    case AtLeaf => []
    case AtBranch => [Branch(last.id)]
    case AtCycle => [Circular(Successors(rows, last.currentHash)[0].id)]
  }

  /** A log has at most one walk to an end, so what the verifier reports is determined by the rows. */
  lemma EndedWalkUnique(rows: seq<Row>, a: seq<Row>, endA: WalkEnd, b: seq<Row>, endB: WalkEnd)
    requires IsWalk(rows, a) && Ended(rows, a, endA) && IsWalk(rows, b) && Ended(rows, b, endB)
    ensures a == b && endA == endB
  {
    if |a| < |b| {
      NoLongerWalk(rows, a, endA, b);
    } else if |b| < |a| {
      NoLongerWalk(rows, b, endB, a);
    } else {
      WalksAgree(rows, a, b, |a|);
      assert a[..|a|] == a && b[..|a|] == b;
    }
  }

  lemma {:induction false} WalksAgree(rows: seq<Row>, a: seq<Row>, b: seq<Row>, n: nat)
    requires IsWalk(rows, a) && IsWalk(rows, b) && n <= |a| && n <= |b|
    ensures a[..n] == b[..n]
  {
    hide Successors, GenesisRows, DistinctIds;
    if n > 0 {
      WalksAgree(rows, a, b, n - 1);
      if n > 1 {
        assert a[n - 2] == a[..n - 1][n - 2] == b[..n - 1][n - 2] == b[n - 2];
        assert [a[n - 1]] == [b[n - 1]];
      } else {
        assert [a[0]] == [b[0]];
      }
      assert a[n - 1] == [a[n - 1]][0] == b[n - 1];
      assert a[..n] == a[..n - 1] + [a[n - 1]] && b[..n] == b[..n - 1] + [b[n - 1]];
    }
  }

  lemma NoLongerWalk(rows: seq<Row>, a: seq<Row>, end: WalkEnd, b: seq<Row>)
    requires IsWalk(rows, a) && Ended(rows, a, end) && IsWalk(rows, b)
    ensures |b| <= |a|
  {
    if |a| < |b| {
      WalksAgree(rows, a, b, |a|);
      var n := |a|;
      assert a[n - 1] == a[..n][n - 1] == b[..n][n - 1] == b[n - 1];
      assert Successors(rows, b[n - 1].currentHash) == [b[n]];
      forall k | 0 <= k < n ensures a[k].id != b[n].id {
        assert a[k] == a[..n][k] == b[..n][k] == b[k];
      }
    }
  }

  lemma WalkStarts(rows: seq<Row>, genesis: Row)
    requires GenesisRows(rows) == [genesis]
    ensures IsWalk(rows, [genesis]) && Ids([genesis]) == {genesis.id}
  {
    assert genesis in GenesisRows(rows);
  }

  lemma WalkContinues(rows: seq<Row>, walk: seq<Row>, next: Row)
    requires IsWalk(rows, walk) && Successors(rows, walk[|walk| - 1].currentHash) == [next] && next.id !in Ids(walk)
    ensures IsWalk(rows, walk + [next]) && Ids(walk + [next]) == Ids(walk) + {next.id}
  {
    hide Successors, GenesisRows, Ids, DistinctIds;
    assert next in Successors(rows, walk[|walk| - 1].currentHash);
    IdsAppend(walk, next);
    DistinctAppend(walk, next);
    var longer := walk + [next];
    forall i | 0 < i < |longer| ensures Successors(rows, longer[i - 1].currentHash) == [longer[i]] {
      assert longer[i - 1] == walk[i - 1];
    }
  }

  lemma DistinctAppend(walk: seq<Row>, next: Row)
    requires DistinctIds(walk) && next.id !in Ids(walk)
    ensures DistinctIds(walk + [next])
  {
    hide Ids;
    forall i | 0 <= i < |walk| ensures walk[i].id != next.id {
      assert walk[i].id in Ids(walk);
    }
  }

  lemma IdsAppend(walk: seq<Row>, next: Row)
    ensures Ids(walk + [next]) == Ids(walk) + {next.id}
  {
    var longer := walk + [next];
    forall x ensures x in Ids(longer) <==> x in Ids(walk) || x == next.id {
      if x in Ids(longer) {
        var i :| 0 <= i < |longer| && longer[i].id == x;
        assert i < |walk| ==> walk[i].id == x;
      }
      if x in Ids(walk) {
        var i :| 0 <= i < |walk| && walk[i].id == x;
        assert longer[i].id == x;
      }
      assert longer[|walk|].id == next.id;
    }
  }

  lemma NoMismatches(sha: Digest)
    ensures Mismatches(sha, []) == []
  {}

  lemma ContentCheck(sha: Digest, r: Row)
    ensures ContentMatches(sha, r) <==> r.hashVersion != 1 || sha(HashInput(r.previousHash, r.content)) == r.currentHash
  {
    hide HashInput;
  }

  /** When a walk ends, and with what error. */
  lemma WalkEnds(rows: seq<Row>, walk: seq<Row>, next: seq<Row>)
    requires walk != [] && next == Successors(rows, walk[|walk| - 1].currentHash)
    ensures next == [] ==> Ended(rows, walk, AtLeaf) && EndErrors(rows, walk, AtLeaf) == []
    ensures |next| > 1 ==>
        Ended(rows, walk, AtBranch) && EndErrors(rows, walk, AtBranch) == [Branch(walk[|walk| - 1].id)]
    ensures |next| == 1 && next[0].id in Ids(walk) ==>
              Ended(rows, walk, AtCycle) && EndErrors(rows, walk, AtCycle) == [Circular(next[0].id)]
  {
    hide Successors, Ids;
  }

  /** The walk-forward loop: content check, then the only successor, until a leaf, a branch or a visited row. */
  method WalkForward(
      sha: Digest, rows: seq<Row>, genesis: Row)
    returns (visited: set<int>, errors: seq<ChainError>, ghost walk: seq<Row>, ghost end: WalkEnd)
    requires DistinctIds(rows) && GenesisRows(rows) == [genesis]
    ensures IsWalk(rows, walk) && visited == Ids(walk) && Ended(rows, walk, end)
    ensures errors == Mismatches(sha, walk) + EndErrors(rows, walk, end)
  {
    hide IsWalk, Successors, GenesisRows, Ids, HashInput, Mismatches, DistinctIds, ContentMatches, Ended, EndErrors,
        Lookup;
    NoMismatches(sha);
    assert [genesis][..0] == [];
    var byPreviousHash := IndexByPreviousHash(rows);
    var current := genesis;
    WalkStarts(rows, genesis);
    errors := [];
    visited := {current.id};
    walk := [current];
    while true
      invariant walk != [] && IsWalk(rows, walk) && walk[|walk| - 1] == current
      invariant visited == Ids(walk)
      invariant errors == Mismatches(sha, walk[..|walk| - 1])
      decreases |rows| - |walk|
    {
      if current.hashVersion == 1 {
        var expected := sha(HashInput(current.previousHash, current.content));
        if expected != current.currentHash {
          errors := errors + [ContentMismatch(current.id)];
        }
      }
      ContentCheck(sha, current);
      assert walk == walk[..|walk| - 1] + [current];
      MismatchesAppend(sha, walk[..|walk| - 1], current);
      assert errors == Mismatches(sha, walk);
      var successors := Lookup(byPreviousHash, current.currentHash);
      WalkEnds(rows, walk, successors);
      if |successors| == 0 {
        end := AtLeaf;
        assert errors == Mismatches(sha, walk) + EndErrors(rows, walk, end);
        break;
      }
      if |successors| > 1 {
        errors := errors + [Branch(current.id)];
        end := AtBranch;
        assert errors == Mismatches(sha, walk) + EndErrors(rows, walk, end);
        break;
      }
      if successors[0].id in visited {
        errors := errors + [Circular(successors[0].id)];
        end := AtCycle;
        assert errors == Mismatches(sha, walk) + EndErrors(rows, walk, end);
        break;
      }
      current := successors[0];
      WalkContinues(rows, walk, current);
      assert (walk + [current])[..|walk|] == walk;
      visited := visited + {current.id};
      walk := walk + [current];
      WalkFits(rows, walk);
    }
  }

  /** No log is valid unless the walk reaches a leaf, visits every row and finds every content right. */
  lemma RejectedWalk(sha: Digest, rows: seq<Row>, walk: seq<Row>, end: WalkEnd)
    requires IsWalk(rows, walk) && DistinctIds(rows) && Ended(rows, walk, end)
    requires end != AtLeaf || |walk| != |rows| || exists i :: 0 <= i < |walk| && !ContentMatches(sha, walk[i])
    ensures !ChainAccepted(sha, rows)
  {
    assert rows != [] by {
      assert walk[0] in rows;
    }
    forall order: seq<Row> | ChainWitness(sha, rows, order) ensures false {
      ChainHasNoBranch(sha, rows, walk, order);
      WalkFollowsChain(sha, rows, walk, order, |walk|);
      LinearLength(sha, rows, order);
    }
  }

  /** The errors of a log with one genesis row: along the walk, where it stopped, and the rows it did not reach. */
  ghost predicate ReportsWalk(sha: Digest, rows: seq<Row>, walk: seq<Row>, end: WalkEnd, errors: seq<ChainError>) {
    && IsWalk(rows, walk) && Ended(rows, walk, end)
    && var missed := Unvisited(rows, Ids(walk));
       errors == Mismatches(sha, walk) + EndErrors(rows, walk, end) + if missed == [] then []
           else [Disconnected(missed)]
  }

  ghost predicate ReportsErrors(sha: Digest, rows: seq<Row>, errors: seq<ChainError>) {
    var genesis := GenesisRows(rows);
    if rows == [] then errors == []
    else if genesis == [] then errors == [NoGenesis]
    else if |genesis| > 1 then errors == [MultipleGenesis(IdList(genesis))]
    else exists walk, end :: ReportsWalk(sha, rows, walk, end, errors)
  }

  /**
   * The verifier accepts exactly the logs that are one linear chain with matching contents, and
   * otherwise reports every content mismatch on the walk, what stopped it and the rows it missed.
   */
  method VerifyChain(sha: Digest, rows: seq<Row>) returns (valid: bool, errors: seq<ChainError>)
    requires DistinctIds(rows)
    ensures valid <==> errors == []
    ensures valid <==> ChainAccepted(sha, rows)
    ensures ReportsErrors(sha, rows, errors)
  {
    hide GenesisRows, ChainAccepted, IsWalk, Ended, Mismatches, EndErrors, Unvisited, IdList, Ids, DistinctIds;
    errors := [];
    if |rows| == 0 {
      EmptyLogAccepted(sha);
      return true, [];
    }
    var genesis := GenesisRows(rows);
    if |genesis| != 1 {
      NeedsOneGenesis(sha, rows);
      return false, [if |genesis| == 0 then NoGenesis else MultipleGenesis(IdList(genesis))];
    }
    ghost var walk, end;
    var visited;
    visited, errors, walk, end := WalkForward(sha, rows, genesis[0]);
    UnvisitedWhen(rows, walk);
    if |visited| != |rows| {
      errors := errors + [Disconnected(Unvisited(rows, visited))];
    }
    assert ReportsWalk(sha, rows, walk, end, errors);
    ReportIsVerdict(sha, rows, walk, end, errors);
    return |errors| == 0, errors;
  }

  lemma EmptyLogAccepted(sha: Digest)
    ensures ChainAccepted(sha, [])
  {}

  /** A log with one genesis row has no errors to report exactly when it is valid. */
  lemma ReportIsVerdict(sha: Digest, rows: seq<Row>, walk: seq<Row>, end: WalkEnd, errors: seq<ChainError>)
    requires DistinctIds(rows) && ReportsWalk(sha, rows, walk, end, errors)
    ensures errors == [] <==> ChainAccepted(sha, rows)
  {
    IdCount(walk);
    UnvisitedWhen(rows, walk);
    if errors == [] {
      CompleteWalkIsLinear(rows, walk);
      assert ChainWitness(sha, rows, walk);
    } else {
      RejectedWalk(sha, rows, walk, end);
    }
  }

  lemma NeedsOneGenesis(sha: Digest, rows: seq<Row>)
    requires DistinctIds(rows) && rows != [] && |GenesisRows(rows)| != 1
    ensures !ChainAccepted(sha, rows)
  {
    var genesis := GenesisRows(rows);
    GenesisDistinct(rows);
    forall order: seq<Row> | ChainWitness(sha, rows, order) ensures false {
      assert order[0] in genesis;
      assert genesis[0] in genesis && genesis[1] in genesis;
      OneGenesis(sha, rows, order, genesis[0]);
      OneGenesis(sha, rows, order, genesis[1]);
    }
  }

  function Unvisited(rows: seq<Row>, visited: set<int>): (ids: seq<int>)
    ensures forall x :: x in ids <==> x in Ids(rows) && x !in visited
  {
    if rows == [] then []
    else
      var front, r := rows[..|rows| - 1], rows[|rows| - 1];
      IdsAppend(front, r);
      assert rows == front + [r];
      Unvisited(front, visited) + if r.id in visited then [] else [r.id]
  }

  function IdList(rows: seq<Row>): (ids: seq<int>)
    ensures |ids| == |rows| && forall k :: 0 <= k < |rows| ==> ids[k] == rows[k].id
  {
    seq(|rows|, k requires 0 <= k < |rows| => rows[k].id)
  }

  lemma {:induction false} AllVisited(rows: seq<Row>, visited: set<int>)
    requires Ids(rows) <= visited
    ensures Unvisited(rows, visited) == []
  {
    if rows != [] {
      var front, r := rows[..|rows| - 1], rows[|rows| - 1];
      IdsAppend(front, r);
      assert rows == front + [r];
      AllVisited(front, visited);
      assert r.id in Ids(rows);
    }
  }

  /** Comparing sizes is enough to see that the walk missed a row. */
  lemma UnvisitedWhen(rows: seq<Row>, walk: seq<Row>)
    requires DistinctIds(rows) && IsWalk(rows, walk)
    ensures |Ids(walk)| == |rows| <==> Unvisited(rows, Ids(walk)) == []
  {
    hide DistinctIds, Successors, GenesisRows, Ids;
    IdCount(rows);
    WalkedIds(rows, walk);
    if |Ids(walk)| == |rows| {
      SubsetOfSameSize(Ids(walk), Ids(rows));
      AllVisited(rows, Ids(walk));
    }
    if Unvisited(rows, Ids(walk)) == [] {
      NoneUnvisited(rows, Ids(walk));
      assert Ids(walk) == Ids(rows);
    }
  }

  lemma NoneUnvisited(rows: seq<Row>, visited: set<int>)
    requires Unvisited(rows, visited) == []
    ensures Ids(rows) <= visited
  {
    hide Ids, Unvisited;
    forall x | x in Ids(rows) ensures x in visited {
      assert x !in Unvisited(rows, visited);
    }
  }

  lemma WalkedIds(rows: seq<Row>, walk: seq<Row>)
    requires IsWalk(rows, walk)
    ensures Ids(walk) <= Ids(rows)
  {
    hide Successors, GenesisRows, DistinctIds;
  }

  lemma OneGenesis(sha: Digest, rows: seq<Row>, order: seq<Row>, r: Row)
    requires ChainWitness(sha, rows, order) && r in GenesisRows(rows)
    ensures r == order[0]
  {
    forall i | 0 < i < |order| ensures order[i].previousHash != None {
      assert order[i].previousHash == Some(order[i - 1].currentHash);
    }
    assert r in order;
    var j: nat :| j < |order| && order[j] == r;
  }

  lemma WalkFits(rows: seq<Row>, walk: seq<Row>)
    requires IsWalk(rows, walk)
    ensures |walk| <= |rows|
  {
    IdCount(walk);
    IdBound(rows);
    WalkedIds(rows, walk);
    SubsetSize(Ids(walk), Ids(rows));
  }

  lemma {:induction false} IdBound(rows: seq<Row>)
    ensures |Ids(rows)| <= |rows|
  {
    if rows != [] {
      var front := rows[..|rows| - 1];
      IdBound(front);
      assert Ids(rows) == Ids(front) + {rows[|rows| - 1].id};
    }
  }

  lemma LinearLength(sha: Digest, rows: seq<Row>, order: seq<Row>)
    requires ChainWitness(sha, rows, order) && DistinctIds(rows)
    ensures |order| == |rows|
  {
    assert DistinctIds(order) by {
      forall i, j | 0 <= i < j < |order| ensures order[i].id != order[j].id {
        assert order[i] in rows && order[j] in rows;
        if order[i].id == order[j].id {
          SameRow(rows, order[i], order[j]);
        }
      }
    }
    IdCount(order);
    IdCount(rows);
    forall x ensures x in Ids(order) <==> x in Ids(rows) {
      if x in Ids(order) {
        var i :| 0 <= i < |order| && order[i].id == x;
        assert order[i] in rows;
      }
      if x in Ids(rows) {
        var i :| 0 <= i < |rows| && rows[i].id == x;
        assert rows[i] in order;
      }
    }
    assert Ids(order) == Ids(rows);
  }
}
