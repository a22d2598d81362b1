/**
 * What an accepted audit log is evidence of: the hash of a row commits to the contents of the row and of
 * all rows before it (src/services/audit.service.ts).
 */
module TamperEvidence {
  import opened Basics
  import opened CanonicalJson
  import opened AuditHash
  import opened AuditChain

  /** The text that a version-1 row is hashed from. */
  function TextOf(r: Row): Text {
    HashInput(r.previousHash, r.content)
  }

  /** The two texts are not a collision. */
  ghost predicate NoCollision(sha: Digest, a: Text, b: Text) {
    sha(a) == sha(b) ==> a == b
  }

  /** A version-1 row that the verifier finds right. */
  ghost predicate Verified(sha: Digest, r: Row) {
    && r.hashVersion == 1
    && ValidContent(r.content)
    && (r.previousHash.Some? ==> IsHash(r.previousHash.value))
    && ContentMatches(sha, r)
  }

  ghost predicate SameRecord(a: Row, b: Row) {
    a.currentHash == b.currentHash && a.previousHash == b.previousHash && SameContent(a.content, b.content)
  }

  /** Equal hashes are hashes of the same record. */
  lemma HashFixesRecord(sha: Digest, a: Row, b: Row)
    requires Verified(sha, a) && Verified(sha, b) && NoCollision(sha, TextOf(a), TextOf(b))
    requires a.currentHash == b.currentHash
    ensures SameRecord(a, b)
  {
    hide HashInput, ValidContent, SameContent;
    HashInputDecodes(a.previousHash, a.content, b.previousHash, b.content);
  }

  // ----- replacing the content of one row -----

  ghost predicate SameRows(order: seq<Row>, rows: seq<Row>) {
    forall r :: r in order <==> r in rows
  }

  lemma UpdatedOrder(rows: seq<Row>, k: nat, r: Row, order: seq<Row>, p: nat)
    requires k < |rows| && DistinctIds(rows) && r.id == rows[k].id
    requires p < |order| && order[p] == rows[k] && DistinctRecords(order)
    requires SameRows(order, rows)
    ensures SameRows(order[p := r], rows[k := r])
  {
    var order', rows' := order[p := r], rows[k := r];
    forall x | x in order' ensures x in rows' {
      var q :| 0 <= q < |order'| && order'[q] == x;
      if q == p {
        assert rows'[k] == r;
      } else {
        assert order[q] in rows;
        var m :| 0 <= m < |rows| && rows[m] == order[q];
        assert rows'[m] == x;
      }
    }
    forall x | x in rows' ensures x in order' {
      var m :| 0 <= m < |rows'| && rows'[m] == x;
      if m == k {
        assert order'[p] == r;
      } else {
        assert rows[m] in order;
        var q :| 0 <= q < |order| && order[q] == rows[m];
        assert order'[q] == x;
      }
    }
  }

  ghost predicate DistinctRecords(order: seq<Row>) {
    forall i, j :: 0 <= i < j < |order| ==> order[i] != order[j]
  }

  /** Links do not depend on content. */
  lemma UpdatedLinks(order: seq<Row>, p: nat, c: Content)
    requires Linear(order) && p < |order|
    ensures Linear(order[p := order[p].(content := c)]) && DistinctRecords(order)
  {}

  /** Replacing a row's content under its hash leaves the log accepted iff the row still matches. */
  lemma AcceptedIffRowMatches(sha: Digest, rows: seq<Row>, k: nat, c: Content)
    requires DistinctIds(rows) && k < |rows| && ChainAccepted(sha, rows)
    ensures var r := rows[k].(content := c);
            ChainAccepted(sha, rows[k := r]) <==> ContentMatches(sha, r)
  {
    hide ContentMatches, Linear;
    var r := rows[k].(content := c);
    var rows' := rows[k := r];
    var order: seq<Row> :| ChainWitness(sha, rows, order);
    assert rows[k] in rows;
    var p: nat :| p < |order| && order[p] == rows[k];
    UpdatedLinks(order, p, c);
    UpdatedOrder(rows, k, r, order, p);
    assert rows'[k] in rows';
    if ContentMatches(sha, r) {
      forall x | x in rows' ensures ContentMatches(sha, x) {
        var m :| 0 <= m < |rows'| && rows'[m] == x;
        assert m != k ==> x == rows[m];
      }
      assert ChainWitness(sha, rows', order[p := r]);
    }
  }

  /**
   * A changed content is found out: replace the content of a version-1 row of an accepted log and keep
   * its hash, and the log is accepted again iff the content is the same JSON up to property order, at the
   * same time.
   */
  lemma ChangedContentIsFound(sha: Digest, rows: seq<Row>, k: nat, c: Content)
    requires DistinctIds(rows) && k < |rows| && ChainAccepted(sha, rows)
    requires Verified(sha, rows[k]) && ValidContent(c)
    requires NoCollision(sha, TextOf(rows[k]), TextOf(rows[k].(content := c)))
    ensures ChainAccepted(sha, rows[k := rows[k].(content := c)]) <==> SameContent(rows[k].content, c)
  {
    hide HashInput, ValidContent, SameContent, ChainAccepted;
    AcceptedIffRowMatches(sha, rows, k, c);
    HashInputDecodes(rows[k].previousHash, rows[k].content, rows[k].previousHash, c);
  }

  /** Rows of other versions are only linked: their content can be replaced unnoticed. */
  lemma UnhashedContentIsNotFound(sha: Digest, rows: seq<Row>, k: nat, c: Content)
    requires DistinctIds(rows) && k < |rows| && ChainAccepted(sha, rows) && rows[k].hashVersion != 1
    ensures ChainAccepted(sha, rows[k := rows[k].(content := c)])
  {
    hide ChainAccepted;
    AcceptedIffRowMatches(sha, rows, k, c);
  }

  // ----- a hash commits to the whole history -----

  ghost predicate NoCollisions(sha: Digest, a: seq<Row>, b: seq<Row>) {
    forall i, j :: 0 <= i < |a| && 0 <= j < |b| ==> NoCollision(sha, TextOf(a[i]), TextOf(b[j]))
  }

  /** Two chains that meet in a hash agree, row by row, as far back as both consist of version-1 rows. */
  lemma {:induction false} SharedHashSharedPast(sha: Digest, a: seq<Row>, i: nat, b: seq<Row>, j: nat, n: nat)
    requires Linear(a) && Linear(b) && NoCollisions(sha, a, b)
    requires n <= i < |a| && n <= j < |b| && a[i].currentHash == b[j].currentHash
    requires forall k :: i - n <= k <= i ==> Verified(sha, a[k])
    requires forall k :: j - n <= k <= j ==> Verified(sha, b[k])
    ensures forall k :: i - n <= k <= i ==> SameRecord(a[k], b[k + j - i])
    decreases n
  {
    hide Verified, SameRecord, TextOf, NoCollision;
    assert NoCollision(sha, TextOf(a[i]), TextOf(b[j]));
    HashFixesRecord(sha, a[i], b[j]);
    if n > 0 {
      RecordFixesPast(a[i], b[j]);
      assert a[i].previousHash == Some(a[i - 1].currentHash) && b[j].previousHash == Some(b[j - 1].currentHash);
      SharedHashSharedPast(sha, a, i - 1, b, j - 1, n - 1);
      forall k | i - n <= k <= i ensures SameRecord(a[k], b[k + j - i]) {
        if k < i {
          assert k + (j - 1) - (i - 1) == k + j - i;
        }
      }
    }
  }

  lemma RecordFixesPast(a: Row, b: Row)
    requires SameRecord(a, b)
    ensures a.previousHash == b.previousHash
  {}

  lemma OnlyFirstIsGenesis(order: seq<Row>, p: nat)
    requires Linear(order) && p < |order|
    ensures order[p].previousHash == None <==> p == 0
  {
    if p > 0 {
      assert order[p].previousHash == Some(order[p - 1].currentHash);
    }
  }

  /** Two chains of version-1 rows with the same tip hash have the same length and the same records. */
  lemma TipFixesHistory(sha: Digest, a: seq<Row>, b: seq<Row>)
    requires Linear(a) && Linear(b) && NoCollisions(sha, a, b)
    requires forall k :: 0 <= k < |a| ==> Verified(sha, a[k])
    requires forall k :: 0 <= k < |b| ==> Verified(sha, b[k])
    requires a[|a| - 1].currentHash == b[|b| - 1].currentHash
    ensures |a| == |b| && forall k :: 0 <= k < |a| ==> SameRecord(a[k], b[k])
  {
    hide Verified, SameRecord, NoCollisions;
    var i, j := |a| - 1, |b| - 1;
    var n := if i < j then i else j;
    SharedHashSharedPast(sha, a, i, b, j, n);
    var p, q := i - n, j - n;
    assert p + j - i == q && SameRecord(a[p], b[q]);
    RecordFixesPast(a[p], b[q]);
    OnlyFirstIsGenesis(a, p);
    OnlyFirstIsGenesis(b, q);
    assert p == q == 0;
    forall k | 0 <= k < |a| ensures SameRecord(a[k], b[k]) {
      assert k + j - i == k;
    }
  }

  ghost predicate Covers(rows: seq<Row>, others: seq<Row>) {
    forall r :: r in rows ==> exists q :: q in others && SameRecord(r, q)
  }

  ghost predicate IsTip(rows: seq<Row>, tip: Row) {
    tip in rows && forall s :: s in rows ==> !Follows(s, tip)
  }

  lemma TipIsLast(sha: Digest, rows: seq<Row>, order: seq<Row>, tip: Row)
    requires ChainWitness(sha, rows, order) && IsTip(rows, tip)
    ensures tip == order[|order| - 1]
  {
    hide ContentMatches;
    OrderMembers(rows, order);
    var i: nat :| i < |order| && order[i] == tip;
    if i + 1 < |order| {
      ChainSuccessor(order, i, i + 1);
    }
  }

  /**
   * Whoever knows the tip's hash notices any change, insertion, deletion or reordering: two accepted logs
   * of version-1 rows with equal tip hashes hold the same records.
   */
  lemma TipCommitsToLog(sha: Digest, rows: seq<Row>, tip: Row, others: seq<Row>, otherTip: Row)
    requires ChainAccepted(sha, rows) && ChainAccepted(sha, others)
    requires (forall r :: r in rows ==> Verified(sha, r)) && (forall r :: r in others ==> Verified(sha, r))
    requires forall r, q :: r in rows && q in others ==> NoCollision(sha, TextOf(r), TextOf(q))
    requires IsTip(rows, tip) && IsTip(others, otherTip) && tip.currentHash == otherTip.currentHash
    ensures Covers(rows, others) && Covers(others, rows)
  {
    hide Verified, SameRecord, Linear, ContentMatches, IsTip, NoCollision, TextOf, Covers;
    TipIsRow(rows, tip);
    TipIsRow(others, otherTip);
    var a: seq<Row> :| ChainWitness(sha, rows, a);
    var b: seq<Row> :| ChainWitness(sha, others, b);
    TipIsLast(sha, rows, a, tip);
    TipIsLast(sha, others, b, otherTip);
    OrderMembers(rows, a);
    OrderMembers(others, b);
    assert NoCollisions(sha, a, b);
    TipFixesHistory(sha, a, b);
    CoversInOrder(rows, a, others, b);
    forall k | 0 <= k < |b| ensures SameRecord(b[k], a[k]) {
      SameRecordBack(a[k], b[k]);
    }
    CoversInOrder(others, b, rows, a);
  }

  lemma CoversInOrder(rows: seq<Row>, a: seq<Row>, others: seq<Row>, b: seq<Row>)
    requires |a| == |b| && forall k :: 0 <= k < |a| ==> SameRecord(a[k], b[k]) && b[k] in others
    requires forall r :: r in rows ==> r in a
    ensures Covers(rows, others)
  {
    hide SameRecord;
    forall r | r in rows ensures exists q :: q in others && SameRecord(r, q) {
      var k :| 0 <= k < |a| && a[k] == r;
      assert b[k] in others && SameRecord(r, b[k]);
    }
  }

  lemma TipIsRow(rows: seq<Row>, tip: Row)
    requires IsTip(rows, tip)
    ensures rows != []
  {}

  lemma OrderMembers(rows: seq<Row>, order: seq<Row>)
    requires forall r :: r in order <==> r in rows
    ensures forall k :: 0 <= k < |order| ==> order[k] in rows
  {}

  lemma SameRecordBack(a: Row, b: Row)
    requires SameRecord(a, b)
    ensures SameRecord(b, a)
  {}
}
