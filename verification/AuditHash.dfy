/** The text whose SHA-256 digest becomes the hash of an audit row (src/services/audit.service.ts). */
module AuditHash {
  import opened Basics
  import opened Gregorian
  import opened CanonicalJson
  import opened JsonDecoding
  import opened Timestamps

  /** What an audit row's hash covers: payload is a record, the states are records or null. */
  datatype Content = Content(payload: Json, beforeState: Json, afterState: Json, createdAt: int)

  predicate ValidContent(c: Content) {
    && WellFormed(c.payload) && c.payload.JObj?
    && WellFormed(c.beforeState) && (c.beforeState.JObj? || c.beforeState.JNull?)
    && WellFormed(c.afterState) && (c.afterState.JObj? || c.afterState.JNull?)
    && InDateRange(DateOnly(c.createdAt))
  }

  /** Two contents store the same JSON values at the same instant. */
  ghost predicate SameContent(a: Content, b: Content) {
    && Meaning(a.payload) == Meaning(b.payload)
    && Meaning(a.beforeState) == Meaning(b.beforeState)
    && Meaning(a.afterState) == Meaning(b.afterState)
    && a.createdAt == b.createdAt
  }

  predicate IsHexUnit(c: CodeUnit) {
    48 <= c <= 57 || 97 <= c <= 102
  }

  /** A digest in lower-case hexadecimal. */
  predicate IsHash(t: Text) {
    t != [] && forall i :: 0 <= i < |t| ==> IsHexUnit(t[i])
  }

  /** hashInput of version 1: the digit 1, the previous hash if any, three values and the timestamp. */
  function HashInput(previousHash: Option<Text>, c: Content): Text {
    [49] + (previousHash.GetOr([])
        + (Print(c.payload) + (Print(c.beforeState) + (Print(c.afterState) + IsoString(c.createdAt)))))
  }

  function ContentText(c: Content): Text {
    Print(c.payload) + (Print(c.beforeState) + (Print(c.afterState) + IsoString(c.createdAt)))
  }

  lemma ContentTextDecodes(a: Content, b: Content)
    requires ValidContent(a) && ValidContent(b)
    requires ContentText(a) == ContentText(b)
    ensures SameContent(a, b)
  {
    hide Print, WellFormed, Meaning, IsoString;
    PrintDecodes(a.payload, Print(a.beforeState) + (Print(a.afterState) + IsoString(a.createdAt)),
                 b.payload, Print(b.beforeState) + (Print(b.afterState) + IsoString(b.createdAt)));
    PrintDecodes(a.beforeState, Print(a.afterState) + IsoString(a.createdAt),
                 b.beforeState, Print(b.afterState) + IsoString(b.createdAt));
    PrintDecodes(a.afterState, IsoString(a.createdAt), b.afterState, IsoString(b.createdAt));
    IsoStringInjective(a.createdAt, b.createdAt);
  }

  lemma SameContentSameText(a: Content, b: Content)
    requires ValidContent(a) && ValidContent(b) && SameContent(a, b)
    ensures ContentText(a) == ContentText(b)
  {
    hide Print, WellFormed, Meaning, IsoString;
    EqualValuesPrintAlike(a.payload, b.payload);
    EqualValuesPrintAlike(a.beforeState, b.beforeState);
    EqualValuesPrintAlike(a.afterState, b.afterState);
  }

  /**
   * Two rows have the same hash input exactly when they have the same previous hash, the same
   * payload and states up to property order, and the same timestamp.
   */
  lemma HashInputDecodes(p: Option<Text>, a: Content, q: Option<Text>, b: Content)
    requires ValidContent(a) && ValidContent(b)
    requires (p.Some? ==> IsHash(p.value)) && (q.Some? ==> IsHash(q.value))
    ensures HashInput(p, a) == HashInput(q, b) <==> p == q && SameContent(a, b)
  {
    hide Print, WellFormed, Meaning, IsoString;
    var s, t := ContentText(a), ContentText(b);
    assert HashInput(p, a) == [49] + (p.GetOr([]) + s);
    assert HashInput(q, b) == [49] + (q.GetOr([]) + t);
    if HashInput(p, a) == HashInput(q, b) {
      CancelFront([49], p.GetOr([]) + s, q.GetOr([]) + t);
      StartsWithBrace(a);
      StartsWithBrace(b);
      RunDecodes(IsHexUnit, p.GetOr([]), s, q.GetOr([]), t);
      ContentTextDecodes(a, b);
    } else if p == q && SameContent(a, b) {
      SameContentSameText(a, b);
    }
  }

  /** The payload is an object, so no hash runs on into it. */
  lemma StartsWithBrace(c: Content)
    requires ValidContent(c)
    ensures EndsRun(IsHexUnit, ContentText(c))
  {
    hide Print, WellFormed, IsoString;
    PrintStart(c.payload);
    FirstUnit(Print(c.payload), Print(c.beforeState) + (Print(c.afterState) + IsoString(c.createdAt)));
  }
}
