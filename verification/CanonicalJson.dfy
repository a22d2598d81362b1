/**
 * Text and JSON values, and the canonical printer of src/services/audit.service.ts.
 * A text is a sequence of UTF-16 code units, the strings of the program.
 */
module CanonicalJson {

  type CodeUnit = c: int | 0 <= c < 0x1_0000
  type Text = seq<CodeUnit>

  const QUOTE: CodeUnit := 34
  const COMMA: CodeUnit := 44
  const COLON: CodeUnit := 58
  const BACKSLASH: CodeUnit := 92
  const OPEN_BRACKET: CodeUnit := 91
  const CLOSE_BRACKET: CodeUnit := 93
  const OPEN_BRACE: CodeUnit := 123
  const CLOSE_BRACE: CodeUnit := 125
  /** null, true, false */
  const NULL_TEXT: Text := [110, 117, 108, 108]
  const TRUE_TEXT: Text := [116, 114, 117, 101]
  const FALSE_TEXT: Text := [102, 97, 108, 115, 101]

  // ----- JSON.stringify on strings (ECMA-262 section 25.5.2.3) -----

  predicate IsHighSurrogate(c: CodeUnit) {
    0xD800 <= c < 0xDC00
  }

  predicate IsLowSurrogate(c: CodeUnit) {
    0xDC00 <= c < 0xE000
  }

  /** The string starts with a surrogate pair, which is printed as it is. */
  predicate StartsWithPair(s: Text) {
    |s| >= 2 && IsHighSurrogate(s[0]) && IsLowSurrogate(s[1])
  }

  function HexDigit(n: int): CodeUnit
    requires 0 <= n < 16
  {
    if n < 10 then 48 + n else 87 + n
  }

  /** A code unit outside a surrogate pair: short escapes, \u escapes for control characters and lone surrogates. */
  function EscapeUnit(c: CodeUnit): Text {
    if c == 8 then [BACKSLASH, 98]
    else if c == 9 then [BACKSLASH, 116]
    else if c == 10 then [BACKSLASH, 110]
    else if c == 12 then [BACKSLASH, 102]
    else if c == 13 then [BACKSLASH, 114]
    else if c == QUOTE then [BACKSLASH, QUOTE]
    else if c == BACKSLASH then [BACKSLASH, BACKSLASH]
    else if c < 32 || IsHighSurrogate(c) || IsLowSurrogate(c) then
      [BACKSLASH, 117, HexDigit(c / 4096), HexDigit(c / 256 % 16), HexDigit(c / 16 % 16), HexDigit(c % 16)]
    else [c]
  }

  function Escape(s: Text): Text {
    if s == [] then []
    else if StartsWithPair(s) then s[..2] + Escape(s[2..])
    else EscapeUnit(s[0]) + Escape(s[1..])
  }

  function Quote(s: Text): Text {
    [QUOTE] + Escape(s) + [QUOTE]
  }

  // ----- JSON values -----

  /** A number is carried by the text that Number::toString prints for it. */
  datatype Json =
    | JNull
    | JBool(b: bool)
    | JNum(literal: Text)
    | JStr(s: Text)
    | JArr(items: seq<Json>)
    | JObj(members: seq<Member>)

  /** An own property, in the order in which it was added. */
  datatype Member = Member(key: Text, value: Json)

  /** The characters of a printed number: digits, sign, point and exponent. */
  predicate IsNumberUnit(c: CodeUnit) {
    48 <= c <= 57 || c == 43 || c == 45 || c == 46 || c == 101
  }

  predicate IsNumberText(t: Text) {
    && t != []
    && (t[0] == 45 || 48 <= t[0] <= 57)
    && forall i :: 0 <= i < |t| ==> IsNumberUnit(t[i])
  }

  /** Numbers print as numbers, and an object has one property per key. */
  predicate WellFormed(v: Json) {
    match v
    case JNum(t) => IsNumberText(t)
    case JArr(items) => forall i :: 0 <= i < |items| ==> WellFormed(items[i])
    case JObj(ms) =>
      && (forall i :: 0 <= i < |ms| ==> WellFormed(ms[i].value))
      && (forall i, j :: 0 <= i < j < |ms| ==> ms[i].key != ms[j].key)
    case _ => true
  }

  // ----- the canonical printer -----

  /** A printed property, before it is put in key order. */
  datatype Entry = Entry(key: Text, text: Text)

  /** Array.prototype.sort's order on strings: by code unit, a proper prefix first. */
  predicate Before(a: Text, b: Text) {
    b != [] && (a == [] || a[0] < b[0] || (a[0] == b[0] && Before(a[1..], b[1..])))
  }

  function InsertEntry(e: Entry, sorted: seq<Entry>): (r: seq<Entry>)
    ensures |r| == |sorted| + 1
    ensures forall x :: x in r <==> x == e || x in sorted
  {
    if sorted == [] || Before(e.key, sorted[0].key) then [e] + sorted
    else
      assert sorted == [sorted[0]] + sorted[1..];
      [sorted[0]] + InsertEntry(e, sorted[1..])
  }

  function SortEntries(es: seq<Entry>): (r: seq<Entry>)
    ensures |r| == |es|
    ensures forall x :: x in r <==> x in es
  {
    if es == [] then []
    else
      assert es == [es[0]] + es[1..];
      InsertEntry(es[0], SortEntries(es[1..]))
  }

  /** The texts after the first in a comma-separated list. */
  function Tail(ts: seq<Text>): Text {
    if ts == [] then [] else [COMMA] + ts[0] + Tail(ts[1..])
  }

  /** Array.prototype.join(',') */
  function Join(ts: seq<Text>): Text {
    if ts == [] then [] else ts[0] + Tail(ts[1..])
  }

  function EntryText(e: Entry): Text {
    Quote(e.key) + [COLON] + e.text
  }

  function EntryTexts(es: seq<Entry>): (ts: seq<Text>)
    ensures |ts| == |es|
  {
    if es == [] then [] else [EntryText(es[0])] + EntryTexts(es[1..])
  }

  function Print(v: Json): Text
    decreases v, 1
  {
    match v
    case JNull => NULL_TEXT
    case JBool(b) => if b then TRUE_TEXT else FALSE_TEXT
    case JNum(t) => t
    case JStr(s) => Quote(s)
    case JArr(items) => [OPEN_BRACKET] + Join(PrintItems(items)) + [CLOSE_BRACKET]
    case JObj(ms) => [OPEN_BRACE] + Join(EntryTexts(SortEntries(PrintMembers(ms)))) + [CLOSE_BRACE]
  }

  function PrintItems(items: seq<Json>): (ts: seq<Text>)
    ensures |ts| == |items|
    ensures forall i :: 0 <= i < |items| ==> ts[i] == Print(items[i])
    decreases items, 0
  {
    if items == [] then [] else [Print(items[0])] + PrintItems(items[1..])
  }

  function PrintMembers(ms: seq<Member>): (es: seq<Entry>)
    ensures |es| == |ms|
    ensures forall i :: 0 <= i < |ms| ==> es[i] == Entry(ms[i].key, Print(ms[i].value))
    decreases ms, 0
  {
    if ms == [] then [] else [Entry(ms[0].key, Print(ms[0].value))] + PrintMembers(ms[1..])
  }

  // ----- the value a JSON term denotes -----

  /** A JSON value without property order: an object is a map. */
  datatype Value =
    | VNull
    | VBool(b: bool)
    | VNum(literal: Text)
    | VStr(s: Text)
    | VArr(items: seq<Value>)
    | VObj(fields: map<Text, Value>)

  function Meaning(v: Json): Value
    decreases v, 1
  {
    match v
    case JNull => VNull
    case JBool(b) => VBool(b)
    case JNum(t) => VNum(t)
    case JStr(s) => VStr(s)
    case JArr(items) => VArr(ItemMeanings(items))
    case JObj(ms) => VObj(Fields(ms))
  }

  function ItemMeanings(items: seq<Json>): (vs: seq<Value>)
    ensures |vs| == |items|
    ensures forall i :: 0 <= i < |items| ==> vs[i] == Meaning(items[i])
    decreases items, 0
  {
    if items == [] then [] else [Meaning(items[0])] + ItemMeanings(items[1..])
  }

  function Fields(ms: seq<Member>): (fields: map<Text, Value>)
    ensures forall k :: k in fields <==> exists i :: 0 <= i < |ms| && ms[i].key == k
    decreases ms, 0
  {
    if ms == [] then map[]
    else
      var rest := Fields(ms[1..]);
      assert forall i :: 0 < i < |ms| ==> ms[i] == ms[1..][i - 1];
      rest[ms[0].key := Meaning(ms[0].value)]
  }

  lemma {:induction false} FieldAt(ms: seq<Member>, i: nat)
    requires i < |ms|
    requires forall i, j :: 0 <= i < j < |ms| ==> ms[i].key != ms[j].key
    ensures ms[i].key in Fields(ms) && Fields(ms)[ms[i].key] == Meaning(ms[i].value)
  {
    if i > 0 {
      assert ms[1..][i - 1] == ms[i];
      FieldAt(ms[1..], i - 1);
    }
  }

  // ----- printing does not depend on property order -----

  lemma {:induction false} BeforeIsTotal(a: Text, b: Text)
    ensures !(Before(a, b) && Before(b, a))
    ensures a == b <==> !Before(a, b) && !Before(b, a)
  {
    if a != [] && b != [] {
      BeforeIsTotal(a[1..], b[1..]);
      if a[0] == b[0] {
        assert a == [a[0]] + a[1..] && b == [b[0]] + b[1..];
      }
    }
  }

  lemma {:induction false} BeforeIsTransitive(a: Text, b: Text, c: Text)
    requires Before(a, b) && Before(b, c)
    ensures Before(a, c)
  {
    if a != [] && a[0] == b[0] && b[0] == c[0] {
      BeforeIsTransitive(a[1..], b[1..], c[1..]);
    }
  }

  ghost predicate Ascending(es: seq<Entry>) {
    forall i, j :: 0 <= i < j < |es| ==> Before(es[i].key, es[j].key)
  }

  lemma {:induction false} InsertAscends(e: Entry, sorted: seq<Entry>)
    requires Ascending(sorted)
    requires forall x :: x in sorted ==> x.key != e.key
    ensures Ascending(InsertEntry(e, sorted))
  {
    if sorted == [] {
    } else if Before(e.key, sorted[0].key) {
      forall j | 0 < j < |sorted| ensures Before(e.key, sorted[j].key) {
        BeforeIsTransitive(e.key, sorted[0].key, sorted[j].key);
      }
    } else {
      BeforeIsTotal(e.key, sorted[0].key);
      assert sorted[0] in sorted;
      InsertAscends(e, sorted[1..]);
      var rest := InsertEntry(e, sorted[1..]);
      forall j | 0 <= j < |rest| ensures Before(sorted[0].key, rest[j].key) {
        assert rest[j] in rest;
        if rest[j] != e {
          var k :| 0 <= k < |sorted[1..]| && sorted[1..][k] == rest[j];
          assert sorted[k + 1] == rest[j];
        }
      }
    }
  }

  ghost predicate DistinctKeys(es: seq<Entry>) {
    forall i, j :: 0 <= i < j < |es| ==> es[i].key != es[j].key
  }

  lemma {:induction false} SortAscends(es: seq<Entry>)
    requires DistinctKeys(es)
    ensures Ascending(SortEntries(es))
  {
    if es != [] {
      SortAscends(es[1..]);
      forall x | x in SortEntries(es[1..]) ensures x.key != es[0].key {
        var k :| 0 <= k < |es[1..]| && es[1..][k] == x;
        assert es[k + 1] == x;
      }
      InsertAscends(es[0], SortEntries(es[1..]));
    }
  }

  /** There is only one ascending list of given entries. */
  lemma {:induction false} AscendingUnique(a: seq<Entry>, b: seq<Entry>)
    requires Ascending(a) && Ascending(b)
    requires forall x :: x in a <==> x in b
    ensures a == b
  {
    assert b != [] ==> b[0] in b;
    if a != [] {
      assert a[0] in a;
      var i :| 0 <= i < |b| && b[i] == a[0];
      assert b[0] in b;
      var j :| 0 <= j < |a| && a[j] == b[0];
      BeforeIsTotal(a[0].key, b[0].key);
      assert a[0] == b[0];
      forall x ensures x in a[1..] <==> x in b[1..] {
        TailMembership(a, x);
        TailMembership(b, x);
      }
      AscendingUnique(a[1..], b[1..]);
      assert a == [a[0]] + a[1..] && b == [b[0]] + b[1..];
    }
  }

  lemma TailMembership(a: seq<Entry>, x: Entry)
    requires Ascending(a) && a != []
    ensures x in a[1..] <==> x in a && x != a[0]
  {
    if x in a[1..] {
      var k :| 0 <= k < |a[1..]| && a[1..][k] == x;
      assert a[k + 1] == x;
      BeforeIsTotal(a[0].key, x.key);
    }
    if x in a && x != a[0] {
      var k :| 0 <= k < |a| && a[k] == x;
      assert a[1..][k - 1] == x;
    }
  }

  lemma FieldsByKey(ms: seq<Member>, ns: seq<Member>, i: nat) returns (j: nat)
    requires i < |ms| && Fields(ms) == Fields(ns)
    requires WellFormed(JObj(ms)) && WellFormed(JObj(ns))
    ensures j < |ns| && ns[j].key == ms[i].key && Meaning(ns[j].value) == Meaning(ms[i].value)
  {
    hide Meaning, Fields;
    FieldAt(ms, i);
    j :| j < |ns| && ns[j].key == ms[i].key;
    FieldAt(ns, j);
  }

  /** Objects with equal fields print the same entries, up to order. */
  lemma {:induction false} MembersPrintAlike(v: Json, w: Json)
    requires v.JObj? && w.JObj? && WellFormed(v) && WellFormed(w) && Meaning(v) == Meaning(w)
    ensures forall e :: e in PrintMembers(v.members) <==> e in PrintMembers(w.members)
    decreases v, 0
  {
    hide PrintMembers, Print, Fields;
    var es, es' := PrintMembers(v.members), PrintMembers(w.members);
    forall i: nat | i < |es| ensures es[i] in es' {
      var j := FieldsByKey(v.members, w.members, i);
      EqualValuesPrintAlike(v.members[i].value, w.members[j].value);
      assert es'[j] == es[i];
    }
    forall j: nat | j < |es'| ensures es'[j] in es {
      var i := FieldsByKey(w.members, v.members, j);
      EqualValuesPrintAlike(v.members[i].value, w.members[j].value);
      assert es[i] == es'[j];
    }
  }

  /** Equal JSON values print alike, whatever the order of their properties. */
  lemma {:induction false} EqualValuesPrintAlike(v: Json, w: Json)
    requires WellFormed(v) && WellFormed(w) && Meaning(v) == Meaning(w)
    ensures Print(v) == Print(w)
    decreases v, 1
  {
    match v
    case JArr(items) =>
      forall i | 0 <= i < |items| ensures Print(items[i]) == Print(w.items[i]) {
        assert ItemMeanings(items)[i] == ItemMeanings(w.items)[i];
        EqualValuesPrintAlike(items[i], w.items[i]);
      }
      assert PrintItems(items) == PrintItems(w.items);
    case JObj(ms) =>
      MembersPrintAlike(v, w);
      SortedAlike(ms, w.members);
    case _ =>
  }

  lemma SortedAlike(ms: seq<Member>, ns: seq<Member>)
    requires WellFormed(JObj(ms)) && WellFormed(JObj(ns))
    requires forall e :: e in PrintMembers(ms) <==> e in PrintMembers(ns)
    ensures SortEntries(PrintMembers(ms)) == SortEntries(PrintMembers(ns))
  {
    hide PrintMembers, SortEntries, WellFormed, Ascending;
    KeysDiffer(ms);
    KeysDiffer(ns);
    SortAscends(PrintMembers(ms));
    SortAscends(PrintMembers(ns));
    AscendingUnique(SortEntries(PrintMembers(ms)), SortEntries(PrintMembers(ns)));
  }

  lemma KeysDiffer(ms: seq<Member>)
    requires WellFormed(JObj(ms))
    ensures DistinctKeys(PrintMembers(ms))
  {
    hide PrintMembers;
  }
}
