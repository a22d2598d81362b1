/** The canonical print of a JSON value, and the text hashed for an audit row, can be read back in only one way. */
module JsonDecoding {
  import opened CanonicalJson

  lemma SplitAt(a: Text, x: Text, b: Text, y: Text)
    requires a + x == b + y && |a| == |b|
    ensures a == b && x == y
  {
    assert (a + x)[..|a|] == a && (b + y)[..|b|] == b;
    assert (a + x)[|a|..] == x && (b + y)[|b|..] == y;
  }

  /** Removes a common first part. */
  lemma CancelFront(a: Text, x: Text, y: Text)
    requires a + x == a + y
    ensures x == y
  {
    SplitAt(a, x, a, y);
  }

  // ----- strings -----

  lemma HexDigitInjective(a: int, b: int)
    requires 0 <= a < 16 && 0 <= b < 16 && HexDigit(a) == HexDigit(b)
    ensures a == b
  {}

  lemma HexDigitsOf(c: CodeUnit)
    ensures c == 4096 * (c / 4096) + 256 * (c / 256 % 16) + 16 * (c / 16 % 16) + c % 16
    ensures c / 4096 < 16
  {
    assert c / 16 == (c / 256) * 16 + c / 16 % 16;
    assert c / 256 == (c / 4096) * 16 + c / 256 % 16;
  }

  lemma HexEscapeInjective(c: CodeUnit, d: CodeUnit)
    requires c / 4096 < 16 && d / 4096 < 16
    requires HexDigit(c / 4096) == HexDigit(d / 4096)
    requires HexDigit(c / 256 % 16) == HexDigit(d / 256 % 16)
    requires HexDigit(c / 16 % 16) == HexDigit(d / 16 % 16)
    requires HexDigit(c % 16) == HexDigit(d % 16)
    ensures c == d
  {
    hide HexDigit;
    HexDigitInjective(c / 4096, d / 4096);
    HexDigitInjective(c / 256 % 16, d / 256 % 16);
    HexDigitInjective(c / 16 % 16, d / 16 % 16);
    HexDigitInjective(c % 16, d % 16);
    HexDigitsOf(c);
    HexDigitsOf(d);
  }

  lemma EscapeUnitDecodes(c: CodeUnit, x: Text, d: CodeUnit, y: Text)
    requires EscapeUnit(c) + x == EscapeUnit(d) + y
    ensures c == d && x == y
  {
    var a, b := EscapeUnit(c), EscapeUnit(d);
    assert (a + x)[0] == a[0] && (b + y)[0] == b[0];
    if |a| > 1 {
      assert (a + x)[1] == a[1] && (b + y)[1] == b[1];
      if |a| > 2 {
        assert (a + x)[2] == a[2] && (b + y)[2] == b[2];
        assert (a + x)[3] == a[3] && (b + y)[3] == b[3];
        assert (a + x)[4] == a[4] && (b + y)[4] == b[4];
        assert (a + x)[5] == a[5] && (b + y)[5] == b[5];
        HexDigitsOf(c);
        HexDigitsOf(d);
        HexEscapeInjective(c, d);
      }
    }
    SplitAt(a, x, b, y);
  }

  /** The escaped string s with its closing quote, followed by x. */
  function Closed(s: Text, x: Text): Text {
    Escape(s) + [QUOTE] + x
  }

  lemma ClosedPair(s: Text, x: Text)
    requires StartsWithPair(s)
    ensures Closed(s, x) == s[..2] + Closed(s[2..], x) && IsHighSurrogate(Closed(s, x)[0])
  {
    assert Closed(s, x) == s[..2] + Closed(s[2..], x);
    assert Closed(s, x)[0] == s[0];
  }

  lemma ClosedUnit(s: Text, x: Text)
    requires s != [] && !StartsWithPair(s)
    ensures Closed(s, x) == EscapeUnit(s[0]) + Closed(s[1..], x)
    ensures Closed(s, x)[0] != QUOTE && !IsHighSurrogate(Closed(s, x)[0])
  {
    assert Closed(s, x) == EscapeUnit(s[0]) + Closed(s[1..], x);
    assert Closed(s, x)[0] == EscapeUnit(s[0])[0];
  }

  /** The first code unit tells the end of the string, a surrogate pair and a single unit apart. */
  lemma ClosedStart(s: Text, x: Text)
    ensures s == [] <==> Closed(s, x)[0] == QUOTE
    ensures StartsWithPair(s) <==> IsHighSurrogate(Closed(s, x)[0])
    ensures s == [] ==> Closed(s, x) == [QUOTE] + x
  {
    hide Escape, EscapeUnit;
    if StartsWithPair(s) {
      ClosedPair(s, x);
    } else if s != [] {
      ClosedUnit(s, x);
    } else {
      ClosedEmpty(x);
    }
  }

  lemma ClosedEmpty(x: Text)
    ensures Closed([], x) == [QUOTE] + x
  {}

  lemma {:induction false} EscapeDecodes(s: Text, x: Text, s': Text, y: Text)
    requires Closed(s, x) == Closed(s', y)
    ensures s == s' && x == y
    decreases |s|
  {
    hide Closed, Escape, EscapeUnit;
    ClosedStart(s, x);
    ClosedStart(s', y);
    if s == [] {
      CancelFront([QUOTE], x, y);
    } else if StartsWithPair(s) {
      ClosedPair(s, x);
      ClosedPair(s', y);
      SplitAt(s[..2], Closed(s[2..], x), s'[..2], Closed(s'[2..], y));
      EscapeDecodes(s[2..], x, s'[2..], y);
      assert s == s[..2] + s[2..] && s' == s'[..2] + s'[2..];
    } else {
      ClosedUnit(s, x);
      ClosedUnit(s', y);
      EscapeUnitDecodes(s[0], Closed(s[1..], x), s'[0], Closed(s'[1..], y));
      EscapeDecodes(s[1..], x, s'[1..], y);
      assert s == [s[0]] + s[1..] && s' == [s'[0]] + s'[1..];
    }
  }

  /** A quoted string ends where its text says it ends, and determines the string. */
  lemma QuoteDecodes(s: Text, x: Text, s': Text, y: Text)
    requires Quote(s) + x == Quote(s') + y
    ensures s == s' && x == y
  {
    hide Escape;
    assert Quote(s) + x == [QUOTE] + Closed(s, x);
    assert Quote(s') + y == [QUOTE] + Closed(s', y);
    CancelFront([QUOTE], Closed(s, x), Closed(s', y));
    EscapeDecodes(s, x, s', y);
  }

  // ----- numbers -----

  /** x does not continue a run of units satisfying p. */
  predicate EndsRun(p: CodeUnit -> bool, x: Text) {
    x == [] || !p(x[0])
  }

  lemma RunGoesOn(p: CodeUnit -> bool, a: Text, x: Text, b: Text, y: Text)
    requires a + x == b + y && |a| < |b|
    requires forall c :: c in b ==> p(c)
    ensures !EndsRun(p, x)
  {
    assert x[0] == (a + x)[|a|] == (b + y)[|a|] == b[|a|];
    assert b[|a|] in b;
  }

  /** A run of units satisfying p ends where the first other unit stands. */
  lemma RunDecodes(p: CodeUnit -> bool, a: Text, x: Text, b: Text, y: Text)
    requires a + x == b + y && EndsRun(p, x) && EndsRun(p, y)
    requires (forall c :: c in a ==> p(c)) && (forall c :: c in b ==> p(c))
    ensures a == b && x == y
  {
    if |a| < |b| {
      RunGoesOn(p, a, x, b, y);
    } else if |b| < |a| {
      RunGoesOn(p, b, y, a, x);
    }
    SplitAt(a, x, b, y);
  }

  // ----- values -----

  /** The first code unit of a printed value tells its kind, and is never a closing or separating mark. */
  lemma PrintStart(v: Json)
    requires WellFormed(v)
    ensures var t := Print(v);
            && t != []
            && (v.JNull? <==> t[0] == 110)
            && (v.JBool? <==> t[0] == 116 || t[0] == 102)
            && (v.JBool? ==> (v.b <==> t[0] == 116))
            && (v.JNum? <==> IsNumberUnit(t[0]))
            && (v.JStr? <==> t[0] == QUOTE)
            && (v.JArr? <==> t[0] == OPEN_BRACKET)
            && (v.JObj? <==> t[0] == OPEN_BRACE)
  {}

  /** The text after a value cannot be mistaken for more of it: only numbers need a mark behind them. */
  predicate Delimited(v: Json, x: Text) {
    v.JNum? ==> EndsRun(IsNumberUnit, x)
  }

  lemma ScalarDecodes(v: Json, x: Text, w: Json, y: Text)
    requires WellFormed(v) && WellFormed(w) && !v.JArr? && !v.JObj?
    requires Delimited(v, x) && Delimited(w, y)
    requires Print(v) + x == Print(w) + y
    ensures Meaning(v) == Meaning(w) && x == y
  {
    PrintStart(v);
    PrintStart(w);
    FirstUnit(Print(v), x);
    FirstUnit(Print(w), y);
    match v
    case JNull => CancelFront(NULL_TEXT, x, y);
    case JBool(b) => SplitAt(Print(v), x, Print(w), y);
    case JNum(t) => RunDecodes(IsNumberUnit, t, x, w.literal, y);
    case JStr(s) => QuoteDecodes(s, x, w.s, y);
  }

  lemma PrintedArray(items: seq<Json>, x: Text)
    ensures Print(JArr(items)) + x == [OPEN_BRACKET] + Listed(PrintItems(items), CLOSE_BRACKET, x)
  {
    hide Join;
  }

  lemma PrintedObject(ms: seq<Member>, x: Text)
    ensures Print(JObj(ms)) + x == [OPEN_BRACE] + Listed(EntryTexts(SortEntries(PrintMembers(ms))), CLOSE_BRACE, x)
  {
    hide Join, EntryTexts, SortEntries;
  }

  /** A printed value, whatever follows it, determines the value and what follows. */
  lemma {:induction false} PrintDecodes(v: Json, x: Text, w: Json, y: Text)
    requires WellFormed(v) && WellFormed(w)
    requires Delimited(v, x) && Delimited(w, y)
    requires Print(v) + x == Print(w) + y
    ensures Meaning(v) == Meaning(w) && x == y
    decreases v, 1, 0
  {
    hide Print, Listed;
    PrintStart(v);
    PrintStart(w);
    FirstUnit(Print(v), x);
    FirstUnit(Print(w), y);
    match v
    case JArr(items) =>
      PrintedArray(items, x);
      PrintedArray(w.items, y);
      CancelFront([OPEN_BRACKET], Listed(PrintItems(items), CLOSE_BRACKET, x),
          Listed(PrintItems(w.items), CLOSE_BRACKET, y));
      ItemsDecode(v, items, x, w.items, y);
    case JObj(ms) =>
      PrintedObject(ms, x);
      PrintedObject(w.members, y);
      CancelFront([OPEN_BRACE],
        Listed(EntryTexts(SortEntries(PrintMembers(ms))), CLOSE_BRACE, x),
        Listed(EntryTexts(SortEntries(PrintMembers(w.members))), CLOSE_BRACE, y));
      MembersDecode(v, x, w, y);
    case _ => ScalarDecodes(v, x, w, y);
  }

  // ----- lists -----

  /** A comma-separated list with its closing mark, followed by x. */
  function Listed(ts: seq<Text>, close: CodeUnit, x: Text): Text {
    Join(ts) + [close] + x
  }

  /** The rest of a list after one of its members. */
  function Continued(ts: seq<Text>, close: CodeUnit, x: Text): Text {
    Tail(ts) + [close] + x
  }

  lemma ListedSplit(ts: seq<Text>, close: CodeUnit, x: Text)
    ensures Listed(ts, close, x) == if ts == [] then [close] + x else ts[0] + Continued(ts[1..], close, x)
  {}

  lemma ContinuedSplit(ts: seq<Text>, close: CodeUnit, x: Text)
    ensures Continued(ts, close, x) == if ts == [] then [close] + x
        else [COMMA] + (ts[0] + Continued(ts[1..], close, x))
    ensures Continued(ts, close, x)[0] == if ts == [] then close else COMMA
  {}

  lemma FirstUnit(a: Text, x: Text)
    requires a != []
    ensures (a + x)[0] == a[0]
  {}

  // ----- arrays -----

  lemma {:induction false} ItemsDecode(context: Json, items: seq<Json>, x: Text, items': seq<Json>, y: Text)
    requires forall i :: 0 <= i < |items| ==> WellFormed(items[i]) && items[i] < context
    requires forall i :: 0 <= i < |items'| ==> WellFormed(items'[i])
    requires Listed(PrintItems(items), CLOSE_BRACKET, x) == Listed(PrintItems(items'), CLOSE_BRACKET, y)
    ensures ItemMeanings(items) == ItemMeanings(items') && x == y
    decreases context, 0, |items| + 1
  {
    hide Listed, Continued, Print, WellFormed, Meaning;
    var ts, us := PrintItems(items), PrintItems(items');
    ListedSplit(ts, CLOSE_BRACKET, x);
    ListedSplit(us, CLOSE_BRACKET, y);
    if items != [] {
      PrintStart(items[0]);
      FirstUnit(ts[0], Continued(ts[1..], CLOSE_BRACKET, x));
    }
    if items' != [] {
      PrintStart(items'[0]);
      FirstUnit(us[0], Continued(us[1..], CLOSE_BRACKET, y));
    }
    if items == [] || items' == [] {
      FirstUnit([CLOSE_BRACKET], x);
      FirstUnit([CLOSE_BRACKET], y);
      CancelFront([CLOSE_BRACKET], x, y);
    } else {
      ItemTailDecodes(context, items, x, items', y);
    }
  }

  lemma {:induction false} ItemTailDecodes(context: Json, items: seq<Json>, x: Text, items': seq<Json>, y: Text)
    requires items != [] && items' != []
    requires forall i :: 0 <= i < |items| ==> WellFormed(items[i]) && items[i] < context
    requires forall i :: 0 <= i < |items'| ==> WellFormed(items'[i])
    requires Print(items[0]) + Continued(PrintItems(items[1..]), CLOSE_BRACKET, x) ==
             Print(items'[0]) + Continued(PrintItems(items'[1..]), CLOSE_BRACKET, y)
    ensures ItemMeanings(items) == ItemMeanings(items') && x == y
    decreases context, 0, |items|
  {
    hide Continued, Print, WellFormed, Meaning;
    var ts, us := PrintItems(items[1..]), PrintItems(items'[1..]);
    ContinuedSplit(ts, CLOSE_BRACKET, x);
    ContinuedSplit(us, CLOSE_BRACKET, y);
    PrintDecodes(items[0], Continued(ts, CLOSE_BRACKET, x), items'[0], Continued(us, CLOSE_BRACKET, y));
    if ts == [] {
      CancelFront([CLOSE_BRACKET], x, y);
    } else {
      assert ts[1..] == PrintItems(items[1..][1..]) && us[1..] == PrintItems(items'[1..][1..]);
      CancelFront([COMMA], ts[0] + Continued(ts[1..], CLOSE_BRACKET, x), us[0] + Continued(us[1..], CLOSE_BRACKET, y));
      ItemTailDecodes(context, items[1..], x, items'[1..], y);
    }
    assert ItemMeanings(items) == [Meaning(items[0])] + ItemMeanings(items[1..]);
    assert ItemMeanings(items') == [Meaning(items'[0])] + ItemMeanings(items'[1..]);
  }

  // ----- objects -----

  /** The entry prints property i of the object. */
  ghost predicate EntryOf(e: Entry, ms: seq<Member>, i: nat) {
    i < |ms| && e == Entry(ms[i].key, Print(ms[i].value))
  }

  ghost predicate FromObject(e: Entry, ms: seq<Member>) {
    exists i: nat :: EntryOf(e, ms, i)
  }

  ghost predicate EntriesOf(es: seq<Entry>, ms: seq<Member>) {
    forall k :: 0 <= k < |es| ==> FromObject(es[k], ms)
  }

  /** Two entries have the same key, which has equal values in the two objects. */
  ghost predicate SameField(e: Entry, ms: seq<Member>, e': Entry, ms': seq<Member>) {
    && e.key == e'.key
    && e.key in Fields(ms) && e.key in Fields(ms')
    && Fields(ms)[e.key] == Fields(ms')[e.key]
  }

  ghost predicate SameFields(es: seq<Entry>, ms: seq<Member>, es': seq<Entry>, ms': seq<Member>) {
    |es| == |es'| && forall k :: 0 <= k < |es| ==> SameField(es[k], ms, es'[k], ms')
  }

  lemma SortedEntriesOf(ms: seq<Member>)
    ensures EntriesOf(SortEntries(PrintMembers(ms)), ms)
  {
    var printed := PrintMembers(ms);
    var es := SortEntries(printed);
    forall k | 0 <= k < |es| ensures FromObject(es[k], ms) {
      assert es[k] in es;
      var i: nat :| i < |printed| && printed[i] == es[k];
      assert EntryOf(es[k], ms, i);
    }
  }

  lemma {:induction false} MembersDecode(v: Json, x: Text, w: Json, y: Text)
    requires v.JObj? && w.JObj? && WellFormed(v) && WellFormed(w)
    requires Listed(EntryTexts(SortEntries(PrintMembers(v.members))), CLOSE_BRACE, x) ==
             Listed(EntryTexts(SortEntries(PrintMembers(w.members))), CLOSE_BRACE, y)
    ensures Meaning(v) == Meaning(w) && x == y
    decreases v, 0, |v.members| + 1
  {
    hide Listed, Continued, EntryText, EntriesOf, WellFormed, SortEntries, PrintMembers, Fields;
    var es, es' := SortEntries(PrintMembers(v.members)), SortEntries(PrintMembers(w.members));
    SortedEntriesOf(v.members);
    SortedEntriesOf(w.members);
    var ts, us := EntryTexts(es), EntryTexts(es');
    ListedSplit(ts, CLOSE_BRACE, x);
    ListedSplit(us, CLOSE_BRACE, y);
    if es != [] {
      EntryStart(es[0]);
      FirstUnit(ts[0], Continued(ts[1..], CLOSE_BRACE, x));
    }
    if es' != [] {
      EntryStart(es'[0]);
      FirstUnit(us[0], Continued(us[1..], CLOSE_BRACE, y));
    }
    if es == [] || es' == [] {
      FirstUnit([CLOSE_BRACE], x);
      FirstUnit([CLOSE_BRACE], y);
      CancelFront([CLOSE_BRACE], x, y);
    } else {
      EntryTailDecodes(v, es, x, w, es', y);
    }
    FieldsFromEntries(v.members, es, w.members, es');
  }

  lemma EntryStart(e: Entry)
    ensures EntryText(e) != [] && EntryText(e)[0] == QUOTE
  {}

  /** A key of the first object is a key of the second, with an equal value. */
  lemma FieldIncluded(ms: seq<Member>, es: seq<Entry>, ms': seq<Member>, es': seq<Entry>, k: Text)
    requires es == SortEntries(PrintMembers(ms)) && es' == SortEntries(PrintMembers(ms'))
    requires SameFields(es, ms, es', ms') && k in Fields(ms)
    ensures k in Fields(ms') && Fields(ms)[k] == Fields(ms')[k]
  {
    hide Fields, SortEntries, PrintMembers;
    var i :| 0 <= i < |ms| && ms[i].key == k;
    assert PrintMembers(ms)[i] in es;
    var p :| 0 <= p < |es| && es[p] == PrintMembers(ms)[i];
    assert SameField(es[p], ms, es'[p], ms');
  }

  lemma SameFieldsBack(es: seq<Entry>, ms: seq<Member>, es': seq<Entry>, ms': seq<Member>)
    requires SameFields(es, ms, es', ms')
    ensures SameFields(es', ms', es, ms)
  {
    hide Fields;
    forall k | 0 <= k < |es| ensures SameField(es'[k], ms', es[k], ms) {
      assert SameField(es[k], ms, es'[k], ms');
    }
  }

  lemma FieldsFromEntries(ms: seq<Member>, es: seq<Entry>, ms': seq<Member>, es': seq<Entry>)
    requires es == SortEntries(PrintMembers(ms)) && es' == SortEntries(PrintMembers(ms'))
    requires SameFields(es, ms, es', ms')
    ensures Fields(ms) == Fields(ms')
  {
    hide Fields, SortEntries, PrintMembers, SameFields;
    SameFieldsBack(es, ms, es', ms');
    forall k | k in Fields(ms) ensures k in Fields(ms') && Fields(ms)[k] == Fields(ms')[k] {
      FieldIncluded(ms, es, ms', es', k);
    }
    forall k | k in Fields(ms') ensures k in Fields(ms) {
      FieldIncluded(ms', es', ms, es, k);
    }
  }

  lemma {:induction false} EntryTailDecodes(v: Json, es: seq<Entry>, x: Text, w: Json, es': seq<Entry>, y: Text)
    requires v.JObj? && w.JObj? && WellFormed(v) && WellFormed(w)
    requires es != [] && es' != [] && EntriesOf(es, v.members) && EntriesOf(es', w.members)
    requires EntryText(es[0]) + Continued(EntryTexts(es[1..]), CLOSE_BRACE, x) ==
             EntryText(es'[0]) + Continued(EntryTexts(es'[1..]), CLOSE_BRACE, y)
    ensures SameFields(es, v.members, es', w.members) && x == y
    decreases v, 0, |es|
  {
    hide Continued, EntryText, WellFormed, SameField, FromObject;
    var ts, us := EntryTexts(es[1..]), EntryTexts(es'[1..]);
    ContinuedSplit(ts, CLOSE_BRACE, x);
    ContinuedSplit(us, CLOSE_BRACE, y);
    EntryDecodes(v, es[0], Continued(ts, CLOSE_BRACE, x), w, es'[0], Continued(us, CLOSE_BRACE, y));
    if ts == [] {
      CancelFront([CLOSE_BRACE], x, y);
    } else {
      CancelFront([COMMA], ts[0] + Continued(ts[1..], CLOSE_BRACE, x), us[0] + Continued(us[1..], CLOSE_BRACE, y));
      EntryTailDecodes(v, es[1..], x, w, es'[1..], y);
      assert forall k :: 0 < k < |es| ==> es[k] == es[1..][k - 1] && es'[k] == es'[1..][k - 1];
    }
  }

  lemma {:induction false} EntryDecodes(v: Json, e: Entry, x: Text, w: Json, e': Entry, y: Text)
    requires v.JObj? && w.JObj? && WellFormed(v) && WellFormed(w)
    requires FromObject(e, v.members) && FromObject(e', w.members)
    requires EntryText(e) + x == EntryText(e') + y
    requires EndsRun(IsNumberUnit, x) && EndsRun(IsNumberUnit, y)
    ensures SameField(e, v.members, e', w.members) && x == y
    decreases v, 0, 0
  {
    hide Quote, Print;
    var i: nat :| EntryOf(e, v.members, i);
    var j: nat :| EntryOf(e', w.members, j);
    FieldAt(v.members, i);
    FieldAt(w.members, j);
    EntryTextSplit(e, x);
    EntryTextSplit(e', y);
    QuoteDecodes(e.key, [COLON] + (e.text + x), e'.key, [COLON] + (e'.text + y));
    CancelFront([COLON], e.text + x, e'.text + y);
    PrintDecodes(v.members[i].value, x, w.members[j].value, y);
  }

  lemma EntryTextSplit(e: Entry, x: Text)
    ensures EntryText(e) + x == Quote(e.key) + ([COLON] + (e.text + x))
  {
    hide Quote;
  }

  // ----- canonicalJson -----

  /** canonicalJson prints two values alike exactly when they are the same JSON value up to property order. */
  lemma CanonicalJsonIsFaithful(v: Json, w: Json)
    requires WellFormed(v) && WellFormed(w)
    ensures Print(v) == Print(w) <==> Meaning(v) == Meaning(w)
  {
    hide Print, Meaning, WellFormed;
    if Print(v) == Print(w) {
      PrintDecodes(v, [], w, []);
    } else if Meaning(v) == Meaning(w) {
      EqualValuesPrintAlike(v, w);
    }
  }
}
