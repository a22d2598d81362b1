/**
 * A reader of canonical JSON texts, written from RFC 8259 and the string quoting of ECMA-262 section
 * 25.5.2.3, and the proof that it reads every text that canonicalJson prints back as the value printed.
 */
module JsonReader {
  import opened Basics
  import opened CanonicalJson
  import opened JsonDecoding

  // ----- strings -----

  datatype ReadText = ReadText(s: Text, rest: Text)

  /** The value of a lower-case hexadecimal digit. */
  function HexValue(c: CodeUnit): Option<int> {
    if 48 <= c <= 57 then Some(c - 48) else if 97 <= c <= 102 then Some(c - 87) else None
  }

  /** The code unit that four hexadecimal digits name. */
  function HexUnit(t: Text): (c: Option<CodeUnit>)
    requires |t| >= 4
  {
    var a, b, c, d := HexValue(t[0]), HexValue(t[1]), HexValue(t[2]), HexValue(t[3]);
    if a == None || b == None || c == None || d == None then None
    else
      var value := 4096 * a.value + 256 * b.value + 16 * c.value + d.value;
      if 0 <= value < 0x1_0000 then Some(value) else None
  }

  /** The code unit that a short escape stands for. */
  function ShortEscape(c: CodeUnit): Option<CodeUnit> {
    if c == 34 || c == 92 then Some(c)
    else if c == 98 then Some(8)
    else if c == 102 then Some(12)
    else if c == 110 then Some(10)
    else if c == 114 then Some(13)
    else if c == 116 then Some(9)
    else None
  }

  /** The control characters without a short escape, and the surrogates, are written in hexadecimal. */
  predicate NeedsHex(c: CodeUnit) {
    (c < 32 && c !in {8, 9, 10, 12, 13}) || 0xD800 <= c <= 0xDFFF
  }

  /** Reads up to the closing quote; surrogates stand unescaped exactly when they form a pair. */
  function ReadString(t: Text): (r: Option<ReadText>)
    ensures r.Some? ==> |r.value.rest| < |t|
  {
    if t == [] || (t[0] < 32) then None
    else if t[0] == 34 then Some(ReadText([], t[1..]))
    else if t[0] == 92 then
      if |t| < 2 then None
      else if t[1] == 117 then
        if |t| < 6 then None
        else
          var c, after := HexUnit(t[2..6]), ReadString(t[6..]);
          if c == None || after == None || !NeedsHex(c.value) then None
          else if 0xD800 <= c.value <= 0xDBFF && after.value.s != [] && 0xDC00 <= after.value.s[0] <= 0xDFFF then None
          else Some(ReadText([c.value] + after.value.s, after.value.rest))
      else
        var c, after := ShortEscape(t[1]), ReadString(t[2..]);
        if c == None || after == None then None else Some(ReadText([c.value] + after.value.s, after.value.rest))
    else if 0xD800 <= t[0] <= 0xDFFF then
      if |t| < 2 || t[0] > 0xDBFF || !(0xDC00 <= t[1] <= 0xDFFF) then None
      else
        var after := ReadString(t[2..]);
        if after == None then None else Some(ReadText(t[..2] + after.value.s, after.value.rest))
    else
      var after := ReadString(t[1..]);
      if after == None then None else Some(ReadText([t[0]] + after.value.s, after.value.rest))
  }

  lemma HexDigitReads(n: int)
    requires 0 <= n < 16
    ensures HexValue(HexDigit(n)) == Some(n)
  {}

  lemma HexReads(c: CodeUnit)
    ensures var t := [HexDigit(c / 4096), HexDigit(c / 256 % 16), HexDigit(c / 16 % 16), HexDigit(c % 16)];
            HexUnit(t) == Some(c)
  {
    hide HexDigit, HexValue;
    HexDigitsOf(c);
    HexDigitReads(c / 4096);
    HexDigitReads(c / 256 % 16);
    HexDigitReads(c / 16 % 16);
    HexDigitReads(c % 16);
  }

  lemma ReadEscaped(c: CodeUnit, y: Text, s: Text, x: Text)
    requires ReadString(y) == Some(ReadText(s, x))
    requires 0xD800 <= c <= 0xDBFF && s != [] ==> !(0xDC00 <= s[0] <= 0xDFFF)
    ensures ReadString(EscapeUnit(c) + y) == Some(ReadText([c] + s, x))
  {
    hide HexUnit, HexDigit, HexValue;
    var e := EscapeUnit(c);
    var t := e + y;
    assert t[0] == e[0];
    if |e| == 6 {
      HexReads(c);
      assert t[1] == 117;
      assert t[2..6] == e[2..6] ==
             [HexDigit(c / 4096), HexDigit(c / 256 % 16), HexDigit(c / 16 % 16), HexDigit(c % 16)];
      assert t[6..] == y;
    } else if |e| == 2 {
      assert t[1] == e[1] && t[2..] == y;
    } else {
      assert t[1..] == y;
    }
  }

  /** The reader undoes the escaping of every string. */
  lemma {:induction false} ReadClosed(s: Text, x: Text)
    ensures ReadString(Closed(s, x)) == Some(ReadText(s, x))
    decreases |s|
  {
    hide Closed, Escape, EscapeUnit;
    if s == [] {
      ClosedEmpty(x);
      assert ([QUOTE] + x)[1..] == x;
    } else if StartsWithPair(s) {
      ClosedPair(s, x);
      ReadClosed(s[2..], x);
      var t := Closed(s, x);
      assert t == s[..2] + Closed(s[2..], x);
      assert t[0] == s[0] && t[1] == s[1] && t[2..] == Closed(s[2..], x) && t[..2] == s[..2];
      assert s == s[..2] + s[2..];
    } else {
      ClosedUnit(s, x);
      ReadClosed(s[1..], x);
      ReadEscaped(s[0], Closed(s[1..], x), s[1..], x);
      assert s == [s[0]] + s[1..];
    }
  }

  // ----- numbers -----

  predicate IsNumeric(c: CodeUnit) {
    48 <= c <= 57 || c == 43 || c == 45 || c == 46 || c == 101
  }

  /** Reads the longest run of number characters. */
  function ReadNumber(t: Text): (r: ReadText)
    ensures |r.s| + |r.rest| == |t|
  {
    if t == [] || !IsNumeric(t[0]) then ReadText([], t)
    else
      var after := ReadNumber(t[1..]);
      ReadText([t[0]] + after.s, after.rest)
  }

  lemma {:induction false} ReadRun(a: Text, x: Text)
    requires (forall c :: c in a ==> IsNumeric(c)) && (x == [] || !IsNumeric(x[0]))
    ensures ReadNumber(a + x) == ReadText(a, x)
    decreases |a|
  {
    if a == [] {
      assert a + x == x;
    } else {
      assert (a + x)[0] == a[0] && (a + x)[1..] == a[1..] + x;
      assert a[0] in a;
      ReadRun(a[1..], x);
      assert a == [a[0]] + a[1..];
    }
  }

  // ----- values -----

  datatype ReadJson = ReadJson(v: Json, rest: Text)
  datatype ReadItems = ReadItems(items: seq<Json>, rest: Text)
  datatype ReadMembers = ReadMembers(members: seq<Member>, rest: Text)

  predicate Begins(t: Text, word: Text) {
    |t| >= |word| && t[..|word|] == word
  }

  /** Reads one value; the members of an object keep the order of the text. */
  function ReadValue(t: Text): (r: Option<ReadJson>)
    ensures r.Some? ==> |r.value.rest| < |t|
    decreases |t|, 0
  {
    if t == [] then None
    else if Begins(t, [110, 117, 108, 108]) then Some(ReadJson(JNull, t[4..]))
    else if Begins(t, [116, 114, 117, 101]) then Some(ReadJson(JBool(true), t[4..]))
    else if Begins(t, [102, 97, 108, 115, 101]) then Some(ReadJson(JBool(false), t[5..]))
    else if t[0] == 34 then
      var r := ReadString(t[1..]);
      if r == None then None else Some(ReadJson(JStr(r.value.s), r.value.rest))
    else if t[0] == 91 then
      if |t| > 1 && t[1] == 93 then Some(ReadJson(JArr([]), t[2..]))
      else
        var r := ReadRest(t[1..]);
        if r == None then None else Some(ReadJson(JArr(r.value.items), r.value.rest))
    else if t[0] == 123 then
      if |t| > 1 && t[1] == 125 then Some(ReadJson(JObj([]), t[2..]))
      else
        var r := ReadFields(t[1..]);
        if r == None then None else Some(ReadJson(JObj(r.value.members), r.value.rest))
    else
      var r := ReadNumber(t);
      if r.s == [] then None else Some(ReadJson(JNum(r.s), r.rest))
  }

  /** Reads the items of an array up to its closing bracket, after the opening bracket or a comma. */
  function ReadRest(t: Text): (r: Option<ReadItems>)
    ensures r.Some? ==> |r.value.rest| < |t|
    decreases |t|, 1
  {
    var first := ReadValue(t);
    if first == None || first.value.rest == [] then None
    else if first.value.rest[0] == 93 then Some(ReadItems([first.value.v], first.value.rest[1..]))
    else if first.value.rest[0] != 44 then None
    else
      var more := ReadRest(first.value.rest[1..]);
      if more == None then None else Some(ReadItems([first.value.v] + more.value.items, more.value.rest))
  }

  /** Reads the members of an object up to its closing brace, after the opening brace or a comma. */
  function ReadFields(t: Text): (r: Option<ReadMembers>)
    ensures r.Some? ==> |r.value.rest| < |t|
    decreases |t|, 1
  {
    if t == [] || t[0] != 34 then None
    else
      var key := ReadString(t[1..]);
      if key == None || key.value.rest == [] || key.value.rest[0] != 58 then None
      else
        var first := ReadValue(key.value.rest[1..]);
        if first == None || first.value.rest == [] then None
        else
          var m := Member(key.value.s, first.value.v);
          if first.value.rest[0] == 125 then Some(ReadMembers([m], first.value.rest[1..]))
          else if first.value.rest[0] != 44 then None
          else
            var more := ReadFields(first.value.rest[1..]);
            if more == None then None else Some(ReadMembers([m] + more.value.members, more.value.rest))
  }

  // ----- the order of the keys -----

  /** Text a comes before text b: at the first place where they differ a has the smaller code unit, or has ended. */
  predicate ComesBefore(a: Text, b: Text) {
    exists k :: 0 <= k <= |a| && k < |b| && a[..k] == b[..k] && (k == |a| || a[k] < b[k])
  }

  /** The keys of every object, at every depth, stand in ascending order. */
  predicate KeysAscend(v: Json) {
    match v
    case JArr(items) => forall i :: 0 <= i < |items| ==> KeysAscend(items[i])
    case JObj(ms) =>
      && (forall i :: 0 <= i < |ms| ==> KeysAscend(ms[i].value))
      && (forall i, j :: 0 <= i < j < |ms| ==> ComesBefore(ms[i].key, ms[j].key))
    case _ => true
  }

  lemma {:induction false} BeforeIsEarlier(a: Text, b: Text)
    requires Before(a, b)
    ensures ComesBefore(a, b)
    decreases |a|
  {
    if a == [] {
      assert a[..0] == b[..0];
    } else if a[0] < b[0] {
      assert a[..0] == b[..0];
    } else {
      BeforeIsEarlier(a[1..], b[1..]);
      var k :| 0 <= k <= |a[1..]| && k < |b[1..]| && a[1..][..k] == b[1..][..k]
               && (k == |a[1..]| || a[1..][k] < b[1..][k]);
      assert a[..k + 1] == [a[0]] + a[1..][..k] && b[..k + 1] == [b[0]] + b[1..][..k];
      assert k + 1 < |a| ==> a[k + 1] == a[1..][k];
      assert b[k + 1] == b[1..][k];
    }
  }

  lemma {:induction false} EarlierIsBefore(a: Text, b: Text, k: nat)
    requires k <= |a| && k < |b| && a[..k] == b[..k] && (k == |a| || a[k] < b[k])
    ensures Before(a, b)
    decreases k
  {
    if k > 0 {
      assert a[0] == a[..k][0] == b[..k][0] == b[0];
      assert a[1..][..k - 1] == a[..k][1..] && b[1..][..k - 1] == b[..k][1..];
      EarlierIsBefore(a[1..], b[1..], k - 1);
    }
  }

  /** The sort's order is the order of the first difference. */
  lemma BeforeMeans(a: Text, b: Text)
    ensures Before(a, b) <==> ComesBefore(a, b)
  {
    if Before(a, b) {
      BeforeIsEarlier(a, b);
    }
    if k :| 0 <= k <= |a| && k < |b| && a[..k] == b[..k] && (k == |a| || a[k] < b[k]) {
      EarlierIsBefore(a, b, k);
    }
  }

  // ----- reading back what is printed -----

  /** w is v with the members of every object put in key order. */
  ghost predicate Canonical(v: Json, w: Json) {
    Meaning(w) == Meaning(v) && KeysAscend(w) && WellFormed(w)
  }

  /** A text begins with no word that starts with another character. */
  lemma BeginsNot(t: Text, word: Text)
    requires word != [] && (t == [] || t[0] != word[0])
    ensures !Begins(t, word)
  {}

  /** What does not start with n, t or f is no word. */
  lemma NoWord(t: Text)
    requires t != [] && t[0] !in {110, 116, 102}
    ensures !Begins(t, [110, 117, 108, 108]) && !Begins(t, [116, 114, 117, 101]) && !Begins(t, [102, 97, 108, 115, 101])
  {
    hide Begins;
    BeginsNot(t, [110, 117, 108, 108]);
    BeginsNot(t, [116, 114, 117, 101]);
    BeginsNot(t, [102, 97, 108, 115, 101]);
  }

  lemma WordAndRest(word: Text, x: Text)
    ensures Begins(word + x, word) && (word + x)[|word|..] == x && (word != [] ==> (word + x)[0] == word[0])
  {
    assert (word + x)[..|word|] == word;
  }

  lemma ReadWord(v: Json, x: Text)
    requires v.JNull? || v.JBool?
    ensures ReadValue(Print(v) + x) == Some(ReadJson(v, x))
  {
    hide ReadString, ReadNumber, ReadRest, ReadFields, Begins;
    WordAndRest(Print(v), x);
    if v.JBool? {
      BeginsNot(Print(v) + x, [110, 117, 108, 108]);
      if !v.b {
        BeginsNot(Print(v) + x, [116, 114, 117, 101]);
      }
    }
  }

  lemma AfterMark(mark: CodeUnit, body: Text)
    ensures ([mark] + body)[0] == mark && ([mark] + body)[1..] == body
    ensures body != [] ==> |[mark] + body| > 1 && ([mark] + body)[1] == body[0] && ([mark] + body)[2..] == body[1..]
  {}

  lemma OpenString(body: Text, s: Text, x: Text)
    requires ReadString(body) == Some(ReadText(s, x))
    ensures ReadValue([34] + body) == Some(ReadJson(JStr(s), x))
  {
    hide ReadString, ReadNumber, ReadRest, ReadFields, Begins;
    AfterMark(34, body);
    NoWord([34] + body);
  }

  lemma OpenNumber(n: Text, x: Text)
    requires n != [] && ReadNumber(n + x) == ReadText(n, x) && IsNumeric((n + x)[0])
    ensures ReadValue(n + x) == Some(ReadJson(JNum(n), x))
  {
    hide ReadString, ReadNumber, ReadRest, ReadFields, Begins;
    NoWord(n + x);
  }

  lemma OpenEmpty(x: Text)
    ensures ReadValue([91] + ([93] + x)) == Some(ReadJson(JArr([]), x))
    ensures ReadValue([123] + ([125] + x)) == Some(ReadJson(JObj([]), x))
  {
    hide ReadString, ReadNumber, ReadRest, ReadFields, Begins;
    AfterMark(91, [93] + x);
    AfterMark(123, [125] + x);
    AfterMark(93, x);
    AfterMark(125, x);
    NoWord([91] + ([93] + x));
    NoWord([123] + ([125] + x));
  }

  lemma OpenArray(body: Text, items: seq<Json>, x: Text)
    requires body != [] && body[0] != 93 && ReadRest(body) == Some(ReadItems(items, x))
    ensures ReadValue([91] + body) == Some(ReadJson(JArr(items), x))
  {
    hide ReadString, ReadNumber, ReadRest, ReadFields, Begins;
    AfterMark(91, body);
    NoWord([91] + body);
  }

  lemma OpenObject(body: Text, ms: seq<Member>, x: Text)
    requires body != [] && body[0] != 125 && ReadFields(body) == Some(ReadMembers(ms, x))
    ensures ReadValue([123] + body) == Some(ReadJson(JObj(ms), x))
  {
    hide ReadString, ReadNumber, ReadRest, ReadFields, Begins;
    AfterMark(123, body);
    NoWord([123] + body);
  }

  lemma ReadScalar(v: Json, x: Text)
    requires WellFormed(v) && !v.JArr? && !v.JObj? && Delimited(v, x)
    ensures ReadValue(Print(v) + x) == Some(ReadJson(v, x))
  {
    hide ReadString, ReadNumber, ReadValue, Escape;
    match v
    case JNum(n) =>
      FirstUnit(n, x);
      assert n[0] in n;
      ReadRun(n, x);
      OpenNumber(n, x);
    case JStr(s) =>
      assert Print(v) + x == [34] + Closed(s, x);
      ReadClosed(s, x);
      OpenString(Closed(s, x), s, x);
    case _ => ReadWord(v, x);
  }

  /** The reader reads every printed value, whatever delimited text follows, as the value in key order. */
  lemma {:induction false} ReadPrinted(v: Json, x: Text) returns (w: Json)
    requires WellFormed(v) && Delimited(v, x)
    ensures Canonical(v, w) && ReadValue(Print(v) + x) == Some(ReadJson(w, x))
    decreases v, 1, 0
  {
    match v
    case JArr(items) => w := ReadArray(v, x);
    case JObj(ms) => w := ReadObject(v, x);
    case _ =>
      ReadScalar(v, x);
      w := v;
  }

  lemma {:induction false} ReadArray(v: Json, x: Text) returns (w: Json)
    requires v.JArr? && WellFormed(v)
    ensures Canonical(v, w) && ReadValue(Print(v) + x) == Some(ReadJson(w, x))
    decreases v, 0, |v.items| + 1
  {
    hide Print, Listed, Continued, ReadRest, ReadValue, Canonical, WellFormed;
    var items := v.items;
    var ts := PrintItems(items);
    ItemsWellFormed(v);
    PrintedArray(items, x);
    ListedSplit(ts, CLOSE_BRACKET, x);
    var body := Listed(ts, CLOSE_BRACKET, x);
    if items == [] {
      OpenEmpty(x);
      w := v;
      SameItems([], []);
    } else {
      PrintStart(items[0]);
      FirstUnit(ts[0], Continued(ts[1..], CLOSE_BRACKET, x));
      var ws := ReadItemList(v, items, x);
      OpenArray(body, ws, x);
      w := JArr(ws);
      SameItems(items, ws);
    }
  }

  lemma ItemsWellFormed(v: Json)
    requires v.JArr? && WellFormed(v)
    ensures forall i :: 0 <= i < |v.items| ==> WellFormed(v.items[i]) && v.items[i] < v
  {}

  lemma SameItems(items: seq<Json>, ws: seq<Json>)
    requires |ws| == |items| && forall i :: 0 <= i < |items| ==> Canonical(items[i], ws[i])
    ensures Canonical(JArr(items), JArr(ws))
  {
    assert ItemMeanings(items) == ItemMeanings(ws);
  }

  lemma {:induction false} ReadItemList(context: Json, items: seq<Json>, x: Text) returns (ws: seq<Json>)
    requires items != []
    requires forall i :: 0 <= i < |items| ==> WellFormed(items[i]) && items[i] < context
    ensures |ws| == |items| && forall i :: 0 <= i < |items| ==> Canonical(items[i], ws[i])
    ensures ReadRest(Listed(PrintItems(items), CLOSE_BRACKET, x)) == Some(ReadItems(ws, x))
    decreases context, 0, |items|
  {
    hide Print, Listed, Continued, Canonical, ReadValue, WellFormed;
    var ts := PrintItems(items);
    var more := Continued(ts[1..], CLOSE_BRACKET, x);
    ListedSplit(ts, CLOSE_BRACKET, x);
    ContinuedSplit(ts[1..], CLOSE_BRACKET, x);
    var w := ReadPrinted(items[0], more);
    if |items| == 1 {
      assert more[1..] == x;
      ws := [w];
    } else {
      assert ts[1..] == PrintItems(items[1..]);
      ListedSplit(ts[1..], CLOSE_BRACKET, x);
      assert more[1..] == Listed(PrintItems(items[1..]), CLOSE_BRACKET, x);
      var rest := ReadItemList(context, items[1..], x);
      ws := [w] + rest;
      forall i | 0 <= i < |items| ensures Canonical(items[i], ws[i]) {
        assert i > 0 ==> ws[i] == rest[i - 1] && items[i] == items[1..][i - 1];
      }
    }
  }

  // ----- objects -----

  /** w is the value, read back, of the member of v that the entry prints. */
  ghost predicate EntryRead(e: Entry, ms: seq<Member>, m: Member) {
    m.key == e.key && exists i: nat :: EntryOf(e, ms, i) && Canonical(ms[i].value, m.value)
  }

  ghost predicate EntriesRead(es: seq<Entry>, ms: seq<Member>, ns: seq<Member>) {
    |ns| == |es| && forall k :: 0 <= k < |es| ==> EntryRead(es[k], ms, ns[k])
  }

  lemma {:induction false} ReadObject(v: Json, x: Text) returns (w: Json)
    requires v.JObj? && WellFormed(v)
    ensures Canonical(v, w) && ReadValue(Print(v) + x) == Some(ReadJson(w, x))
    decreases v, 0, |v.members| + 1
  {
    hide Print, Listed, Continued, ReadFields, ReadValue, SortEntries, PrintMembers, EntryText, EntryRead, WellFormed;
    hide Canonical;
    var ms := v.members;
    var es := SortEntries(PrintMembers(ms));
    var ts := EntryTexts(es);
    SortedEntriesOf(ms);
    PrintedObject(ms, x);
    ListedSplit(ts, CLOSE_BRACE, x);
    var body := Listed(ts, CLOSE_BRACE, x);
    if es == [] {
      OpenEmpty(x);
      w := JObj([]);
      assert ms == [];
      EmptyObject();
    } else {
      EntryStart(es[0]);
      FirstUnit(ts[0], Continued(ts[1..], CLOSE_BRACE, x));
      var ns := ReadEntryList(v, es, x);
      OpenObject(body, ns, x);
      w := JObj(ns);
      SameObject(ms, es, ns);
    }
  }

  lemma EmptyObject()
    ensures Canonical(JObj([]), JObj([]))
  {}

  lemma {:induction false} ReadEntryList(v: Json, es: seq<Entry>, x: Text) returns (ns: seq<Member>)
    requires v.JObj? && WellFormed(v) && es != [] && EntriesOf(es, v.members)
    ensures EntriesRead(es, v.members, ns)
    ensures ReadFields(Listed(EntryTexts(es), CLOSE_BRACE, x)) == Some(ReadMembers(ns, x))
    decreases v, 0, |es|
  {
    hide Print, Listed, Continued, Canonical, ReadValue, ReadString, WellFormed, Quote, EntryText;
    var ts := EntryTexts(es);
    var more := Continued(ts[1..], CLOSE_BRACE, x);
    ListedSplit(ts, CLOSE_BRACE, x);
    ContinuedSplit(ts[1..], CLOSE_BRACE, x);
    assert FromObject(es[0], v.members);
    var i: nat :| EntryOf(es[0], v.members, i);
    MemberWellFormed(v, i);
    var w := ReadPrinted(v.members[i].value, more);
    var t := EntryText(es[0]) + more;
    ReadEntryStart(es[0], more);
    var m := Member(es[0].key, w);
    assert EntryRead(es[0], v.members, m);
    if |es| == 1 {
      assert more[1..] == x;
      ns := [m];
    } else {
      assert ts[1..] == EntryTexts(es[1..]);
      ListedSplit(ts[1..], CLOSE_BRACE, x);
      assert more[1..] == Listed(EntryTexts(es[1..]), CLOSE_BRACE, x);
      var rest := ReadEntryList(v, es[1..], x);
      ns := [m] + rest;
      forall k | 0 <= k < |es| ensures EntryRead(es[k], v.members, ns[k]) {
        assert k > 0 ==> ns[k] == rest[k - 1] && es[k] == es[1..][k - 1];
      }
    }
  }

  lemma MemberWellFormed(v: Json, i: nat)
    requires v.JObj? && WellFormed(v) && i < |v.members|
    ensures WellFormed(v.members[i].value) && v.members[i].value < v
  {}

  /** An entry starts with its quoted key and a colon. */
  lemma ReadEntryStart(e: Entry, more: Text)
    ensures var t := EntryText(e) + more;
            && t != [] && t[0] == 34
            && ReadString(t[1..]) == Some(ReadText(e.key, [COLON] + (e.text + more)))
            && ([COLON] + (e.text + more))[1..] == e.text + more
  {
    hide ReadString, Escape;
    var t := EntryText(e) + more;
    var after := [COLON] + (e.text + more);
    EntryTextSplit(e, more);
    assert t == [QUOTE] + Closed(e.key, after);
    assert t[1..] == Closed(e.key, after);
    ReadClosed(e.key, after);
  }

  /** The members read, in sorted order, make the same object, with ascending keys. */
  lemma SameObject(ms: seq<Member>, es: seq<Entry>, ns: seq<Member>)
    requires WellFormed(JObj(ms)) && es == SortEntries(PrintMembers(ms)) && EntriesRead(es, ms, ns)
    ensures Canonical(JObj(ms), JObj(ns))
  {
    hide SortEntries, PrintMembers, Fields, Meaning, Print;
    KeysDiffer(ms);
    SortAscends(PrintMembers(ms));
    forall i, j | 0 <= i < j < |ns| ensures ComesBefore(ns[i].key, ns[j].key) && ns[i].key != ns[j].key {
      assert EntryRead(es[i], ms, ns[i]) && EntryRead(es[j], ms, ns[j]);
      BeforeMeans(es[i].key, es[j].key);
      BeforeIsTotal(es[i].key, es[j].key);
    }
    forall k | 0 <= k < |ns| ensures KeysAscend(ns[k].value) && WellFormed(ns[k].value) {
      assert EntryRead(es[k], ms, ns[k]);
    }
    SameObjectFields(ms, es, ns);
    ObjectMeaning(ms);
    ObjectMeaning(ns);
  }

  lemma ObjectMeaning(ms: seq<Member>)
    ensures Meaning(JObj(ms)) == VObj(Fields(ms))
  {}

  lemma SameObjectFields(ms: seq<Member>, es: seq<Entry>, ns: seq<Member>)
    requires WellFormed(JObj(ms)) && es == SortEntries(PrintMembers(ms)) && EntriesRead(es, ms, ns)
    requires forall i, j :: 0 <= i < j < |ns| ==> ns[i].key != ns[j].key
    ensures Fields(ns) == Fields(ms)
  {
    hide SortEntries, PrintMembers, Fields, Meaning, Print, KeysAscend, WellFormed;
    WellFormedKeys(ms);
    forall k | k in Fields(ns) ensures k in Fields(ms) && Fields(ms)[k] == Fields(ns)[k] {
      var p: nat :| p < |ns| && ns[p].key == k;
      FieldAt(ns, p);
      assert EntryRead(es[p], ms, ns[p]);
      var i: nat :| EntryOf(es[p], ms, i) && Canonical(ms[i].value, ns[p].value);
      FieldAt(ms, i);
    }
    forall k | k in Fields(ms) ensures k in Fields(ns) {
      var i: nat :| i < |ms| && ms[i].key == k;
      assert PrintMembers(ms)[i] in es;
      var p :| 0 <= p < |es| && es[p] == PrintMembers(ms)[i];
      assert EntryRead(es[p], ms, ns[p]);
      FieldAt(ns, p);
    }
  }

  lemma WellFormedKeys(ms: seq<Member>)
    requires WellFormed(JObj(ms))
    ensures forall i, j :: 0 <= i < j < |ms| ==> ms[i].key != ms[j].key
  {}

  /** canonicalJson prints a text that reads back as the value, with the keys of every object ascending. */
  lemma CanonicalJsonReadsBack(v: Json) returns (w: Json)
    requires WellFormed(v)
    ensures ReadValue(Print(v)) == Some(ReadJson(w, []))
    ensures Meaning(w) == Meaning(v) && KeysAscend(w)
  {
    hide Print, ReadValue, Meaning, KeysAscend, WellFormed;
    w := ReadPrinted(v, []);
    assert Print(v) + [] == Print(v);
  }
}
