/**
 * The text hashed for an audit row and the timestamp at its end, read back part by part
 * (src/services/audit.service.ts).
 */
module HashReader {
  import opened Basics
  import opened Gregorian
  import opened CanonicalJson
  import opened JsonReader
  import opened Timestamps
  import opened AuditHash

  // ----- the parts of the hashed text -----

  datatype HashParts = HashParts(previousHash: Text, payload: Json, before: Json, after: Json, timestamp: Text)

  predicate IsHexDigit(c: CodeUnit) {
    48 <= c <= 57 || 97 <= c <= 102
  }

  /** Reads the longest run of lower-case hexadecimal digits. */
  function ReadHex(t: Text): (r: ReadText) {
    if t == [] || !IsHexDigit(t[0]) then ReadText([], t)
    else
      var after := ReadHex(t[1..]);
      ReadText([t[0]] + after.s, after.rest)
  }

  /** A version digit, the previous hash, and three JSON values; the rest is the timestamp. */
  function ReadHashInput(t: Text): Option<HashParts> {
    if t == [] || t[0] != 49 then None
    else
      var hash := ReadHex(t[1..]);
      var payload := ReadValue(hash.rest);
      if payload == None then None
      else
        var before := ReadValue(payload.value.rest);
        if before == None then None
        else
          var after := ReadValue(before.value.rest);
          if after == None then None
          else Some(HashParts(hash.s, payload.value.v, before.value.v, after.value.v, after.value.rest))
  }

  lemma {:induction false} ReadHexRun(a: Text, x: Text)
    requires (forall c :: c in a ==> IsHexDigit(c)) && (x == [] || !IsHexDigit(x[0]))
    ensures ReadHex(a + x) == ReadText(a, x)
    decreases |a|
  {
    if a == [] {
      assert a + x == x;
    } else {
      assert (a + x)[0] == a[0] && (a + x)[1..] == a[1..] + x;
      assert a[0] in a;
      ReadHexRun(a[1..], x);
      assert a == [a[0]] + a[1..];
    }
  }

  /**
   * The hashed text reads back as version 1, the previous hash, the payload, the state before, the state
   * after and the timestamp, in this order, with the keys of every object ascending.
   */
  lemma HashInputReadsBack(previousHash: Option<Text>, c: Content) returns (parts: HashParts)
    requires ValidContent(c) && (previousHash.Some? ==> IsHash(previousHash.value))
    ensures ReadHashInput(HashInput(previousHash, c)) == Some(parts)
    ensures parts.previousHash == previousHash.GetOr([]) && parts.timestamp == IsoString(c.createdAt)
    ensures Meaning(parts.payload) == Meaning(c.payload) && KeysAscend(parts.payload)
    ensures Meaning(parts.before) == Meaning(c.beforeState) && KeysAscend(parts.before)
    ensures Meaning(parts.after) == Meaning(c.afterState) && KeysAscend(parts.after)
  {
    hide Print, WellFormed, Meaning, IsoString, ReadValue, ReadHex, KeysAscend;
    var hash := previousHash.GetOr([]);
    var afterText := Print(c.afterState) + IsoString(c.createdAt);
    var beforeText := Print(c.beforeState) + afterText;
    var text := Print(c.payload) + beforeText;
    StartsWithBrace(c);
    HashDigits(previousHash);
    ReadHexRun(hash, text);
    assert HashInput(previousHash, c) == [49] + (hash + text);
    assert ([49] + (hash + text))[1..] == hash + text;
    var payload := ReadPrinted(c.payload, beforeText);
    var before := ReadPrinted(c.beforeState, afterText);
    var after := ReadPrinted(c.afterState, IsoString(c.createdAt));
    parts := HashParts(hash, payload, before, after, IsoString(c.createdAt));
  }

  lemma HashDigits(previousHash: Option<Text>)
    requires previousHash.Some? ==> IsHash(previousHash.value)
    ensures forall c :: c in previousHash.GetOr([]) ==> IsHexDigit(c)
  {}

  // ----- the timestamp -----

  predicate AllDigits(t: Text) {
    forall i :: 0 <= i < |t| ==> 48 <= t[i] <= 57
  }

  /** The number that decimal digits write. */
  function Decimal(t: Text): int {
    if t == [] then 0 else 10 * Decimal(t[..|t| - 1]) + t[|t| - 1] - 48
  }

  lemma {:induction false} DigitsRead(n: int, w: nat)
    requires 0 <= n < Pow10(w)
    ensures AllDigits(Digits(n, w)) && Decimal(Digits(n, w)) == n
  {
    if w > 0 {
      DigitsRead(n / 10, w - 1);
      var t := Digits(n, w);
      assert t[..w - 1] == Digits(n / 10, w - 1);
    }
  }

  lemma PowersOfTen()
    ensures Pow10(2) == 100 && Pow10(3) == 1000 && Pow10(4) == 10_000 && Pow10(6) == 1_000_000
  {
    assert Pow10(1) == 10 && Pow10(2) == 100 && Pow10(3) == 1000 && Pow10(4) == 10_000 && Pow10(5) == 100_000;
  }

  /** The field of a text from place i on that holds the number n in decimal. */
  ghost predicate Holds(t: Text, i: int, w: nat, n: int) {
    0 <= i && i + w <= |t| && AllDigits(t[i..i + w]) && Decimal(t[i..i + w]) == n
  }

  /** Each field of the timestamp stands in its place; o is the year's width beyond four digits. */
  ghost predicate IsoFields(s: Text, o: int, t: int) {
    var d, ms := DateOnly(t), TimeOfDay(t);
    && |s| == 24 + o
    && (if 0 <= YearOf(d) <= 9999 then o == 0 && Holds(s, 0, 4, YearOf(d))
        else o == 3 && s[0] == (if YearOf(d) > 0 then 43 else 45) &&
             Holds(s, 1, 6, if YearOf(d) > 0 then YearOf(d) else -YearOf(d)))
    && s[o + 4] == 45 && Holds(s, o + 5, 2, MonthOf(d) + 1)
    && s[o + 7] == 45 && Holds(s, o + 8, 2, DateOf(d))
    && s[o + 10] == 84 && Holds(s, o + 11, 2, ms / 3_600_000)
    && s[o + 13] == 58 && Holds(s, o + 14, 2, ms / 60_000 % 60)
    && s[o + 16] == 58 && Holds(s, o + 17, 2, ms / 1000 % 60)
    && s[o + 19] == 46 && Holds(s, o + 20, 3, ms % 1000)
    && s[o + 23] == 90
  }

  lemma HoldsAt(before: Text, n: int, w: nat, after: Text)
    requires 0 <= n < Pow10(w)
    ensures Holds(before + Digits(n, w) + after, |before|, w, n)
  {
    hide Digits;
    DigitsRead(n, w);
    var t := before + Digits(n, w) + after;
    assert t[|before|..|before| + w] == Digits(n, w);
  }

  lemma HoldsShifted(t: Text, i: int, w: nat, n: int, before: Text, after: Text)
    requires Holds(t, i, w, n)
    ensures Holds(before + t + after, |before| + i, w, n)
  {
    assert (before + t + after)[|before| + i..|before| + i + w] == t[i..i + w];
  }

  lemma YearField(y: int)
    requires -271_821 <= y <= 275_760
    ensures var t := YearText(y);
            if 0 <= y <= 9999 then |t| == 4 && Holds(t, 0, 4, y)
            else |t| == 7 && t[0] == (if y > 0 then 43 else 45) && Holds(t, 1, 6, if y > 0 then y else -y)
  {
    PowersOfTen();
    hide Digits, Pow10;
    if 0 <= y <= 9999 {
      HoldsAt([], y, 4, []);
      assert [] + Digits(y, 4) + [] == YearText(y);
    } else {
      var sign: Text := if y > 0 then [43] else [45];
      var n := if y > 0 then y else -y;
      HoldsAt(sign, n, 6, []);
      assert sign + Digits(n, 6) + [] == YearText(y);
    }
  }

  lemma DateFields(d: int)
    requires InDateRange(d) && DateOf(d) >= 0 && DateOf(d) < 100
    ensures var t, y := DateText(d), YearText(YearOf(d));
            && |t| == |y| + 6 && t[..|y|] == y
            && t[|y|] == 45 && Holds(t, |y| + 1, 2, MonthOf(d) + 1)
            && t[|y| + 3] == 45 && Holds(t, |y| + 4, 2, DateOf(d))
  {
    PowersOfTen();
    hide Digits, Pow10, YearText, YearOf, MonthOf, DateOf;
    var y, m, date := YearText(YearOf(d)), Digits(MonthOf(d) + 1, 2), Digits(DateOf(d), 2);
    HoldsAt(y + [45], MonthOf(d) + 1, 2, [45] + date);
    HoldsAt(y + [45] + m + [45], DateOf(d), 2, []);
    assert DateText(d) == y + [45] + m + ([45] + date) == y + [45] + m + [45] + date + [];
  }

  lemma TimeFields(ms: int)
    requires 0 <= ms < DAY_MS
    ensures var t := TimeText(ms);
            && Holds(t, 0, 2, ms / 3_600_000) && t[2] == 58
            && Holds(t, 3, 2, ms / 60_000 % 60) && t[5] == 58
            && Holds(t, 6, 2, ms / 1000 % 60) && t[8] == 46
            && Holds(t, 9, 3, ms % 1000)
  {
    PowersOfTen();
    MillisecondParts(ms);
    FourFields(ms / 3_600_000, ms / 60_000 % 60, ms / 1000 % 60, ms % 1000);
  }

  /** Three fields of two digits and one of three, with the marks of a time between them. */
  lemma FourFields(a: int, b: int, c: int, d: int)
    requires 0 <= a < Pow10(2) && 0 <= b < Pow10(2) && 0 <= c < Pow10(2) && 0 <= d < Pow10(3)
    ensures var t := Digits(a, 2) + [58] + Digits(b, 2) + [58] + Digits(c, 2) + [46] + Digits(d, 3);
            && |t| == 12
            && Holds(t, 0, 2, a) && t[2] == 58 && Holds(t, 3, 2, b) && t[5] == 58
            && Holds(t, 6, 2, c) && t[8] == 46 && Holds(t, 9, 3, d)
  {
    hide Digits, Pow10, Holds;
    var h, m, s, f := Digits(a, 2), Digits(b, 2), Digits(c, 2), Digits(d, 3);
    var early, late := h + [58] + m + [58], s + [46] + f;
    assert h + [58] + m + [58] + s + [46] + f == early + late;
    TwoFields(a, b, [58]);
    LastFields(c, d);
    HoldsShifted(early, 0, 2, a, [], late);
    HoldsShifted(early, 3, 2, b, [], late);
    assert [] + early + late == early + late;
    HoldsShifted(late, 0, 2, c, early, []);
    HoldsShifted(late, 3, 3, d, early, []);
    assert early + late + [] == early + late;
  }

  lemma TwoFields(a: int, b: int, mark: Text)
    requires 0 <= a < Pow10(2) && 0 <= b < Pow10(2) && |mark| == 1
    ensures var t := Digits(a, 2) + mark + Digits(b, 2) + mark;
            |t| == 6 && Holds(t, 0, 2, a) && t[2] == mark[0] && Holds(t, 3, 2, b) && t[5] == mark[0]
  {
    hide Digits, Pow10, Holds;
    var h, m := Digits(a, 2), Digits(b, 2);
    HoldsAt([], a, 2, mark + m + mark);
    HoldsAt(h + mark, b, 2, mark);
    assert h + mark + m + mark == [] + h + (mark + m + mark);
  }

  lemma LastFields(c: int, d: int)
    requires 0 <= c < Pow10(2) && 0 <= d < Pow10(3)
    ensures var t := Digits(c, 2) + [46] + Digits(d, 3);
            |t| == 6 && Holds(t, 0, 2, c) && t[2] == 46 && Holds(t, 3, 3, d)
  {
    hide Digits, Pow10, Holds;
    var s, f := Digits(c, 2), Digits(d, 3);
    HoldsAt([], c, 2, [46] + f);
    HoldsAt(s + [46], d, 3, []);
    assert s + [46] + f == [] + s + ([46] + f) == s + [46] + f + [];
  }

  /** toISOString writes year, month, day, hours, minutes, seconds and milliseconds of UTC, each in its place. */
  lemma IsoStringReadsBack(t: int) returns (o: int)
    requires InDateRange(DateOnly(t))
    ensures IsoFields(IsoString(t), o, t)
  {
    var d, ms := DateOnly(t), TimeOfDay(t);
    DayInMonth(d);
    MonthLengths(MonthIndex(d));
    YearField(YearOf(d));
    DateFields(d);
    TimeFields(ms);
    hide Holds, DateText, TimeText, YearText, YearOf, MonthOf, DateOf, MonthIndex, MonthLength, FirstOf;
    o := |YearText(YearOf(d))| - 4;
    var s := IsoString(t);
    ShiftAll(d, ms, s, o);
  }

  lemma ShiftAll(d: int, ms: int, s: Text, o: int)
    requires 0 <= ms < DAY_MS && DateOf(d) >= 0
    requires s == DateText(d) + [84] + TimeText(ms) + [90]
    requires var t, y := DateText(d), YearText(YearOf(d));
             && o == |y| - 4 && o >= 0 && |t| == |y| + 6 && t[..|y|] == y
             && t[|y|] == 45 && Holds(t, |y| + 1, 2, MonthOf(d) + 1)
             && t[|y| + 3] == 45 && Holds(t, |y| + 4, 2, DateOf(d))
    requires var t := TimeText(ms);
             && Holds(t, 0, 2, ms / 3_600_000) && t[2] == 58
             && Holds(t, 3, 2, ms / 60_000 % 60) && t[5] == 58
             && Holds(t, 6, 2, ms / 1000 % 60) && t[8] == 46
             && Holds(t, 9, 3, ms % 1000)
    ensures |s| == 24 + o && s[..o + 4] == YearText(YearOf(d))
    ensures s[o + 4] == 45 && Holds(s, o + 5, 2, MonthOf(d) + 1)
    ensures s[o + 7] == 45 && Holds(s, o + 8, 2, DateOf(d))
    ensures s[o + 10] == 84 && Holds(s, o + 11, 2, ms / 3_600_000)
    ensures s[o + 13] == 58 && Holds(s, o + 14, 2, ms / 60_000 % 60)
    ensures s[o + 16] == 58 && Holds(s, o + 17, 2, ms / 1000 % 60)
    ensures s[o + 19] == 46 && Holds(s, o + 20, 3, ms % 1000) && s[o + 23] == 90
    ensures forall i, w: nat, n :: Holds(YearText(YearOf(d)), i, w, n) ==> Holds(s, i, w, n)
  {
    hide Holds, DateText, TimeText, YearText, YearOf, MonthOf, DateOf;
    var date, time, y := DateText(d), TimeText(ms), YearText(YearOf(d));
    var tail := [84] + time + [90];
    assert s == [] + date + tail;
    assert s == (date + [84]) + time + [90];
    HoldsShifted(date, |y| + 1, 2, MonthOf(d) + 1, [], tail);
    HoldsShifted(date, |y| + 4, 2, DateOf(d), [], tail);
    HoldsShifted(time, 0, 2, ms / 3_600_000, date + [84], [90]);
    HoldsShifted(time, 3, 2, ms / 60_000 % 60, date + [84], [90]);
    HoldsShifted(time, 6, 2, ms / 1000 % 60, date + [84], [90]);
    HoldsShifted(time, 9, 3, ms % 1000, date + [84], [90]);
    assert date == y + date[|y|..];
    assert s == [] + y + (date[|y|..] + tail);
    forall i, w: nat, n | Holds(y, i, w, n) ensures Holds(s, i, w, n) {
      HoldsShifted(y, i, w, n, [], date[|y|..] + tail);
    }
  }

  lemma HoldsInPrefix(t: Text, m: nat, i: int, w: nat, n: int)
    requires Holds(t, i, w, n) && i + w <= m <= |t|
    ensures Holds(t[..m], i, w, n)
  {
    assert t[..m][i..i + w] == t[i..i + w];
  }

  /** A holiday key is the year, month and day of the date, for years of four digits. */
  lemma ToKeyReadsBack(d: int)
    requires 0 <= YearOf(d) <= 9999
    ensures var k := ToKey(d);
            && |k| == 10 && k[4] == 45 && k[7] == 45
            && Holds(k, 0, 4, YearOf(d)) && Holds(k, 5, 2, MonthOf(d) + 1) && Holds(k, 8, 2, DateOf(d))
  {
    hide IsoString, YearOf, MonthOf, DateOf, Holds;
    assert DateOnly(d * DAY_MS) == d;
    var o := IsoStringReadsBack(d * DAY_MS);
    var s := IsoString(d * DAY_MS);
    HoldsInPrefix(s, 10, 0, 4, YearOf(d));
    HoldsInPrefix(s, 10, 5, 2, MonthOf(d) + 1);
    HoldsInPrefix(s, 10, 8, 2, DateOf(d));
  }
}
