/**
 * When rule conditions fire, told from the stored values, and what they make of a field
 * (src/services/case-field-value.validation.ts).
 */
module Conditions {
  import opened Basics
  import opened FieldRules

  // ----- presence -----

  predicate IsScalar(t: FieldType) {
    t != Select && t != MultiSelect
  }

  /** A select has a value iff an option is chosen, a multi-select iff some are, any other field iff a column is set. */
  lemma PresenceMeans(stored: Stored, field: int)
    requires field in stored
    ensures var v := stored[field];
            && (v.fieldType == Select ==> (IsPresent(stored, field) <==> v.optionId != None))
            && (v.fieldType == MultiSelect ==> (IsPresent(stored, field) <==> v.optionIds != []))
            && (IsScalar(v.fieldType) ==>
                  (!IsPresent(stored, field) <==>
                   v.valueText == None && v.valueNumber == None && v.valueBoolean == None && v.valueDate == None))
  {}

  /** On an absent value IS_EMPTY fires and no other operator does; IS_NOT_EMPTY is its complement. */
  lemma AbsentFiresOnlyIsEmpty(r: Rule, stored: Stored)
    ensures !IsPresent(stored, r.conditionFieldId) ==> (Fires(r, stored) <==> r.operator == IsEmpty)
    ensures r.operator == IsEmpty ==> (Fires(r, stored) <==> !IsPresent(stored, r.conditionFieldId))
    ensures r.operator == IsNotEmpty ==> (Fires(r, stored) <==> IsPresent(stored, r.conditionFieldId))
  {}

  // ----- comparable values -----

  /** A stored number against a number, or a stored date against a text that is a date. */
  datatype Comparable = Numbers(stored: real, condition: real) | Dates(storedAt: int, conditionAt: int)

  /** The rule compares its field's value with its condition's. */
  ghost predicate Compares(r: Rule, stored: Stored, c: Comparable) {
    && r.conditionFieldId in stored
    && var v := stored[r.conditionFieldId];
       && IsScalar(v.fieldType)
       && match c
          case Numbers(x, n) =>
            v.valueNumber == Some(x) && v.valueDate == None && r.conditionValue == NumberValue(n)
          case Dates(d, p) =>
            && v.valueNumber == None && v.valueDate == Some(d)
            && r.conditionValue.TextValue? && r.conditionValue.parsed == Some(p)
  }

  predicate Less(c: Comparable) {
    match c
    case Numbers(x, n) => x < n
    case Dates(d, p) => d < p
  }

  predicate Same(c: Comparable) {
    match c
    case Numbers(x, n) => x == n
    case Dates(d, p) => d == p
  }

  /** On comparable values EQUALS, NOT_EQUALS, LESS_THAN and GREATER_THAN fire as the values compare. */
  lemma ComparisonMeans(r: Rule, stored: Stored, c: Comparable)
    requires Compares(r, stored, c)
    ensures r.operator == Equals ==> (Fires(r, stored) <==> Same(c))
    ensures r.operator == NotEquals ==> (Fires(r, stored) <==> !Same(c))
    ensures r.operator == LessThan ==> (Fires(r, stored) <==> Less(c))
    ensures r.operator == GreaterThan ==> (Fires(r, stored) <==> !Less(c) && !Same(c))
    ensures r.operator == In || r.operator == NotIn ==> !Fires(r, stored)
  {
    DatesAsReals(c);
  }

  lemma DatesAsReals(c: Comparable)
    ensures c.Dates? ==>
              ((c.storedAt - c.conditionAt) as real > 0.0 <==> c.storedAt > c.conditionAt) &&
              ((c.storedAt - c.conditionAt) as real < 0.0 <==> c.storedAt < c.conditionAt)
  {}

  lemma ExactlyOneFires(r: Rule, stored: Stored, c: Comparable)
    requires Compares(r, stored, c)
    ensures var equals := Fires(r.(operator := Equals), stored);
            var less := Fires(r.(operator := LessThan), stored);
            var greater := Fires(r.(operator := GreaterThan), stored);
            (equals || less || greater) && !(equals && less) && !(equals && greater) && !(less && greater)
  {
    hide Fires;
    ComparisonMeans(r.(operator := Equals), stored, c);
    ComparisonMeans(r.(operator := LessThan), stored, c);
    ComparisonMeans(r.(operator := GreaterThan), stored, c);
  }

  /** b stores at least what a stores, against the same condition. */
  predicate AtLeast(a: Comparable, b: Comparable) {
    match a
    case Numbers(x, n) => b.Numbers? && b.condition == n && b.stored >= x
    case Dates(d, p) => b.Dates? && b.conditionAt == p && b.storedAt >= d
  }

  /** Raising the stored value never turns GREATER_THAN off, and lowering it never turns LESS_THAN off. */
  lemma ComparisonsAreMonotone(r: Rule, lower: Stored, a: Comparable, higher: Stored, b: Comparable)
    requires Compares(r, lower, a) && Compares(r, higher, b) && AtLeast(a, b)
    ensures r.operator == GreaterThan && Fires(r, lower) ==> Fires(r, higher)
    ensures r.operator == LessThan && Fires(r, higher) ==> Fires(r, lower)
  {
    hide Fires;
    ComparisonMeans(r, lower, a);
    ComparisonMeans(r, higher, b);
  }

  // ----- other values -----

  /** A date against a text that is no date, or anything but a text, is comparable to nothing and unequal. */
  lemma DateAgainstNoDate(r: Rule, stored: Stored)
    requires r.conditionFieldId in stored && IsScalar(stored[r.conditionFieldId].fieldType)
    requires stored[r.conditionFieldId].valueNumber == None && stored[r.conditionFieldId].valueDate.Some?
    requires r.conditionValue.TextValue? ==> r.conditionValue.parsed == None
    ensures r.operator == NotEquals ==> Fires(r, stored)
    ensures r.operator in {Equals, LessThan, GreaterThan} ==> !Fires(r, stored)
  {}

  /** A boolean or text equals exactly the same JSON scalar, and neither is less or greater than anything. */
  lemma PlainEqualityMeans(r: Rule, stored: Stored)
    requires r.conditionFieldId in stored && IsScalar(stored[r.conditionFieldId].fieldType)
    requires var v := stored[r.conditionFieldId];
             v.valueNumber == None && v.valueDate == None && (v.valueBoolean.Some? || v.valueText.Some?)
    ensures var v := stored[r.conditionFieldId];
            && (r.operator == Equals ==>
                  (Fires(r, stored) <==>
                   if v.valueBoolean.Some? then r.conditionValue == BooleanValue(v.valueBoolean.value)
                   else r.conditionValue.TextValue? && r.conditionValue.t == v.valueText.value))
            && (r.operator == LessThan || r.operator == GreaterThan ==> !Fires(r, stored))
  {}

  /** On every present value but a multi-select's NOT_EQUALS is the complement of EQUALS. */
  lemma NotEqualsComplements(r: Rule, stored: Stored)
    requires IsPresent(stored, r.conditionFieldId) && stored[r.conditionFieldId].fieldType != MultiSelect
    ensures Fires(r.(operator := NotEquals), stored) <==> !Fires(r.(operator := Equals), stored)
  {}

  /** A single select equals a condition iff the option ids agree, and knows no other comparison. */
  lemma SelectEqualsMeans(r: Rule, stored: Stored, option: int)
    requires r.conditionFieldId in stored && stored[r.conditionFieldId].fieldType == Select
    requires stored[r.conditionFieldId].optionId == Some(option)
    ensures r.operator == Equals ==> (Fires(r, stored) <==> r.conditionOptionId == Some(option))
    ensures r.operator in {In, NotIn, LessThan, GreaterThan} ==> !Fires(r, stored)
  {}

  /** The two lists have an option in common. */
  predicate HaveCommon(a: seq<int>, b: seq<int>) {
    exists i, j :: 0 <= i < |a| && 0 <= j < |b| && a[i] == b[j]
  }

  lemma ShareMeans(a: seq<int>, b: seq<int>)
    ensures Share(a, b) <==> HaveCommon(a, b)
  {
    if HaveCommon(a, b) {
      var i, j :| 0 <= i < |a| && 0 <= j < |b| && a[i] == b[j];
      assert a[i] in a && a[i] in b;
    }
    if Share(a, b) {
      ShareAt(a, b);
    }
  }

  lemma {:induction false} ShareAt(a: seq<int>, b: seq<int>)
    requires Share(a, b)
    ensures HaveCommon(a, b)
  {
    var w: int :| w in a && w in b;
    var i :| 0 <= i < |a| && a[i] == w;
    var j :| 0 <= j < |b| && b[j] == w;
    assert a[i] == b[j];
  }

  /** A multi-select with options is IN a list iff they share one, else NOT_IN it; it knows no other comparison. */
  lemma MultiSelectInMeans(r: Rule, stored: Stored)
    requires r.conditionFieldId in stored && stored[r.conditionFieldId].fieldType == MultiSelect
    requires stored[r.conditionFieldId].optionIds != [] && r.conditionValue.OptionList?
    ensures var share := HaveCommon(r.conditionValue.ids, stored[r.conditionFieldId].optionIds);
            && (r.operator == In ==> (Fires(r, stored) <==> share))
            && (r.operator == NotIn ==> (Fires(r, stored) <==> !share))
            && (r.operator in {Equals, NotEquals, LessThan, GreaterThan} ==> !Fires(r, stored))
  {
    hide Share, HaveCommon;
    ShareMeans(r.conditionValue.ids, stored[r.conditionFieldId].optionIds);
  }

  // ----- what the runtime makes of it -----

  /** A field is required iff it is visible and some REQUIRE rule of the list that targets it fires. */
  lemma RequiredMeans(fieldIds: set<int>, staticHidden: set<int>, stored: Stored, rules: seq<Rule>, field: int)
    requires field in fieldIds
    ensures var rt := FieldRuntimes(fieldIds, staticHidden, stored, rules)[field];
            rt.isRequired <==>
            !rt.isHidden &&
            exists r :: r in rules && r.effect == RequireField && r.targetFieldId == field && Fires(r, stored)
  {
    hide Fires, SortRules, HidePass, DefaultBy;
    var sorted := SortRules(rules);
    if i :| 0 <= i < |sorted| && sorted[i].effect == RequireField && sorted[i].targetFieldId == field &&
            Fires(sorted[i], stored) {
      assert sorted[i] in rules;
    }
    if r :| r in rules && r.effect == RequireField && r.targetFieldId == field && Fires(r, stored) {
      assert r in sorted;
      var i :| 0 <= i < |sorted| && sorted[i] == r;
    }
  }

  /** A visible field is required by a lone GREATER_THAN rule on a number iff the number exceeds the condition. */
  lemma RequiredAboveThreshold(
      fieldIds: set<int>, staticHidden: set<int>, stored: Stored, r: Rule, x: real, n: real)
    requires r.effect == RequireField && r.operator == GreaterThan && r.targetFieldId in fieldIds
    requires Compares(r, stored, Numbers(x, n))
    ensures var rt := FieldRuntimes(fieldIds, staticHidden, stored, [r])[r.targetFieldId];
            !rt.isHidden ==> (rt.isRequired <==> x > n)
  {
    hide Fires, FieldRuntimes;
    RequiredMeans(fieldIds, staticHidden, stored, [r], r.targetFieldId);
    ComparisonMeans(r, stored, Numbers(x, n));
    assert r in [r];
  }
}
