/**
 * The field rule engine: presence, conditions and the per-field runtime state of
 * src/services/case-field-value.validation.ts, and the independent required-field check of
 * src/services/case-field-value.service.ts. Fields, options and rules are numbered.
 */
module FieldRules {
  import opened Basics

  datatype FieldType =
    | Text | TextArea | Number | Decimal | Currency | Percentage | Date | DateTime | Time | Boolean
    | Select | MultiSelect | Email | Phone | Url
    | UserReference | DepartmentReference | CaseReference | DocumentReference

  datatype Operator = Equals | NotEquals | IsEmpty | IsNotEmpty | GreaterThan | LessThan | In | NotIn

  datatype Effect = RequireField | HideField | SetDefault

  datatype StoredValue = StoredValue(
    fieldType: FieldType,
    valueText: Option<string>,
    valueNumber: Option<real>,
    valueBoolean: Option<bool>,
    valueDate: Option<int>,
    optionId: Option<int>,
    optionIds: seq<int>)

  /** A condition value as stored JSON. For a text, parsed is the time `new Date(text)` yields, if any. */
  datatype ConditionValue =
    | NoValue
    | NumberValue(n: real)
    | BooleanValue(b: bool)
    | TextValue(t: string, parsed: Option<int>)
    | OptionList(ids: seq<int>)

  datatype Rule = Rule(
    id: int,
    priority: int,
    createdAt: int,
    effect: Effect,
    conditionFieldId: int,
    operator: Operator,
    conditionValue: ConditionValue,
    conditionOptionId: Option<int>,
    targetFieldId: int,
    defaultPayload: Option<string>)

  datatype FieldRuntime = FieldRuntime(isHidden: bool, isRequired: bool, defaultPayload: Option<string>)

  type Stored = map<int, StoredValue>

  // ----- presence and conditions -----

  predicate IsPresentValue(v: StoredValue) {
    if v.fieldType == MultiSelect then |v.optionIds| > 0
    else if v.fieldType == Select then v.optionId.Some?
    else v.valueText.Some? || v.valueNumber.Some? || v.valueBoolean.Some? || v.valueDate.Some?
  }

  predicate IsPresent(stored: Stored, field: int) {
    field in stored && IsPresentValue(stored[field])
  }

  /** `stored === condition` on a scalar: a date object equals no JSON value. */
  predicate StrictlyEqual(v: StoredValue, c: ConditionValue) {
    if v.valueNumber.Some? then c == NumberValue(v.valueNumber.value)
    else if v.valueDate.Some? then false
    else if v.valueBoolean.Some? then c == BooleanValue(v.valueBoolean.value)
    else v.valueText.Some? && c.TextValue? && c.t == v.valueText.value
  }

  /** stored - condition, when the two can be compared. */
  function Compare(v: StoredValue, c: ConditionValue): Option<real> {
    if v.valueNumber.Some? && c.NumberValue? then Some(v.valueNumber.value - c.n)
    else if v.valueDate.Some? && c.TextValue? && c.parsed.Some? then Some((v.valueDate.value - c.parsed.value) as real)
    else None
  }

  predicate ScalarMet(op: Operator, c: ConditionValue, v: StoredValue) {
    var equal := if v.valueDate.Some? && c.TextValue? then c.parsed == v.valueDate else StrictlyEqual(v, c);
    match op
    case Equals => equal
    case NotEquals => !equal
    case GreaterThan => Compare(v, c).Some? && Compare(v, c).value > 0.0
    case LessThan => Compare(v, c).Some? && Compare(v, c).value < 0.0
    case _ => false
  }

  predicate Share(wanted: seq<int>, chosen: seq<int>) {
    exists w :: w in wanted && w in chosen
  }

  predicate ConditionMet(op: Operator, c: ConditionValue, option: Option<int>, stored: Stored, field: int) {
    if op == IsEmpty then !IsPresent(stored, field)
    else if op == IsNotEmpty then IsPresent(stored, field)
    else if !IsPresent(stored, field) then false
    else
      var v := stored[field];
      if v.fieldType == Select then
        (op == Equals && v.optionId == option) || (op == NotEquals && v.optionId != option)
      else if v.fieldType == MultiSelect then
        var wanted := if c.OptionList? then c.ids else [];
        var intersects := Share(wanted, v.optionIds);
        (op == In && intersects) || (op == NotIn && !intersects)
      else ScalarMet(op, c, v)
  }

  predicate Fires(r: Rule, stored: Stored) {
    ConditionMet(r.operator, r.conditionValue, r.conditionOptionId, stored, r.conditionFieldId)
  }

  // ----- rule order -----

  /** Priority first, then creation time. */
  predicate Earlier(a: Rule, b: Rule) {
    a.priority < b.priority || (a.priority == b.priority && a.createdAt < b.createdAt)
  }

  function InsertRule(r: Rule, sorted: seq<Rule>): (rs: seq<Rule>)
    ensures forall x :: x in rs <==> x == r || x in sorted
    ensures |rs| == |sorted| + 1
  {
    if sorted == [] then [r]
    else
      var last := sorted[|sorted| - 1];
      var front := sorted[..|sorted| - 1];
      assert sorted == front + [last];
      if Earlier(r, last) then InsertRule(r, front) + [last] else sorted + [r]
  }

  /** The stable sort that computeFieldRuntime starts with. */
  function SortRules(rules: seq<Rule>): (rs: seq<Rule>)
    ensures forall x :: x in rs <==> x in rules
    ensures |rs| == |rules|
  {
    if rules == [] then []
    else
      assert rules == rules[..|rules| - 1] + [rules[|rules| - 1]];
      InsertRule(rules[|rules| - 1], SortRules(rules[..|rules| - 1]))
  }

  ghost predicate InOrder(rs: seq<Rule>) {
    forall i, j :: 0 <= i < j < |rs| ==> !Earlier(rs[j], rs[i])
  }

  lemma {:induction false} InsertKeepsOrder(r: Rule, sorted: seq<Rule>)
    requires InOrder(sorted)
    ensures InOrder(InsertRule(r, sorted))
  {
    if sorted != [] {
      var last, front := sorted[|sorted| - 1], sorted[..|sorted| - 1];
      if Earlier(r, last) {
        InsertKeepsOrder(r, front);
        var rs := InsertRule(r, front);
        forall i | 0 <= i < |rs| ensures !Earlier(last, rs[i]) {
          assert rs[i] in rs;
        }
      }
    }
  }

  lemma {:induction false} SortIsInOrder(rules: seq<Rule>)
    ensures InOrder(SortRules(rules))
    ensures var rs := SortRules(rules);
            forall i, j :: 0 <= i < j < |rs| ==>
              rs[i].priority <= rs[j].priority &&
              (rs[i].priority == rs[j].priority ==> rs[i].createdAt <= rs[j].createdAt)
  {
    if rules != [] {
      SortIsInOrder(rules[..|rules| - 1]);
      InsertKeepsOrder(rules[|rules| - 1], SortRules(rules[..|rules| - 1]));
    }
  }

  /** The rules with this priority and creation time, in the order of the list. */
  function Tied(rules: seq<Rule>, priority: int, createdAt: int): seq<Rule> {
    if rules == [] then []
    else
      var r := rules[|rules| - 1];
      Tied(rules[..|rules| - 1], priority, createdAt) +
      if r.priority == priority && r.createdAt == createdAt then [r] else []
  }

  lemma TiedAppend(rules: seq<Rule>, r: Rule, priority: int, createdAt: int)
    ensures Tied(rules + [r], priority, createdAt) ==
            Tied(rules, priority, createdAt) + if r.priority == priority && r.createdAt == createdAt then [r] else []
  {
    assert (rules + [r])[..|rules|] == rules;
  }

  lemma {:induction false} InsertKeepsTies(r: Rule, sorted: seq<Rule>, priority: int, createdAt: int)
    requires InOrder(sorted)
    ensures Tied(InsertRule(r, sorted), priority, createdAt) ==
            Tied(sorted, priority, createdAt) + if r.priority == priority && r.createdAt == createdAt then [r] else []
  {
    if sorted == [] {
      TiedAppend([], r, priority, createdAt);
      assert [] + [r] == [r];
    } else {
      hide Tied;
      var front, last := sorted[..|sorted| - 1], sorted[|sorted| - 1];
      assert sorted == front + [last];
      TiedAppend(sorted, r, priority, createdAt);
      if Earlier(r, last) {
        InsertKeepsTies(r, front, priority, createdAt);
        TiedAppend(front, last, priority, createdAt);
        TiedAppend(InsertRule(r, front), last, priority, createdAt);
        if r.priority == priority && r.createdAt == createdAt {
          assert !(last.priority == priority && last.createdAt == createdAt);
        }
      }
    }
  }

  /** The sort is stable and neither drops nor repeats a rule: ties keep the order of the list. */
  lemma {:induction false} SortIsStable(rules: seq<Rule>, priority: int, createdAt: int)
    ensures Tied(SortRules(rules), priority, createdAt) == Tied(rules, priority, createdAt)
  {
    if rules != [] {
      var front, last := rules[..|rules| - 1], rules[|rules| - 1];
      SortIsStable(front, priority, createdAt);
      SortIsInOrder(front);
      InsertKeepsTies(last, SortRules(front), priority, createdAt);
    }
  }

  // ----- hiding -----

  /** Fields hidden by the HIDE rules among `rules`, taken once in order. */
  function HidePass(rules: seq<Rule>, staticHidden: set<int>, stored: Stored): set<int> {
    if rules == [] then staticHidden
    else
      var hidden := HidePass(rules[..|rules| - 1], staticHidden, stored);
      var r := rules[|rules| - 1];
      if r.effect == HideField && r.conditionFieldId !in hidden && Fires(r, stored) then hidden + {r.targetFieldId}
          else hidden
  }

  predicate RequiredBy(rules: seq<Rule>, stored: Stored, field: int) {
    exists i :: 0 <= i < |rules| && rules[i].effect == RequireField && rules[i].targetFieldId == field
        && Fires(rules[i], stored)
  }

  /** The payload of the last SET_DEFAULT rule that applies to a field. */
  function DefaultBy(rules: seq<Rule>, stored: Stored, field: int): Option<string> {
    if rules == [] then None
    else
      var r := rules[|rules| - 1];
      if r.effect == SetDefault && r.targetFieldId == field && Fires(r, stored) then r.defaultPayload
      else DefaultBy(rules[..|rules| - 1], stored, field)
  }

  /** The state of a field after the first n sorted rules of the second pass. */
  function RuntimeOf(field: int, rules: seq<Rule>, hidden: set<int>, stored: Stored): FieldRuntime {
    FieldRuntime(
      field in hidden,
      field !in hidden && RequiredBy(rules, stored, field),
      if field in hidden || IsPresent(stored, field) then None else DefaultBy(rules, stored, field))
  }

  function FieldRuntimes(
      fieldIds: set<int>, staticHidden: set<int>, stored: Stored, rules: seq<Rule>): map<int, FieldRuntime> {
    var sorted := SortRules(rules);
    var hidden := HidePass(sorted, staticHidden, stored);
    map f | f in fieldIds :: RuntimeOf(f, sorted, hidden, stored)
  }

  /** One more rule in the second pass. */
  lemma RuntimeStep(field: int, rules: seq<Rule>, r: Rule, hidden: set<int>, stored: Stored)
    ensures RuntimeOf(field, rules, hidden, stored).isHidden <==> field in hidden
    ensures var before, after := RuntimeOf(field, rules, hidden, stored), RuntimeOf(field, rules + [r], hidden, stored);
            if r.targetFieldId != field || field in hidden || r.effect == HideField || !Fires(r, stored)
                then after == before
            else if r.effect == RequireField then after == before.(isRequired := true)
            else after == if IsPresent(stored, field) then before else before.(defaultPayload := r.defaultPayload)
  {
    hide Fires;
    var longer := rules + [r];
    assert longer[..|rules|] == rules;
    assert RequiredBy(longer, stored, field) <==>
           RequiredBy(rules, stored, field)
               || (r.effect == RequireField && r.targetFieldId == field && Fires(r, stored)) by {
      if RequiredBy(rules, stored, field) {
        var i :| 0 <= i < |rules| && rules[i].effect == RequireField && rules[i].targetFieldId == field
            && Fires(rules[i], stored);
        assert longer[i] == rules[i];
      }
      assert longer[|rules|] == r;
    }
  }

  lemma RuntimeStart(field: int, hidden: set<int>, stored: Stored)
    ensures RuntimeOf(field, [], hidden, stored) == FieldRuntime(field in hidden, false, None)
  {}

  method ComputeFieldRuntime(
      fieldIds: set<int>, staticHidden: set<int>, stored: Stored, rules: seq<Rule>)
    returns (out: map<int, FieldRuntime>)
    ensures out == FieldRuntimes(fieldIds, staticHidden, stored, rules)
  {
    hide Fires, SortRules, RuntimeOf, IsPresent;
    var sorted := SortRules(rules);
    var hidden := staticHidden;
    for i := 0 to |sorted|
      invariant hidden == HidePass(sorted[..i], staticHidden, stored)
    {
      assert sorted[..i + 1][..i] == sorted[..i];
      var r := sorted[i];
      if r.effect == HideField && r.conditionFieldId !in hidden && Fires(r, stored) {
        hidden := hidden + {r.targetFieldId};
      }
    }
    assert sorted[..|sorted|] == sorted;

    out := map f | f in fieldIds :: FieldRuntime(f in hidden, false, None);
    forall f ensures RuntimeOf(f, sorted[..0], hidden, stored) == FieldRuntime(f in hidden, false, None) {
      RuntimeStart(f, hidden, stored);
    }
    for i := 0 to |sorted|
      invariant out.Keys == fieldIds
      invariant forall f :: f in fieldIds ==> out[f] == RuntimeOf(f, sorted[..i], hidden, stored)
    {
      var r := sorted[i];
      assert sorted[..i + 1] == sorted[..i] + [r];
      forall f {
        RuntimeStep(f, sorted[..i], r, hidden, stored);
      }
      if r.targetFieldId in out && !out[r.targetFieldId].isHidden {
        var runtime := out[r.targetFieldId];
        if r.effect == RequireField {
          if Fires(r, stored) {
            out := out[r.targetFieldId := runtime.(isRequired := true)];
          }
        } else if r.effect == SetDefault {
          if !IsPresent(stored, r.targetFieldId) && Fires(r, stored) {
            out := out[r.targetFieldId := runtime.(defaultPayload := r.defaultPayload)];
          }
        }
      }
    }
  }

  /** HIDE wins: a hidden field is never required and has no default. */
  lemma HiddenSuspends(fieldIds: set<int>, staticHidden: set<int>, stored: Stored, rules: seq<Rule>, field: int)
    requires field in fieldIds
    ensures var rt := FieldRuntimes(fieldIds, staticHidden, stored, rules)[field];
            && (rt.isHidden ==> !rt.isRequired && rt.defaultPayload == None)
            && (rt.defaultPayload.Some? ==> !IsPresent(stored, field))
            && (field in staticHidden ==> rt.isHidden)
  {
    StaticStaysHidden(SortRules(rules), staticHidden, stored);
  }

  lemma {:induction false} StaticStaysHidden(rules: seq<Rule>, staticHidden: set<int>, stored: Stored)
    ensures staticHidden <= HidePass(rules, staticHidden, stored)
  {
    hide Fires;
    if rules != [] {
      StaticStaysHidden(rules[..|rules| - 1], staticHidden, stored);
    }
  }

  /** The SET_DEFAULT rule applies to the field. */
  predicate Defaults(r: Rule, stored: Stored, field: int) {
    r.effect == SetDefault && r.targetFieldId == field && Fires(r, stored)
  }

  lemma DefaultByStep(rs: seq<Rule>, stored: Stored, field: int)
    requires rs != []
    ensures var front, last := rs[..|rs| - 1], rs[|rs| - 1];
            DefaultBy(rs, stored, field) ==
            if Defaults(last, stored, field) then last.defaultPayload else DefaultBy(front, stored, field)
  {
    hide Fires;
  }

  lemma NeverEarlierThanItself(r: Rule)
    ensures !Earlier(r, r)
  {}

  lemma {:induction false} DefaultByIsLast(rs: seq<Rule>, stored: Stored, field: int)
    requires InOrder(rs)
    ensures (forall r :: r in rs ==> !Defaults(r, stored, field)) ==> DefaultBy(rs, stored, field) == None
    ensures (exists r :: r in rs && Defaults(r, stored, field)) ==>
              exists r :: r in rs && Defaults(r, stored, field) && DefaultBy(rs, stored, field) == r.defaultPayload
                          && forall q :: q in rs && Defaults(q, stored, field) ==> !Earlier(r, q)
  {
    hide Earlier, Defaults;
    if rs != [] {
      var front, last := rs[..|rs| - 1], rs[|rs| - 1];
      assert rs == front + [last];
      DefaultByStep(rs, stored, field);
      if Defaults(last, stored, field) {
        forall q | q in rs ensures !Earlier(last, q) {
          var k :| 0 <= k < |rs| && rs[k] == q;
          NeverEarlierThanItself(last);
        }
      } else {
        DefaultByIsLast(front, stored, field);
        assert forall q :: q in rs && Defaults(q, stored, field) ==> q in front;
      }
    }
  }

  /** A visible field without a value gets the default of a firing rule that no other firing default rule follows. */
  lemma LastDefaultWins(fieldIds: set<int>, staticHidden: set<int>, stored: Stored, rules: seq<Rule>, field: int)
    requires field in fieldIds && !IsPresent(stored, field)
    requires !FieldRuntimes(fieldIds, staticHidden, stored, rules)[field].isHidden
    ensures var default := FieldRuntimes(fieldIds, staticHidden, stored, rules)[field].defaultPayload;
            if forall r :: r in rules ==> !Defaults(r, stored, field) then default == None
            else exists r :: r in rules && Defaults(r, stored, field) && default == r.defaultPayload
                             && forall q :: q in rules && Defaults(q, stored, field) ==> !Earlier(r, q)
  {
    hide Fires, SortRules, HidePass;
    SortIsInOrder(rules);
    DefaultByIsLast(SortRules(rules), stored, field);
  }

  // ----- the order in which rules are read does not matter -----

  /** No two rules share both priority and creation time. */
  ghost predicate DistinctKeys(rules: seq<Rule>) {
    forall i, j :: 0 <= i < j < |rules| ==> Earlier(rules[i], rules[j]) || Earlier(rules[j], rules[i])
  }

  ghost predicate StrictlyInOrder(rs: seq<Rule>) {
    forall i, j :: 0 <= i < j < |rs| ==> Earlier(rs[i], rs[j])
  }

  lemma {:induction false} InsertKeepsStrictOrder(r: Rule, sorted: seq<Rule>)
    requires StrictlyInOrder(sorted)
    requires forall x :: x in sorted ==> Earlier(r, x) || Earlier(x, r)
    ensures StrictlyInOrder(InsertRule(r, sorted))
  {
    if sorted != [] {
      var last, front := sorted[|sorted| - 1], sorted[..|sorted| - 1];
      assert last in sorted;
      if Earlier(r, last) {
        InsertKeepsStrictOrder(r, front);
        var rs := InsertRule(r, front);
        forall i | 0 <= i < |rs| ensures Earlier(rs[i], last) {
          assert rs[i] in rs;
        }
      }
    }
  }

  lemma {:induction false} SortIsStrict(rules: seq<Rule>)
    requires DistinctKeys(rules)
    ensures StrictlyInOrder(SortRules(rules))
  {
    if rules != [] {
      var last, front := rules[|rules| - 1], rules[..|rules| - 1];
      SortIsStrict(front);
      forall x | x in SortRules(front) ensures Earlier(last, x) || Earlier(x, last) {
        var i :| 0 <= i < |front| && front[i] == x;
        assert rules[i] == x;
      }
      InsertKeepsStrictOrder(last, SortRules(front));
    }
  }

  lemma LastIsLatest(rs: seq<Rule>, k: nat)
    requires StrictlyInOrder(rs) && k < |rs|
    ensures rs[k] == rs[|rs| - 1] || Earlier(rs[k], rs[|rs| - 1])
  {}

  lemma {:induction false} StrictOrderUnique(a: seq<Rule>, b: seq<Rule>)
    requires StrictlyInOrder(a) && StrictlyInOrder(b)
    requires forall x :: x in a <==> x in b
    ensures a == b
  {
    assert a != [] ==> a[|a| - 1] in a;
    assert b != [] ==> b[|b| - 1] in b;
    if a != [] {
      var m, n := |a| - 1, |b| - 1;
      var i :| 0 <= i <= n && b[i] == a[m];
      var j :| 0 <= j <= m && a[j] == b[n];
      LastIsLatest(b, i);
      LastIsLatest(a, j);
      assert a[m] == b[n];
      forall x ensures x in a[..m] <==> x in b[..n] {
        FrontMembership(a, x);
        FrontMembership(b, x);
      }
      StrictOrderUnique(a[..m], b[..n]);
      assert a == a[..m] + [a[m]] && b == b[..n] + [b[n]];
    }
  }

  lemma FrontMembership(a: seq<Rule>, x: Rule)
    requires StrictlyInOrder(a) && a != []
    ensures x in a[..|a| - 1] <==> x in a && x != a[|a| - 1]
  {
    var m := |a| - 1;
    if x in a[..m] {
      var k :| 0 <= k < m && a[..m][k] == x;
      assert Earlier(a[k], a[m]);
    }
    if x in a && x != a[m] {
      var k :| 0 <= k < |a| && a[k] == x;
      assert a[..m][k] == x;
    }
  }

  /** With distinct (priority, createdAt) pairs the runtime does not depend on the order of the rule list. */
  lemma RuntimeIgnoresListOrder(
      fieldIds: set<int>, staticHidden: set<int>, stored: Stored, rules: seq<Rule>, rules': seq<Rule>)
    requires DistinctKeys(rules) && DistinctKeys(rules')
    requires forall r :: r in rules <==> r in rules'
    ensures FieldRuntimes(fieldIds, staticHidden, stored, rules)
        == FieldRuntimes(fieldIds, staticHidden, stored, rules')
  {
    SortIsStrict(rules);
    SortIsStrict(rules');
    StrictOrderUnique(SortRules(rules), SortRules(rules'));
  }

  // ----- the independent required-field check -----

  datatype Missing = Missing(ruleId: int, targetFieldId: int)

  function InScope(fieldIds: set<int>, rules: seq<Rule>): (rs: seq<Rule>)
    ensures forall r :: r in rs <==> r in rules && r.conditionFieldId in fieldIds && r.targetFieldId in fieldIds
  {
    if rules == [] then []
    else
      var front, r := rules[..|rules| - 1], rules[|rules| - 1];
      assert rules == front + [r];
      InScope(fieldIds, front) + if r.conditionFieldId in fieldIds && r.targetFieldId in fieldIds then [r] else []
  }

  /** The loaded values of fields outside the applicable set are ignored. */
  function StoredInScope(fieldIds: set<int>, values: Stored): Stored {
    map f | f in fieldIds && f in values :: values[f]
  }

  /** The condition under which validateValues reports a rule. */
  ghost predicate Reports(r: Rule, runtime: map<int, FieldRuntime>, stored: Stored) {
    && r.effect == RequireField
    && r.targetFieldId in runtime && !runtime[r.targetFieldId].isHidden
    && Fires(r, stored)
    && !IsPresent(stored, r.targetFieldId)
  }

  lemma ReportsWhen(r: Rule, runtime: map<int, FieldRuntime>, stored: Stored)
    requires r.targetFieldId in runtime
    ensures Reports(r, runtime, stored) <==>
            r.effect == RequireField && !runtime[r.targetFieldId].isHidden && Fires(r, stored)
                && !IsPresent(stored, r.targetFieldId)
  {
    hide Fires, IsPresent;
  }

  ghost predicate SomeRuleReports(rules: seq<Rule>, runtime: map<int, FieldRuntime>, stored: Stored, field: int) {
    exists j :: 0 <= j < |rules| && Reports(rules[j], runtime, stored) && rules[j].targetFieldId == field
  }

  /** The runtime requires the field and no value is stored for it. */
  ghost predicate Lacks(runtime: map<int, FieldRuntime>, values: Stored, field: int) {
    field in runtime && runtime[field].isRequired && !IsPresent(values, field)
  }

  ghost predicate ReportedMissing(missing: seq<Missing>, field: int) {
    exists m :: m in missing && m.targetFieldId == field
  }

  /** One entry for every rule that validateValues reports, in rule order. */
  ghost function Reported(rules: seq<Rule>, runtime: map<int, FieldRuntime>, stored: Stored): seq<Missing> {
    if rules == [] then []
    else
      var front, r := rules[..|rules| - 1], rules[|rules| - 1];
      Reported(front, runtime, stored) + if Reports(r, runtime, stored) then [Missing(r.id, r.targetFieldId)] else []
  }

  lemma ReportedStep(rules: seq<Rule>, r: Rule, runtime: map<int, FieldRuntime>, stored: Stored)
    ensures Reported(rules + [r], runtime, stored) ==
            Reported(rules, runtime, stored) +
            if Reports(r, runtime, stored) then [Missing(r.id, r.targetFieldId)] else []
  {
    hide Reports;
    assert (rules + [r])[..|rules|] == rules;
  }

  /** A field is among the reported ones iff some rule that is reported targets it. */
  lemma {:induction false} ReportedFields(rules: seq<Rule>, runtime: map<int, FieldRuntime>, stored: Stored, f: int)
    ensures ReportedMissing(Reported(rules, runtime, stored), f) <==> SomeRuleReports(rules, runtime, stored, f)
  {
    hide Reports;
    if rules != [] {
      var front, r := rules[..|rules| - 1], rules[|rules| - 1];
      ReportedFields(front, runtime, stored, f);
      SomeRuleReportsStep(front, r, runtime, stored, f);
      assert rules == front + [r];
      ReportedMissingStep(Reported(front, runtime, stored), Missing(r.id, r.targetFieldId), f);
    }
  }

  lemma SomeRuleReportsStep(rules: seq<Rule>, r: Rule, runtime: map<int, FieldRuntime>, stored: Stored, f: int)
    ensures SomeRuleReports(rules + [r], runtime, stored, f) <==>
            SomeRuleReports(rules, runtime, stored, f) || (Reports(r, runtime, stored) && r.targetFieldId == f)
  {
    hide Reports;
    var longer := rules + [r];
    if j :| 0 <= j < |rules| && Reports(rules[j], runtime, stored) && rules[j].targetFieldId == f {
      assert longer[j] == rules[j];
    }
    assert longer[|rules|] == r;
  }

  lemma ReportedMissingStep(missing: seq<Missing>, m: Missing, f: int)
    ensures ReportedMissing(missing + [m], f) <==> ReportedMissing(missing, f) || m.targetFieldId == f
  {
    assert m in missing + [m];
  }

  method MissingFields(
      rules: seq<Rule>, runtime: map<int, FieldRuntime>, stored: Stored) returns (missing: seq<Missing>)
    requires forall r :: r in rules ==> r.targetFieldId in runtime
    ensures missing == Reported(rules, runtime, stored)
    ensures forall f :: ReportedMissing(missing, f) <==> SomeRuleReports(rules, runtime, stored, f)
  {
    hide Fires, IsPresent, Reports, Reported, ReportedMissing, SomeRuleReports;
    missing := [];
    assert rules[..0] == [];
    ReportedNothing(runtime, stored);
    for i := 0 to |rules|
      invariant missing == Reported(rules[..i], runtime, stored)
    {
      var rule := rules[i];
      assert rule in rules;
      assert rules[..i + 1] == rules[..i] + [rule];
      ReportedStep(rules[..i], rule, runtime, stored);
      ReportsWhen(rule, runtime, stored);
      if rule.effect == RequireField && !runtime[rule.targetFieldId].isHidden {
        if Fires(rule, stored) && !IsPresent(stored, rule.targetFieldId) {
          missing := missing + [Missing(rule.id, rule.targetFieldId)];
        }
      }
    }
    assert rules[..|rules|] == rules;
    forall f ensures ReportedMissing(missing, f) <==> SomeRuleReports(rules, runtime, stored, f) {
      ReportedFields(rules, runtime, stored, f);
    }
  }

  lemma ReportedNothing(runtime: map<int, FieldRuntime>, stored: Stored)
    ensures Reported([], runtime, stored) == []
  {}

  /**
   * validateValues reports a field as missing exactly when the runtime requires it and it has no
   * value; so the case is valid iff every required field is present.
   */
  method ValidateValues(
      fieldIds: set<int>, staticHidden: set<int>, values: Stored, ruleRows: seq<Rule>)
    returns (valid: bool, missing: seq<Missing>)
    ensures valid <==> missing == []
    ensures var stored, rules := StoredInScope(fieldIds, values), InScope(fieldIds, ruleRows);
            var runtime := FieldRuntimes(fieldIds, staticHidden, stored, rules);
            && missing == Reported(rules, runtime, stored)
            && (valid <==> forall f :: f in fieldIds && runtime[f].isRequired ==> IsPresent(values, f))
            && forall f :: ReportedMissing(missing, f) <==>
                f in fieldIds && runtime[f].isRequired && !IsPresent(values, f)
  {
    hide Fires, IsPresent, SortRules, RuntimeOf, HidePass;
    var stored := StoredInScope(fieldIds, values);
    var inScope := InScope(fieldIds, ruleRows);
    var runtime := ComputeFieldRuntime(fieldIds, staticHidden, stored, inScope);
    missing := MissingFields(inScope, runtime, stored);
    forall f ensures ReportedMissing(missing, f) <==> Lacks(runtime, values, f) {
      ReportedIffLacking(fieldIds, staticHidden, values, inScope, runtime, f);
    }
    valid := |missing| == 0;
    if missing != [] {
      assert missing[0] in missing;
      assert ReportedMissing(missing, missing[0].targetFieldId);
      assert Lacks(runtime, values, missing[0].targetFieldId);
    }
    forall f | f in fieldIds && runtime[f].isRequired && !IsPresent(values, f) ensures missing != [] {
      assert Lacks(runtime, values, f);
    }
  }

  lemma ReportedIffLacking(
      fieldIds: set<int>, staticHidden: set<int>, values: Stored, rules: seq<Rule>, runtime: map<int, FieldRuntime>,
      field: int)
    requires runtime == FieldRuntimes(fieldIds, staticHidden, StoredInScope(fieldIds, values), rules)
    ensures SomeRuleReports(rules, runtime, StoredInScope(fieldIds, values), field) <==> Lacks(runtime, values, field)
  {
    hide Fires, HidePass, SortRules, DefaultBy;
    var stored := StoredInScope(fieldIds, values);
    var sorted := SortRules(rules);
    if field in fieldIds {
      assert IsPresent(stored, field) <==> IsPresent(values, field);
      if j :| 0 <= j < |rules| && Reports(rules[j], runtime, stored) && rules[j].targetFieldId == field {
        assert rules[j] in sorted;
        var i :| 0 <= i < |sorted| && sorted[i] == rules[j];
        assert RequiredBy(sorted, stored, field);
      }
      if Lacks(runtime, values, field) {
        var i :| 0 <= i < |sorted| && sorted[i].effect == RequireField && sorted[i].targetFieldId == field
            && Fires(sorted[i], stored);
        assert sorted[i] in rules;
        var j :| 0 <= j < |rules| && rules[j] == sorted[i];
        assert Reports(rules[j], runtime, stored);
      }
    }
  }
}
