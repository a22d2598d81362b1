/**
 * What the HIDE rules of src/services/case-field-value.validation.ts mean, and when the one ordered
 * pass of computeFieldRuntime computes it.
 */
module Hiding {
  import opened Basics
  import opened FieldRules
  import RuleGraph

  // ----- the hiding equation -----

  function HideRules(rules: seq<Rule>): (hs: seq<Rule>)
    ensures forall r :: r in hs <==> r in rules && r.effect == HideField
  {
    if rules == [] then []
    else
      var front, r := rules[..|rules| - 1], rules[|rules| - 1];
      assert rules == front + [r];
      if r.effect == HideField then HideRules(front) + [r] else HideRules(front)
  }

  /** The hide pass over HIDE rules of which those with an index in `firing` fire. */
  ghost function Pass(hs: seq<Rule>, firing: set<int>, staticHidden: set<int>): set<int> {
    if hs == [] then staticHidden
    else
      var last := |hs| - 1;
      var hidden := Pass(hs[..last], firing, staticHidden);
      if last in firing && hs[last].conditionFieldId !in hidden then hidden + {hs[last].targetFieldId} else hidden
  }

  ghost function Firing(hs: seq<Rule>, stored: Stored): set<int> {
    set i | 0 <= i < |hs| && Fires(hs[i], stored)
  }

  /** Rule i hides its target when it fires and its condition field is itself visible. */
  ghost predicate Hides(hs: seq<Rule>, firing: set<int>, hidden: set<int>, i: int, field: int) {
    0 <= i < |hs| && i in firing && hs[i].conditionFieldId !in hidden && hs[i].targetFieldId == field
  }

  ghost predicate SomeRuleHides(hs: seq<Rule>, firing: set<int>, hidden: set<int>, field: int) {
    exists i :: Hides(hs, firing, hidden, i, field)
  }

  /** A field is hidden iff static, or some firing HIDE rule with a visible condition field targets it. */
  ghost predicate Solves(hs: seq<Rule>, firing: set<int>, staticHidden: set<int>, hidden: set<int>) {
    forall f :: f in hidden <==> f in staticHidden || SomeRuleHides(hs, firing, hidden, f)
  }

  /** Every HIDE rule targeting a field comes before every HIDE rule conditioned on that field. */
  ghost predicate Stratified(hs: seq<Rule>) {
    forall i, j :: 0 <= i < |hs| && 0 <= j < |hs| && hs[i].targetFieldId == hs[j].conditionFieldId ==> i < j
  }

  /** No rule conditions the field it targets; the rule checks refuse self-references. */
  ghost predicate NoSelfReference(hs: seq<Rule>) {
    forall i :: 0 <= i < |hs| ==> hs[i].targetFieldId != hs[i].conditionFieldId
  }

  /** Rule i comes after rule j although it targets j's condition field. */
  predicate WrongOrder(hs: seq<Rule>, j: int, i: int) {
    0 <= j < i < |hs| && hs[i].targetFieldId == hs[j].conditionFieldId
  }

  /**
   * Rule k stands in for rule i behind rule j: under i's condition it hides j's target itself, or
   * hides j's condition field before j is reached.
   */
  predicate StandsIn(hs: seq<Rule>, firing: set<int>, j: int, i: int, k: int)
    requires 0 <= j < |hs| && 0 <= i < |hs|
  {
    && 0 <= k < |hs| && k in firing
    && hs[k].conditionFieldId == hs[i].conditionFieldId
    && (hs[k].targetFieldId == hs[j].targetFieldId || (hs[k].targetFieldId == hs[j].conditionFieldId && k < j))
  }

  /** Some firing rule stands in wherever two firing rules are in the wrong order. */
  ghost predicate Sheltered(hs: seq<Rule>, firing: set<int>) {
    forall j, i :: WrongOrder(hs, j, i) && j in firing && i in firing ==> exists k :: StandsIn(hs, firing, j, i, k)
  }

  /** A stratified list is sheltered whatever fires. */
  lemma StratifiedIsSheltered(hs: seq<Rule>, firing: set<int>)
    requires Stratified(hs)
    ensures NoSelfReference(hs) && Sheltered(hs, firing)
  {}

  lemma {:induction false} PassIndependentOfLater(
      hs: seq<Rule>, firing: set<int>, firing': set<int>, staticHidden: set<int>)
    requires forall i :: 0 <= i < |hs| ==> (i in firing <==> i in firing')
    ensures Pass(hs, firing, staticHidden) == Pass(hs, firing', staticHidden)
  {
    if hs != [] {
      PassIndependentOfLater(hs[..|hs| - 1], firing, firing', staticHidden);
    }
  }

  /** The pass over all rules is the pass over the HIDE rules. */
  lemma {:induction false} HidePassIsPass(rules: seq<Rule>, staticHidden: set<int>, stored: Stored)
    ensures HidePass(rules, staticHidden, stored)
        == Pass(HideRules(rules), Firing(HideRules(rules), stored), staticHidden)
  {
    hide Fires;
    if rules != [] {
      var front := rules[..|rules| - 1];
      HidePassIsPass(front, staticHidden, stored);
      var hs, shorter := HideRules(rules), HideRules(front);
      if rules[|rules| - 1].effect == HideField {
        assert hs[..|hs| - 1] == shorter;
        PassIndependentOfLater(shorter, Firing(shorter, stored), Firing(hs, stored), staticHidden);
      }
    }
  }

  /** Later rules only add fields, and only their own targets. */
  lemma {:induction false} PassGrows(hs: seq<Rule>, firing: set<int>, staticHidden: set<int>, n: nat)
    requires n <= |hs|
    ensures Pass(hs[..n], firing, staticHidden) <= Pass(hs, firing, staticHidden)
    ensures forall f :: f in Pass(hs, firing, staticHidden) && f !in Pass(hs[..n], firing, staticHidden) ==>
              exists i :: n <= i < |hs| && hs[i].targetFieldId == f
    decreases |hs| - n
  {
    if n == |hs| {
      assert hs[..n] == hs;
    } else {
      PassGrows(hs, firing, staticHidden, n + 1);
      assert hs[..n + 1][..n] == hs[..n];
      assert Pass(hs[..n + 1], firing, staticHidden) <= Pass(hs[..n], firing, staticHidden) + {hs[n].targetFieldId};
    }
  }

  /** What the pass hides, rule by rule. */
  lemma {:induction false} PassMembers(hs: seq<Rule>, firing: set<int>, staticHidden: set<int>, f: int)
    ensures f in Pass(hs, firing, staticHidden) <==>
            f in staticHidden ||
            exists j :: 0 <= j < |hs| && j in firing && hs[j].targetFieldId == f
                && hs[j].conditionFieldId !in Pass(hs[..j], firing, staticHidden)
  {
    if hs != [] {
      var last := |hs| - 1;
      PassMembers(hs[..last], firing, staticHidden, f);
      forall j | 0 <= j < last ensures hs[..last][j] == hs[j] && hs[..last][..j] == hs[..j] {}
    }
  }

  /** A rule whose condition field is visible in the end was applied when it was reached. */
  lemma VisibleRuleApplied(hs: seq<Rule>, firing: set<int>, staticHidden: set<int>, k: nat)
    requires k < |hs| && k in firing
    requires hs[k].conditionFieldId !in Pass(hs[..k], firing, staticHidden)
    ensures hs[k].targetFieldId in Pass(hs[..k + 1], firing, staticHidden)
  {
    assert hs[..k + 1][..k] == hs[..k];
  }

  /** What is visible after n rules is visible after fewer. */
  lemma VisibleEarlier(hs: seq<Rule>, firing: set<int>, staticHidden: set<int>, m: nat, n: nat)
    requires m <= n <= |hs|
    ensures Pass(hs[..m], firing, staticHidden) <= Pass(hs[..n], firing, staticHidden)
  {
    PassGrows(hs[..n], firing, staticHidden, m);
    assert hs[..n][..m] == hs[..m];
  }

  /**
   * If rule a was applied, and a firing rule e whose condition field is still visible when a is reached
   * targets a's condition field, then some firing rule leads from e's condition field to a's target.
   */
  lemma StandInFor(hs: seq<Rule>, firing: set<int>, staticHidden: set<int>, a: nat, e: nat) returns (k: nat)
    requires NoSelfReference(hs) && Sheltered(hs, firing)
    requires a < |hs| && e < |hs| && a in firing && e in firing
    requires hs[a].conditionFieldId !in Pass(hs[..a], firing, staticHidden)
    requires hs[e].targetFieldId == hs[a].conditionFieldId
    requires hs[e].conditionFieldId !in Pass(hs[..a], firing, staticHidden)
    ensures k < |hs| && k in firing
    ensures hs[k].conditionFieldId == hs[e].conditionFieldId && hs[k].targetFieldId == hs[a].targetFieldId
  {
    hide Pass, Sheltered;
    forall n: nat | n < a && n in firing && hs[n].conditionFieldId == hs[e].conditionFieldId
      ensures hs[n].targetFieldId != hs[a].conditionFieldId
    {
      VisibleEarlier(hs, firing, staticHidden, n, a);
      VisibleRuleApplied(hs, firing, staticHidden, n);
      VisibleEarlier(hs, firing, staticHidden, n + 1, a);
    }
    assert WrongOrder(hs, a, e);
    var found := ShelterFor(hs, firing, a, e);
    k := found;
  }

  lemma ShelterFor(hs: seq<Rule>, firing: set<int>, j: nat, i: nat) returns (k: nat)
    requires Sheltered(hs, firing) && WrongOrder(hs, j, i) && j in firing && i in firing
    ensures StandsIn(hs, firing, j, i, k)
  {
    k :| StandsIn(hs, firing, j, i, k);
  }

  /** In a sheltered list every applied rule's target is hidden by some rule that applies in the end. */
  lemma {:induction false} AppliedIsJustified(hs: seq<Rule>, firing: set<int>, staticHidden: set<int>, a: nat)
    returns (k: nat)
    requires NoSelfReference(hs) && Sheltered(hs, firing)
    requires a < |hs| && a in firing && hs[a].conditionFieldId !in Pass(hs[..a], firing, staticHidden)
    ensures Hides(hs, firing, Pass(hs, firing, staticHidden), k, hs[a].targetFieldId)
    decreases |hs| - a
  {
    hide Pass, Sheltered, StandsIn;
    var hidden := Pass(hs, firing, staticHidden);
    assert hs[..|hs|] == hs;
    if hs[a].conditionFieldId !in hidden {
      k := a;
    } else {
      var i := LaterHider(hs, firing, staticHidden, a);
      var e := AppliedIsJustified(hs, firing, staticHidden, i);
      VisibleEarlier(hs, firing, staticHidden, a, |hs|);
      k := StandInFor(hs, firing, staticHidden, a, e);
    }
  }

  /** A condition field hidden only after its rule was applied was hidden by a later rule. */
  lemma LaterHider(hs: seq<Rule>, firing: set<int>, staticHidden: set<int>, a: nat) returns (i: nat)
    requires NoSelfReference(hs) && a < |hs|
    requires hs[a].conditionFieldId !in Pass(hs[..a], firing, staticHidden)
    requires hs[a].conditionFieldId in Pass(hs, firing, staticHidden)
    ensures a < i < |hs| && i in firing && hs[i].targetFieldId == hs[a].conditionFieldId
    ensures hs[i].conditionFieldId !in Pass(hs[..i], firing, staticHidden)
  {
    hide Pass;
    var c := hs[a].conditionFieldId;
    PassMembers(hs, firing, staticHidden, c);
    PassMembers(hs[..a], firing, staticHidden, c);
    i :| i < |hs| && i in firing && hs[i].targetFieldId == c
         && hs[i].conditionFieldId !in Pass(hs[..i], firing, staticHidden);
    if i < a {
      VisibleRuleApplied(hs, firing, staticHidden, i);
      VisibleEarlier(hs, firing, staticHidden, i + 1, a);
    }
  }

  /** On a sheltered list the one pass computes a solution of the hiding equation. */
  lemma PassSolves(hs: seq<Rule>, firing: set<int>, staticHidden: set<int>)
    requires NoSelfReference(hs) && Sheltered(hs, firing)
    ensures Solves(hs, firing, staticHidden, Pass(hs, firing, staticHidden))
  {
    hide Pass, Sheltered;
    var hidden := Pass(hs, firing, staticHidden);
    assert hs[..|hs|] == hs;
    forall f ensures f in hidden <==> f in staticHidden || SomeRuleHides(hs, firing, hidden, f) {
      PassMembers(hs, firing, staticHidden, f);
      if a: nat :| a < |hs| && a in firing && hs[a].targetFieldId == f
                   && hs[a].conditionFieldId !in Pass(hs[..a], firing, staticHidden) {
        var k := AppliedIsJustified(hs, firing, staticHidden, a);
      }
      if k :| Hides(hs, firing, hidden, k, f) {
        VisibleEarlier(hs, firing, staticHidden, k, |hs|);
      }
    }
  }

  // ----- acyclic rules give hiding one meaning -----

  ghost function EdgesOf(rules: seq<Rule>): set<RuleGraph.Edge> {
    set r | r in rules :: RuleGraph.Edge(r.conditionFieldId, r.targetFieldId)
  }

  function FieldsOf(hs: seq<Rule>): set<int> {
    (set r | r in hs :: r.conditionFieldId) + (set r | r in hs :: r.targetFieldId)
  }

  lemma EdgeOfRule(hs: seq<Rule>, i: nat)
    requires i < |hs|
    ensures RuleGraph.Edge(hs[i].conditionFieldId, hs[i].targetFieldId) in EdgesOf(hs)
    ensures hs[i].conditionFieldId in FieldsOf(hs) && hs[i].targetFieldId in FieldsOf(hs)
  {
    assert hs[i] in hs;
  }

  predicate Differ(a: set<int>, b: set<int>, f: int) {
    !(f in a <==> f in b)
  }

  /** Where two solutions differ on a field, they differ on the condition field of a rule that targets it. */
  lemma DifferenceComesFrom(hs: seq<Rule>, firing: set<int>, staticHidden: set<int>, a: set<int>, b: set<int>, f: int)
    returns (i: nat)
    requires Solves(hs, firing, staticHidden, a) && Solves(hs, firing, staticHidden, b)
    requires Differ(a, b, f)
    ensures i < |hs| && hs[i].targetFieldId == f && Differ(a, b, hs[i].conditionFieldId)
  {
    if f in a {
      i :| Hides(hs, firing, a, i, f);
      assert !Hides(hs, firing, b, i, f);
    } else {
      i :| Hides(hs, firing, b, i, f);
      assert !Hides(hs, firing, a, i, f);
    }
  }

  lemma {:induction false} DifferencePath(
      hs: seq<Rule>, firing: set<int>, staticHidden: set<int>, a: set<int>, b: set<int>, f: int, n: nat)
    returns (p: seq<int>)
    requires Solves(hs, firing, staticHidden, a) && Solves(hs, firing, staticHidden, b)
    requires Differ(a, b, f)
    ensures RuleGraph.IsPath(EdgesOf(hs), p) && |p| == n + 1 && p[n] == f
    ensures forall k :: 0 <= k <= n ==> p[k] in FieldsOf(hs)
    decreases n
  {
    hide Solves, EdgesOf, FieldsOf;
    var i := DifferenceComesFrom(hs, firing, staticHidden, a, b, f);
    EdgeOfRule(hs, i);
    if n == 0 {
      p := [f];
    } else {
      var q := DifferencePath(hs, firing, staticHidden, a, b, hs[i].conditionFieldId, n - 1);
      p := q + [f];
    }
  }

  /** On acyclic rules, in whatever order, the hiding equation has at most one solution. */
  lemma SolutionUnique(hs: seq<Rule>, firing: set<int>, staticHidden: set<int>, a: set<int>, b: set<int>)
    requires RuleGraph.Acyclic(EdgesOf(hs))
    requires Solves(hs, firing, staticHidden, a) && Solves(hs, firing, staticHidden, b)
    ensures a == b
  {
    forall f ensures f in a <==> f in b {
      if Differ(a, b, f) {
        var nodes := FieldsOf(hs);
        var p := DifferencePath(hs, firing, staticHidden, a, b, f, |nodes|);
        RuleGraph.LongPathHasCycle(EdgesOf(hs), nodes, p);
      }
    }
  }

  lemma AcyclicHasNoSelfReference(hs: seq<Rule>)
    requires RuleGraph.Acyclic(EdgesOf(hs))
    ensures NoSelfReference(hs)
  {
    forall i | 0 <= i < |hs| ensures hs[i].targetFieldId != hs[i].conditionFieldId {
      EdgeOfRule(hs, i);
      RuleGraph.ShortCycles(EdgesOf(hs), hs[i].targetFieldId, 0, 0);
    }
  }

  // ----- the one pass is exact -----

  /** The static set that leaves only the fields of rules j and i visible. */
  function AllBut(hs: seq<Rule>, j: nat, i: nat): set<int>
    requires j < |hs| && i < |hs|
  {
    FieldsOf(hs) - {hs[j].targetFieldId, hs[j].conditionFieldId, hs[i].conditionFieldId}
  }

  /** Under AllBut every rule that is applied has one of the three visible condition fields. */
  lemma ConditionAmongThree(hs: seq<Rule>, firing: set<int>, j: nat, i: nat, n: nat, k: nat)
    requires j < |hs| && i < |hs| && k < |hs| && n <= |hs|
    requires hs[k].conditionFieldId !in Pass(hs[..n], firing, AllBut(hs, j, i))
    ensures hs[k].conditionFieldId in {hs[j].targetFieldId, hs[j].conditionFieldId, hs[i].conditionFieldId}
  {
    hide Pass, FieldsOf;
    EdgeOfRule(hs, k);
    PassMembers(hs[..n], firing, AllBut(hs, j, i), hs[k].conditionFieldId);
  }

  /** Two firing rules in the wrong order for which no rule stands in make the pass fail on some static set. */
  lemma UnshelteredFails(hs: seq<Rule>, firing: set<int>, j: nat, i: nat)
    requires RuleGraph.Acyclic(EdgesOf(hs))
    requires WrongOrder(hs, j, i) && j in firing && i in firing
    requires forall k :: !StandsIn(hs, firing, j, i, k)
    ensures !Solves(hs, firing, AllBut(hs, j, i), Pass(hs, firing, AllBut(hs, j, i)))
  {
    hide Pass, RuleGraph.Acyclic, EdgesOf, Solves;
    var t, c, a := hs[j].targetFieldId, hs[j].conditionFieldId, hs[i].conditionFieldId;
    var fixed := AllBut(hs, j, i);
    var hidden := Pass(hs, firing, fixed);
    assert hs[..|hs|] == hs;
    EdgeOfRule(hs, j);
    EdgeOfRule(hs, i);
    RuleGraph.ShortCycles(EdgesOf(hs), a, c, t);
    RuleGraph.ShortCycles(EdgesOf(hs), c, t, a);
    RuleGraph.ShortCycles(EdgesOf(hs), t, c, a);
    forall k: nat | k < |hs| && k in firing ensures
      (hs[k].conditionFieldId !in Pass(hs[..k], firing, fixed) ==>
          hs[k].targetFieldId != a && (k < j ==> hs[k].targetFieldId != c))
    {
      EdgeOfRule(hs, k);
      if hs[k].conditionFieldId !in Pass(hs[..k], firing, fixed) {
        ConditionAmongThree(hs, firing, j, i, k, k);
        assert !StandsIn(hs, firing, j, i, k);
      }
    }
    PassMembers(hs, firing, fixed, a);
    assert a !in hidden;
    VisibleEarlier(hs, firing, fixed, i, |hs|);
    PassMembers(hs, firing, fixed, c);
    assert c in hidden;
    ConditionStillVisible(hs, firing, fixed, j, c);
    PassMembers(hs, firing, fixed, t);
    assert t in hidden;
    forall k: nat ensures !Hides(hs, firing, hidden, k, t) {
      if k < |hs| {
        assert !StandsIn(hs, firing, j, i, k);
      }
      if Hides(hs, firing, hidden, k, t) {
        EdgeOfRule(hs, k);
        ConditionAmongThree(hs, firing, j, i, |hs|, k);
      }
    }
    NotSolvedAt(hs, firing, fixed, hidden, t);
  }

  lemma ConditionStillVisible(hs: seq<Rule>, firing: set<int>, staticHidden: set<int>, j: nat, c: int)
    requires j < |hs| && c !in staticHidden
    requires forall k: nat :: k < j && k in firing && hs[k].conditionFieldId !in Pass(hs[..k], firing, staticHidden) ==>
               hs[k].targetFieldId != c
    ensures c !in Pass(hs[..j], firing, staticHidden)
  {
    hide Pass;
    PassMembers(hs[..j], firing, staticHidden, c);
    forall k: nat | k < j ensures hs[..j][k] == hs[k] && hs[..j][..k] == hs[..k] {}
  }

  lemma NotSolvedAt(hs: seq<Rule>, firing: set<int>, staticHidden: set<int>, hidden: set<int>, f: int)
    requires f in hidden && f !in staticHidden && forall k: nat :: !Hides(hs, firing, hidden, k, f)
    ensures !Solves(hs, firing, staticHidden, hidden)
  {
    assert !SomeRuleHides(hs, firing, hidden, f);
  }

  /**
   * For acyclic rules and given firing rules, the one-pass loop computes the solution for every static
   * set exactly when a rule stands in wherever two firing rules are in the wrong order.
   */
  lemma OnePassIsExactWhenFiring(hs: seq<Rule>, firing: set<int>)
    requires RuleGraph.Acyclic(EdgesOf(hs))
    ensures (forall staticHidden :: Solves(hs, firing, staticHidden, Pass(hs, firing, staticHidden))) <==>
            Sheltered(hs, firing)
  {
    hide Pass, RuleGraph.Acyclic, EdgesOf, Solves, StandsIn;
    AcyclicHasNoSelfReference(hs);
    if Sheltered(hs, firing) {
      forall staticHidden ensures Solves(hs, firing, staticHidden, Pass(hs, firing, staticHidden)) {
        PassSolves(hs, firing, staticHidden);
      }
    } else {
      var j, i :| WrongOrder(hs, j, i) && j in firing && i in firing && forall k :: !StandsIn(hs, firing, j, i, k);
      UnshelteredFails(hs, firing, j, i);
    }
  }

  /** A stratified list has no cycle: the rules along a path come later and later. */
  lemma StratifiedIsAcyclic(hs: seq<Rule>)
    requires Stratified(hs)
    ensures RuleGraph.Acyclic(EdgesOf(hs))
  {
    forall p ensures !RuleGraph.IsCycle(EdgesOf(hs), p) {
      if RuleGraph.IsCycle(EdgesOf(hs), p) {
        var first := RuleOfEdge(hs, RuleGraph.Edge(p[0], p[0 + 1]));
        var last := LastRuleOfPath(hs, p, first);
      }
    }
  }

  lemma RuleOfEdge(hs: seq<Rule>, e: RuleGraph.Edge) returns (i: nat)
    requires e in EdgesOf(hs)
    ensures i < |hs| && hs[i].conditionFieldId == e.from && hs[i].targetFieldId == e.to
  {
    var r :| r in hs && e == RuleGraph.Edge(r.conditionFieldId, r.targetFieldId);
    i :| i < |hs| && hs[i] == r;
  }

  lemma {:induction false} LastRuleOfPath(hs: seq<Rule>, p: seq<int>, first: nat) returns (last: nat)
    requires Stratified(hs) && RuleGraph.IsPath(EdgesOf(hs), p) && |p| >= 2
    requires first < |hs| && hs[first].conditionFieldId == p[0] && hs[first].targetFieldId == p[1]
    ensures first <= last < |hs| && hs[last].targetFieldId == p[|p| - 1]
    decreases |p|
  {
    if |p| == 2 {
      last := first;
    } else {
      var next := RuleOfEdge(hs, RuleGraph.Edge(p[1], p[1 + 1]));
      last := LastRuleOfPath(hs, p[1..], next);
    }
  }

  /** No rule conditions a field on itself, and no two rules condition each other's targets. */
  ghost predicate NoTwoCycle(hs: seq<Rule>) {
    forall i, j :: 0 <= i < |hs| && 0 <= j < |hs| ==>
      !(hs[i].targetFieldId == hs[j].conditionFieldId && hs[j].targetFieldId == hs[i].conditionFieldId)
  }

  /** The acyclic rule graph that the cycle guard maintains has no two-cycles. */
  lemma AcyclicRulesHaveNoTwoCycle(hs: seq<Rule>)
    requires RuleGraph.Acyclic(EdgesOf(hs))
    ensures NoTwoCycle(hs)
  {
    forall i, j | 0 <= i < |hs| && 0 <= j < |hs|
      ensures !(hs[i].targetFieldId == hs[j].conditionFieldId && hs[j].targetFieldId == hs[i].conditionFieldId)
    {
      var p := [hs[i].conditionFieldId, hs[i].targetFieldId, hs[i].conditionFieldId];
      assert hs[i] in hs && hs[j] in hs;
      assert !RuleGraph.IsCycle(EdgesOf(hs), p);
    }
  }

  lemma {:induction false} PassOfNothing(hs: seq<Rule>, firing: set<int>)
    requires forall i :: 0 <= i < |hs| ==> i !in firing
    ensures Pass(hs, firing, {}) == {}
  {
    if hs != [] {
      PassOfNothing(hs[..|hs| - 1], firing);
    }
  }

  /**
   * Two firing rules in the wrong order: the first hides a field although the second then hides its condition field.
   */
  lemma WrongOrderFails(hs: seq<Rule>, i: nat, j: nat)
    requires NoTwoCycle(hs) && j < i < |hs| && hs[i].targetFieldId == hs[j].conditionFieldId
    ensures !Solves(hs, {i, j}, {}, Pass(hs, {i, j}, {}))
  {
    var firing := {i, j};
    var t, c := hs[j].targetFieldId, hs[j].conditionFieldId;
    PassOfNothing(hs[..j], firing);
    assert Pass(hs[..j], firing, {}) == {};
    PassMembers(hs, firing, {}, t);
    PassMembers(hs, firing, {}, c);
    forall f | f in Pass(hs[..i], firing, {}) ensures f == t {
      PassMembers(hs[..i], firing, {}, f);
      var k :| 0 <= k < i && k in firing && hs[..i][k].targetFieldId == f;
      assert k == j;
    }
    var hidden := Pass(hs, firing, {});
    assert t in hidden;
    assert hs[i].conditionFieldId != t;
    assert c in hidden;
    forall k ensures !Hides(hs, firing, hidden, k, t) {}
    assert !SomeRuleHides(hs, firing, hidden, t);
  }

  /**
   * For rules without self-conditions and two-cycles, the one-pass loop computes the stratified
   * solution for every firing pattern and every static set exactly when the list is stratified.
   */
  lemma OnePassIsExact(hs: seq<Rule>)
    requires NoTwoCycle(hs)
    ensures (forall firing, staticHidden :: Solves(hs, firing, staticHidden, Pass(hs, firing, staticHidden))) <==>
        Stratified(hs)
  {
    if Stratified(hs) {
      forall firing, staticHidden ensures Solves(hs, firing, staticHidden, Pass(hs, firing, staticHidden)) {
        PassSolves(hs, firing, staticHidden);
      }
    } else {
      var i: nat, j: nat :| i < |hs| && j < |hs| && hs[i].targetFieldId == hs[j].conditionFieldId && !(i < j);
      if i != j {
        WrongOrderFails(hs, i, j);
      }
    }
  }

  /** On rules that the cycle guard admits, the pass is right for every firing pattern iff they are stratified. */
  lemma GuardedRulesNeedOrder(rules: seq<Rule>)
    requires RuleGraph.Acyclic(EdgesOf(rules))
    ensures var hs := HideRules(SortRules(rules));
            (forall firing, staticHidden :: Solves(hs, firing, staticHidden, Pass(hs, firing, staticHidden))) <==>
            Stratified(hs)
  {
    hide Pass, Solves, Stratified, RuleGraph.Acyclic, EdgesOf, SortRules, HideRules, NoTwoCycle;
    HideEdges(rules);
    AcyclicRulesHaveNoTwoCycle(HideRules(SortRules(rules)));
    OnePassIsExact(HideRules(SortRules(rules)));
  }

  predicate RuleHides(r: Rule, stored: Stored, hidden: set<int>, field: int) {
    r.effect == HideField && Fires(r, stored) && r.conditionFieldId !in hidden && r.targetFieldId == field
  }

  /** Some firing HIDE rule of the list targets the field and has a visible condition field. */
  ghost predicate HiddenByRule(rules: seq<Rule>, stored: Stored, hidden: set<int>, field: int) {
    exists r :: r in rules && RuleHides(r, stored, hidden, field)
  }

  lemma HiderInList(rules: seq<Rule>, stored: Stored, hidden: set<int>, field: int)
    ensures var hs := HideRules(SortRules(rules));
            SomeRuleHides(hs, Firing(hs, stored), hidden, field) <==> HiddenByRule(rules, stored, hidden, field)
  {
    hide Fires, SortRules, HideRules;
    var hs := HideRules(SortRules(rules));
    var firing := Firing(hs, stored);
    if i :| Hides(hs, firing, hidden, i, field) {
      assert hs[i] in hs;
    }
    if r :| r in rules && RuleHides(r, stored, hidden, field) {
      assert r in hs;
      var i :| 0 <= i < |hs| && hs[i] == r;
      assert Hides(hs, firing, hidden, i, field);
    }
  }

  /** What a hidden set means: a field is hidden iff static or hidden by a rule. */
  ghost predicate MeansHidden(rules: seq<Rule>, stored: Stored, staticHidden: set<int>, hidden: set<int>) {
    forall f :: f in hidden <==> f in staticHidden || HiddenByRule(rules, stored, hidden, f)
  }

  /** The meaning is the hiding equation of the sorted HIDE rules that fire. */
  lemma MeansSolves(rules: seq<Rule>, stored: Stored, staticHidden: set<int>, hidden: set<int>)
    ensures var hs := HideRules(SortRules(rules));
            MeansHidden(rules, stored, staticHidden, hidden) <==> Solves(hs, Firing(hs, stored), staticHidden, hidden)
  {
    hide Fires, SortRules, HideRules, SomeRuleHides, HiddenByRule, Firing;
    forall f {
      HiderInList(rules, stored, hidden, f);
    }
  }

  /** The edges of the HIDE rules are edges of the rules, so the cycle guard keeps them acyclic. */
  lemma HideEdges(rules: seq<Rule>)
    requires RuleGraph.Acyclic(EdgesOf(rules))
    ensures RuleGraph.Acyclic(EdgesOf(HideRules(SortRules(rules))))
  {
    hide HideRules, SortRules;
    var hs := HideRules(SortRules(rules));
    forall e | e in EdgesOf(hs) ensures e in EdgesOf(rules) {
      var r :| r in hs && e == RuleGraph.Edge(r.conditionFieldId, r.targetFieldId);
      assert r in rules;
    }
    RuleGraph.FewerEdgesStayAcyclic(EdgesOf(hs), EdgesOf(rules));
  }

  /** With acyclic rules, hiding has at most one meaning. */
  lemma MeaningUnique(rules: seq<Rule>, stored: Stored, staticHidden: set<int>, a: set<int>, b: set<int>)
    requires RuleGraph.Acyclic(EdgesOf(rules))
    requires MeansHidden(rules, stored, staticHidden, a) && MeansHidden(rules, stored, staticHidden, b)
    ensures a == b
  {
    hide MeansHidden, Solves, RuleGraph.Acyclic, EdgesOf, Fires, SortRules, HideRules;
    var hs := HideRules(SortRules(rules));
    HideEdges(rules);
    MeansSolves(rules, stored, staticHidden, a);
    MeansSolves(rules, stored, staticHidden, b);
    SolutionUnique(hs, Firing(hs, stored), staticHidden, a, b);
  }

  /**
   * With acyclic rules, as the cycle guard keeps them, the pass computes the meaning of hiding for these
   * stored values and every static set exactly when, in rule order, some firing HIDE rule stands in
   * wherever two firing HIDE rules are in the wrong order.
   */
  lemma ComputedHidingIsExact(rules: seq<Rule>, stored: Stored)
    requires RuleGraph.Acyclic(EdgesOf(rules))
    ensures var hs := HideRules(SortRules(rules));
            (forall staticHidden ::
               MeansHidden(rules, stored, staticHidden, HidePass(SortRules(rules), staticHidden, stored)))
            <==> Sheltered(hs, Firing(hs, stored))
  {
    hide MeansHidden, Solves, RuleGraph.Acyclic, EdgesOf, Fires, SortRules, HideRules, HidePass, Pass, Sheltered;
    var sorted := SortRules(rules);
    var hs := HideRules(sorted);
    HideEdges(rules);
    OnePassIsExactWhenFiring(hs, Firing(hs, stored));
    forall staticHidden ensures
      Solves(hs, Firing(hs, stored), staticHidden, Pass(hs, Firing(hs, stored), staticHidden)) <==>
      MeansHidden(rules, stored, staticHidden, HidePass(sorted, staticHidden, stored))
    {
      HidePassIsPass(sorted, staticHidden, stored);
      MeansSolves(rules, stored, staticHidden, HidePass(sorted, staticHidden, stored));
    }
    if Sheltered(hs, Firing(hs, stored)) {
      forall staticHidden ensures MeansHidden(rules, stored, staticHidden, HidePass(sorted, staticHidden, stored)) {
        assert Solves(hs, Firing(hs, stored), staticHidden, Pass(hs, Firing(hs, stored), staticHidden));
      }
    } else {
      var staticHidden :| !Solves(hs, Firing(hs, stored), staticHidden, Pass(hs, Firing(hs, stored), staticHidden));
      assert !MeansHidden(rules, stored, staticHidden, HidePass(sorted, staticHidden, stored));
    }
  }

  /** computeFieldRuntime hides exactly the fields of the one meaning when every hider precedes the rules it affects. */
  lemma HiddenIsStratified(fieldIds: set<int>, staticHidden: set<int>, stored: Stored, rules: seq<Rule>)
    returns (hidden: set<int>)
    requires Stratified(HideRules(SortRules(rules)))
    ensures forall f :: f in fieldIds ==>
              (FieldRuntimes(fieldIds, staticHidden, stored, rules)[f].isHidden <==> f in hidden)
    ensures MeansHidden(rules, stored, staticHidden, hidden)
    ensures forall other :: MeansHidden(rules, stored, staticHidden, other) ==> other == hidden
  {
    hide Fires, SortRules, HideRules, MeansHidden, Solves, Stratified, HidePass, Pass, RuleGraph.Acyclic, Sheltered;
    var hs := HideRules(SortRules(rules));
    hidden := HidePass(SortRules(rules), staticHidden, stored);
    StratifiedIsAcyclic(hs);
    StratifiedIsSheltered(hs, Firing(hs, stored));
    HidePassIsPass(SortRules(rules), staticHidden, stored);
    PassSolves(hs, Firing(hs, stored), staticHidden);
    MeansSolves(rules, stored, staticHidden, hidden);
    forall other | MeansHidden(rules, stored, staticHidden, other) ensures other == hidden {
      MeansSolves(rules, stored, staticHidden, other);
      SolutionUnique(hs, Firing(hs, stored), staticHidden, other, hidden);
    }
  }

  // ----- stored values on which the order matters, and on which it does not -----

  function HideWhen(id: int, conditionFieldId: int, operator: Operator, targetFieldId: int): Rule {
    Rule(id, 0, id, HideField, conditionFieldId, operator, NoValue, None, targetFieldId, None)
  }

  const FILLED := StoredValue(Text, Some("x"), None, None, None, None, [])

  /** Field 2 hides field 3, and then field 1 hides field 2; both conditions hold. */
  const WRONG_ORDER := [HideWhen(1, 2, IsNotEmpty, 3), HideWhen(2, 1, IsNotEmpty, 2)]
  const BOTH_FILLED: Stored := map[1 := FILLED, 2 := FILLED]

  /**
   * Two rules that the cycle guard admits: hiding means that only field 2 is hidden, and
   * computeFieldRuntime hides field 3 too.
   */
  lemma WrongOrderMisleads()
    ensures RuleGraph.Acyclic(EdgesOf(WRONG_ORDER))
    ensures MeansHidden(WRONG_ORDER, BOTH_FILLED, {}, {2})
    ensures forall hidden :: MeansHidden(WRONG_ORDER, BOTH_FILLED, {}, hidden) ==> 3 !in hidden
    ensures FieldRuntimes({1, 2, 3}, {}, BOTH_FILLED, WRONG_ORDER)[3].isHidden
  {
    var first, second := WRONG_ORDER[0], WRONG_ORDER[1];
    var edges := EdgesOf(WRONG_ORDER);
    assert edges == {RuleGraph.Edge(2, 3), RuleGraph.Edge(1, 2)};
    RuleGraph.AscendingIsAcyclic(edges);
    assert Fires(first, BOTH_FILLED) && Fires(second, BOTH_FILLED);
    assert second in WRONG_ORDER;
    forall f ensures f in {2} <==> HiddenByRule(WRONG_ORDER, BOTH_FILLED, {2}, f) {}
    forall hidden | MeansHidden(WRONG_ORDER, BOTH_FILLED, {}, hidden) ensures 3 !in hidden {
      MeaningUnique(WRONG_ORDER, BOTH_FILLED, {}, hidden, {2});
    }
    WrongOrderPass();
  }

  lemma WrongOrderPass()
    ensures 3 in HidePass(SortRules(WRONG_ORDER), {}, BOTH_FILLED)
  {
    var first, second := WRONG_ORDER[0], WRONG_ORDER[1];
    assert WRONG_ORDER[..1] == [first];
    assert SortRules([first]) == [first];
    assert SortRules(WRONG_ORDER) == [first, second];
    assert [first, second][..1] == [first];
    assert HidePass([first], {}, BOTH_FILLED) == {3};
  }

  /** Field 1 empty hides 3; field 2 filled hides 3; field 1 empty hides 2, after the rule conditioned on 2. */
  const LATE_HIDER := [HideWhen(1, 1, IsEmpty, 3), HideWhen(2, 2, IsNotEmpty, 3), HideWhen(3, 1, IsEmpty, 2)]

  /** A list that is not stratified and still computes the meaning for all stored values and static sets. */
  lemma LateHiderIsHarmless(stored: Stored, staticHidden: set<int>)
    ensures !Stratified(LATE_HIDER) && Sheltered(LATE_HIDER, Firing(LATE_HIDER, stored))
    ensures var firing := Firing(LATE_HIDER, stored);
            Solves(LATE_HIDER, firing, staticHidden, Pass(LATE_HIDER, firing, staticHidden))
  {
    hide Pass, Solves;
    var firing := Firing(LATE_HIDER, stored);
    assert LATE_HIDER[2].targetFieldId == LATE_HIDER[1].conditionFieldId;
    forall j, i | WrongOrder(LATE_HIDER, j, i) && j in firing && i in firing
      ensures exists k :: StandsIn(LATE_HIDER, firing, j, i, k)
    {
      assert StandsIn(LATE_HIDER, firing, j, i, 0);
    }
    PassSolves(LATE_HIDER, firing, staticHidden);
  }
}
