/**
 * What the requests on field rules do, told from the rows before and after (src/services/case-field.service.ts).
 */
module RuleLaws {
  import opened Basics
  import opened RuleGraph

  /** A field that a rule may name: it exists and is DRAFT or ACTIVE. */
  predicate Usable(fields: map<int, FieldStatus>, field: int) {
    field in fields && (fields[field] == Draft || fields[field] == Active)
  }

  /** A rule from c to t passes every check but the cycle guard. */
  predicate Acceptable(fields: map<int, FieldStatus>, input: RuleInput, c: int, t: int) {
    && input.effectKnown && input.operatorKnown && input.otherError == None
    && c != t && Usable(fields, c) && Usable(fields, t)
  }

  // ----- create -----

  /** A create with both fields adds one active rule iff its name and rule are acceptable and close no cycle. */
  lemma CreateLaw(
      rows: seq<RuleRow>, fields: map<int, FieldStatus>, id: int, nameOk: bool, input: RuleInput, c: int, t: int)
    requires Acyclic(Graph(rows)) && input.conditionFieldId == Some(c) && input.targetFieldId == Some(t)
    ensures var r := Perform(rows, fields, Create(id, nameOk, input));
            if nameOk && Acceptable(fields, input, c, t) && Acyclic(Graph(rows) + {Edge(c, t)}) then
              r == (Ok(()), rows + [RuleRow(id, c, t, true, false)])
            else r.0.Err? && r.1 == rows
  {
    hide Acyclic, Reaches, LiveEdges;
    EdgeClosesCycle(Graph(rows), Edge(c, t));
  }

  /** Which check a create fails first. */
  lemma CreateErrors(rows: seq<RuleRow>, fields: map<int, FieldStatus>, id: int, nameOk: bool, input: RuleInput)
    ensures var r := Perform(rows, fields, Create(id, nameOk, input)).0;
            var named := input.conditionFieldId.Some? && input.targetFieldId.Some?;
            var distinct := named && input.conditionFieldId != input.targetFieldId;
            && (!nameOk || !input.effectKnown || !named || (distinct && !input.operatorKnown) ==>
                r == Err(ValidationError))
            && (nameOk && input.effectKnown && named && !distinct ==> r == Err(BusinessRuleViolationError))
            && (nameOk && input.effectKnown && distinct && input.operatorKnown ==>
                  var c, t := input.conditionFieldId.value, input.targetFieldId.value;
                  && (c !in fields || t !in fields ==> r == Err(ResourceNotFoundError))
                  && (c in fields && t in fields && !(Usable(fields, c) && Usable(fields, t)) ==>
                        r == Err(BusinessRuleViolationError))
                  && (Usable(fields, c) && Usable(fields, t) && input.otherError.Some? ==>
                        r == Err(input.otherError.value)))
  {
    hide Reaches, LiveEdges;
  }

  // ----- update -----

  /** The value of an update: the request's if it gives one, else the row's own. */
  function Given(requested: Option<int>, own: int): int {
    if requested == None then own else requested.value
  }

  /**
   * An update goes through iff the rule exists and what it becomes is acceptable and closes no cycle with the
   * other live rules. It keeps what it does not give, never undeletes, and touches no other row.
   */
  lemma UpdateLaw(
      rows: seq<RuleRow>, fields: map<int, FieldStatus>, i: nat, nameOk: bool, isActive: Option<bool>, input: RuleInput)
    requires DistinctRows(rows) && Acyclic(Graph(rows)) && i < |rows|
    ensures var row := rows[i];
            var c := Given(input.conditionFieldId, row.conditionFieldId);
            var t := Given(input.targetFieldId, row.targetFieldId);
            var r := Perform(rows, fields, Update(row.id, nameOk, isActive, input));
            if nameOk && Acceptable(fields, input, c, t)
               && Acyclic(EdgeSet(LiveEdges(rows, Some(row.id))) + {Edge(c, t)}) then
              && r.0 == Ok(())
              && r.1 == rows[i := RuleRow(row.id, c, t, isActive.GetOr(row.isActive), row.deleted)]
            else r.0.Err? && r.1 == rows
  {
    hide Acyclic, Reaches, LiveEdges, Graph;
    var row := rows[i];
    assert rows[i].id == row.id;
    assert HasRow(rows, row.id);
    SameIndex(rows, i);
    UpdatedGraph(rows, i, row);
    FewerEdgesStayAcyclic(EdgeSet(LiveEdges(rows, Some(row.id))), Graph(rows));
    var c, t := Given(input.conditionFieldId, row.conditionFieldId), Given(input.targetFieldId, row.targetFieldId);
    EdgeClosesCycle(EdgeSet(LiveEdges(rows, Some(row.id))), Edge(c, t));
  }

  lemma SameIndex(rows: seq<RuleRow>, i: nat)
    requires DistinctRows(rows) && i < |rows| && HasRow(rows, rows[i].id)
    ensures IndexOf(rows, rows[i].id) == i
  {}

  /** An update or archive of a rule that does not exist is answered so. */
  lemma UnknownRule(rows: seq<RuleRow>, fields: map<int, FieldStatus>, op: RuleOp)
    requires !op.Create? && forall i :: 0 <= i < |rows| ==> rows[i].id != op.id
    ensures Perform(rows, fields, op) == (Err(ResourceNotFoundError), rows)
  {}

  // ----- archive -----

  /** An archive of an undeleted rule makes it inactive and deleted; a second one is refused. */
  lemma ArchiveLaw(rows: seq<RuleRow>, fields: map<int, FieldStatus>, i: nat)
    requires DistinctRows(rows) && i < |rows|
    ensures var row := rows[i];
            Perform(rows, fields, Archive(row.id)) ==
            if row.deleted then (Err(BusinessRuleViolationError), rows)
            else (Ok(()), rows[i := RuleRow(row.id, row.conditionFieldId, row.targetFieldId, false, true)])
  {
    assert HasRow(rows, rows[i].id);
    SameIndex(rows, i);
  }

  // ----- runs -----

  /** Every row ever written connects two different usable fields. */
  predicate RowsUsable(rows: seq<RuleRow>, fields: map<int, FieldStatus>) {
    forall i :: 0 <= i < |rows| ==>
      && rows[i].conditionFieldId != rows[i].targetFieldId
      && Usable(fields, rows[i].conditionFieldId) && Usable(fields, rows[i].targetFieldId)
  }

  /** No row goes, keeps its place and id, and is live again once it is deleted. */
  predicate RowsStay(before: seq<RuleRow>, after: seq<RuleRow>) {
    && |before| <= |after|
    && forall i :: 0 <= i < |before| ==>
         after[i].id == before[i].id && (before[i].deleted ==> after[i].deleted && !IsLive(after[i]))
  }

  lemma PerformKeepsRows(rows: seq<RuleRow>, fields: map<int, FieldStatus>, op: RuleOp)
    ensures RowsStay(rows, Perform(rows, fields, op).1)
    ensures RowsUsable(rows, fields) ==> RowsUsable(Perform(rows, fields, op).1, fields)
  {
    hide Reaches, LiveEdges;
  }

  /** In every serial run the rules connect different usable fields, and an archived rule is never live again. */
  lemma {:induction false} EveryRunKeepsRows(fields: map<int, FieldStatus>, ops: seq<RuleOp>, n: nat)
    requires n <= |ops|
    ensures RowsUsable(AfterRun(fields, ops), fields)
    ensures RowsStay(AfterRun(fields, ops[..n]), AfterRun(fields, ops))
    decreases |ops|
  {
    hide Perform;
    if n == |ops| {
      assert ops[..n] == ops;
    }
    if ops != [] {
      var front, op := ops[..|ops| - 1], ops[|ops| - 1];
      PerformKeepsRows(AfterRun(fields, front), fields, op);
      if n < |ops| {
        EveryRunKeepsRows(fields, front, n);
        assert front[..n] == ops[..n];
      } else {
        EveryRunKeepsRows(fields, front, 0);
      }
    }
  }
}
