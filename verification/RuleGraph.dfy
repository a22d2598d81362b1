/**
 * The rule dependency graph: an edge from a rule's condition field to its target field, and the
 * worklist check of src/services/case-field.validation.ts that keeps it acyclic.
 */
module RuleGraph {
  import opened Basics

  datatype Edge = Edge(from: int, to: int)

  // ----- paths -----

  ghost predicate IsPath(edges: set<Edge>, p: seq<int>) {
    p != [] && forall i :: 0 <= i < |p| - 1 ==> Edge(p[i], p[i + 1]) in edges
  }

  ghost predicate PathBetween(edges: set<Edge>, p: seq<int>, a: int, b: int) {
    IsPath(edges, p) && p[0] == a && p[|p| - 1] == b
  }

  ghost predicate Reaches(edges: set<Edge>, a: int, b: int) {
    exists p :: PathBetween(edges, p, a, b)
  }

  ghost predicate IsCycle(edges: set<Edge>, p: seq<int>) {
    |p| >= 2 && IsPath(edges, p) && p[0] == p[|p| - 1]
  }

  ghost predicate Acyclic(edges: set<Edge>) {
    forall p :: !IsCycle(edges, p)
  }

  lemma ReachesItself(edges: set<Edge>, a: int)
    ensures Reaches(edges, a, a)
  {
    assert PathBetween(edges, [a], a, a);
  }

  lemma ReachesNext(edges: set<Edge>, a: int, b: int, c: int)
    requires Reaches(edges, a, b) && Edge(b, c) in edges
    ensures Reaches(edges, a, c)
  {
    var p :| PathBetween(edges, p, a, b);
    assert PathBetween(edges, p + [c], a, c);
  }

  /** A path that starts in a set closed under edges stays in it. */
  lemma {:induction false} ClosedSetContainsPath(edges: set<Edge>, closed: set<int>, p: seq<int>)
    requires IsPath(edges, p) && p[0] in closed
    requires forall e :: e in edges && e.from in closed ==> e.to in closed
    ensures p[|p| - 1] in closed
    decreases |p|
  {
    if |p| > 1 {
      assert Edge(p[0], p[1]) in edges;
      ClosedSetContainsPath(edges, closed, p[1..]);
    }
  }

  /** The new edge leaves `from`, so it never helps to reach `from`: a path may stop at its first `from`. */
  lemma {:induction false} NewEdgeDoesNotHelp(edges: set<Edge>, e: Edge, p: seq<int>, a: int)
    requires PathBetween(edges + {e}, p, a, e.from)
    ensures Reaches(edges, a, e.from)
    decreases |p|
  {
    if i :| 0 <= i < |p| - 1 && p[i] == e.from {
      NewEdgeDoesNotHelp(edges, e, p[..i + 1], a);
    } else {
      assert PathBetween(edges, p, a, e.from);
    }
  }

  /** A cycle through the new edge is a path back from its end to its start. */
  lemma CycleThroughNewEdge(edges: set<Edge>, e: Edge, p: seq<int>)
    requires IsCycle(edges + {e}, p) && !IsCycle(edges, p)
    ensures Reaches(edges, e.to, e.from)
  {
    var i :| 0 <= i < |p| - 1 && Edge(p[i], p[i + 1]) !in edges;
    var back := p[i + 1..] + p[1..i + 1];
    assert Edge(p[i], p[i + 1]) == e;
    assert |back| == |p| - 1;
    forall j | 0 <= j < |back| - 1 ensures Edge(back[j], back[j + 1]) in edges + {e} {
      var k := |p| - i - 1;
      if j < k - 1 {
        assert back[j] == p[i + 1 + j] && back[j + 1] == p[i + 1 + j + 1];
      } else if j == k - 1 {
        assert back[j] == p[|p| - 1] == p[0] && back[j + 1] == p[1];
        assert Edge(p[0], p[0 + 1]) in edges + {e};
      } else {
        assert back[j] == p[1 + j - k] && back[j + 1] == p[1 + j - k + 1];
      }
    }
    assert back[|back| - 1] == p[i];
    NewEdgeDoesNotHelp(edges, e, back, e.to);
  }

  /** An edge closes a cycle in an acyclic graph exactly when its start is reachable from its end. */
  lemma EdgeClosesCycle(edges: set<Edge>, e: Edge)
    requires Acyclic(edges)
    ensures Acyclic(edges + {e}) <==> !Reaches(edges, e.to, e.from)
  {
    if Reaches(edges, e.to, e.from) {
      var p :| PathBetween(edges, p, e.to, e.from);
      assert IsCycle(edges + {e}, p + [e.to]);
    } else {
      forall p ensures !IsCycle(edges + {e}, p) {
        if IsCycle(edges + {e}, p) {
          CycleThroughNewEdge(edges, e, p);
        }
      }
    }
  }

  lemma FewerEdgesStayAcyclic(fewer: set<Edge>, edges: set<Edge>)
    requires fewer <= edges && Acyclic(edges)
    ensures Acyclic(fewer)
  {
    forall p ensures !IsCycle(fewer, p) {
      assert IsCycle(fewer, p) ==> IsCycle(edges, p);
    }
  }

  lemma {:induction false} DistinctCount(p: seq<int>)
    requires forall i, j :: 0 <= i < j < |p| ==> p[i] != p[j]
    ensures |set x | x in p| == |p|
  {
    if p != [] {
      var front, last := p[..|p| - 1], p[|p| - 1];
      DistinctCount(front);
      assert (set x | x in p) == (set x | x in front) + {last};
      forall k | 0 <= k < |front| ensures front[k] != last {
        assert front[k] == p[k];
      }
    }
  }

  /** A path with more places than nodes meets a node twice. */
  lemma LongPathHasCycle(edges: set<Edge>, nodes: set<int>, p: seq<int>)
    requires IsPath(edges, p) && |p| > |nodes|
    requires forall k :: 0 <= k < |p| ==> p[k] in nodes
    ensures !Acyclic(edges)
  {
    if i: nat, j: nat :| i < j < |p| && p[i] == p[j] {
      var cycle := p[i..j + 1];
      forall k | 0 <= k < |cycle| - 1 ensures Edge(cycle[k], cycle[k + 1]) in edges {
        assert cycle[k] == p[i + k] && cycle[k + 1] == p[i + k + 1];
        assert 0 <= i + k < |p| - 1;
      }
      assert IsCycle(edges, cycle);
    } else {
      DistinctCount(p);
      SubsetSize((set x | x in p), nodes);
    }
  }

  /** An acyclic graph has no cycle of one, two or three edges. */
  lemma ShortCycles(edges: set<Edge>, a: int, b: int, c: int)
    requires Acyclic(edges)
    ensures Edge(a, a) !in edges
    ensures !(Edge(a, b) in edges && Edge(b, a) in edges)
    ensures !(Edge(a, b) in edges && Edge(b, c) in edges && Edge(c, a) in edges)
  {
    assert !IsCycle(edges, [a, a]);
    assert !IsCycle(edges, [a, b, a]);
    assert !IsCycle(edges, [a, b, c, a]);
  }

  // ----- assertNoRuleCycle -----

  function EdgeSet(edges: seq<Edge>): set<Edge> {
    set e | e in edges
  }

  function Nodes(edges: seq<Edge>): set<int> {
    (set e | e in edges :: e.from) + (set e | e in edges :: e.to)
  }

  method Adjacency(edges: seq<Edge>) returns (adj: map<int, seq<int>>)
    ensures forall a, b :: a in adj && b in adj[a] <==> Edge(a, b) in edges
  {
    adj := map[];
    for i := 0 to |edges|
      invariant forall a, b :: a in adj && b in adj[a] <==> Edge(a, b) in edges[..i]
    {
      var e := edges[i];
      var list := if e.from in adj then adj[e.from] else [];
      adj := adj[e.from := list + [e.to]];
      assert edges[..i + 1] == edges[..i] + [e];
    }
    assert edges[..|edges|] == edges;
  }

  /** Reaching `from` with the new edge is reaching it without. */
  lemma ReachedWithNewEdge(edges: set<Edge>, e: Edge)
    requires Reaches(edges + {e}, e.to, e.from)
    ensures Reaches(edges, e.to, e.from)
  {
    var p :| PathBetween(edges + {e}, p, e.to, e.from);
    NewEdgeDoesNotHelp(edges, e, p, e.to);
  }

  /** What is not in a closed set is not reached from it. */
  lemma NotReached(edges: set<Edge>, closed: set<int>, a: int, b: int)
    requires a in closed && b !in closed
    requires forall e :: e in edges && e.from in closed ==> e.to in closed
    ensures !Reaches(edges, a, b)
  {
    forall p ensures !PathBetween(edges, p, a, b) {
      if PathBetween(edges, p, a, b) {
        ClosedSetContainsPath(edges, closed, p);
      }
    }
  }

  /** Throws exactly when the start of the new edge is reachable from its end. */
  method AssertNoRuleCycle(edges: seq<Edge>, newEdge: Edge) returns (r: Result<()>)
    ensures r == if Reaches(EdgeSet(edges), newEdge.to, newEdge.from) then Err(BusinessRuleViolationError) else Ok(())
  {
    hide Reaches;
    var all := edges + [newEdge];
    ghost var graph := EdgeSet(edges) + {newEdge};
    assert forall e :: e in graph <==> e in all;
    var adj := Adjacency(all);
    var seen: set<int> := {};
    var stack := [newEdge.to];
    ghost var nodes := Nodes(all);
    ReachesItself(graph, newEdge.to);
    assert newEdge in all;
    while |stack| > 0
      invariant forall n :: n in stack ==> n in nodes && Reaches(graph, newEdge.to, n)
      invariant newEdge.to in seen || newEdge.to in stack
      invariant newEdge.from !in seen
      invariant forall e :: e in graph && e.from in seen ==> e.to in seen || e.to in stack
      decreases nodes - seen, |stack|
    {
      var n := stack[|stack| - 1];
      assert n in stack;
      assert stack == stack[..|stack| - 1] + [n];
      stack := stack[..|stack| - 1];
      if n == newEdge.from {
        ReachedWithNewEdge(EdgeSet(edges), newEdge);
        return Err(BusinessRuleViolationError);
      }
      if n in seen {
        continue;
      }
      seen := seen + {n};
      var next := if n in adj then adj[n] else [];
      forall m | m in next ensures m in nodes && Reaches(graph, newEdge.to, m) {
        assert Edge(n, m) in all;
        ReachesNext(graph, newEdge.to, n, m);
      }
      assert forall e :: e in graph && e.from == n ==> e.to in next by {
        forall e | e in graph && e.from == n ensures e.to in next {
          assert Edge(n, e.to) in all;
        }
      }
      stack := stack + next;
    }
    NotReached(EdgeSet(edges), seen, newEdge.to, newEdge.from);
    return Ok(());
  }

  // ----- the rule table -----

  datatype FieldStatus = Draft | Active | ReadOnly | Archived

  /** The columns of a rule row that the cycle guard depends on. */
  datatype RuleRow = RuleRow(id: int, conditionFieldId: int, targetFieldId: int, isActive: bool, deleted: bool)

  /**
   * The fields of a rule request. effectKnown and operatorKnown: the names are members of their enums;
   * otherError: the outcome of the checks of operator, value, options and payload against the field types.
   */
  datatype RuleInput = RuleInput(
    conditionFieldId: Option<int>,
    targetFieldId: Option<int>,
    effectKnown: bool,
    operatorKnown: bool,
    otherError: Option<Error>)

  /** The rules the engine uses, and so the edges of the graph. */
  predicate IsLive(r: RuleRow) {
    r.isActive && !r.deleted
  }

  function LiveEdges(rows: seq<RuleRow>, exclude: Option<int>): (edges: seq<Edge>)
    ensures forall e :: e in edges <==>
              exists i :: 0 <= i < |rows| && IsLive(rows[i]) && Some(rows[i].id) != exclude
                  && e == Edge(rows[i].conditionFieldId, rows[i].targetFieldId)
  {
    if rows == [] then []
    else
      var front, r := rows[..|rows| - 1], rows[|rows| - 1];
      assert forall i :: 0 <= i < |front| ==> front[i] == rows[i];
      LiveEdges(front, exclude) + if IsLive(r) && Some(r.id) != exclude
          then [Edge(r.conditionFieldId, r.targetFieldId)] else []
  }

  ghost function Graph(rows: seq<RuleRow>): set<Edge> {
    EdgeSet(LiveEdges(rows, None))
  }

  /** validateRuleInput, with the cycle guard stated as reachability. */
  ghost function CheckRule(
      rows: seq<RuleRow>, fields: map<int, FieldStatus>, input: RuleInput, exclude: Option<int>): Result<Edge> {
    if !input.effectKnown || input.conditionFieldId == None || input.targetFieldId == None then Err(ValidationError)
    else
      var e := Edge(input.conditionFieldId.value, input.targetFieldId.value);
      if e.from == e.to then Err(BusinessRuleViolationError)
      else if !input.operatorKnown then Err(ValidationError)
      else if e.from !in fields || e.to !in fields then Err(ResourceNotFoundError)
      else if fields[e.from] == Archived || fields[e.from] == ReadOnly || fields[e.to] == Archived
          || fields[e.to] == ReadOnly
      then Err(BusinessRuleViolationError)
      else if input.otherError.Some? then Err(input.otherError.value)
      else if Reaches(EdgeSet(LiveEdges(rows, exclude)), e.to, e.from) then Err(BusinessRuleViolationError)
      else Ok(e)
  }

  datatype RuleOp =
    | Create(id: int, nameOk: bool, input: RuleInput)
    | Update(id: int, nameOk: bool, isActive: Option<bool>, input: RuleInput)
    | Archive(id: int)

  predicate HasRow(rows: seq<RuleRow>, id: int) {
    exists i :: 0 <= i < |rows| && rows[i].id == id
  }

  ghost predicate DistinctRows(rows: seq<RuleRow>) {
    forall i, j :: 0 <= i < j < |rows| ==> rows[i].id != rows[j].id
  }

  function IndexOf(rows: seq<RuleRow>, id: int): (i: nat)
    requires HasRow(rows, id)
    ensures i < |rows| && rows[i].id == id
  {
    if rows[0].id == id then 0
    else
      assert HasRow(rows[1..], id) by {
        var k :| 0 <= k < |rows| && rows[k].id == id;
        assert rows[1..][k - 1] == rows[k];
      }
      IndexOf(rows[1..], id) + 1
  }

  /** The update request completed with the row's own values. */
  function Merged(row: RuleRow, input: RuleInput): RuleInput {
    RuleInput(
      if input.conditionFieldId.Some? then input.conditionFieldId else Some(row.conditionFieldId),
      if input.targetFieldId.Some? then input.targetFieldId else Some(row.targetFieldId),
      input.effectKnown, input.operatorKnown, input.otherError)
  }

  /** The outcome of one request and the rows after it; a refused request changes nothing. */
  ghost function Perform(
      rows: seq<RuleRow>, fields: map<int, FieldStatus>, op: RuleOp): (r: (Result<()>, seq<RuleRow>)) {
    match op
    case Create(id, nameOk, input) =>
      if !nameOk then (Err(ValidationError), rows)
      else
        var checked := CheckRule(rows, fields, input, None);
        if checked.Err? then (Err(checked.error), rows)
        else (Ok(()), rows + [RuleRow(id, checked.value.from, checked.value.to, true, false)])
    case Update(id, nameOk, isActive, input) =>
      if !HasRow(rows, id) then (Err(ResourceNotFoundError), rows)
      else if !nameOk then (Err(ValidationError), rows)
      else
        var i := IndexOf(rows, id);
        var checked := CheckRule(rows, fields, Merged(rows[i], input), Some(id));
        if checked.Err? then (Err(checked.error), rows)
        else
          var Edge(from, to) := checked.value;
          (Ok(()), rows[i := RuleRow(id, from, to, isActive.GetOr(rows[i].isActive), rows[i].deleted)])
    case Archive(id) =>
      if !HasRow(rows, id) then (Err(ResourceNotFoundError), rows)
      else
        var i := IndexOf(rows, id);
        if rows[i].deleted then (Err(BusinessRuleViolationError), rows)
        else (Ok(()), rows[i := rows[i].(isActive := false, deleted := true)])
  }

  /** The tenant's rule rows and field statuses, and the requests that change the rules. */
  class RuleTable {
    var rows: seq<RuleRow>
    var fields: map<int, FieldStatus>

    ghost predicate Valid()
      reads this
    {
      DistinctRows(rows) && Acyclic(Graph(rows))
    }

    constructor (fields: map<int, FieldStatus>)
      ensures Valid() && rows == [] && this.fields == fields
    {
      rows := [];
      this.fields := fields;
      new;
      EmptyGraphAcyclic();
    }

    method ValidateRuleInput(input: RuleInput, exclude: Option<int>) returns (r: Result<Edge>)
      ensures r == CheckRule(rows, fields, input, exclude)
    {
      if !input.effectKnown {
        return Err(ValidationError);
      }
      if input.conditionFieldId == None || input.targetFieldId == None {
        return Err(ValidationError);
      }
      var from, to := input.conditionFieldId.value, input.targetFieldId.value;
      if from == to {
        return Err(BusinessRuleViolationError);
      }
      if !input.operatorKnown {
        return Err(ValidationError);
      }
      if from !in fields {
        return Err(ResourceNotFoundError);
      }
      if to !in fields {
        return Err(ResourceNotFoundError);
      }
      if fields[from] == Archived || fields[from] == ReadOnly || fields[to] == Archived || fields[to] == ReadOnly {
        return Err(BusinessRuleViolationError);
      }
      if input.otherError.Some? {
        return Err(input.otherError.value);
      }
      var others := LiveEdges(rows, exclude);
      var cycle := AssertNoRuleCycle(others, Edge(from, to));
      return if cycle.Err? then Err(cycle.error) else Ok(Edge(from, to));
    }

    method CreateRule(id: int, nameOk: bool, input: RuleInput) returns (r: Result<()>)
      requires Valid() && !HasRow(rows, id)
      modifies this`rows
      ensures Valid()
      ensures (r, rows) == Perform(old(rows), fields, Create(id, nameOk, input))
    {
      PerformKeepsAcyclic(rows, fields, Create(id, nameOk, input));
      if !nameOk {
        return Err(ValidationError);
      }
      var resolved := ValidateRuleInput(input, None);
      if resolved.Err? {
        return Err(resolved.error);
      }
      rows := rows + [RuleRow(id, resolved.value.from, resolved.value.to, true, false)];
      return Ok(());
    }

    method UpdateRule(id: int, nameOk: bool, isActive: Option<bool>, input: RuleInput) returns (r: Result<()>)
      requires Valid()
      modifies this`rows
      ensures Valid()
      ensures (r, rows) == Perform(old(rows), fields, Update(id, nameOk, isActive, input))
    {
      PerformKeepsAcyclic(rows, fields, Update(id, nameOk, isActive, input));
      if !HasRow(rows, id) {
        return Err(ResourceNotFoundError);
      }
      if !nameOk {
        return Err(ValidationError);
      }
      var i := IndexOf(rows, id);
      var resolved := ValidateRuleInput(Merged(rows[i], input), Some(id));
      if resolved.Err? {
        return Err(resolved.error);
      }
      rows := rows[i :=
          RuleRow(id, resolved.value.from, resolved.value.to, isActive.GetOr(rows[i].isActive), rows[i].deleted)];
      return Ok(());
    }

    method ArchiveRule(id: int) returns (r: Result<()>)
      requires Valid()
      modifies this`rows
      ensures Valid()
      ensures (r, rows) == Perform(old(rows), fields, Archive(id))
    {
      PerformKeepsAcyclic(rows, fields, Archive(id));
      if !HasRow(rows, id) {
        return Err(ResourceNotFoundError);
      }
      var i := IndexOf(rows, id);
      if rows[i].deleted {
        return Err(BusinessRuleViolationError);
      }
      rows := rows[i := rows[i].(isActive := false, deleted := true)];
      return Ok(());
    }
  }

  lemma EmptyGraphAcyclic()
    ensures Acyclic(Graph([]))
  {
    forall p ensures !IsCycle(Graph([]), p) {
      if IsCycle(Graph([]), p) {
        CycleHasEdge(Graph([]), p);
      }
    }
  }

  lemma CycleHasEdge(edges: set<Edge>, p: seq<int>)
    requires IsCycle(edges, p)
    ensures Edge(p[0], p[0 + 1]) in edges
  {}

  /** Replacing row i adds at most the edge of the new row to the edges of the other rows. */
  lemma UpdatedGraph(rows: seq<RuleRow>, i: nat, row: RuleRow)
    requires DistinctRows(rows) && i < |rows| && row.id == rows[i].id
    ensures Graph(rows[i := row]) <= EdgeSet(LiveEdges(rows, Some(row.id)))
        + {Edge(row.conditionFieldId, row.targetFieldId)}
    ensures !IsLive(row) ==> Graph(rows[i := row]) <= EdgeSet(LiveEdges(rows, Some(row.id)))
    ensures EdgeSet(LiveEdges(rows, Some(row.id))) <= Graph(rows)
  {
    hide LiveEdges;
    var rows' := rows[i := row];
    forall e | e in Graph(rows')
      ensures e in LiveEdges(rows, Some(row.id)) ||
              (IsLive(row) && e == Edge(row.conditionFieldId, row.targetFieldId))
    {
      var k :| 0 <= k < |rows'| && IsLive(rows'[k]) && Some(rows'[k].id) != None
          && e == Edge(rows'[k].conditionFieldId, rows'[k].targetFieldId);
      if k != i {
        assert rows[k] == rows'[k];
      }
    }
  }

  /** No request, refused or not, makes the graph cyclic. */
  lemma PerformKeepsAcyclic(rows: seq<RuleRow>, fields: map<int, FieldStatus>, op: RuleOp)
    requires DistinctRows(rows) && Acyclic(Graph(rows))
    requires op.Create? ==> !HasRow(rows, op.id)
    ensures var rows' := Perform(rows, fields, op).1; DistinctRows(rows') && Acyclic(Graph(rows'))
  {
    hide LiveEdges, Acyclic;
    var rows' := Perform(rows, fields, op).1;
    if rows' != rows {
      match op
      case Create(id, nameOk, input) =>
        var row := rows'[|rows|];
        var e := Edge(row.conditionFieldId, row.targetFieldId);
        EdgeClosesCycle(Graph(rows), e);
        forall x | x in Graph(rows') ensures x in Graph(rows) + {e} {
          var k :| 0 <= k < |rows'| && IsLive(rows'[k]) && x == Edge(rows'[k].conditionFieldId, rows'[k].targetFieldId);
          if k < |rows| {
            assert rows[k] == rows'[k];
          }
        }
        FewerEdgesStayAcyclic(Graph(rows'), Graph(rows) + {e});
      case Update(id, nameOk, isActive, input) =>
        var i := IndexOf(rows, id);
        var row := rows'[i];
        var e := Edge(row.conditionFieldId, row.targetFieldId);
        var others := EdgeSet(LiveEdges(rows, Some(id)));
        UpdatedGraph(rows, i, row);
        FewerEdgesStayAcyclic(others, Graph(rows));
        EdgeClosesCycle(others, e);
        FewerEdgesStayAcyclic(Graph(rows'), others + {e});
      case Archive(id) =>
        var i := IndexOf(rows, id);
        UpdatedGraph(rows, i, rows'[i]);
        FewerEdgesStayAcyclic(Graph(rows'), Graph(rows));
    }
  }

  /** The rows after a serial run of requests; a create whose generated id exists is not a request. */
  ghost function AfterRun(fields: map<int, FieldStatus>, ops: seq<RuleOp>): seq<RuleRow> {
    if ops == [] then []
    else
      var rows := AfterRun(fields, ops[..|ops| - 1]);
      var op := ops[|ops| - 1];
      if op.Create? && HasRow(rows, op.id) then rows else Perform(rows, fields, op).1
  }

  /** In every serial run of create, update (re-activation included) and archive the live rules stay acyclic. */
  lemma {:induction false} EveryRunStaysAcyclic(fields: map<int, FieldStatus>, ops: seq<RuleOp>)
    ensures Acyclic(Graph(AfterRun(fields, ops))) && DistinctRows(AfterRun(fields, ops))
  {
    if ops == [] {
      EmptyGraphAcyclic();
    } else {
      EveryRunStaysAcyclic(fields, ops[..|ops| - 1]);
      var rows := AfterRun(fields, ops[..|ops| - 1]);
      var op := ops[|ops| - 1];
      if !(op.Create? && HasRow(rows, op.id)) {
        PerformKeepsAcyclic(rows, fields, op);
      }
    }
  }

  /** Every check but the cycle guard passes. */
  predicate OtherwiseValid(fields: map<int, FieldStatus>, input: RuleInput) {
    && input.effectKnown && input.operatorKnown && input.otherError == None
    && input.conditionFieldId.Some? && input.targetFieldId.Some?
    && var c, t := input.conditionFieldId.value, input.targetFieldId.value;
       c != t && c in fields && t in fields && fields[c] in {Draft, Active} && fields[t] in {Draft, Active}
  }

  lemma RefusedByReachability(
      rows: seq<RuleRow>, fields: map<int, FieldStatus>, input: RuleInput, exclude: Option<int>)
    requires OtherwiseValid(fields, input)
    ensures var e := Edge(input.conditionFieldId.value, input.targetFieldId.value);
            CheckRule(rows, fields, input, exclude) ==
            if Reaches(EdgeSet(LiveEdges(rows, exclude)), e.to, e.from) then Err(BusinessRuleViolationError) else Ok(e)
  {
    hide Reaches;
  }

  /** The guard refuses no create it need not: an otherwise valid one fails only if it would close a cycle. */
  lemma CreateRefusedOnlyForCycles(rows: seq<RuleRow>, fields: map<int, FieldStatus>, id: int, input: RuleInput)
    requires Acyclic(Graph(rows)) && !HasRow(rows, id) && OtherwiseValid(fields, input)
    ensures Perform(rows, fields, Create(id, true, input)).0.Ok? <==>
            Acyclic(Graph(rows) + {Edge(input.conditionFieldId.value, input.targetFieldId.value)})
  {
    hide Acyclic, Reaches, LiveEdges, OtherwiseValid;
    RefusedByReachability(rows, fields, input, None);
    EdgeClosesCycle(Graph(rows), Edge(input.conditionFieldId.value, input.targetFieldId.value));
  }

  /** The row that an accepted update writes. */
  function UpdatedRow(row: RuleRow, isActive: Option<bool>, input: RuleInput): RuleRow
    requires Merged(row, input).conditionFieldId.Some? && Merged(row, input).targetFieldId.Some?
  {
    var merged := Merged(row, input);
    RuleRow(row.id, merged.conditionFieldId.value, merged.targetFieldId.value, isActive.GetOr(row.isActive),
        row.deleted)
  }

  /** Replacing row i by a live row gives exactly the other rows' edges and its own. */
  lemma LiveUpdatedGraph(rows: seq<RuleRow>, i: nat, row: RuleRow)
    requires DistinctRows(rows) && i < |rows| && row.id == rows[i].id
    ensures EdgeSet(LiveEdges(rows, Some(row.id))) <= Graph(rows[i := row])
    ensures IsLive(row) ==> Edge(row.conditionFieldId, row.targetFieldId) in Graph(rows[i := row])
  {
    hide LiveEdges;
    var rows' := rows[i := row];
    forall e | e in LiveEdges(rows, Some(row.id)) ensures e in LiveEdges(rows', None) {
      var k :| 0 <= k < |rows| && IsLive(rows[k]) && Some(rows[k].id) != Some(row.id)
               && e == Edge(rows[k].conditionFieldId, rows[k].targetFieldId);
      assert rows'[k] == rows[k] && IsLive(rows'[k]) && Some(rows'[k].id) != None;
    }
    if IsLive(row) {
      assert IsLive(rows'[i]) && Some(rows'[i].id) != None;
    }
  }

  /**
   * An otherwise valid update succeeds iff its edge closes no cycle with the other live rules. When the
   * row it writes is live that is exactly the acyclicity of the graph; when it is not, the graph would
   * stay acyclic in any case, so every refusal is needless.
   */
  lemma UpdateRefusal(
      rows: seq<RuleRow>, fields: map<int, FieldStatus>, id: int, isActive: Option<bool>, input: RuleInput)
    requires DistinctRows(rows) && Acyclic(Graph(rows)) && HasRow(rows, id)
    requires OtherwiseValid(fields, Merged(rows[IndexOf(rows, id)], input))
    ensures var i := IndexOf(rows, id);
            var row := UpdatedRow(rows[i], isActive, input);
            var ok := Perform(rows, fields, Update(id, true, isActive, input)).0.Ok?;
            && (ok <==> Acyclic(EdgeSet(LiveEdges(rows, Some(id))) + {Edge(row.conditionFieldId, row.targetFieldId)}))
            && (IsLive(row) ==> (ok <==> Acyclic(Graph(rows[i := row]))))
            && (!IsLive(row) ==> Acyclic(Graph(rows[i := row])))
  {
    hide Acyclic, Reaches, LiveEdges, OtherwiseValid, Graph;
    var i := IndexOf(rows, id);
    var row := UpdatedRow(rows[i], isActive, input);
    var e := Edge(row.conditionFieldId, row.targetFieldId);
    var others := EdgeSet(LiveEdges(rows, Some(id)));
    RefusedByReachability(rows, fields, Merged(rows[i], input), Some(id));
    UpdatedGraph(rows, i, row);
    LiveUpdatedGraph(rows, i, row);
    FewerEdgesStayAcyclic(others, Graph(rows));
    EdgeClosesCycle(others, e);
    if IsLive(row) {
      assert Graph(rows[i := row]) == others + {e};
    } else {
      FewerEdgesStayAcyclic(Graph(rows[i := row]), others);
    }
  }

  /** Renaming an inactive rule whose edge runs against a live rule is refused, although no live rule changes. */
  lemma InactiveUpdateRefused()
    ensures var rows := [RuleRow(1, 10, 20, true, false), RuleRow(2, 20, 10, false, false)];
            var fields := map[10 := Active, 20 := Active];
            var rename := Update(2, true, None, RuleInput(None, None, true, true, None));
            && Acyclic(Graph(rows)) && DistinctRows(rows)
            && Perform(rows, fields, rename) == (Err(BusinessRuleViolationError), rows)
  {
    var rows := [RuleRow(1, 10, 20, true, false), RuleRow(2, 20, 10, false, false)];
    var fields := map[10 := Active, 20 := Active];
    var input := RuleInput(None, None, true, true, None);
    assert rows[1].id == 2;
    assert IndexOf(rows, 2) == 1;
    var others := EdgeSet(LiveEdges(rows, Some(2)));
    assert IsLive(rows[0]) && Some(rows[0].id) != Some(2) && Some(rows[0].id) != None;
    assert Edge(10, 20) in others;
    assert PathBetween(others, [10, 20], 10, 20);
    RefusedByReachability(rows, fields, Merged(rows[1], input), Some(2));
    forall e | e in Graph(rows) ensures e.from < e.to {
      var k :| 0 <= k < |rows| && IsLive(rows[k]) && Some(rows[k].id) != None
               && e == Edge(rows[k].conditionFieldId, rows[k].targetFieldId);
    }
    AscendingIsAcyclic(Graph(rows));
  }

  /** Edges that all lead upwards close no cycle. */
  lemma AscendingIsAcyclic(edges: set<Edge>)
    requires forall e :: e in edges ==> e.from < e.to
    ensures Acyclic(edges)
  {
    forall p ensures !IsCycle(edges, p) {
      if IsCycle(edges, p) {
        PathAscends(edges, p);
      }
    }
  }

  lemma {:induction false} PathAscends(edges: set<Edge>, p: seq<int>)
    requires IsPath(edges, p) && |p| >= 2
    requires forall e :: e in edges ==> e.from < e.to
    ensures p[0] < p[|p| - 1]
    decreases |p|
  {
    assert Edge(p[0], p[0 + 1]) in edges;
    if |p| > 2 {
      PathAscends(edges, p[1..]);
    }
  }
}
