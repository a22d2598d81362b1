/**
 * The options of a select field form a forest: the parent-chain check of
 * src/services/case-field.validation.ts and the requests that set parents.
 */
module OptionTree {
  import opened Basics

  /** Option id to parent option id; every option of the field, archived ones included. */
  type Parents = map<int, Option<int>>

  function ParentOf(parents: Parents, c: int): Option<int> {
    if c in parents then parents[c] else None
  }

  /** The k-th ancestor of c, or None beyond a root. */
  function Ancestor(parents: Parents, c: Option<int>, k: nat): Option<int>
    decreases k
  {
    if k == 0 || c == None then c else Ancestor(parents, ParentOf(parents, c.value), k - 1)
  }

  ghost predicate EndsAtRoot(parents: Parents, c: Option<int>) {
    exists k: nat :: Ancestor(parents, c, k) == None
  }

  /** x is not c and not above c. */
  ghost predicate Avoids(parents: Parents, c: Option<int>, x: Option<int>) {
    x == None || forall k: nat :: Ancestor(parents, c, k) != x
  }

  ghost predicate Forest(parents: Parents) {
    && (forall c :: c in parents ==> EndsAtRoot(parents, Some(c)))
    && (forall c :: c in parents && parents[c].Some? ==> parents[c].value in parents)
  }

  /** In a forest the chain above every option ends. */
  lemma ForestAt(parents: Parents, c: int)
    requires Forest(parents) && c in parents
    ensures EndsAtRoot(parents, Some(c))
  {}

  lemma {:induction false} AncestorAdds(parents: Parents, c: Option<int>, a: nat, b: nat)
    ensures Ancestor(parents, c, a + b) == Ancestor(parents, Ancestor(parents, c, a), b)
    decreases a
  {
    if a > 0 && c.Some? {
      AncestorAdds(parents, ParentOf(parents, c.value), a - 1, b);
    } else if c == None {
      assert Ancestor(parents, None, b) == None;
    }
  }

  /** A chain that meets itself never ends. */
  lemma {:induction false} RepeatNeverEnds(parents: Parents, c: Option<int>, j: nat, k: nat, n: nat)
    requires j < k && Ancestor(parents, c, j) == Ancestor(parents, c, k)
    requires forall i: nat :: i <= k ==> Ancestor(parents, c, i).Some?
    ensures Ancestor(parents, c, n).Some?
    decreases n
  {
    if n > k {
      AncestorAdds(parents, c, k, n - k);
      AncestorAdds(parents, c, j, n - k);
      RepeatNeverEnds(parents, c, j, k, j + (n - k));
    }
  }

  /**
   * Accepts a new parent exactly when its chain reaches a root without meeting the option itself;
   * terminates even on data that already contains a cycle.
   */
  method AssertNoOptionCycle(optionId: Option<int>, newParentId: Option<int>, parents: Parents) returns (r: Result<()>)
    ensures r == if newParentId == None || (EndsAtRoot(parents, newParentId) && Avoids(parents, newParentId, optionId))
                 then Ok(()) else Err(ValidationError)
  {
    if newParentId == None {
      return Ok(());
    }
    if optionId.Some? && newParentId == optionId {
      assert Ancestor(parents, newParentId, 0) == optionId;
      return Err(ValidationError);
    }
    var cursor := newParentId;
    var seen: set<int> := {};
    ghost var k: nat := 0;
    ghost var all :=
        parents.Keys + {newParentId.value} + (set c | c in parents && parents[c].Some? :: parents[c].value);
    while cursor.Some?
      invariant cursor == Ancestor(parents, newParentId, k)
      invariant forall x :: x in seen ==>
          x in all && exists j: nat :: j < k && Ancestor(parents, newParentId, j) == Some(x)
      invariant forall j: nat :: j < k ==> Ancestor(parents, newParentId, j).Some?
      invariant optionId.Some? ==> forall j: nat :: j < k ==> Ancestor(parents, newParentId, j) != optionId
      invariant cursor.Some? ==> cursor.value in all
      decreases all - seen, cursor.Some?
    {
      if optionId.Some? && cursor == optionId {
        return Err(ValidationError);
      }
      if cursor.value in seen {
        ghost var x: int := cursor.value;
        assert x in seen;
        ghost var j: nat :| j < k && Ancestor(parents, newParentId, j) == Some(x);
        forall n: nat ensures Ancestor(parents, newParentId, n).Some? {
          RepeatNeverEnds(parents, newParentId, j, k, n);
        }
        return Err(ValidationError);
      }
      seen := seen + {cursor.value};
      AncestorAdds(parents, newParentId, k, 1);
      cursor := ParentOf(parents, cursor.value);
      k := k + 1;
    }
    forall n: nat ensures optionId.Some? ==> Ancestor(parents, newParentId, n) != optionId {
      if n > k {
        AncestorAdds(parents, newParentId, k, n - k);
      }
    }
    return Ok(());
  }

  // ----- setting a parent keeps the forest -----

  /** A chain that does not meet x is not changed by giving x another parent. */
  lemma {:induction false} ChainUnchanged(parents: Parents, x: int, p: Option<int>, c: Option<int>, k: nat)
    requires Avoids(parents, c, Some(x))
    ensures Ancestor(parents[x := p], c, k) == Ancestor(parents, c, k)
    decreases k
  {
    if k > 0 && c.Some? {
      assert Ancestor(parents, c, 0) != Some(x);
      forall n: nat ensures Ancestor(parents, ParentOf(parents, c.value), n) != Some(x) {
        assert Ancestor(parents, c, n + 1) != Some(x);
      }
      ChainUnchanged(parents, x, p, ParentOf(parents, c.value), k - 1);
    }
  }

  lemma {:induction false} StillEnds(parents: Parents, x: int, p: Option<int>, c: Option<int>, k: nat)
    requires Ancestor(parents, c, k) == None
    requires EndsAtRoot(parents[x := p], p)
    ensures EndsAtRoot(parents[x := p], c)
    decreases k
  {
    var after := parents[x := p];
    if c.Some? {
      var up := ParentOf(after, c.value);
      if c.value != x {
        StillEnds(parents, x, p, up, k - 1);
      }
      var n: nat :| Ancestor(after, up, n) == None;
      assert Ancestor(after, c, n + 1) == None;
    } else {
      assert Ancestor(after, c, 0) == None;
    }
  }

  lemma SetParentKeepsForest(parents: Parents, x: int, p: Option<int>)
    requires Forest(parents)
    requires p.Some? ==> p.value in parents && Avoids(parents, p, Some(x))
    ensures Forest(parents[x := p])
  {
    var after := parents[x := p];
    if p.Some? {
      var k: nat :| Ancestor(parents, p, k) == None;
      ChainUnchanged(parents, x, p, p, k);
    }
    assert p == None ==> Ancestor(after, p, 0) == None;
    assert EndsAtRoot(after, p);
    forall c | c in after ensures EndsAtRoot(after, Some(c)) {
      if c == x {
        var n: nat :| Ancestor(after, p, n) == None;
        assert Ancestor(after, Some(x), n + 1) == None;
      } else {
        var k: nat :| Ancestor(parents, Some(c), k) == None;
        StillEnds(parents, x, p, Some(c), k);
      }
    }
  }

  /** Ids above an option of the field are options of the field. */
  lemma {:induction false} AncestorsExist(parents: Parents, c: Option<int>, k: nat)
    requires Forest(parents) && (c.Some? ==> c.value in parents)
    ensures Ancestor(parents, c, k).Some? ==> Ancestor(parents, c, k).value in parents
    decreases k
  {
    if k > 0 && c.Some? {
      AncestorsExist(parents, ParentOf(parents, c.value), k - 1);
    }
  }

  // ----- the option rows of one field -----

  class OptionTable {
    var parents: Parents
    var archived: set<int>

    ghost predicate Valid()
      reads this
    {
      Forest(parents)
    }

    constructor ()
      ensures Valid() && parents == map[] && archived == {}
    {
      parents, archived := map[], {};
    }

    /** The parent must be an option of the field that is not archived, and must not lie below the option. */
    method AssertValidParent(optionId: Option<int>, parentId: int) returns (r: Result<()>)
      ensures r.Ok? <==>
              && parentId in parents && parentId !in archived
              && EndsAtRoot(parents, Some(parentId)) && Avoids(parents, Some(parentId), optionId)
      ensures r.Err? ==> r.error == ValidationError
    {
      if parentId !in parents || parentId in archived {
        return Err(ValidationError);
      }
      r := AssertNoOptionCycle(optionId, Some(parentId), parents);
    }

    method CreateOption(id: int, parentId: Option<int>) returns (r: Result<()>)
      requires Valid() && id !in parents
      modifies this`parents
      ensures Valid()
      ensures r.Ok? <==> (parentId.Some? ==> parentId.value in old(parents) && parentId.value !in archived)
      ensures parents == if r.Ok? then old(parents)[id := parentId] else old(parents)
    {
      if parentId.Some? {
        if parentId.value in parents {
          ForestAt(parents, parentId.value);
        }
        r := AssertValidParent(None, parentId.value);
        if r.Err? {
          return r;
        }
        forall k: nat ensures Ancestor(parents, parentId, k) != Some(id) {
          AncestorsExist(parents, parentId, k);
        }
      }
      SetParentKeepsForest(parents, id, parentId);
      parents := parents[id := parentId];
      return Ok(());
    }

    /** parentId: None leaves the parent, Some(None) removes it, Some(Some(p)) sets it. */
    method UpdateOption(id: int, parentId: Option<Option<int>>) returns (r: Result<()>)
      requires Valid()
      modifies this`parents
      ensures Valid()
      ensures r.Ok? <==>
              && id in old(parents)
              && (parentId.Some? && parentId.value.Some? ==>
                    && parentId.value.value in old(parents) && parentId.value.value !in archived
                    && Avoids(old(parents), parentId.value, Some(id)))
      ensures r == Err(ResourceNotFoundError) <==> id !in old(parents)
      ensures parents == if r.Ok? && parentId.Some? then old(parents)[id := parentId.value] else old(parents)
    {
      if id !in parents {
        return Err(ResourceNotFoundError);
      }
      if parentId.Some? {
        var p := parentId.value;
        if p.Some? {
          if p.value in parents {
            ForestAt(parents, p.value);
          }
          r := AssertValidParent(Some(id), p.value);
          if r.Err? {
            return r;
          }
        }
        SetParentKeepsForest(parents, id, p);
        parents := parents[id := p];
      }
      return Ok(());
    }

    /** referenced: some undeleted rule is conditioned on the option. */
    method ArchiveOption(id: int, referenced: bool) returns (r: Result<()>)
      requires Valid()
      modifies this`archived
      ensures Valid()
      ensures r.Ok? <==> id in parents && id !in old(archived) && !referenced
      ensures archived == if r.Ok? then old(archived) + {id} else old(archived)
    {
      if id !in parents {
        return Err(ResourceNotFoundError);
      }
      if id in archived {
        return Err(BusinessRuleViolationError);
      }
      if referenced {
        return Err(BusinessRuleViolationError);
      }
      archived := archived + {id};
      return Ok(());
    }
  }
}
