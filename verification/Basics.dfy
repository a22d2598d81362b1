/** Result and option values shared by every component of the model. */
module Basics {

  datatype Option<+T> = None | Some(value: T) {
    /** The value inside, or `default` when there is none (the `??` of the program). */
    function GetOr(default: T): T {
      if Some? then value else default
    }
  }

  /** The error classes of src/types/exceptions.ts that the modelled operations raise. */
  datatype Error =
    | ValidationError
    | ResourceNotFoundError
    | BusinessRuleViolationError
    | DuplicateResourceError
    | AuditChainBranchError
    | SystemRoleProtectedError
    | EmptyWeekdaysError

  datatype Result<+T> = Ok(value: T) | Err(error: Error)

  function Max(a: int, b: int): int {
    if a < b then b else a
  }

  function Min(a: int, b: int): int {
    if a < b then a else b
  }

  /** A finite set of integers lies strictly between -bound and bound. */
  lemma {:induction false} FiniteSetBound(s: set<int>) returns (bound: int)
    ensures 0 <= bound
    ensures forall x: int :: x in s ==> -bound < x < bound
    decreases s
  {
    if s == {} {
      bound := 0;
    } else {
      if forall y: int :: y !in s {
        assert false;
      }
      var x: int :| x in s;
      var rest := FiniteSetBound(s - {x});
      bound := rest + (if x < 0 then -x else x) + 1;
      assert forall y :: y in s ==> y == x || y in s - {x};
    }
  }

  lemma SubsetSize<T>(a: set<T>, b: set<T>)
    requires a <= b
    ensures |a| <= |b|
  {
    assert b == a + (b - a);
  }
}
