/** Option, result and error values shared by every component. */
module Basics {

  datatype Option<+T> = None | Some(value: T)

  /** The error kinds of the engine that the modelled operations can return. */
  datatype GFError =
    | NodeNotFound(id: string)
    | EdgeNotFound(row: nat)
    | DuplicateNodeId(dup: string)
    | DanglingEdge(src: string, dst: string)
    | LengthMismatch(expected: nat, actual: nat)
    | InvalidConfig
    | NegativeWeight
    | Unsupported(tag: string)

  datatype Result<+T> = Success(value: T) | Failure(error: GFError) {
    predicate IsFailure() {
      Failure?
    }

    function PropagateFailure<U>(): Result<U>
      requires Failure?
    {
      Failure(error)
    }

    function Extract(): T
      requires Success?
    {
      value
    }
  }

  predicate Distinct<T(==)>(s: seq<T>) {
    forall i, j | 0 <= i < j < |s| :: s[i] != s[j]
  }

  function Reversed<T>(a: seq<T>): (r: seq<T>)
    ensures |r| == |a|
    ensures forall i | 0 <= i < |a| :: r[i] == a[|a| - 1 - i]
  {
    if a == [] then [] else [a[|a| - 1]] + Reversed(a[..|a| - 1])
  }

  lemma ReversedPush<T>(a: seq<T>, x: T)
    ensures Reversed(a + [x]) == [x] + Reversed(a)
  {
  }

  lemma {:induction false} SubsetSize<T>(a: set<T>, b: set<T>)
    requires a <= b
    ensures |a| <= |b|
    decreases a
  {
    if a != {} {
      var x :| x in a;
      SubsetSize(a - {x}, b - {x});
    }
  }

  /** Pigeonhole. */
  lemma {:induction false} DistinctBounded(ns: seq<nat>, n: nat)
    requires Distinct(ns) && forall i | 0 <= i < |ns| :: ns[i] < n
    ensures |ns| <= n
  {
    if ns != [] {
      assert ns[0] < n;
      if n - 1 in ns {
        var i :| 0 <= i < |ns| && ns[i] == n - 1;
        DistinctBounded(ns[..i] + ns[i + 1..], n - 1);
      } else {
        DistinctBounded(ns, n - 1);
      }
    }
  }
}
