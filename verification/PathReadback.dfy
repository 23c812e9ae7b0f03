/** Reading a path back from a predecessor array. */
module PathReadback {
  import opened Basics

  /** `ns` ends in `t` and follows the predecessor array back to `s`. */
  predicate Chain(p: seq<Option<nat>>, s: nat, t: nat, ns: seq<nat>)
    decreases |ns|
  {
    && |ns| > 0 && ns[|ns| - 1] == t
    && if t == s then |ns| == 1 else
        |ns| > 1 && t < |p| && p[t] == Some(ns[|ns| - 2]) && Chain(p, s, ns[|ns| - 2], ns[..|ns| - 1])
  }

  /** Every recorded predecessor has a strictly lower rank. */
  predicate Falls(p: seq<Option<nat>>, rank: seq<Option<nat>>) {
    && |p| == |rank|
    && forall v | 0 <= v < |p| && p[v].Some? && rank[v].Some? ::
        p[v].value < |rank| && rank[p[v].value].Some? && rank[p[v].value].value < rank[v].value
  }

  method ReconstructPath(prev: seq<Option<nat>>, src: nat, dst: nat, ghost rank: seq<Option<nat>>)
    returns (path: seq<nat>)
    requires dst < |prev| && Falls(prev, rank) && rank[dst].Some?
    requires forall v | 0 <= v < |prev| && v != src && rank[v].Some? :: prev[v].Some?
    ensures Chain(prev, src, dst, path)
  {
    path := [];
    var cur: nat := dst;
    assert forall ns: seq<nat> :: ns + Reversed<nat>([]) == ns;
    while true
      invariant cur < |prev| == |rank| && rank[cur].Some?
      invariant forall ns: seq<nat> | Chain(prev, src, cur, ns) :: Chain(prev, src, dst, ns + Reversed(path))
      decreases rank[cur].value
    {
      ghost var rest := Reversed(path);
      path := path + [cur];
      assert Reversed(path) == [cur] + rest;
      if cur == src {
        assert Chain(prev, src, src, [src]);
        break;
      }
      match prev[cur] {
        case Some(q) =>
          forall ns: seq<nat> | Chain(prev, src, q, ns)
            ensures Chain(prev, src, dst, ns + Reversed(path))
          {
            assert (ns + [cur])[..|ns|] == ns;
            assert Chain(prev, src, cur, ns + [cur]);
            assert ns + Reversed(path) == (ns + [cur]) + rest;
          }
          cur := q;
        case None =>
          break;
      }
    }
    path := Reversed(path);
  }
}
