/** Edge sequences in a multigraph, counted: the reference notions behind betweenness. A route is the
    sequence of positions chosen in the successive neighbour lists, so parallel edges give different
    routes. */
module RouteCounts {
  import opened Sums

  type Adjacency = seq<seq<nat>>

  ghost predicate Closed(adj: Adjacency) {
    forall u, j | 0 <= u < |adj| && 0 <= j < |adj[u]| :: adj[u][j] < |adj|
  }

  /** Following positions `p` from `u` ends in `t`. */
  predicate IsRoute(adj: Adjacency, u: nat, p: seq<nat>, t: nat)
    decreases |p|
  {
    u < |adj| &&
    if p == [] then u == t else p[0] < |adj[u]| && IsRoute(adj, adj[u][p[0]], p[1..], t)
  }

  /** The node reached after `j` steps of `p`. */
  function NodeAt(adj: Adjacency, u: nat, p: seq<nat>, j: nat): nat
    requires j <= |p|
    decreases |p|
  {
    if j == 0 || u >= |adj| || p[0] >= |adj[u]| then u else NodeAt(adj, adj[u][p[0]], p[1..], j - 1)
  }

  // ---- the set of routes of a given length ----

  /** Every sequence of `xs`, with `x` in front. */
  function Tag(x: nat, xs: set<seq<nat>>): set<seq<nat>> {
    set p | p in xs :: [x] + p
  }

  function Prefixed(fs: seq<set<seq<nat>>>): set<seq<nat>> {
    if fs == [] then {} else Prefixed(fs[..|fs| - 1]) + Tag(|fs| - 1, fs[|fs| - 1])
  }

  function Routes(adj: Adjacency, u: nat, t: nat, k: nat): set<seq<nat>>
    decreases k
  {
    if u >= |adj| then {}
    else if k == 0 then (if u == t then {[]} else {})
    else Prefixed(seq(|adj[u]|, j requires 0 <= j < |adj[u]| => Routes(adj, adj[u][j], t, k - 1)))
  }

  /** The routes of length `k` that are at `v` after `j` steps. */
  function RoutesVia(adj: Adjacency, u: nat, t: nat, k: nat, v: nat, j: nat): set<seq<nat>>
    requires j <= k
    decreases k
  {
    if u >= |adj| then {}
    else if j == 0 then (if u == v then Routes(adj, u, t, k) else {})
    else Prefixed(seq(|adj[u]|, i requires 0 <= i < |adj[u]| => RoutesVia(adj, adj[u][i], t, k - 1, v, j - 1)))
  }

  lemma {:induction false} InPrefixed(fs: seq<set<seq<nat>>>, p: seq<nat>)
    ensures p in Prefixed(fs) <==> |p| > 0 && p[0] < |fs| && p[1..] in fs[p[0]]
  {
    if fs != [] {
      var n := |fs| - 1;
      InPrefixed(fs[..n], p);
      assert p in Tag(n, fs[n]) <==> |p| > 0 && p[0] == n && p[1..] in fs[n] by {
        if |p| > 0 && p[0] == n && p[1..] in fs[n] {
          assert p == [n] + p[1..];
        }
      }
    }
  }

  /** `Routes` is exactly the set of routes of that length. */
  lemma {:induction false} RoutesExact(adj: Adjacency, u: nat, t: nat, k: nat, p: seq<nat>)
    ensures p in Routes(adj, u, t, k) <==> |p| == k && IsRoute(adj, u, p, t)
    decreases k
  {
    if u < |adj| && k > 0 {
      var fs := seq(|adj[u]|, j requires 0 <= j < |adj[u]| => Routes(adj, adj[u][j], t, k - 1));
      InPrefixed(fs, p);
      if |p| > 0 && p[0] < |adj[u]| {
        RoutesExact(adj, adj[u][p[0]], t, k - 1, p[1..]);
      }
    }
  }

  lemma {:induction false} RoutesViaExact(adj: Adjacency, u: nat, t: nat, k: nat, v: nat, j: nat, p: seq<nat>)
    requires j <= k
    ensures p in RoutesVia(adj, u, t, k, v, j) <==> p in Routes(adj, u, t, k) && j <= |p| && NodeAt(adj, u, p, j) == v
    decreases k
  {
    RoutesExact(adj, u, t, k, p);
    if u < |adj| && j > 0 {
      var fs := seq(|adj[u]|, i requires 0 <= i < |adj[u]| => RoutesVia(adj, adj[u][i], t, k - 1, v, j - 1));
      InPrefixed(fs, p);
      if |p| > 0 && p[0] < |adj[u]| {
        RoutesViaExact(adj, adj[u][p[0]], t, k - 1, v, j - 1, p[1..]);
        RoutesExact(adj, adj[u][p[0]], t, k - 1, p[1..]);
      }
    }
  }

  // ---- counting ----

  /** The number of routes of length `k` from `u` to `t`. */
  function Count(adj: Adjacency, u: nat, t: nat, k: nat): real
    decreases k, 1
  {
    if u >= |adj| then 0.0
    else if k == 0 then (if u == t then 1.0 else 0.0)
    else Sum(CountNext(adj, u, t, k))
  }

  /** The counts from each neighbour of `u`, one step closer. */
  function CountNext(adj: Adjacency, u: nat, t: nat, k: nat): seq<real>
    requires u < |adj| && k > 0
    decreases k, 0
  {
    seq(|adj[u]|, j requires 0 <= j < |adj[u]| => Count(adj, adj[u][j], t, k - 1))
  }

  function Sizes(fs: seq<set<seq<nat>>>): (r: seq<real>)
    ensures |r| == |fs| && forall i | 0 <= i < |fs| :: r[i] == |fs[i]| as real
  {
    seq(|fs|, i requires 0 <= i < |fs| => |fs[i]| as real)
  }

  lemma {:induction false} TagSize(x: nat, xs: set<seq<nat>>)
    ensures |Tag(x, xs)| == |xs|
    decreases |xs|
  {
    if xs != {} {
      var p :| p in xs;
      TagSize(x, xs - {p});
      assert Tag(x, xs) == Tag(x, xs - {p}) + {[x] + p};
      assert [x] + p !in Tag(x, xs - {p}) by {
        forall q | q in xs - {p}
          ensures [x] + q != [x] + p
        {
          assert ([x] + q)[1..] == q && ([x] + p)[1..] == p;
        }
      }
    }
  }

  lemma {:induction false} PrefixedSize(fs: seq<set<seq<nat>>>)
    ensures |Prefixed(fs)| as real == Sum(Sizes(fs))
  {
    if fs != [] {
      var n := |fs| - 1;
      PrefixedSize(fs[..n]);
      TagSize(n, fs[n]);
      assert Sizes(fs)[..n] == Sizes(fs[..n]);
      forall p | p in Prefixed(fs[..n])
        ensures p !in Tag(n, fs[n])
      {
        InPrefixed(fs[..n], p);
      }
      assert Prefixed(fs[..n]) !! Tag(n, fs[n]);
    }
  }

  /** `Count` is the size of the set of routes. */
  lemma {:induction false} CountIsSize(adj: Adjacency, u: nat, t: nat, k: nat)
    ensures |Routes(adj, u, t, k)| as real == Count(adj, u, t, k)
    decreases k
  {
    if u < |adj| && k > 0 {
      var fs := seq(|adj[u]|, j requires 0 <= j < |adj[u]| => Routes(adj, adj[u][j], t, k - 1));
      PrefixedSize(fs);
      forall j | 0 <= j < |adj[u]|
        ensures Sizes(fs)[j] == CountNext(adj, u, t, k)[j]
      {
        CountIsSize(adj, adj[u][j], t, k - 1);
      }
      assert Sizes(fs) == CountNext(adj, u, t, k);
    }
  }

  function NextVia(adj: Adjacency, u: nat, t: nat, k: nat, v: nat, j: nat): (r: seq<set<seq<nat>>>)
    requires u < |adj| && 0 < j <= k
    ensures |r| == |adj[u]| && forall i | 0 <= i < |r| :: r[i] == RoutesVia(adj, adj[u][i], t, k - 1, v, j - 1)
  {
    seq(|adj[u]|, i requires 0 <= i < |adj[u]| => RoutesVia(adj, adj[u][i], t, k - 1, v, j - 1))
  }

  lemma ViaUnfolds(adj: Adjacency, u: nat, t: nat, k: nat, v: nat, j: nat)
    requires u < |adj| && 0 < j <= k
    ensures RoutesVia(adj, u, t, k, v, j) == Prefixed(NextVia(adj, u, t, k, v, j))
  {
    assert NextVia(adj, u, t, k, v, j) ==
      seq(|adj[u]|, i requires 0 <= i < |adj[u]| => RoutesVia(adj, adj[u][i], t, k - 1, v, j - 1));
  }

  lemma CountUnfolds(adj: Adjacency, u: nat, t: nat, k: nat)
    requires u < |adj| && k > 0
    ensures Count(adj, u, t, k) == Sum(CountNext(adj, u, t, k))
    ensures |CountNext(adj, u, t, k)| == |adj[u]|
    ensures forall j | 0 <= j < |adj[u]| :: CountNext(adj, u, t, k)[j] == Count(adj, adj[u][j], t, k - 1)
  {
  }

  lemma ViaBase(adj: Adjacency, u: nat, t: nat, k: nat, v: nat, j: nat)
    requires j <= k && (u >= |adj| || j == 0)
    ensures |RoutesVia(adj, u, t, k, v, j)| as real == Count(adj, u, v, j) * Count(adj, v, t, k - j)
  {
    if u < |adj| {
      CountIsSize(adj, u, t, k);
    }
  }

  /** Routes through `v` at step `j` are pairs of a route to `v` and a route from `v`. */
  lemma {:induction false} ViaSize(adj: Adjacency, u: nat, t: nat, k: nat, v: nat, j: nat)
    requires j <= k
    ensures |RoutesVia(adj, u, t, k, v, j)| as real == Count(adj, u, v, j) * Count(adj, v, t, k - j)
    decreases k
  {
    hide *;
    if u >= |adj| || j == 0 {
      ViaBase(adj, u, t, k, v, j);
    } else {
      var c := Count(adj, v, t, k - j);
      var fs := NextVia(adj, u, t, k, v, j);
      ViaUnfolds(adj, u, t, k, v, j);
      CountUnfolds(adj, u, v, j);
      PrefixedSize(fs);
      forall i | 0 <= i < |adj[u]|
        ensures Sizes(fs)[i] == c * CountNext(adj, u, v, j)[i]
      {
        ViaSize(adj, adj[u][i], t, k - 1, v, j - 1);
      }
      SumScale(c, CountNext(adj, u, v, j), Sizes(fs));
    }
  }

  // ---- counting by the last edge ----

  function Multiplicity(adj: Adjacency, u: nat, w: nat): real {
    if u < |adj| then multiset(adj[u])[w] as real else 0.0
  }

  /** Routes of length `k` to each node, times the edges from there to `w`. */
  function LastSteps(adj: Adjacency, s: nat, w: nat, k: nat): (r: seq<real>)
    ensures |r| == |adj| && forall u | 0 <= u < |adj| :: r[u] == Count(adj, s, u, k) * Multiplicity(adj, u, w)
  {
    seq(|adj|, u requires 0 <= u < |adj| => Count(adj, s, u, k) * Multiplicity(adj, u, w))
  }

  lemma {:induction false} EdgeCount(list: seq<nat>, w: nat, ones: seq<real>)
    requires |ones| == |list| && forall j | 0 <= j < |list| :: ones[j] == if list[j] == w then 1.0 else 0.0
    ensures Sum(ones) == multiset(list)[w] as real
  {
    if list != [] {
      var n := |list| - 1;
      EdgeCount(list[..n], w, ones[..n]);
      assert list == list[..n] + [list[n]];
    }
  }

  /** The routes of length `k + 1` to `w`, sorted by their last step. */
  lemma {:induction false} CountByLast(adj: Adjacency, s: nat, w: nat, k: nat)
    requires Closed(adj) && s < |adj| && w < |adj|
    ensures Count(adj, s, w, k + 1) == Sum(LastSteps(adj, s, w, k))
    decreases k
  {
    if k == 0 {
      EdgeCount(adj[s], w, CountNext(adj, s, w, 1));
      SumSingle(LastSteps(adj, s, w, 0), s);
    } else {
      hide *;
      var m := NextLast(adj, s, w, k);
      CountUnfolds(adj, s, w, k + 1);
      forall j | 0 <= j < |adj[s]|
        ensures RowSums(m)[j] == CountNext(adj, s, w, k + 1)[j]
      {
        Neighbour(adj, s, j);
        CountByLast(adj, adj[s][j], w, k - 1);
      }
      assert RowSums(m) == CountNext(adj, s, w, k + 1);
      LastColumns(adj, s, w, k);
      IsRectangular(m, |adj|);
      SumSwap(m, |adj|);
    }
  }

  lemma Neighbour(adj: Adjacency, s: nat, j: nat)
    requires Closed(adj) && s < |adj| && j < |adj[s]|
    ensures adj[s][j] < |adj|
  {
  }

  lemma IsRectangular(m: seq<seq<real>>, n: nat)
    requires forall i | 0 <= i < |m| :: |m[i]| == n
    ensures Rectangular(m, n)
  {
  }

  ghost function NextLast(adj: Adjacency, s: nat, w: nat, k: nat): (m: seq<seq<real>>)
    requires s < |adj| && k > 0
    ensures |m| == |adj[s]| && forall j | 0 <= j < |m| :: m[j] == LastSteps(adj, adj[s][j], w, k - 1) && |m[j]| == |adj|
  {
    seq(|adj[s]|, j requires 0 <= j < |adj[s]| => LastSteps(adj, adj[s][j], w, k - 1))
  }

  lemma LastColumns(adj: Adjacency, s: nat, w: nat, k: nat)
    requires s < |adj| && k > 0
    ensures Rectangular(NextLast(adj, s, w, k), |adj|)
    ensures ColumnSums(NextLast(adj, s, w, k), |adj|) == LastSteps(adj, s, w, k)
  {
    hide Count, Multiplicity, Sum, LastSteps, NextLast, CountNext;
    var m := NextLast(adj, s, w, k);
    forall u | 0 <= u < |adj|
      ensures ColumnSums(m, |adj|)[u] == LastSteps(adj, s, w, k)[u]
    {
      CountUnfolds(adj, s, u, k);
      SumScale(Multiplicity(adj, u, w), CountNext(adj, s, u, k), Column(m, u));
    }
  }

  lemma {:induction false} CountNonNegative(adj: Adjacency, u: nat, t: nat, k: nat)
    ensures Count(adj, u, t, k) >= 0.0
    decreases k
  {
    if u < |adj| && k > 0 {
      forall j | 0 <= j < |adj[u]|
        ensures CountNext(adj, u, t, k)[j] >= 0.0
      {
        CountNonNegative(adj, adj[u][j], t, k - 1);
      }
      SumNonNegative(CountNext(adj, u, t, k));
    }
  }
}
