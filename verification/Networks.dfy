/** The index-level view of an edge frame that every path search reads: for each compact node index
    the eligible steps leaving it, and the weight of each edge row. Walks, their costs and the
    reference notion of distance are defined here, independently of any search. */
module Networks {
  import opened Basics

  /** One step out of a node: the neighbour reached and the edge row used. */
  datatype Arc = Arc(to: nat, row: nat)

  datatype Network = Network(adj: seq<seq<Arc>>, weight: seq<nat>) {

    predicate Valid() {
      forall u, k :: 0 <= u < |adj| && 0 <= k < |adj[u]| ==> adj[u][k].to < |adj|
    }

    predicate HasArc(u: nat, v: nat, e: nat) {
      u < |adj| && Arc(v, e) in adj[u]
    }

    /** The weight of edge row `e`. Without a weight column (`weight == []`) every edge weighs 1. */
    function W(e: nat): nat {
      if e < |weight| then weight[e] else 1
    }

    predicate Positive() {
      forall e | 0 <= e < |weight| :: weight[e] > 0
    }
  }

  /** A walk visits `nodes[0]`, `nodes[1]`, ... and uses `rows[i]` to go from `nodes[i]` to `nodes[i+1]`. */
  datatype Walk = Walk(nodes: seq<nat>, rows: seq<nat>)

  ghost predicate IsWalk(g: Network, w: Walk) {
    && |w.nodes| == |w.rows| + 1
    && (forall i | 0 <= i < |w.nodes| :: w.nodes[i] < |g.adj|)
    && forall i | 0 <= i < |w.rows| :: g.HasArc(w.nodes[i], w.nodes[i + 1], w.rows[i])
  }

  ghost predicate Joins(g: Network, s: nat, w: Walk, t: nat) {
    IsWalk(g, w) && w.nodes[0] == s && w.nodes[|w.rows|] == t
  }

  function Cost(g: Network, rows: seq<nat>): nat {
    if rows == [] then 0 else Cost(g, rows[..|rows| - 1]) + g.W(rows[|rows| - 1])
  }

  ghost predicate Reach(g: Network, s: nat, t: nat, c: nat) {
    exists w :: Joins(g, s, w, t) && Cost(g, w.rows) == c
  }

  ghost predicate Reachable(g: Network, s: nat, t: nat) {
    exists w :: Joins(g, s, w, t)
  }

  /** `d` is the cost of a cheapest walk from `s` to `t`. */
  ghost predicate IsDistance(g: Network, s: nat, t: nat, d: nat) {
    Reach(g, s, t, d) && forall w | Joins(g, s, w, t) :: d <= Cost(g, w.rows)
  }

  // ---- costs and slices of walks ----

  lemma {:induction false} CostConcat(g: Network, a: seq<nat>, b: seq<nat>)
    ensures Cost(g, a + b) == Cost(g, a) + Cost(g, b)
  {
    if b == [] {
      assert a + b == a;
    } else {
      var b' := b[..|b| - 1];
      assert (a + b)[..|a + b| - 1] == a + b';
      CostConcat(g, a, b');
    }
  }

  lemma CostPrefix(g: Network, rows: seq<nat>, k: nat)
    requires k < |rows|
    ensures Cost(g, rows[..k + 1]) == Cost(g, rows[..k]) + g.W(rows[k])
  {
    assert rows[..k + 1][..k] == rows[..k];
  }

  lemma CostSplit(g: Network, rows: seq<nat>, k: nat)
    requires k <= |rows|
    ensures Cost(g, rows) == Cost(g, rows[..k]) + Cost(g, rows[k..])
  {
    assert rows == rows[..k] + rows[k..];
    CostConcat(g, rows[..k], rows[k..]);
  }

  lemma ReachSelf(g: Network, s: nat)
    requires s < |g.adj|
    ensures Reach(g, s, s, 0)
  {
    assert Joins(g, s, Walk([s], []), s);
  }

  lemma AppendArc(g: Network, s: nat, w: Walk, u: nat, v: nat, e: nat)
    requires g.Valid() && Joins(g, s, w, u) && g.HasArc(u, v, e)
    ensures Joins(g, s, Walk(w.nodes + [v], w.rows + [e]), v)
    ensures Cost(g, w.rows + [e]) == Cost(g, w.rows) + g.W(e)
  {
    assert (w.rows + [e])[..|w.rows|] == w.rows;
  }

  lemma ReachStep(g: Network, s: nat, u: nat, c: nat, v: nat, e: nat)
    requires g.Valid() && Reach(g, s, u, c) && g.HasArc(u, v, e)
    ensures Reach(g, s, v, c + g.W(e))
  {
    var w :| Joins(g, s, w, u) && Cost(g, w.rows) == c;
    AppendArc(g, s, w, u, v, e);
  }

  lemma Suffix(g: Network, s: nat, w: Walk, t: nat, k: nat)
    requires Joins(g, s, w, t) && k <= |w.rows|
    ensures Joins(g, w.nodes[k], Walk(w.nodes[k..], w.rows[k..]), t)
    ensures Cost(g, w.rows) == Cost(g, w.rows[..k]) + Cost(g, w.rows[k..])
  {
    CostSplit(g, w.rows, k);
  }

  lemma Prefix(g: Network, s: nat, w: Walk, t: nat, k: nat)
    requires Joins(g, s, w, t) && k <= |w.rows|
    ensures Joins(g, s, Walk(w.nodes[..k + 1], w.rows[..k]), w.nodes[k])
  {
  }

  /** Some walk from `s` to `t` of cost `c` visits exactly the nodes `ns`. */
  ghost predicate Along(g: Network, s: nat, t: nat, ns: seq<nat>, c: nat) {
    exists rows :: Joins(g, s, Walk(ns, rows), t) && Cost(g, rows) == c
  }

  lemma AlongSelf(g: Network, s: nat)
    requires s < |g.adj|
    ensures Along(g, s, s, [s], 0)
  {
    assert Joins(g, s, Walk([s], []), s);
  }

  lemma AlongStep(g: Network, s: nat, u: nat, v: nat, ns: seq<nat>, c: nat, e: nat)
    requires g.Valid() && g.HasArc(u, v, e) && |ns| > 1 && ns[|ns| - 1] == v
    requires Along(g, s, u, ns[..|ns| - 1], c)
    ensures Along(g, s, v, ns, c + g.W(e))
  {
    var front := ns[..|ns| - 1];
    var rows :| Joins(g, s, Walk(front, rows), u) && Cost(g, rows) == c;
    assert ns == front + [v];
    AppendArc(g, s, Walk(front, rows), u, v, e);
  }

  lemma DistanceReachable(g: Network, s: nat, t: nat, d: nat)
    requires IsDistance(g, s, t, d)
    ensures Reachable(g, s, t)
  {
  }

  // ---- tentative distances ----

  /** The branch condition of a relaxation: cost `c` beats the label held so far. */
  predicate Improves(held: Option<nat>, c: nat) {
    held.None? || c < held.value
  }

  predicate Below(d: seq<Option<nat>>, v: nat, c: nat) {
    v < |d| && d[v].Some? && d[v].value <= c
  }

  /** No arc leaving `u` can improve the tentative distance of its target any more. */
  ghost predicate Relaxed(g: Network, d: seq<Option<nat>>, u: nat)
    requires |d| == |g.adj| && u < |d| && d[u].Some?
  {
    forall k | 0 <= k < |g.adj[u]| :: Below(d, g.adj[u][k].to, d[u].value + g.W(g.adj[u][k].row))
  }

  /** Every finite tentative distance is the cost of some walk. */
  ghost predicate Sound(g: Network, s: nat, d: seq<Option<nat>>)
    requires |d| == |g.adj|
  {
    forall v | 0 <= v < |d| && d[v].Some? :: Reach(g, s, v, d[v].value)
  }

  lemma RelaxedArc(g: Network, d: seq<Option<nat>>, u: nat, v: nat, e: nat)
    requires |d| == |g.adj| && u < |d| && d[u].Some? && Relaxed(g, d, u) && g.HasArc(u, v, e)
    ensures Below(d, v, d[u].value + g.W(e))
  {
    var k :| 0 <= k < |g.adj[u]| && g.adj[u][k] == Arc(v, e);
  }

  /** If every node whose tentative distance is under `bound` is relaxed, then no walk to `t` cheaper
      than `bound` can beat the tentative distance of `t`. */
  lemma {:induction false} CutBound(g: Network, s: nat, d: seq<Option<nat>>, bound: nat, w: Walk, t: nat, k: nat)
    requires g.Valid() && |d| == |g.adj| && s < |d| && d[s] == Some(0)
    requires forall u | 0 <= u < |d| && d[u].Some? && d[u].value < bound :: Relaxed(g, d, u)
    requires Joins(g, s, w, t) && k <= |w.rows|
    ensures Cost(g, w.rows[..k]) >= bound || Below(d, w.nodes[k], Cost(g, w.rows[..k]))
  {
    if k > 0 {
      CutBound(g, s, d, bound, w, t, k - 1);
      CostPrefix(g, w.rows, k - 1);
      var u := w.nodes[k - 1];
      if Cost(g, w.rows[..k - 1]) < bound {
        RelaxedArc(g, d, u, w.nodes[k], w.rows[k - 1]);
      }
    }
  }

  // ---- a decreasing measure for label-correcting searches ----

  function Unreached(d: seq<Option<nat>>): nat {
    if d == [] then 0 else Unreached(d[1..]) + if d[0].None? then 1 else 0
  }

  function Total(d: seq<Option<nat>>): nat {
    if d == [] then 0 else Total(d[1..]) + if d[0].Some? then d[0].value else 0
  }

  ghost predicate Progress(d0: seq<Option<nat>>, d: seq<Option<nat>>) {
    Unreached(d) < Unreached(d0) || (Unreached(d) == Unreached(d0) && Total(d) < Total(d0))
  }

  lemma ProgressChain(a: seq<Option<nat>>, b: seq<Option<nat>>, c: seq<Option<nat>>)
    requires Progress(a, b) || a == b
    requires Progress(b, c)
    ensures Progress(a, c)
  {
  }

  lemma {:induction false} LabelDrops(d: seq<Option<nat>>, v: nat, c: nat)
    requires v < |d| && Improves(d[v], c)
    ensures Progress(d, d[v := Some(c)])
  {
    var d' := d[v := Some(c)];
    if v == 0 {
      assert d'[1..] == d[1..];
    } else {
      assert d'[1..] == d[1..][v - 1 := Some(c)];
      LabelDrops(d[1..], v - 1, c);
    }
  }
}
