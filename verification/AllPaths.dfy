/** The all-paths variant: distances, then every tight predecessor, then enumeration. */
module AllPaths {
  import opened Basics
  import opened Networks
  import opened Dijkstra

  /** `ns` is the node sequence of some walk from `s` to `t` that no walk undercuts. */
  ghost predicate MinCostPath(g: Network, s: nat, t: nat, ns: seq<nat>) {
    exists rows :: Joins(g, s, Walk(ns, rows), t) && IsDistance(g, s, t, Cost(g, rows))
  }

  // ---- pass 2: predecessor lists ----

  predicate TightArc(g: Network, d: seq<Option<nat>>, u: nat, arc: Arc) {
    u < |d| && d[u].Some? && arc.to < |d| && d[arc.to] == Some(d[u].value + g.W(arc.row))
  }

  /** `u` has a tight arc to `v` among the first `k` arcs leaving it. */
  ghost predicate TightWithin(g: Network, d: seq<Option<nat>>, u: nat, v: nat, k: nat) {
    u < |g.adj| && exists j :: 0 <= j < k && j < |g.adj[u]| && g.adj[u][j].to == v && TightArc(g, d, u, g.adj[u][j])
  }

  ghost predicate TightPred(g: Network, d: seq<Option<nat>>, u: nat, v: nat) {
    u < |g.adj| && TightWithin(g, d, u, v, |g.adj[u]|)
  }

  /** The list of `v` holds, once each, the tight predecessors found among the nodes below `m` and the
      first `k` arcs of node `m`. */
  ghost predicate Listed(g: Network, d: seq<Option<nat>>, m: nat, k: nat, v: nat, list: seq<nat>) {
    && Distinct(list)
    && forall u: nat :: u in list <==> (u < m && TightPred(g, d, u, v)) || (u == m && TightWithin(g, d, u, v, k))
  }

  lemma NextArc(g: Network, d: seq<Option<nat>>, m: nat, k: nat, v: nat, list: seq<nat>)
    requires m < |g.adj| && k < |g.adj[m]| && Listed(g, d, m, k, v, list)
    ensures var hit := g.adj[m][k].to == v && TightArc(g, d, m, g.adj[m][k]) && m !in list;
            Listed(g, d, m, k + 1, v, if hit then list + [m] else list)
  {
    assert TightWithin(g, d, m, v, k + 1) <==>
      TightWithin(g, d, m, v, k) || (g.adj[m][k].to == v && TightArc(g, d, m, g.adj[m][k]));
  }

  method CollectPredecessors(g: Network, dist: seq<Option<nat>>) returns (preds: seq<seq<nat>>)
    requires g.Valid() && |dist| == |g.adj|
    ensures |preds| == |g.adj|
    ensures forall v | 0 <= v < |preds| :: Distinct(preds[v]) && forall u: nat :: u in preds[v] <==> TightPred(g, dist, u, v)
  {
    var n := |g.adj|;
    var lists: array<seq<nat>> := new seq<nat>[n](_ => []);
    var u := 0;
    while u < n
      invariant 0 <= u <= n && lists.Length == n
      invariant forall v | 0 <= v < n :: Listed(g, dist, u, 0, v, lists[v])
    {
      var k := 0;
      while k < |g.adj[u]|
        invariant 0 <= k <= |g.adj[u]|
        invariant forall v | 0 <= v < n :: Listed(g, dist, u, k, v, lists[v])
      {
        var arc := g.adj[u][k];
        forall v | 0 <= v < n
          ensures var hit := arc.to == v && TightArc(g, dist, u, arc) && u !in lists[v];
                  Listed(g, dist, u, k + 1, v, if hit then lists[v] + [u] else lists[v])
        {
          NextArc(g, dist, u, k, v, lists[v]);
        }
        if TightArc(g, dist, u, arc) && u !in lists[arc.to] {
          lists[arc.to] := lists[arc.to] + [u];
        }
        k := k + 1;
      }
      forall v | 0 <= v < n
        ensures Listed(g, dist, u + 1, 0, v, lists[v])
      {
        assert Listed(g, dist, u, |g.adj[u]|, v, lists[v]);
      }
      u := u + 1;
    }
    preds := lists[..];
  }

  // ---- pass 3: enumeration ----

  /** Predecessors rank strictly below the nodes they precede. */
  predicate Ranked(preds: seq<seq<nat>>, rank: seq<nat>) {
    && |preds| == |rank|
    && forall v, i | 0 <= v < |preds| && 0 <= i < |preds[v]| ::
        preds[v][i] < |preds| && rank[preds[v][i]] < rank[v]
  }

  /** `ns` runs from `s` to `t` through predecessor lists and meets `s` only at its start. */
  predicate PredChain(preds: seq<seq<nat>>, s: nat, t: nat, ns: seq<nat>)
    decreases |ns|
  {
    && |ns| > 0 && ns[|ns| - 1] == t
    && if t == s then |ns| == 1 else
        |ns| > 1 && t < |preds| && ns[|ns| - 2] in preds[t] && PredChain(preds, s, ns[|ns| - 2], ns[..|ns| - 1])
  }

  function AppendAll(xs: seq<seq<nat>>, tail: seq<nat>): (r: seq<seq<nat>>)
    ensures |r| == |xs| && forall i | 0 <= i < |xs| :: r[i] == xs[i] + tail
  {
    if xs == [] then [] else [xs[0] + tail] + AppendAll(xs[1..], tail)
  }

  lemma AppendConcat(xs: seq<seq<nat>>, ys: seq<seq<nat>>, tail: seq<nat>)
    ensures AppendAll(xs + ys, tail) == AppendAll(xs, tail) + AppendAll(ys, tail)
  {
  }

  lemma AppendTwice(xs: seq<seq<nat>>, a: seq<nat>, b: seq<nat>)
    ensures AppendAll(AppendAll(xs, a), b) == AppendAll(xs, a + b)
  {
    forall i | 0 <= i < |xs|
      ensures AppendAll(AppendAll(xs, a), b)[i] == AppendAll(xs, a + b)[i]
    {
      assert (xs[i] + a) + b == xs[i] + (a + b);
    }
  }

  /** All chains from `s` to `t`, in the order the enumeration meets them. */
  function Chains(preds: seq<seq<nat>>, rank: seq<nat>, s: nat, t: nat): seq<seq<nat>>
    requires Ranked(preds, rank) && t < |preds|
    decreases rank[t], 1, 0
  {
    if t == s then [[s]] else ChainsVia(preds, rank, s, t, |preds[t]|)
  }

  function ChainsVia(preds: seq<seq<nat>>, rank: seq<nat>, s: nat, t: nat, k: nat): seq<seq<nat>>
    requires Ranked(preds, rank) && t < |preds| && k <= |preds[t]|
    decreases rank[t], 0, k
  {
    if k == 0 then [] else
      ChainsVia(preds, rank, s, t, k - 1) + AppendAll(Chains(preds, rank, s, preds[t][k - 1]), [t])
  }

  lemma {:induction false} ChainsExact(preds: seq<seq<nat>>, rank: seq<nat>, s: nat, t: nat, ns: seq<nat>)
    requires Ranked(preds, rank) && t < |preds|
    ensures ns in Chains(preds, rank, s, t) <==> PredChain(preds, s, t, ns)
    decreases rank[t], 1, 0
  {
    if t == s {
      assert ns in Chains(preds, rank, s, t) <==> ns == [s];
    } else {
      ChainsViaExact(preds, rank, s, t, |preds[t]|, ns);
    }
  }

  lemma {:induction false} ChainsViaExact(preds: seq<seq<nat>>, rank: seq<nat>, s: nat, t: nat, k: nat, ns: seq<nat>)
    requires Ranked(preds, rank) && t < |preds| && t != s && k <= |preds[t]|
    ensures ns in ChainsVia(preds, rank, s, t, k) <==>
            |ns| > 1 && ns[|ns| - 1] == t && ns[|ns| - 2] in preds[t][..k] && PredChain(preds, s, ns[|ns| - 2], ns[..|ns| - 1])
    decreases rank[t], 0, k
  {
    if k > 0 {
      ChainsViaExact(preds, rank, s, t, k - 1, ns);
      var q := preds[t][k - 1];
      var via := Chains(preds, rank, s, q);
      assert preds[t][..k] == preds[t][..k - 1] + [q];
      if |ns| > 0 {
        ChainsExact(preds, rank, s, q, ns[..|ns| - 1]);
      }
      InAppended(via, t, ns);
    }
  }

  lemma InAppended(xs: seq<seq<nat>>, t: nat, ns: seq<nat>)
    ensures ns in AppendAll(xs, [t]) <==> |ns| > 0 && ns[|ns| - 1] == t && ns[..|ns| - 1] in xs
  {
    var ys := AppendAll(xs, [t]);
    if ns in ys {
      var i :| 0 <= i < |ys| && ys[i] == ns;
      assert ns[..|ns| - 1] == xs[i];
    }
    if |ns| > 0 && ns[|ns| - 1] == t && ns[..|ns| - 1] in xs {
      var i :| 0 <= i < |xs| && xs[i] == ns[..|ns| - 1];
      assert ys[i] == ns;
    }
  }

  /** No chain is listed twice. */
  lemma {:induction false} ChainsDistinct(preds: seq<seq<nat>>, rank: seq<nat>, s: nat, t: nat)
    requires Ranked(preds, rank) && t < |preds|
    requires forall v | 0 <= v < |preds| :: Distinct(preds[v])
    ensures Distinct(Chains(preds, rank, s, t))
    decreases rank[t], 1, 0
  {
    if t != s {
      ChainsViaDistinct(preds, rank, s, t, |preds[t]|);
    }
  }

  lemma {:induction false} ChainsViaDistinct(preds: seq<seq<nat>>, rank: seq<nat>, s: nat, t: nat, k: nat)
    requires Ranked(preds, rank) && t < |preds| && t != s && k <= |preds[t]|
    requires forall v | 0 <= v < |preds| :: Distinct(preds[v])
    ensures Distinct(ChainsVia(preds, rank, s, t, k))
    decreases rank[t], 0, k
  {
    if k > 0 {
      var q := preds[t][k - 1];
      ChainsViaDistinct(preds, rank, s, t, k - 1);
      ChainsDistinct(preds, rank, s, q);
      AppendDistinct(Chains(preds, rank, s, q), t);
      var before, via := ChainsVia(preds, rank, s, t, k - 1), AppendAll(Chains(preds, rank, s, q), [t]);
      forall i, j | 0 <= i < |before| && 0 <= j < |via|
        ensures before[i] != via[j]
      {
        ViaDiffer(preds, rank, s, t, k, before[i], via[j]);
      }
      DistinctConcat(before, via);
    }
  }

  lemma ViaDiffer(preds: seq<seq<nat>>, rank: seq<nat>, s: nat, t: nat, k: nat, a: seq<nat>, b: seq<nat>)
    requires Ranked(preds, rank) && t < |preds| && t != s && 0 < k <= |preds[t]| && Distinct(preds[t])
    requires a in ChainsVia(preds, rank, s, t, k - 1)
    requires b in AppendAll(Chains(preds, rank, s, preds[t][k - 1]), [t])
    ensures a != b
  {
    hide Chains, ChainsVia;
    ChainsViaExact(preds, rank, s, t, k - 1, a);
    InAppended(Chains(preds, rank, s, preds[t][k - 1]), t, b);
    ChainsExact(preds, rank, s, preds[t][k - 1], b[..|b| - 1]);
  }

  lemma DistinctConcat(a: seq<seq<nat>>, b: seq<seq<nat>>)
    requires Distinct(a) && Distinct(b)
    requires forall i, j | 0 <= i < |a| && 0 <= j < |b| :: a[i] != b[j]
    ensures Distinct(a + b)
  {
  }

  lemma AppendDistinct(xs: seq<seq<nat>>, t: nat)
    requires Distinct(xs)
    ensures Distinct(AppendAll(xs, [t]))
  {
    var ys := AppendAll(xs, [t]);
    forall i, j | 0 <= i < j < |ys|
      ensures ys[i] != ys[j]
    {
      assert ys[i][..|ys[i]| - 1] == xs[i] && ys[j][..|ys[j]| - 1] == xs[j];
    }
  }

  /** The recursive enumerator: a shared stack from the target back to the current node, and the
      paths found so far. */
  class PathEnumerator {
    var stack: seq<nat>
    var paths: seq<seq<nat>>

    constructor (dst: nat)
      ensures stack == [dst] && paths == []
    {
      stack, paths := [dst], [];
    }

    method Enumerate(preds: seq<seq<nat>>, src: nat, ghost rank: seq<nat>)
      requires Ranked(preds, rank) && |stack| > 0 && stack[|stack| - 1] < |preds|
      modifies this
      ensures stack == old(stack)
      ensures paths == old(paths) +
              AppendAll(Chains(preds, rank, src, stack[|stack| - 1]), Reversed(stack[..|stack| - 1]))
      decreases rank[stack[|stack| - 1]]
    {
      hide ChainsVia, AppendAll;
      ghost var below := Reversed(stack[..|stack| - 1]);
      var cur := stack[|stack| - 1];
      assert Reversed(stack) == [cur] + below;
      if cur == src {
        paths := paths + [Reversed(stack)];
        assert AppendAll([[src]], below) == [[src] + below];
        return;
      }
      var k := 0;
      NoneVia(preds, rank, src, cur, below);
      while k < |preds[cur]|
        invariant 0 <= k <= |preds[cur]| && stack == old(stack)
        invariant paths == old(paths) + AppendAll(ChainsVia(preds, rank, src, cur, k), below)
      {
        stack := stack + [preds[cur][k]];
        assert stack[..|stack| - 1] == old(stack);
        Enumerate(preds, src, rank);
        stack := stack[..|stack| - 1];
        OneMoreVia(preds, rank, src, cur, k, below);
        k := k + 1;
      }
    }
  }

  lemma NoneVia(preds: seq<seq<nat>>, rank: seq<nat>, s: nat, t: nat, below: seq<nat>)
    requires Ranked(preds, rank) && t < |preds|
    ensures AppendAll(ChainsVia(preds, rank, s, t, 0), below) == []
  {
  }

  lemma OneMoreVia(preds: seq<seq<nat>>, rank: seq<nat>, s: nat, t: nat, k: nat, below: seq<nat>)
    requires Ranked(preds, rank) && t < |preds| && k < |preds[t]|
    ensures AppendAll(ChainsVia(preds, rank, s, t, k + 1), below) ==
            AppendAll(ChainsVia(preds, rank, s, t, k), below) +
            AppendAll(Chains(preds, rank, s, preds[t][k]), [t] + below)
  {
    var via := Chains(preds, rank, s, preds[t][k]);
    AppendTwice(via, [t], below);
    AppendConcat(ChainsVia(preds, rank, s, t, k), AppendAll(via, [t]), below);
  }

  // ---- chains are the minimum-cost paths ----

  ghost predicate ExactLists(g: Network, s: nat, d: seq<Option<nat>>, preds: seq<seq<nat>>) {
    && g.Valid() && g.Positive() && s < |d| == |preds| == |g.adj|
    && d[s] == Some(0)
    && (forall v | 0 <= v < |d| && d[v].Some? :: IsDistance(g, s, v, d[v].value))
    && (forall v | 0 <= v < |d| && d[v].Some? :: Relaxed(g, d, v))
    && (forall v, u: nat | 0 <= v < |preds| :: u in preds[v] <==> TightPred(g, d, u, v))
  }

  lemma PredArc(g: Network, s: nat, d: seq<Option<nat>>, preds: seq<seq<nat>>, u: nat, v: nat) returns (e: nat)
    requires ExactLists(g, s, d, preds) && v < |preds| && u in preds[v]
    ensures u < |d| && d[u].Some? && g.HasArc(u, v, e) && d[v] == Some(d[u].value + g.W(e)) && g.W(e) > 0
  {
    assert TightPred(g, d, u, v);
    var j :| 0 <= j < |g.adj[u]| && g.adj[u][j].to == v && TightArc(g, d, u, g.adj[u][j]);
    e := g.adj[u][j].row;
    assert g.adj[u][j] == Arc(v, e);
  }

  lemma {:induction false} ChainIsCheapest(g: Network, s: nat, d: seq<Option<nat>>, preds: seq<seq<nat>>, t: nat, ns: seq<nat>)
    requires ExactLists(g, s, d, preds) && t < |d| && PredChain(preds, s, t, ns)
    ensures d[t].Some? && Along(g, s, t, ns, d[t].value)
    decreases |ns|
  {
    hide Along;
    if t == s {
      assert ns == [s];
      AlongSelf(g, s);
    } else {
      var q := ns[|ns| - 2];
      var e := PredArc(g, s, d, preds, q, t);
      ChainIsCheapest(g, s, d, preds, q, ns[..|ns| - 1]);
      AlongStep(g, s, q, t, ns, d[q].value, e);
    }
  }

  lemma {:induction false} CheapestIsChain(g: Network, s: nat, d: seq<Option<nat>>, preds: seq<seq<nat>>, t: nat, w: Walk)
    requires ExactLists(g, s, d, preds) && t < |d| && d[t].Some?
    requires Joins(g, s, w, t) && Cost(g, w.rows) == d[t].value
    ensures PredChain(preds, s, t, w.nodes)
    decreases |w.nodes|
  {
    hide IsDistance, Relaxed, TightPred;
    if |w.rows| == 0 {
      assert t == s;
    } else {
      var m := |w.rows| - 1;
      var q, e := w.nodes[m], w.rows[m];
      var front := Walk(w.nodes[..m + 1], w.rows[..m]);
      Prefix(g, s, w, t, m);
      CostPrefix(g, w.rows, m);
      assert w.rows[..m + 1] == w.rows;
      LastArcTight(g, s, d, front, q, t, e);
      TightArcListed(g, d, q, t, e);
      CheapestIsChain(g, s, d, preds, q, front);
      assert w.nodes[..|w.nodes| - 1] == front.nodes;
    }
  }

  lemma TightArcListed(g: Network, d: seq<Option<nat>>, u: nat, v: nat, e: nat)
    requires g.HasArc(u, v, e) && TightArc(g, d, u, Arc(v, e))
    ensures TightPred(g, d, u, v)
  {
    var k :| 0 <= k < |g.adj[u]| && g.adj[u][k] == Arc(v, e);
  }

  lemma LastArcTight(g: Network, s: nat, d: seq<Option<nat>>, front: Walk, q: nat, t: nat, e: nat)
    requires |d| == |g.adj| && t < |d| && d[t].Some? && g.Positive()
    requires forall v | 0 <= v < |d| && d[v].Some? :: IsDistance(g, s, v, d[v].value) && Relaxed(g, d, v)
    requires Joins(g, s, front, q) && g.HasArc(q, t, e) && Cost(g, front.rows) + g.W(e) == d[t].value
    requires s < |d| && d[s] == Some(0) && g.Valid()
    ensures q < |d| && d[q] == Some(Cost(g, front.rows)) && t != s
  {
    CutBound(g, s, d, Cost(g, front.rows) + 1, front, q, |front.rows|);
    assert front.rows[..|front.rows|] == front.rows;
    RelaxedArc(g, d, q, t, e);
    assert g.W(e) > 0;
  }

  /** Every minimum-cost node path from `src` to `dst`, each exactly once, and nothing else. */
  method DijkstraAll(g: Network, src: nat, dst: nat) returns (paths: seq<seq<nat>>)
    requires g.Valid() && g.Positive() && src < |g.adj| && dst < |g.adj|
    ensures Distinct(paths)
    ensures forall ns :: ns in paths <==> MinCostPath(g, src, dst, ns)
  {
    var dist := DijkstraDistances(g, src);
    if dist[dst].None? {
      paths := [];
      NoneCheapest(g, src, dst);
      return;
    }
    var preds := CollectPredecessors(g, dist);
    ghost var rank: seq<nat> := seq(|dist|, v requires 0 <= v < |dist| => if dist[v].Some? then dist[v].value else 0);
    RanksFall(g, src, dist, preds, rank);
    var search := new PathEnumerator(dst);
    search.Enumerate(preds, src, rank);
    paths := search.paths;
    AppendNothing(Chains(preds, rank, src, dst));
    AllExact(g, src, dist, preds, rank, dst);
  }

  lemma NoneCheapest(g: Network, s: nat, t: nat)
    requires !Reachable(g, s, t)
    ensures forall ns :: !MinCostPath(g, s, t, ns)
  {
  }

  lemma AppendNothing(xs: seq<seq<nat>>)
    ensures AppendAll(xs, []) == xs
  {
    forall i | 0 <= i < |xs|
      ensures AppendAll(xs, [])[i] == xs[i]
    {
      assert xs[i] + [] == xs[i];
    }
  }

  lemma RanksFall(g: Network, s: nat, d: seq<Option<nat>>, preds: seq<seq<nat>>, rank: seq<nat>)
    requires ExactLists(g, s, d, preds) && |rank| == |d|
    requires forall v | 0 <= v < |d| && d[v].Some? :: rank[v] == d[v].value
    ensures Ranked(preds, rank)
  {
    forall v, i | 0 <= v < |preds| && 0 <= i < |preds[v]|
      ensures preds[v][i] < |preds| && rank[preds[v][i]] < rank[v]
    {
      var e := PredArc(g, s, d, preds, preds[v][i], v);
    }
  }

  lemma AllExact(g: Network, s: nat, d: seq<Option<nat>>, preds: seq<seq<nat>>, rank: seq<nat>, t: nat)
    requires ExactLists(g, s, d, preds) && Ranked(preds, rank) && t < |d| && d[t].Some?
    requires forall v | 0 <= v < |preds| :: Distinct(preds[v])
    ensures Distinct(Chains(preds, rank, s, t))
    ensures forall ns :: ns in Chains(preds, rank, s, t) <==> MinCostPath(g, s, t, ns)
  {
    ChainsDistinct(preds, rank, s, t);
    forall ns
      ensures ns in Chains(preds, rank, s, t) <==> MinCostPath(g, s, t, ns)
    {
      ChainsExact(preds, rank, s, t, ns);
      if PredChain(preds, s, t, ns) {
        ChainIsCheapest(g, s, d, preds, t, ns);
        assert IsDistance(g, s, t, d[t].value);
      }
      if MinCostPath(g, s, t, ns) {
        var rows :| Joins(g, s, Walk(ns, rows), t) && IsDistance(g, s, t, Cost(g, rows));
        CheapestIsChain(g, s, d, preds, t, Walk(ns, rows));
      }
    }
  }
}
