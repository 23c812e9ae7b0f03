/** A* search with re-opening: nodes already expanded are pushed again when a cheaper way to them
    appears, so an admissible heuristic need not be consistent. */
module AStar {
  import opened Basics
  import opened Networks
  import opened PathReadback
  import Heaps

  /** A heap entry; `cost` is the estimated total through `node`. */
  datatype Entry = Entry(cost: real, node: nat)

  predicate EntryLeq(a: Entry, b: Entry) {
    a.cost < b.cost || (a.cost == b.cost && a.node <= b.node)
  }

  lemma EntryOrder()
    ensures Heaps.TotalOrder(EntryLeq)
  {
  }

  /** The heuristic never overestimates the remaining cost to `t`. */
  ghost predicate Admissible(g: Network, h: seq<real>, t: nat) {
    |h| == |g.adj| && forall v: nat, w | v < |h| && Joins(g, v, w, t) :: h[v] <= Cost(g, w.rows) as real
  }

  predicate NonNegative(h: seq<real>) {
    forall v | 0 <= v < |h| :: h[v] >= 0.0
  }

  function Estimate(d: seq<Option<nat>>, h: seq<real>, v: nat): real
    requires |d| == |h| && v < |d| && d[v].Some?
  {
    d[v].value as real + h[v]
  }

  /** The arc's far end costs at most `c`, and was reached through a parent no dearer than that. */
  ghost predicate Linked(g: Network, d: seq<Option<nat>>, p: seq<Option<nat>>, v: nat)
    requires |d| == |p| == |g.adj| && v < |p|
  {
    && p[v].Some? && p[v].value < |d| && d[p[v].value].Some? && d[v].Some?
    && exists e: nat :: g.HasArc(p[v].value, v, e) && d[p[v].value].value + g.W(e) <= d[v].value
  }

  ghost predicate Open(g: Network, d: seq<Option<nat>>, h: seq<real>, heap: multiset<Entry>, t: nat, v: nat)
    requires |d| == |h| == |g.adj| && v < |d| && d[v].Some?
  {
    Entry(Estimate(d, h, v), v) in heap || (v != t && Relaxed(g, d, v))
  }

  ghost predicate Scores(g: Network, s: nat, d: seq<Option<nat>>, p: seq<Option<nat>>, h: seq<real>, heap: multiset<Entry>) {
    && |d| == |p| == |h| == |g.adj| && s < |d| && d[s] == Some(0) && p[s].None?
    && (forall v | 0 <= v < |d| && v != s && d[v].Some? :: Linked(g, d, p, v))
    && (forall x | x in heap :: x.node < |d| && d[x.node].Some? && Estimate(d, h, x.node) <= x.cost)
  }

  ghost predicate AllOpen(g: Network, d: seq<Option<nat>>, h: seq<real>, heap: multiset<Entry>, t: nat)
    requires |d| == |h| == |g.adj|
  {
    forall v | 0 <= v < |d| && d[v].Some? :: Open(g, d, h, heap, t, v)
  }

  /** Mid-expansion of `u`: its first `k` arcs are relaxed, every other node is open. */
  ghost predicate Expanding(g: Network, d: seq<Option<nat>>, h: seq<real>, heap: multiset<Entry>, t: nat, u: nat, k: nat) {
    && |d| == |h| == |g.adj| && u < |d| && d[u].Some? && k <= |g.adj[u]| && u != t
    && (forall v | 0 <= v < |d| && v != u && d[v].Some? :: Open(g, d, h, heap, t, v))
    && forall j | 0 <= j < k :: Below(d, g.adj[u][j].to, d[u].value + g.W(g.adj[u][j].row))
  }

  // ---- one arc ----

  lemma LowerScore(g: Network, s: nat, d: seq<Option<nat>>, p: seq<Option<nat>>, h: seq<real>, heap: multiset<Entry>, u: nat, v: nat, e: nat)
    requires g.Valid() && Scores(g, s, d, p, h, heap) && u < |d| && d[u].Some? && g.HasArc(u, v, e) && v < |d|
    requires g.Positive() && Improves(d[v], d[u].value + g.W(e))
    ensures var c := d[u].value + g.W(e);
            && u != v && v != s
            && Scores(g, s, d[v := Some(c)], p[v := Some(u)], h, heap + multiset{Entry(c as real + h[v], v)})
  {
    var c := d[u].value + g.W(e);
    var d', p' := d[v := Some(c)], p[v := Some(u)];
    assert g.W(e) > 0;
    forall x | 0 <= x < |d'| && x != s && d'[x].Some?
      ensures Linked(g, d', p', x)
    {
      if x == v {
        assert g.HasArc(u, v, e) && d'[u].value + g.W(e) <= d'[v].value;
      } else {
        LowerKeepsLink(g, d, p, u, v, c, x);
      }
    }
  }

  lemma LowerKeepsLink(g: Network, d: seq<Option<nat>>, p: seq<Option<nat>>, u: nat, v: nat, c: nat, x: nat)
    requires |d| == |p| == |g.adj| && v < |d| && x < |d| && x != v && Improves(d[v], c) && Linked(g, d, p, x)
    ensures Linked(g, d[v := Some(c)], p[v := Some(u)], x)
  {
    var e: nat :| g.HasArc(p[x].value, x, e) && d[p[x].value].value + g.W(e) <= d[x].value;
  }

  lemma TieLink(g: Network, s: nat, d: seq<Option<nat>>, p: seq<Option<nat>>, h: seq<real>, heap: multiset<Entry>, u: nat, v: nat, e: nat)
    requires Scores(g, s, d, p, h, heap) && u < |d| && d[u].Some? && g.HasArc(u, v, e) && v < |d|
    requires d[v].Some? && d[u].value + g.W(e) == d[v].value && p[v].Some?
    ensures Scores(g, s, d, p[v := Some(u)], h, heap)
  {
    var p' := p[v := Some(u)];
    forall x | 0 <= x < |d| && x != s && d[x].Some?
      ensures Linked(g, d, p', x)
    {
      assert Linked(g, d, p, x);
    }
  }

  lemma NextArcLowered(g: Network, d: seq<Option<nat>>, h: seq<real>, heap: multiset<Entry>, t: nat, u: nat, k: nat)
    requires g.Valid() && Expanding(g, d, h, heap, t, u, k) && k < |g.adj[u]| && g.adj[u][k].to < |d| && g.adj[u][k].to != u
    requires Improves(d[g.adj[u][k].to], d[u].value + g.W(g.adj[u][k].row))
    ensures var v, c := g.adj[u][k].to, d[u].value + g.W(g.adj[u][k].row);
            Expanding(g, d[v := Some(c)], h, heap + multiset{Entry(c as real + h[v], v)}, t, u, k + 1)
  {
    var v, c := g.adj[u][k].to, d[u].value + g.W(g.adj[u][k].row);
    var d', heap' := d[v := Some(c)], heap + multiset{Entry(c as real + h[v], v)};
    forall x | 0 <= x < |d'| && x != u && d'[x].Some?
      ensures Open(g, d', h, heap', t, x)
    {
      LowerKeepsOpen(g, d, h, heap, t, v, c, x);
    }
  }

  lemma LowerKeepsOpen(g: Network, d: seq<Option<nat>>, h: seq<real>, heap: multiset<Entry>, t: nat, v: nat, c: nat, x: nat)
    requires |d| == |h| == |g.adj| && v < |d| && Improves(d[v], c)
    requires x < |d| && (x == v || (d[x].Some? && Open(g, d, h, heap, t, x)))
    ensures Open(g, d[v := Some(c)], h, heap + multiset{Entry(c as real + h[v], v)}, t, x)
  {
    var d' := d[v := Some(c)];
    if x == v {
      assert Entry(c as real + h[v], v) in heap + multiset{Entry(c as real + h[v], v)};
    } else if Entry(Estimate(d, h, x), x) !in heap {
      assert Relaxed(g, d', x);
    }
  }

  lemma NextArcKept(g: Network, d: seq<Option<nat>>, h: seq<real>, heap: multiset<Entry>, t: nat, u: nat, k: nat)
    requires Expanding(g, d, h, heap, t, u, k) && k < |g.adj[u]| && g.adj[u][k].to < |d|
    requires !Improves(d[g.adj[u][k].to], d[u].value + g.W(g.adj[u][k].row))
    ensures Expanding(g, d, h, heap, t, u, k + 1)
  {
  }

  // ---- popping ----

  lemma PopFresh(g: Network, s: nat, d: seq<Option<nat>>, p: seq<Option<nat>>, h: seq<real>, heap: multiset<Entry>, t: nat, top: Entry)
    requires Scores(g, s, d, p, h, heap) && AllOpen(g, d, h, heap, t) && top in heap && top.node != t
    ensures Scores(g, s, d, p, h, heap - multiset{top})
    ensures Expanding(g, d, h, heap - multiset{top}, t, top.node, 0)
  {
  }

  lemma PopStale(g: Network, s: nat, d: seq<Option<nat>>, p: seq<Option<nat>>, h: seq<real>, heap: multiset<Entry>, t: nat, top: Entry)
    requires Scores(g, s, d, p, h, heap) && AllOpen(g, d, h, heap, t) && top in heap
    requires top.cost > Estimate(d, h, top.node)
    ensures Scores(g, s, d, p, h, heap - multiset{top}) && AllOpen(g, d, h, heap - multiset{top}, t)
  {
  }

  lemma DoneExpanding(g: Network, d: seq<Option<nat>>, h: seq<real>, heap: multiset<Entry>, t: nat, u: nat)
    requires u < |g.adj| && Expanding(g, d, h, heap, t, u, |g.adj[u]|)
    ensures AllOpen(g, d, h, heap, t)
  {
    assert Relaxed(g, d, u);
  }

  // ---- optimality ----

  /** Along any walk to `t` cheaper than every entry of the heap, the scores never exceed the cost so far. */
  lemma {:induction false} ScoresFollow(g: Network, s: nat, d: seq<Option<nat>>, p: seq<Option<nat>>, h: seq<real>,
                                        heap: multiset<Entry>, t: nat, w: Walk, k: nat)
    requires g.Valid() && Scores(g, s, d, p, h, heap) && AllOpen(g, d, h, heap, t) && Admissible(g, h, t)
    requires Joins(g, s, w, t) && k <= |w.rows|
    requires forall x | x in heap :: x.cost > Cost(g, w.rows) as real
    ensures Below(d, w.nodes[k], Cost(g, w.rows[..k]))
  {
    if k > 0 {
      ScoresFollow(g, s, d, p, h, heap, t, w, k - 1);
      var u := w.nodes[k - 1];
      CostPrefix(g, w.rows, k - 1);
      Suffix(g, s, w, t, k - 1);
      assert Open(g, d, h, heap, t, u);
      assert h[u] <= Cost(g, w.rows[k - 1..]) as real;
      assert Estimate(d, h, u) <= Cost(g, w.rows) as real;
      RelaxedArc(g, d, u, w.nodes[k], w.rows[k - 1]);
    }
  }

  /** The target popped fresh with an admissible heuristic carries the true distance. */
  lemma PoppedIsOptimal(g: Network, s: nat, d: seq<Option<nat>>, p: seq<Option<nat>>, h: seq<real>,
                        heap: multiset<Entry>, t: nat, top: Entry, w: Walk)
    requires g.Valid() && Scores(g, s, d, p, h, heap) && AllOpen(g, d, h, heap, t) && Admissible(g, h, t)
    requires top in heap && top.node == t && top.cost <= Estimate(d, h, t) && h[t] >= 0.0
    requires forall x | x in heap :: EntryLeq(top, x)
    requires Joins(g, s, w, t)
    ensures d[t].value <= Cost(g, w.rows)
  {
    assert Joins(g, t, Walk([t], []), t);
    assert h[t] <= Cost(g, Walk([t], []).rows) as real;
    assert w.rows[..|w.rows|] == w.rows;
    if Cost(g, w.rows) < d[t].value {
      ScoresFollow(g, s, d, p, h, heap, t, w, |w.rows|);
    }
  }

  /** With nothing left to pop, the nodes holding a score are closed under arcs and exclude `t`. */
  lemma {:induction false} ExhaustedClosed(g: Network, s: nat, d: seq<Option<nat>>, p: seq<Option<nat>>, h: seq<real>, t: nat, w: Walk, x: nat, k: nat)
    requires g.Valid() && Scores(g, s, d, p, h, multiset{}) && AllOpen(g, d, h, multiset{}, t)
    requires Joins(g, s, w, x) && k <= |w.rows|
    ensures w.nodes[k] < |d| && d[w.nodes[k]].Some? && w.nodes[k] != t
  {
    if k > 0 {
      ExhaustedClosed(g, s, d, p, h, t, w, x, k - 1);
      assert Open(g, d, h, multiset{}, t, w.nodes[k - 1]);
      RelaxedArc(g, d, w.nodes[k - 1], w.nodes[k], w.rows[k - 1]);
    }
    assert Open(g, d, h, multiset{}, t, w.nodes[k]);
  }

  lemma ExhaustedUnreachable(g: Network, s: nat, d: seq<Option<nat>>, p: seq<Option<nat>>, h: seq<real>, heap: multiset<Entry>, t: nat)
    requires g.Valid() && Scores(g, s, d, p, h, heap) && AllOpen(g, d, h, heap, t) && |heap| == 0
    ensures !Reachable(g, s, t)
  {
    assert heap == multiset{};
    forall w | Joins(g, s, w, t)
      ensures false
    {
      ExhaustedClosed(g, s, d, p, h, t, w, t, |w.rows|);
    }
  }

  // ---- the returned chain ----

  lemma ScoresFall(g: Network, s: nat, d: seq<Option<nat>>, p: seq<Option<nat>>, h: seq<real>, heap: multiset<Entry>)
    requires g.Positive() && Scores(g, s, d, p, h, heap)
    ensures forall v | 0 <= v < |p| && v != s && d[v].Some? :: p[v].Some?
    ensures Falls(p, d)
  {
    forall v | 0 <= v < |p| && p[v].Some? && d[v].Some?
      ensures p[v].value < |d| && d[p[v].value].Some? && d[p[v].value].value < d[v].value
    {
      assert Linked(g, d, p, v);
      var e: nat :| g.HasArc(p[v].value, v, e) && d[p[v].value].value + g.W(e) <= d[v].value;
      assert g.W(e) > 0;
    }
    forall v | 0 <= v < |p| && v != s && d[v].Some?
      ensures p[v].Some?
    {
      assert Linked(g, d, p, v);
    }
  }

  /** The chain read back is a real walk, no dearer than the score of its end. */
  lemma {:induction false} ChainCost(g: Network, s: nat, d: seq<Option<nat>>, p: seq<Option<nat>>, h: seq<real>,
                                     heap: multiset<Entry>, t: nat, ns: seq<nat>) returns (c: nat)
    requires g.Valid() && Scores(g, s, d, p, h, heap) && t < |d| && d[t].Some? && Chain(p, s, t, ns)
    ensures c <= d[t].value && Along(g, s, t, ns, c)
    decreases |ns|
  {
    hide Along;
    if t == s {
      assert ns == [s];
      AlongSelf(g, s);
      c := 0;
    } else {
      assert Linked(g, d, p, t);
      var q := ns[|ns| - 2];
      var e: nat :| g.HasArc(q, t, e) && d[q].value + g.W(e) <= d[t].value;
      var before := ChainCost(g, s, d, p, h, heap, q, ns[..|ns| - 1]);
      AlongStep(g, s, q, t, ns, before, e);
      c := before + g.W(e);
    }
  }

  // ---- the search ----

  /** The estimate for one node, or the error for a negative one. */
  method HeuristicCost(h: seq<real>, v: nat) returns (r: Result<real>)
    requires v < |h|
    ensures r.Success? <==> h[v] >= 0.0
    ensures r.Success? ==> r.value == h[v]
    ensures r.Failure? ==> r.error == InvalidConfig
  {
    if h[v] < 0.0 {
      return Failure(InvalidConfig);
    }
    return Success(h[v]);
  }

  /** The inner loop: relaxes the arcs of `u`, consulting the heuristic for every node it lowers. */
  method ExpandNode(g: Network, ghost s: nat, t: nat, score: array<Option<nat>>, prev: array<Option<nat>>,
                    h: seq<real>, heap: multiset<Entry>, u: nat)
    returns (pushed: Result<multiset<Entry>>)
    requires g.Valid() && g.Positive() && score as object != prev
    requires Scores(g, s, score[..], prev[..], h, heap) && Expanding(g, score[..], h, heap, t, u, 0)
    modifies score, prev
    ensures pushed.Failure? ==> pushed.error == InvalidConfig && !NonNegative(h)
    ensures pushed.Success? ==> Scores(g, s, score[..], prev[..], h, pushed.value) && AllOpen(g, score[..], h, pushed.value, t)
    ensures pushed.Success? ==> Progress(old(score[..]), score[..]) || (score[..] == old(score[..]) && pushed.value == heap)
  {
    hide Expanding, Scores, AllOpen, Unreached, Total;
    var entries := heap;
    ghost var d, p := score[..], prev[..];
    Bounds(g, s, d, p, h, heap);
    ExpandingBounds(g, d, h, heap, t, u, 0);
    var k := 0;
    while k < |g.adj[u]|
      invariant 0 <= k <= |g.adj[u]| && score[..] == d && prev[..] == p && |d| == |p| == |g.adj| && d[u].Some?
      invariant Scores(g, s, d, p, h, entries) && Expanding(g, d, h, entries, t, u, k)
      invariant Progress(old(score[..]), d) || (d == old(score[..]) && entries == heap)
    {
      var arc := g.adj[u][k];
      assert g.HasArc(u, arc.to, arc.row);
      var tentative := score[u].value + g.W(arc.row);
      if Improves(score[arc.to], tentative) {
        LowerScore(g, s, d, p, h, entries, u, arc.to, arc.row);
        NextArcLowered(g, d, h, entries, t, u, k);
        LabelDrops(d, arc.to, tentative);
        score[arc.to] := Some(tentative);
        prev[arc.to] := Some(u);
        d, p := d[arc.to := Some(tentative)], p[arc.to := Some(u)];
        var estimate := HeuristicCost(h, arc.to);
        if estimate.Failure? {
          return Failure(estimate.error);
        }
        entries := entries + multiset{Entry(tentative as real + estimate.value, arc.to)};
      } else {
        NextArcKept(g, d, h, entries, t, u, k);
        if tentative == score[arc.to].value && prev[arc.to].Some? && u < prev[arc.to].value {
          TieLink(g, s, d, p, h, entries, u, arc.to, arc.row);
          prev[arc.to] := Some(u);
          p := p[arc.to := Some(u)];
        }
      }
      k := k + 1;
    }
    DoneExpanding(g, d, h, entries, t, u);
    pushed := Success(entries);
  }

  lemma Bounds(g: Network, s: nat, d: seq<Option<nat>>, p: seq<Option<nat>>, h: seq<real>, heap: multiset<Entry>)
    requires Scores(g, s, d, p, h, heap)
    ensures |d| == |p| == |h| == |g.adj| && s < |d|
    ensures forall x | x in heap :: x.node < |d| && d[x.node].Some? && Estimate(d, h, x.node) <= x.cost
  {
  }

  lemma ExpandingBounds(g: Network, d: seq<Option<nat>>, h: seq<real>, heap: multiset<Entry>, t: nat, u: nat, k: nat)
    requires Expanding(g, d, h, heap, t, u, k)
    ensures |d| == |h| == |g.adj| && u < |d| && d[u].Some? && k <= |g.adj[u]|
  {
  }

  lemma Begin(g: Network, s: nat, d: seq<Option<nat>>, p: seq<Option<nat>>, h: seq<real>, t: nat)
    requires s < |g.adj| == |h| && d == seq(|g.adj|, _ => None)[s := Some(0)] && p == seq(|g.adj|, _ => None)
    ensures Scores(g, s, d, p, h, multiset{Entry(h[s], s)}) && AllOpen(g, d, h, multiset{Entry(h[s], s)}, t)
  {
    assert Entry(Estimate(d, h, s), s) in multiset{Entry(h[s], s)};
  }

  /** A* proper. An error only for a negative estimate. For any heuristic, `None` exactly when `dst`
      cannot be reached and otherwise a real path; for an admissible one, a cheapest path. */
  method AStarSingle(g: Network, src: nat, dst: nat, h: seq<real>) returns (r: Result<Option<seq<nat>>>)
    requires g.Valid() && g.Positive() && src < |g.adj| && dst < |g.adj| && |h| == |g.adj|
    ensures r.Failure? ==> r.error == InvalidConfig && !NonNegative(h)
    ensures r.Success? ==> (r.value.None? <==> !Reachable(g, src, dst))
    ensures r.Success? && r.value.Some? ==> exists c :: Along(g, src, dst, r.value.value, c)
    ensures r.Success? && r.value.Some? && Admissible(g, h, dst) ==>
              exists c :: IsDistance(g, src, dst, c) && Along(g, src, dst, r.value.value, c)
  {
    hide Scores, AllOpen, Unreached, Total, IsDistance, Reachable, Along, Admissible, Expanding, Falls, Chain, Linked, Relaxed, Joins, Open, EntryLeq, Heaps.TotalOrder, Network.Valid, Network.Positive;
    var score := new Option<nat>[|g.adj|](_ => None);
    var prev := new Option<nat>[|g.adj|](_ => None);
    score[src] := Some(0);
    var first := HeuristicCost(h, src);
    if first.Failure? {
      return Failure(first.error);
    }
    var heap := multiset{Entry(first.value, src)};
    assert score[..] == seq(|g.adj|, _ => None)[src := Some(0)];
    assert prev[..] == seq(|g.adj|, _ => None);
    Begin(g, src, score[..], prev[..], h, dst);

    while |heap| > 0
      invariant score as object != prev
      invariant Scores(g, src, score[..], prev[..], h, heap) && AllOpen(g, score[..], h, heap, dst)
      decreases Unreached(score[..]), Total(score[..]), |heap|
    {
      ghost var d, p := score[..], prev[..];
      EntryOrder();
      var top, rest := Heaps.Pop(heap, EntryLeq);
      Bounds(g, src, d, p, h, heap);
      var remaining := HeuristicCost(h, top.node);
      if remaining.Failure? {
        return Failure(remaining.error);
      }
      if top.cost > score[top.node].value as real + remaining.value {
        PopStale(g, src, d, p, h, heap, dst, top);
        heap := rest;
      } else if top.node == dst {
        ScoresFall(g, src, d, p, h, heap);
        var ns := ReconstructPath(prev[..], src, dst, d);
        ghost var c := ChainCost(g, src, d, p, h, heap, dst, ns);
        FoundPath(g, src, d, p, h, heap, dst, top, ns, c);
        return Success(Some(ns));
      } else {
        PopFresh(g, src, d, p, h, heap, dst, top);
        var pushed := ExpandNode(g, src, dst, score, prev, h, rest, top.node);
        if pushed.Failure? {
          return Failure(pushed.error);
        }
        heap := pushed.value;
      }
    }
    ExhaustedUnreachable(g, src, score[..], prev[..], h, heap, dst);
    r := Success(None);
  }

  lemma FoundPath(g: Network, s: nat, d: seq<Option<nat>>, p: seq<Option<nat>>, h: seq<real>,
                  heap: multiset<Entry>, t: nat, top: Entry, ns: seq<nat>, c: nat)
    requires g.Valid() && Scores(g, s, d, p, h, heap) && AllOpen(g, d, h, heap, t)
    requires top in heap && top.node == t && top.cost <= Estimate(d, h, t) && h[t] >= 0.0
    requires forall x | x in heap :: EntryLeq(top, x)
    requires c <= d[t].value && Along(g, s, t, ns, c)
    ensures Reachable(g, s, t)
    ensures Admissible(g, h, t) ==> IsDistance(g, s, t, c)
  {
    var rows :| Joins(g, s, Walk(ns, rows), t) && Cost(g, rows) == c;
    if Admissible(g, h, t) {
      forall w | Joins(g, s, w, t)
        ensures c <= Cost(g, w.rows)
      {
        PoppedIsOptimal(g, s, d, p, h, heap, t, top, w);
      }
    }
  }
}
