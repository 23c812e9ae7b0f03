/** Single-source Dijkstra with lazy deletion: the distance pass and the early-exit search. */
module Dijkstra {
  import opened Basics
  import opened Networks
  import Heaps

  datatype State = State(cost: nat, node: nat)

  /** Pop order of the heap: lower cost first, then lower node index. */
  predicate StateLeq(a: State, b: State) {
    a.cost < b.cost || (a.cost == b.cost && a.node <= b.node)
  }

  lemma StateOrder()
    ensures Heaps.TotalOrder(StateLeq)
  {
  }

  /** Node `u` needs no further work, or its current label still waits in the heap. */
  ghost predicate Pending(g: Network, d: seq<Option<nat>>, heap: multiset<State>, u: nat)
    requires |d| == |g.adj| && u < |d| && d[u].Some?
  {
    Relaxed(g, d, u) || State(d[u].value, u) in heap
  }

  ghost predicate Labels(g: Network, s: nat, d: seq<Option<nat>>, heap: multiset<State>) {
    && |d| == |g.adj| && s < |d| && d[s] == Some(0)
    && Sound(g, s, d)
    && forall x | x in heap :: Below(d, x.node, x.cost)
  }

  /** Lowering one label keeps the labels sound ... */
  lemma ImproveLabels(g: Network, s: nat, d: seq<Option<nat>>, heap: multiset<State>, u: nat, v: nat, e: nat)
    requires g.Valid() && Labels(g, s, d, heap)
    requires u < |d| && d[u].Some? && g.HasArc(u, v, e)
    requires !Below(d, v, d[u].value + g.W(e))
    ensures var c := d[u].value + g.W(e);
            Labels(g, s, d[v := Some(c)], heap + multiset{State(c, v)})
  {
    ReachStep(g, s, u, d[u].value, v, e);
  }

  /** ... and, since its target is pushed, leaves no node unattended. */
  lemma ImprovePending(g: Network, d: seq<Option<nat>>, heap: multiset<State>, v: nat, c: nat, x: nat)
    requires g.Valid() && |d| == |g.adj| && v < |d| && !Below(d, v, c)
    requires x < |d| && d[x].Some? && Pending(g, d, heap, x)
    ensures Pending(g, d[v := Some(c)], heap + multiset{State(c, v)}, x)
  {
    var d' := d[v := Some(c)];
    if x == v {
      assert State(c, v) in heap + multiset{State(c, v)};
    } else if Relaxed(g, d, x) {
      assert Relaxed(g, d', x);
    }
  }

  /** Mid-expansion of `u`: its first `k` arcs are relaxed and every other node is attended to. */
  ghost predicate Expanding(g: Network, d: seq<Option<nat>>, heap: multiset<State>, u: nat, k: nat)
    requires |d| == |g.adj| && u < |d| && d[u].Some? && k <= |g.adj[u]|
  {
    && (forall x | 0 <= x < |d| && x != u && d[x].Some? :: Pending(g, d, heap, x))
    && forall j | 0 <= j < k :: Below(d, g.adj[u][j].to, d[u].value + g.W(g.adj[u][j].row))
  }

  ghost predicate AllPending(g: Network, d: seq<Option<nat>>, heap: multiset<State>)
    requires |d| == |g.adj|
  {
    forall x | 0 <= x < |d| && d[x].Some? :: Pending(g, d, heap, x)
  }

  lemma StartExpanding(g: Network, s: nat, d: seq<Option<nat>>, heap: multiset<State>, top: State)
    requires Labels(g, s, d, heap) && AllPending(g, d, heap) && top in heap
    requires top.node < |d| && d[top.node].Some? && top.cost <= d[top.node].value
    ensures Labels(g, s, d, heap - multiset{top}) && Expanding(g, d, heap - multiset{top}, top.node, 0)
  {
  }

  lemma SkipStale(g: Network, s: nat, d: seq<Option<nat>>, heap: multiset<State>, top: State)
    requires Labels(g, s, d, heap) && AllPending(g, d, heap) && top in heap
    requires top.node < |d| && d[top.node].Some? && top.cost > d[top.node].value
    ensures Labels(g, s, d, heap - multiset{top}) && AllPending(g, d, heap - multiset{top})
  {
  }

  /** One step of the inner loop: lowering the label of the arc's target and pushing it keeps every
      invariant ... */
  lemma LowerLabel(g: Network, s: nat, d: seq<Option<nat>>, heap: multiset<State>, u: nat, k: nat, cost: nat, v: nat, e: nat)
    requires g.Valid() && Labels(g, s, d, heap) && u < |d| && d[u] == Some(cost)
    requires k < |g.adj[u]| && Expanding(g, d, heap, u, k) && g.adj[u][k] == Arc(v, e)
    requires v < |d| == |g.adj| && Improves(d[v], cost + g.W(e))
    ensures v != u && Labels(g, s, d[v := Some(cost + g.W(e))], heap + multiset{State(cost + g.W(e), v)})
    ensures Expanding(g, d[v := Some(cost + g.W(e))], heap + multiset{State(cost + g.W(e), v)}, u, k + 1)
  {
    hide Labels, Sound, Relaxed;
    var c := cost + g.W(e);
    var d', heap' := d[v := Some(c)], heap + multiset{State(c, v)};
    assert g.HasArc(u, v, e);
    ImproveLabels(g, s, d, heap, u, v, e);
    forall x | 0 <= x < |d| && x != u && d'[x].Some?
      ensures Pending(g, d', heap', x)
    {
      if x == v {
        assert State(c, x) in heap';
      } else {
        ImprovePending(g, d, heap, v, c, x);
      }
    }
  }

  /** ... and an arc that improves nothing is already relaxed. */
  lemma KeepLabel(g: Network, d: seq<Option<nat>>, heap: multiset<State>, u: nat, k: nat, v: nat, e: nat)
    requires |d| == |g.adj| && u < |d| && d[u].Some? && v < |d|
    requires k < |g.adj[u]| && Expanding(g, d, heap, u, k) && g.adj[u][k] == Arc(v, e)
    requires !Improves(d[v], d[u].value + g.W(e))
    ensures Expanding(g, d, heap, u, k + 1)
  {
  }

  lemma DoneExpanding(g: Network, d: seq<Option<nat>>, heap: multiset<State>, u: nat)
    requires |d| == |g.adj| && u < |d| && d[u].Some? && Expanding(g, d, heap, u, |g.adj[u]|)
    ensures AllPending(g, d, heap)
  {
    assert Relaxed(g, d, u);
  }

  lemma Start(g: Network, s: nat, d: seq<Option<nat>>)
    requires s < |g.adj| && d == seq(|g.adj|, _ => None)[s := Some(0)]
    ensures Labels(g, s, d, multiset{State(0, s)}) && AllPending(g, d, multiset{State(0, s)})
  {
    ReachSelf(g, s);
  }

  lemma Finish(g: Network, s: nat, d: seq<Option<nat>>, heap: multiset<State>)
    requires g.Valid() && Labels(g, s, d, heap) && AllPending(g, d, heap) && |heap| == 0
    ensures forall u | 0 <= u < |d| && d[u].Some? :: Relaxed(g, d, u)
    ensures forall v | 0 <= v < |d| :: d[v].Some? <==> Reachable(g, s, v)
    ensures forall v | 0 <= v < |d| && d[v].Some? :: IsDistance(g, s, v, d[v].value)
  {
    Exact(g, s, d);
  }

  lemma LabelsBound(g: Network, s: nat, d: seq<Option<nat>>, heap: multiset<State>)
    requires Labels(g, s, d, heap)
    ensures |d| == |g.adj| && s < |d| && d[s] == Some(0)
    ensures forall x | x in heap :: Below(d, x.node, x.cost)
  {
  }

  /** The inner loop of the distance pass: relaxes every arc leaving the popped node `u`. */
  method RelaxArcs(g: Network, ghost s: nat, labels: array<Option<nat>>, heap: multiset<State>, u: nat, cost: nat)
    returns (pushed: multiset<State>)
    requires g.Valid() && Labels(g, s, labels[..], heap)
    requires u < labels.Length && labels[u] == Some(cost) && Expanding(g, labels[..], heap, u, 0)
    modifies labels
    ensures Labels(g, s, labels[..], pushed) && AllPending(g, labels[..], pushed)
    ensures Progress(old(labels[..]), labels[..]) || (labels[..] == old(labels[..]) && pushed == heap)
  {
    hide Labels, Expanding, AllPending, Relaxed, Pending, Sound, Unreached, Total;
    pushed := heap;
    LabelsBound(g, s, labels[..], heap);
    ghost var d := labels[..];
    var k := 0;
    while k < |g.adj[u]|
      invariant 0 <= k <= |g.adj[u]| && labels[..] == d && |d| == |g.adj|
      invariant d[u] == Some(cost) && Labels(g, s, d, pushed) && Expanding(g, d, pushed, u, k)
      invariant Progress(old(labels[..]), d) || (d == old(labels[..]) && pushed == heap)
    {
      var arc := g.adj[u][k];
      var nc := cost + g.W(arc.row);
      if Improves(labels[arc.to], nc) {
        LowerLabel(g, s, d, pushed, u, k, cost, arc.to, arc.row);
        LabelDrops(d, arc.to, nc);
        labels[arc.to] := Some(nc);
        d := d[arc.to := Some(nc)];
        pushed := pushed + multiset{State(nc, arc.to)};
      } else {
        KeepLabel(g, d, pushed, u, k, arc.to, arc.row);
      }
      k := k + 1;
    }
    DoneExpanding(g, d, pushed, u);
  }

  /** The label-correcting pass: on return every label is the exact distance from `src`. */
  method DijkstraDistances(g: Network, src: nat) returns (dist: seq<Option<nat>>)
    requires g.Valid() && src < |g.adj|
    ensures |dist| == |g.adj| && dist[src] == Some(0)
    ensures forall v | 0 <= v < |dist| :: dist[v].Some? <==> Reachable(g, src, v)
    ensures forall v | 0 <= v < |dist| && dist[v].Some? :: IsDistance(g, src, v, dist[v].value)
    ensures forall u | 0 <= u < |dist| && dist[u].Some? :: Relaxed(g, dist, u)
  {
    hide Labels, Expanding, AllPending, Relaxed, Pending, Sound, Unreached, Total, Heaps.TotalOrder;
    var labels := new Option<nat>[|g.adj|](_ => None);
    labels[src] := Some(0);
    var heap := multiset{State(0, src)};
    assert labels[..] == seq(|g.adj|, _ => None)[src := Some(0)];
    Start(g, src, labels[..]);

    while |heap| > 0
      invariant Labels(g, src, labels[..], heap) && AllPending(g, labels[..], heap)
      decreases Unreached(labels[..]), Total(labels[..]), |heap|
    {
      StateOrder();
      var top, rest := Heaps.Pop(heap, StateLeq);
      LabelsBound(g, src, labels[..], heap);
      if top.cost > labels[top.node].value {
        SkipStale(g, src, labels[..], heap, top);
        heap := rest;
      } else {
        StartExpanding(g, src, labels[..], heap, top);
        heap := RelaxArcs(g, src, labels, rest, top.node, top.cost);
      }
    }

    dist := labels[..];
    LabelsBound(g, src, dist, heap);
    Finish(g, src, dist, heap);
  }

  /** A sound labelling in which every reached node is relaxed is the distance function. */
  lemma Exact(g: Network, s: nat, d: seq<Option<nat>>)
    requires g.Valid() && |d| == |g.adj| && s < |d| && d[s] == Some(0) && Sound(g, s, d)
    requires forall u | 0 <= u < |d| && d[u].Some? :: Relaxed(g, d, u)
    ensures forall v | 0 <= v < |d| :: d[v].Some? <==> Reachable(g, s, v)
    ensures forall v | 0 <= v < |d| && d[v].Some? :: IsDistance(g, s, v, d[v].value)
  {
    forall v, w | 0 <= v < |d| && Joins(g, s, w, v)
      ensures Below(d, v, Cost(g, w.rows))
    {
      CutBound(g, s, d, Cost(g, w.rows) + 1, w, v, |w.rows|);
      assert w.rows[..|w.rows|] == w.rows;
    }
  }
}
