/** The early-exit single-path Dijkstra with its predecessor tie-break. */
module ShortestPath {
  import opened Basics
  import opened Networks
  import opened Dijkstra
  import opened PathReadback
  import Heaps

  // ---- the promise, stated without reference to the search ----

  ghost predicate TightStep(g: Network, s: nat, u: nat, v: nat, du: nat, e: nat) {
    g.HasArc(u, v, e) && IsDistance(g, s, u, du) && IsDistance(g, s, v, du + g.W(e))
  }

  /** `u` is the last stop before `v` on some cheapest walk from `s`. */
  ghost predicate TightTo(g: Network, s: nat, u: nat, v: nat) {
    exists du: nat, e: nat :: TightStep(g, s, u, v, du, e)
  }

  ghost predicate LowestTight(g: Network, s: nat, u: nat, v: nat) {
    TightTo(g, s, u, v) && forall x: nat | TightTo(g, s, x, v) :: u <= x
  }

  /** Read from `t` back to `s`, every node of `ns` is preceded by its lowest-index tight predecessor. */
  ghost predicate Canonical(g: Network, s: nat, t: nat, ns: seq<nat>)
    decreases |ns|
  {
    && |ns| > 0 && ns[|ns| - 1] == t
    && if t == s then |ns| == 1 else
        && |ns| > 1
        && LowestTight(g, s, ns[|ns| - 2], t)
        && Canonical(g, s, ns[|ns| - 2], ns[..|ns| - 1])
  }

  /** The tie-break leaves no choice: a query has at most one canonical path. */
  lemma {:induction false} CanonicalUnique(g: Network, s: nat, t: nat, a: seq<nat>, b: seq<nat>)
    requires Canonical(g, s, t, a) && Canonical(g, s, t, b)
    ensures a == b
    decreases |a|
  {
    if t != s {
      CanonicalUnique(g, s, a[|a| - 2], a[..|a| - 1], b[..|b| - 1]);
    }
    assert a == a[..|a| - 1] + [t] && b == b[..|b| - 1] + [t];
  }

  // ---- the predecessor array ----

  /** The arc `u -> v` through edge row `e` is tight under the labels `d`. */
  predicate Tight(g: Network, d: seq<Option<nat>>, u: nat, v: nat, e: nat) {
    u < |d| && v < |d| && d[u].Some? && d[v] == Some(d[u].value + g.W(e))
  }

  ghost predicate Parent(g: Network, d: seq<Option<nat>>, p: seq<Option<nat>>, done: set<nat>, v: nat)
    requires |d| == |p| == |g.adj| && v < |p|
  {
    p[v].Some? && p[v].value in done && exists e: nat :: g.HasArc(p[v].value, v, e) && Tight(g, d, p[v].value, v, e)
  }

  ghost predicate Tree(g: Network, s: nat, d: seq<Option<nat>>, p: seq<Option<nat>>, done: set<nat>) {
    && |d| == |p| == |g.adj| && s < |p| && p[s].None?
    && forall v | 0 <= v < |d| && v != s && d[v].Some? :: Parent(g, d, p, done, v)
  }

  /** The first `k` arcs of `u` are relaxed, and none of them beats a recorded predecessor. */
  ghost predicate Settled(g: Network, d: seq<Option<nat>>, p: seq<Option<nat>>, u: nat, k: nat)
    requires |d| == |p| == |g.adj| && u < |d| && k <= |g.adj[u]|
  {
    d[u].Some? && forall j | 0 <= j < k :: ArcSettled(g, d, p, u, g.adj[u][j])
  }

  ghost predicate ArcSettled(g: Network, d: seq<Option<nat>>, p: seq<Option<nat>>, u: nat, arc: Arc)
    requires |d| == |p| && u < |d| && d[u].Some?
  {
    && Below(d, arc.to, d[u].value + g.W(arc.row))
    && (Tight(g, d, u, arc.to, arc.row) ==> p[arc.to].Some? && p[arc.to].value <= u)
  }

  ghost predicate OthersSettled(g: Network, d: seq<Option<nat>>, p: seq<Option<nat>>, done: set<nat>, u: nat)
    requires |d| == |p| == |g.adj|
  {
    forall x | x in done && x != u :: x < |d| && Settled(g, d, p, x, |g.adj[x]|)
  }

  /** Popped nodes are no dearer than `cost`; nodes not yet popped wait in the heap at `cost` or more. */
  ghost predicate Layered(d: seq<Option<nat>>, heap: multiset<State>, done: set<nat>, cost: nat) {
    && (forall x | x in done :: Below(d, x, cost))
    && (forall x | 0 <= x < |d| && d[x].Some? && x !in done :: State(d[x].value, x) in heap)
    && (forall x | x in heap :: cost <= x.cost)
  }

  /** Everything known between two arcs of node `u`, popped at cost `cost`. `done` holds the nodes
      popped fresh so far, `u` included. */
  ghost predicate Searching(g: Network, s: nat, d: seq<Option<nat>>, p: seq<Option<nat>>,
                            heap: multiset<State>, done: set<nat>, u: nat, cost: nat, k: nat)
  {
    && Labels(g, s, d, heap) && Tree(g, s, d, p, done) && Layered(d, heap, done, cost)
    && u in done && u < |d| && d[u] == Some(cost) && k <= |g.adj[u]|
    && OthersSettled(g, d, p, done, u) && Settled(g, d, p, u, k)
  }

  /** The outer-loop invariant; `cost` is the cost popped last. */
  ghost predicate Between(g: Network, s: nat, d: seq<Option<nat>>, p: seq<Option<nat>>,
                          heap: multiset<State>, done: set<nat>, cost: nat)
  {
    && Labels(g, s, d, heap) && Tree(g, s, d, p, done) && Layered(d, heap, done, cost)
    && forall x | x in done :: x < |d| && Settled(g, d, p, x, |g.adj[x]|)
  }

  // ---- one arc ----

  lemma LowerLabel(g: Network, s: nat, d: seq<Option<nat>>, p: seq<Option<nat>>, heap: multiset<State>,
                   done: set<nat>, u: nat, cost: nat, k: nat)
    requires g.Valid() && Searching(g, s, d, p, heap, done, u, cost, k) && k < |g.adj[u]|
    requires g.adj[u][k].to < |d|
    requires Improves(d[g.adj[u][k].to], cost + g.W(g.adj[u][k].row))
    ensures var v := g.adj[u][k].to;
            var c := cost + g.W(g.adj[u][k].row);
            Searching(g, s, d[v := Some(c)], p[v := Some(u)], heap + multiset{State(c, v)}, done, u, cost, k + 1)
  {
    hide Labels, Parent, OthersSettled, Sound;
    var v := g.adj[u][k].to;
    var e := g.adj[u][k].row;
    var c := cost + g.W(e);
    LabelsBound(g, s, d, heap);
    assert g.HasArc(u, v, e);
    assert v !in done && v != u;
    ImproveLabels(g, s, d, heap, u, v, e);
    LowerKeepsTree(g, s, d, p, done, u, v, e);
    LowerKeepsOthers(g, d, p, done, u, v, c);
    LowerKeepsSettled(g, d, p, u, k, u, v, c);
    LowerKeepsLayers(d, heap, done, cost, v, c);
    assert ArcSettled(g, d[v := Some(c)], p[v := Some(u)], u, g.adj[u][k]);
  }

  lemma LowerKeepsLayers(d: seq<Option<nat>>, heap: multiset<State>, done: set<nat>, cost: nat, v: nat, c: nat)
    requires Layered(d, heap, done, cost) && v < |d| && v !in done && cost <= c
    ensures Layered(d[v := Some(c)], heap + multiset{State(c, v)}, done, cost)
  {
    assert State(c, v) in heap + multiset{State(c, v)};
  }

  lemma LowerKeepsOthers(g: Network, d: seq<Option<nat>>, p: seq<Option<nat>>, done: set<nat>, u: nat, v: nat, c: nat)
    requires |d| == |p| == |g.adj| && OthersSettled(g, d, p, done, u)
    requires v < |d| && Improves(d[v], c) && v !in done
    ensures OthersSettled(g, d[v := Some(c)], p[v := Some(u)], done, u)
  {
    forall x | x in done && x != u
      ensures Settled(g, d[v := Some(c)], p[v := Some(u)], x, |g.adj[x]|)
    {
      LowerKeepsSettled(g, d, p, x, |g.adj[x]|, u, v, c);
    }
  }

  lemma LowerKeepsTree(g: Network, s: nat, d: seq<Option<nat>>, p: seq<Option<nat>>, done: set<nat>, u: nat, v: nat, e: nat)
    requires Tree(g, s, d, p, done) && u in done && v !in done && u < |d| && v < |d| && v != s
    requires d[u].Some? && g.HasArc(u, v, e)
    ensures Tree(g, s, d[v := Some(d[u].value + g.W(e))], p[v := Some(u)], done)
  {
    var d', p' := d[v := Some(d[u].value + g.W(e))], p[v := Some(u)];
    forall x | 0 <= x < |d'| && x != s && d'[x].Some?
      ensures Parent(g, d', p', done, x)
    {
      if x == v {
        assert g.HasArc(u, v, e) && Tight(g, d', u, v, e);
      } else {
        assert Parent(g, d, p, done, x);
        var q := p[x].value;
        var e' :| g.HasArc(q, x, e') && Tight(g, d, q, x, e');
        assert g.HasArc(q, x, e') && Tight(g, d', q, x, e');
      }
    }
  }

  lemma LowerKeepsSettled(g: Network, d: seq<Option<nat>>, p: seq<Option<nat>>, x: nat, k: nat, u: nat, v: nat, c: nat)
    requires |d| == |p| == |g.adj| && x < |d| && k <= |g.adj[x]| && Settled(g, d, p, x, k)
    requires v < |d| && Improves(d[v], c) && x != v
    ensures Settled(g, d[v := Some(c)], p[v := Some(u)], x, k)
  {
    var d', p' := d[v := Some(c)], p[v := Some(u)];
    forall j | 0 <= j < k
      ensures ArcSettled(g, d', p', x, g.adj[x][j])
    {
      assert ArcSettled(g, d, p, x, g.adj[x][j]);
    }
  }

  lemma KeepLabel(g: Network, s: nat, d: seq<Option<nat>>, p: seq<Option<nat>>, heap: multiset<State>,
                  done: set<nat>, u: nat, cost: nat, k: nat)
    requires g.Valid() && g.Positive() && Searching(g, s, d, p, heap, done, u, cost, k) && k < |g.adj[u]|
    requires g.adj[u][k].to < |d|
    requires !Improves(d[g.adj[u][k].to], cost + g.W(g.adj[u][k].row))
    ensures var v := g.adj[u][k].to;
            var tie := d[v].value == cost + g.W(g.adj[u][k].row) && p[v].Some? && u < p[v].value;
            Searching(g, s, d, if tie then p[v := Some(u)] else p, heap, done, u, cost, k + 1)
  {
    hide Labels, Sound, Layered;
    var v := g.adj[u][k].to;
    var e := g.adj[u][k].row;
    LabelsBound(g, s, d, heap);
    assert g.HasArc(u, v, e);
    if d[v].value == cost + g.W(e) && p[v].Some? && u < p[v].value {
      TieKeepsTree(g, s, d, p, done, u, v, e);
      forall x | x in done && x != u
        ensures Settled(g, d, p[v := Some(u)], x, |g.adj[x]|)
      {
        TieKeepsSettled(g, d, p, x, |g.adj[x]|, u, v);
      }
      TieKeepsSettled(g, d, p, u, k, u, v);
      assert ArcSettled(g, d, p[v := Some(u)], u, g.adj[u][k]);
    } else {
      assert v != s ==> Parent(g, d, p, done, v);
      assert ArcSettled(g, d, p, u, g.adj[u][k]);
    }
  }

  lemma TieKeepsTree(g: Network, s: nat, d: seq<Option<nat>>, p: seq<Option<nat>>, done: set<nat>, u: nat, v: nat, e: nat)
    requires Tree(g, s, d, p, done) && u in done && u < |d| && v < |d| && p[v].Some?
    requires g.HasArc(u, v, e) && Tight(g, d, u, v, e)
    ensures Tree(g, s, d, p[v := Some(u)], done)
  {
    var p' := p[v := Some(u)];
    forall x | 0 <= x < |d| && x != s && d[x].Some?
      ensures Parent(g, d, p', done, x)
    {
      assert Parent(g, d, p, done, x);
    }
  }

  lemma TieKeepsSettled(g: Network, d: seq<Option<nat>>, p: seq<Option<nat>>, x: nat, k: nat, u: nat, v: nat)
    requires |d| == |p| == |g.adj| && x < |d| && k <= |g.adj[x]| && Settled(g, d, p, x, k)
    requires v < |d| && p[v].Some? && u < p[v].value
    ensures Settled(g, d, p[v := Some(u)], x, k)
  {
  }

  // ---- the outer loop ----

  lemma PopFresh(g: Network, s: nat, d: seq<Option<nat>>, p: seq<Option<nat>>, heap: multiset<State>,
                 done: set<nat>, cost: nat, top: State)
    requires Between(g, s, d, p, heap, done, cost) && top in heap
    requires forall x | x in heap :: StateLeq(top, x)
    requires top.node < |d| && d[top.node].Some? && top.cost <= d[top.node].value
    ensures Searching(g, s, d, p, heap - multiset{top}, done + {top.node}, top.node, top.cost, 0)
  {
    hide Settled, Parent;
    PopKeepsTree(g, s, d, p, done, top.node);
    PopKeepsLayers(d, heap, done, cost, top);
    assert Settled(g, d, p, top.node, 0) by { SettledNone(g, d, p, top.node); }
    assert Labels(g, s, d, heap - multiset{top});
  }

  lemma SettledNone(g: Network, d: seq<Option<nat>>, p: seq<Option<nat>>, u: nat)
    requires |d| == |p| == |g.adj| && u < |d| && d[u].Some?
    ensures Settled(g, d, p, u, 0)
  {
  }

  lemma PopKeepsTree(g: Network, s: nat, d: seq<Option<nat>>, p: seq<Option<nat>>, done: set<nat>, u: nat)
    requires Tree(g, s, d, p, done)
    ensures Tree(g, s, d, p, done + {u})
  {
    forall v | 0 <= v < |d| && v != s && d[v].Some?
      ensures Parent(g, d, p, done + {u}, v)
    {
      assert Parent(g, d, p, done, v);
    }
  }

  lemma PopKeepsLayers(d: seq<Option<nat>>, heap: multiset<State>, done: set<nat>, cost: nat, top: State)
    requires Layered(d, heap, done, cost) && top in heap
    requires forall x | x in heap :: StateLeq(top, x)
    requires top.node < |d| && d[top.node].Some? && top.cost <= d[top.node].value
    requires Below(d, top.node, top.cost)
    ensures Layered(d, heap - multiset{top}, done + {top.node}, top.cost)
  {
    assert StateLeq(top, top);
    assert cost <= top.cost;
  }

  lemma PopStale(g: Network, s: nat, d: seq<Option<nat>>, p: seq<Option<nat>>, heap: multiset<State>,
                 done: set<nat>, cost: nat, top: State)
    requires Between(g, s, d, p, heap, done, cost) && top in heap
    requires top.node < |d| && d[top.node].Some? && top.cost > d[top.node].value
    ensures Between(g, s, d, p, heap - multiset{top}, done, cost)
  {
  }

  lemma FinishNode(g: Network, s: nat, d: seq<Option<nat>>, p: seq<Option<nat>>, heap: multiset<State>,
                   done: set<nat>, u: nat, cost: nat)
    requires u < |g.adj| && Searching(g, s, d, p, heap, done, u, cost, |g.adj[u]|)
    ensures Between(g, s, d, p, heap, done, cost)
  {
  }

  /** Labels under the popped cost are final. */
  lemma FinalLabel(g: Network, s: nat, d: seq<Option<nat>>, p: seq<Option<nat>>, heap: multiset<State>,
                   done: set<nat>, cost: nat, bound: nat, w: Walk, t: nat)
    requires g.Valid() && Between(g, s, d, p, heap, done, cost) && Joins(g, s, w, t)
    requires forall x | x in heap :: bound <= x.cost
    ensures Cost(g, w.rows) >= bound || Below(d, t, Cost(g, w.rows))
  {
    forall u | 0 <= u < |d| && d[u].Some? && d[u].value < bound
      ensures Relaxed(g, d, u)
    {
      assert u in done && Settled(g, d, p, u, |g.adj[u]|);
      forall k | 0 <= k < |g.adj[u]|
        ensures Below(d, g.adj[u][k].to, d[u].value + g.W(g.adj[u][k].row))
      {
        assert ArcSettled(g, d, p, u, g.adj[u][k]);
      }
    }
    CutBound(g, s, d, bound, w, t, |w.rows|);
    assert w.rows[..|w.rows|] == w.rows;
  }

  lemma ExactUpTo(g: Network, s: nat, d: seq<Option<nat>>, p: seq<Option<nat>>, heap: multiset<State>,
                  done: set<nat>, cost: nat, bound: nat, v: nat)
    requires g.Valid() && Between(g, s, d, p, heap, done, cost)
    requires forall x | x in heap :: bound <= x.cost
    requires Below(d, v, bound)
    ensures IsDistance(g, s, v, d[v].value)
  {
    forall w | Joins(g, s, w, v)
      ensures d[v].value <= Cost(g, w.rows)
    {
      FinalLabel(g, s, d, p, heap, done, cost, bound, w, v);
    }
  }

  /** What the path read-back relies on: below `bound` the labels are distances, and the nodes holding
      them have been expanded. */
  ghost predicate Final(g: Network, s: nat, d: seq<Option<nat>>, p: seq<Option<nat>>, done: set<nat>, bound: nat) {
    && Tree(g, s, d, p, done) && d[s] == Some(0)
    && (forall v: nat | Below(d, v, bound) :: IsDistance(g, s, v, d[v].value))
    && (forall x: nat, dx: nat | IsDistance(g, s, x, dx) && dx < bound :: x < |d| && d[x] == Some(dx) && x in done)
    && (forall x | x in done :: x < |d| && Settled(g, d, p, x, |g.adj[x]|))
  }

  lemma BetweenIsFinal(g: Network, s: nat, d: seq<Option<nat>>, p: seq<Option<nat>>, heap: multiset<State>,
                       done: set<nat>, cost: nat, bound: nat)
    requires g.Valid() && Between(g, s, d, p, heap, done, cost)
    requires forall x | x in heap :: bound <= x.cost
    ensures Final(g, s, d, p, done, bound)
  {
    hide Settled, Parent, IsDistance;
    forall v: nat | Below(d, v, bound)
      ensures IsDistance(g, s, v, d[v].value)
    {
      ExactUpTo(g, s, d, p, heap, done, cost, bound, v);
    }
    forall x: nat, dx: nat | IsDistance(g, s, x, dx) && dx < bound
      ensures x < |d| && d[x] == Some(dx) && x in done
    {
      FoundAndDone(g, s, d, p, heap, done, cost, bound, x, dx);
    }
  }

  lemma FoundAndDone(g: Network, s: nat, d: seq<Option<nat>>, p: seq<Option<nat>>, heap: multiset<State>,
                     done: set<nat>, cost: nat, bound: nat, x: nat, dx: nat)
    requires g.Valid() && Between(g, s, d, p, heap, done, cost)
    requires forall y | y in heap :: bound <= y.cost
    requires IsDistance(g, s, x, dx) && dx < bound
    ensures x < |d| && d[x] == Some(dx) && x in done
  {
    hide Settled, Tree, IsWalk, Cost, Relaxed;
    var w :| Joins(g, s, w, x) && Cost(g, w.rows) == dx;
    FinalLabel(g, s, d, p, heap, done, cost, bound, w, x);
    assert Reach(g, s, x, d[x].value);
  }

  /** The recorded predecessor of a final node is its lowest-index tight predecessor. */
  lemma ParentIsLowest(g: Network, s: nat, d: seq<Option<nat>>, p: seq<Option<nat>>, done: set<nat>, bound: nat, v: nat)
    requires g.Positive() && Final(g, s, d, p, done, bound) && Below(d, v, bound) && v != s
    ensures p[v].Some? && LowestTight(g, s, p[v].value, v)
    ensures Below(d, p[v].value, bound) && d[p[v].value].value < d[v].value
  {
    hide IsDistance;
    assert Parent(g, d, p, done, v);
    var q := p[v].value;
    var e: nat :| g.HasArc(q, v, e) && Tight(g, d, q, v, e);
    assert g.W(e) > 0;
    assert TightStep(g, s, q, v, d[q].value, e);
    forall x: nat | TightTo(g, s, x, v)
      ensures q <= x
    {
      var dx: nat, f: nat :| TightStep(g, s, x, v, dx, f);
      TightIsSettled(g, s, d, p, done, bound, x, v, dx, f);
    }
  }

  lemma DistanceUnique(g: Network, s: nat, v: nat, a: nat, b: nat)
    requires IsDistance(g, s, v, a) && IsDistance(g, s, v, b)
    ensures a == b
  {
  }

  lemma TightIsSettled(g: Network, s: nat, d: seq<Option<nat>>, p: seq<Option<nat>>, done: set<nat>, bound: nat,
                       x: nat, v: nat, dx: nat, f: nat)
    requires g.Positive() && Final(g, s, d, p, done, bound) && Below(d, v, bound) && p[v].Some?
    requires TightStep(g, s, x, v, dx, f)
    ensures p[v].value <= x
  {
    hide IsDistance;
    DistanceUnique(g, s, v, d[v].value, dx + g.W(f));
    assert g.W(f) > 0;
    assert Settled(g, d, p, x, |g.adj[x]|);
    var k :| 0 <= k < |g.adj[x]| && g.adj[x][k] == Arc(v, f);
    assert ArcSettled(g, d, p, x, g.adj[x][k]);
  }

  lemma {:induction false} ChainIsCanonical(g: Network, s: nat, d: seq<Option<nat>>, p: seq<Option<nat>>, done: set<nat>,
                                            bound: nat, t: nat, ns: seq<nat>)
    requires g.Valid() && g.Positive() && Final(g, s, d, p, done, bound) && Below(d, t, bound) && Chain(p, s, t, ns)
    ensures Canonical(g, s, t, ns)
    ensures Along(g, s, t, ns, d[t].value)
    decreases |ns|
  {
    hide IsDistance, Settled, LowestTight, Along, Tight;
    if t == s {
      assert ns == [s];
      AlongSelf(g, s);
    } else {
      ParentIsLowest(g, s, d, p, done, bound, t);
      var q := ns[|ns| - 2];
      ChainIsCanonical(g, s, d, p, done, bound, q, ns[..|ns| - 1]);
      assert Parent(g, d, p, done, t);
      var e: nat :| g.HasArc(q, t, e) && Tight(g, d, q, t, e);
      TightLabel(g, d, q, t, e);
      AlongStep(g, s, q, t, ns, d[q].value, e);
    }
  }

  lemma TightLabel(g: Network, d: seq<Option<nat>>, u: nat, v: nat, e: nat)
    requires Tight(g, d, u, v, e)
    ensures u < |d| && v < |d| && d[u].Some? && d[v] == Some(d[u].value + g.W(e))
  {
  }

  // ---- the search ----

  /** The inner loop: relaxes every arc leaving `u`, recording predecessors and breaking ties. */
  method ExpandNode(g: Network, ghost s: nat, dist: array<Option<nat>>, prev: array<Option<nat>>,
                    heap: multiset<State>, ghost done: set<nat>, u: nat, cost: nat)
    returns (pushed: multiset<State>)
    requires g.Valid() && g.Positive() && dist != prev
    requires Searching(g, s, dist[..], prev[..], heap, done, u, cost, 0)
    modifies dist, prev
    ensures Between(g, s, dist[..], prev[..], pushed, done, cost)
    ensures Progress(old(dist[..]), dist[..]) || (dist[..] == old(dist[..]) && pushed == heap)
  {
    hide Searching, Between, Unreached, Total;
    pushed := heap;
    ghost var d, p := dist[..], prev[..];
    SearchingBounds(g, s, d, p, heap, done, u, cost, 0);
    var k := 0;
    while k < |g.adj[u]|
      invariant 0 <= k <= |g.adj[u]| && dist[..] == d && prev[..] == p && |d| == |p| == |g.adj|
      invariant Searching(g, s, d, p, pushed, done, u, cost, k)
      invariant Progress(old(dist[..]), d) || (d == old(dist[..]) && pushed == heap)
    {
      var arc := g.adj[u][k];
      var nc := cost + g.W(arc.row);
      if Improves(dist[arc.to], nc) {
        LowerLabel(g, s, d, p, pushed, done, u, cost, k);
        LabelDrops(d, arc.to, nc);
        dist[arc.to] := Some(nc);
        prev[arc.to] := Some(u);
        d, p := d[arc.to := Some(nc)], p[arc.to := Some(u)];
        pushed := pushed + multiset{State(nc, arc.to)};
      } else {
        KeepLabel(g, s, d, p, pushed, done, u, cost, k);
        if nc == dist[arc.to].value && prev[arc.to].Some? && u < prev[arc.to].value {
          prev[arc.to] := Some(u);
          p := p[arc.to := Some(u)];
        }
      }
      k := k + 1;
    }
    FinishNode(g, s, d, p, pushed, done, u, cost);
  }

  lemma SearchingBounds(g: Network, s: nat, d: seq<Option<nat>>, p: seq<Option<nat>>, heap: multiset<State>,
                        done: set<nat>, u: nat, cost: nat, k: nat)
    requires Searching(g, s, d, p, heap, done, u, cost, k)
    ensures |d| == |p| == |g.adj| && u < |d| && k <= |g.adj[u]|
  {
  }

  lemma BetweenBounds(g: Network, s: nat, d: seq<Option<nat>>, p: seq<Option<nat>>, heap: multiset<State>,
                      done: set<nat>, cost: nat)
    requires Between(g, s, d, p, heap, done, cost)
    ensures |d| == |p| == |g.adj| && d[s] == Some(0)
    ensures forall x | x in heap :: Below(d, x.node, x.cost)
    ensures forall x | 0 <= x < |d| && d[x].Some? && x !in done :: State(d[x].value, x) in heap
  {
  }

  lemma Begin(g: Network, s: nat, d: seq<Option<nat>>, p: seq<Option<nat>>)
    requires s < |g.adj| && d == seq(|g.adj|, _ => None)[s := Some(0)] && p == seq(|g.adj|, _ => None)
    ensures Between(g, s, d, p, multiset{State(0, s)}, {}, 0)
  {
    Start(g, s, d);
  }

  lemma ExhaustedUnreachable(g: Network, s: nat, d: seq<Option<nat>>, p: seq<Option<nat>>, done: set<nat>, cost: nat, t: nat)
    requires g.Valid() && Between(g, s, d, p, multiset{}, done, cost) && t !in done
    ensures !Reachable(g, s, t)
  {
    forall w | Joins(g, s, w, t)
      ensures false
    {
      FinalLabel(g, s, d, p, multiset{}, done, cost, Cost(g, w.rows) + 1, w, t);
    }
  }

  lemma FinalFalls(g: Network, s: nat, d: seq<Option<nat>>, p: seq<Option<nat>>, heap: multiset<State>,
                   done: set<nat>, cost: nat)
    requires g.Positive() && Between(g, s, d, p, heap, done, cost)
    ensures Falls(p, d)
    ensures forall v | 0 <= v < |p| && v != s && d[v].Some? :: p[v].Some?
  {
    forall v | 0 <= v < |p| && v != s && d[v].Some?
      ensures p[v].Some? && Below(d, p[v].value, d[v].value) && d[p[v].value].value < d[v].value
    {
      assert Parent(g, d, p, done, v);
      var e: nat :| g.HasArc(p[v].value, v, e) && Tight(g, d, p[v].value, v, e);
      assert g.W(e) > 0;
    }
  }

  /** Early-exit Dijkstra. `None` exactly when `dst` cannot be reached; otherwise a cheapest path in
      which every node is preceded by its lowest-index tight predecessor. */
  method DijkstraSingle(g: Network, src: nat, dst: nat) returns (path: Option<seq<nat>>)
    requires g.Valid() && g.Positive() && src < |g.adj| && dst < |g.adj|
    ensures path.None? <==> !Reachable(g, src, dst)
    ensures path.Some? ==> Canonical(g, src, dst, path.value)
    ensures path.Some? ==> exists c :: IsDistance(g, src, dst, c) && Along(g, src, dst, path.value, c)
  {
    hide Between, Searching, Unreached, Total, IsDistance, Reachable, Along, Canonical, Heaps.TotalOrder;
    var dist := new Option<nat>[|g.adj|](_ => None);
    var prev := new Option<nat>[|g.adj|](_ => None);
    dist[src] := Some(0);
    var heap := multiset{State(0, src)};
    ghost var done: set<nat>, cost: nat := {}, 0;
    assert dist[..] == seq(|g.adj|, _ => None)[src := Some(0)];
    assert prev[..] == seq(|g.adj|, _ => None);
    Begin(g, src, dist[..], prev[..]);

    while |heap| > 0
      invariant Between(g, src, dist[..], prev[..], heap, done, cost) && dst !in done
      decreases Unreached(dist[..]), Total(dist[..]), |heap|
    {
      ghost var d, p := dist[..], prev[..];
      StateOrder();
      var top, rest := Heaps.Pop(heap, StateLeq);
      BetweenBounds(g, src, d, p, heap, done, cost);
      if top.node == dst {
        assert State(d[dst].value, dst) in heap;
        BetweenIsFinal(g, src, d, p, heap, done, cost, top.cost);
        FinalFalls(g, src, d, p, heap, done, cost);
        var ns := ReconstructPath(prev[..], src, dst, d);
        ChainIsCanonical(g, src, d, p, done, top.cost, dst, ns);
        ExactUpTo(g, src, d, p, heap, done, cost, top.cost, dst);
        DistanceReachable(g, src, dst, d[dst].value);
        return Some(ns);
      }
      if top.cost > dist[top.node].value {
        PopStale(g, src, d, p, heap, done, cost, top);
        heap := rest;
      } else {
        PopFresh(g, src, d, p, heap, done, cost, top);
        done, cost := done + {top.node}, top.cost;
        heap := ExpandNode(g, src, dist, prev, rest, done, top.node, top.cost);
      }
    }
    assert heap == multiset{};
    ExhaustedUnreachable(g, src, dist[..], prev[..], done, cost, dst);
    path := None;
  }
}
