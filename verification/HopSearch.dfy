/** The hop-layered Dijkstra behind k-shortest-paths: one label per (node, hop count), with banned
    nodes and edge rows. */
module HopSearch {
  import opened Basics
  import opened Networks
  import Heaps

  datatype HopState = HopState(cost: nat, node: nat, hops: nat)

  /** Pop order: lower cost, then fewer hops, then lower node index. */
  predicate HopLeq(a: HopState, b: HopState) {
    a.cost < b.cost || (a.cost == b.cost && (a.hops < b.hops || (a.hops == b.hops && a.node <= b.node)))
  }

  lemma HopOrder()
    ensures Heaps.TotalOrder(HopLeq)
  {
  }

  /** Predecessor node, its hop count and the edge row used, always recorded together. */
  datatype Link = Link(node: nat, hops: nat, row: nat)

  datatype Query = Query(g: Network, s: nat, t: nat, bannedNodes: set<nat>, bannedRows: set<nat>, limit: nat) {
    predicate Allows(arc: Arc) {
      arc.row !in bannedRows && arc.to !in bannedNodes
    }

    ghost predicate Valid() {
      g.Valid() && s < |g.adj| && t < |g.adj|
    }
  }

  datatype PathCandidate = PathCandidate(nodes: seq<nat>, rows: seq<nat>, cost: nat)

  // ---- what a search promises ----

  ghost predicate AllowedWalk(q: Query, w: Walk) {
    IsWalk(q.g, w) && forall i | 0 <= i < |w.rows| :: q.Allows(Arc(w.nodes[i + 1], w.rows[i]))
  }

  /** An allowed walk from source to target within the hop limit. */
  ghost predicate Solves(q: Query, w: Walk) {
    AllowedWalk(q, w) && w.nodes[0] == q.s && w.nodes[|w.rows|] == q.t && |w.rows| <= q.limit
  }

  /** Node sequences of one length compared at the last place where they differ. */
  predicate BackLe(a: seq<nat>, b: seq<nat>)
    requires |a| == |b|
  {
    if a == [] then true
    else
      var n := |a| - 1;
      a[n] < b[n] || (a[n] == b[n] && BackLe(a[..n], b[..n]))
  }

  /** Cost first, then the number of edges, then the nodes from the target backwards. */
  predicate WalkLe(g: Network, a: Walk, b: Walk) {
    || Cost(g, a.rows) < Cost(g, b.rows)
    || (Cost(g, a.rows) == Cost(g, b.rows)
        && (|a.rows| < |b.rows| || (|a.rows| == |b.rows| && |a.nodes| == |b.nodes| && BackLe(a.nodes, b.nodes))))
  }

  /** The least of all solutions, which is always a simple path. */
  ghost predicate Best(q: Query, pc: PathCandidate) {
    && Solves(q, Walk(pc.nodes, pc.rows)) && Distinct(pc.nodes)
    && Cost(q.g, pc.rows) == pc.cost
    && forall w | Solves(q, w) :: WalkLe(q.g, Walk(pc.nodes, pc.rows), w)
  }

  // ---- slots ----

  function Slot(n: nat, u: nat, h: nat): nat {
    h * n + u
  }

  lemma SlotUnique(n: nat, u: nat, h: nat, u': nat, h': nat)
    requires u < n && u' < n && Slot(n, u, h) == Slot(n, u', h')
    ensures u == u' && h == h'
  {
    if h < h' {
      assert h' * n == h * n + (h' - h) * n;
      assert (h' - h) * n >= n by { MulAtLeast(h' - h, n); }
    } else if h' < h {
      assert h * n == h' * n + (h - h') * n;
      assert (h - h') * n >= n by { MulAtLeast(h - h', n); }
    }
  }

  lemma MulAtLeast(a: nat, n: nat)
    requires a >= 1
    ensures a * n >= n
  {
  }

  lemma SlotBound(n: nat, u: nat, h: nat, limit: nat)
    requires u < n && h <= limit
    ensures Slot(n, u, h) < (limit + 1) * n
  {
    if h < limit {
      MulAtLeast(limit - h, n);
      assert (limit + 1) * n == h * n + (limit - h) * n + n;
    } else {
      assert (limit + 1) * n == h * n + n;
    }
  }

  // ---- labels ----

  ghost predicate Sized(q: Query, d: seq<Option<nat>>) {
    && q.Valid()
    && |d| == (q.limit + 1) * |q.g.adj|
    && forall u, h {:trigger Slot(|q.g.adj|, u, h)} | 0 <= u < |q.g.adj| && 0 <= h <= q.limit :: Slot(|q.g.adj|, u, h) < |d|
  }

  function At(q: Query, d: seq<Option<nat>>, u: nat, h: nat): Option<nat> {
    if Slot(|q.g.adj|, u, h) < |d| then d[Slot(|q.g.adj|, u, h)] else None
  }

  predicate Under(q: Query, d: seq<Option<nat>>, u: nat, h: nat, c: nat) {
    u < |q.g.adj| && h <= q.limit && At(q, d, u, h).Some? && At(q, d, u, h).value <= c
  }

  function LinkAt(q: Query, p: seq<Option<Link>>, u: nat, h: nat): Option<Link> {
    if Slot(|q.g.adj|, u, h) < |p| then p[Slot(|q.g.adj|, u, h)] else None
  }

  ghost predicate Linked(q: Query, d: seq<Option<nat>>, p: seq<Option<Link>>, v: nat, h: nat) {
    if h == 0 then v == q.s else
      match LinkAt(q, p, v, h)
      case None => false
      case Some(l) =>
        && l.hops == h - 1 && q.g.HasArc(l.node, v, l.row) && q.Allows(Arc(v, l.row))
        && l.node < |q.g.adj| && At(q, d, v, h).Some? && Under(q, d, l.node, h - 1, At(q, d, v, h).value)
        && At(q, d, l.node, h - 1).value + q.g.W(l.row) <= At(q, d, v, h).value
  }

  ghost predicate Labels(q: Query, d: seq<Option<nat>>, p: seq<Option<Link>>, heap: multiset<HopState>) {
    && Sized(q, d) && |p| == |d|
    && (forall v, h {:trigger At(q, d, v, h)} | 0 <= v < |q.g.adj| && 0 <= h <= q.limit && At(q, d, v, h).Some? :: Linked(q, d, p, v, h))
    && (forall x | x in heap :: Under(q, d, x.node, x.hops, x.cost))
  }

  /** The arc out of slot (`u`, `h`) improves nothing: not the label of its end, and on a tie not the link. */
  ghost predicate Served(q: Query, d: seq<Option<nat>>, p: seq<Option<Link>>, u: nat, h: nat, arc: Arc) {
    && At(q, d, u, h).Some?
    && var c := At(q, d, u, h).value + q.g.W(arc.row);
    && Under(q, d, arc.to, h + 1, c)
    && (At(q, d, arc.to, h + 1) == Some(c) ==> LinkAt(q, p, arc.to, h + 1).Some? && LinkAt(q, p, arc.to, h + 1).value.node <= u)
  }

  ghost predicate RelaxedArcs(q: Query, d: seq<Option<nat>>, p: seq<Option<Link>>, u: nat, h: nat, k: nat)
    requires u < |q.g.adj| && k <= |q.g.adj[u]|
  {
    forall j | 0 <= j < k && q.Allows(q.g.adj[u][j]) :: Served(q, d, p, u, h, q.g.adj[u][j])
  }

  ghost predicate Open(q: Query, d: seq<Option<nat>>, p: seq<Option<Link>>, heap: multiset<HopState>, u: nat, h: nat) {
    At(q, d, u, h).Some? && u < |q.g.adj| ==>
      || HopState(At(q, d, u, h).value, u, h) in heap
      || (u != q.t && (h == q.limit || RelaxedArcs(q, d, p, u, h, |q.g.adj[u]|)))
  }

  /** Every labelled slot, except perhaps (`eu`, `eh`), is in the heap or needs no more work. */
  ghost predicate AllOpen(q: Query, d: seq<Option<nat>>, p: seq<Option<Link>>, heap: multiset<HopState>, except: Option<(nat, nat)>) {
    forall u, h {:trigger Open(q, d, p, heap, u, h)} | 0 <= u < |q.g.adj| && 0 <= h <= q.limit && except != Some((u, h)) :: Open(q, d, p, heap, u, h)
  }

  // ---- updating one slot ----

  lemma UpdateAt(q: Query, d: seq<Option<nat>>, v: nat, h: nat, c: nat, u: nat, k: nat)
    requires Sized(q, d) && v < |q.g.adj| && h <= q.limit && u < |q.g.adj| && k <= q.limit
    ensures Slot(|q.g.adj|, v, h) < |d|
    ensures At(q, d[Slot(|q.g.adj|, v, h) := Some(c)], u, k) == if (u, k) == (v, h) then Some(c) else At(q, d, u, k)
  {
    if Slot(|q.g.adj|, u, k) == Slot(|q.g.adj|, v, h) {
      SlotUnique(|q.g.adj|, u, k, v, h);
    }
  }

  lemma UpdateLink(q: Query, d: seq<Option<nat>>, p: seq<Option<Link>>, v: nat, h: nat, l: Link, u: nat, k: nat)
    requires Sized(q, d) && |p| == |d| && v < |q.g.adj| && h <= q.limit && u < |q.g.adj| && k <= q.limit
    ensures LinkAt(q, p[Slot(|q.g.adj|, v, h) := Some(l)], u, k) == if (u, k) == (v, h) then Some(l) else LinkAt(q, p, u, k)
  {
    if Slot(|q.g.adj|, u, k) == Slot(|q.g.adj|, v, h) {
      SlotUnique(|q.g.adj|, u, k, v, h);
    }
  }

  /** The label of (`v`, `h`) drops to `c`; every other label stays. */
  ghost predicate Dropped(q: Query, d: seq<Option<nat>>, d': seq<Option<nat>>, v: nat, h: nat, c: nat) {
    && Sized(q, d) && Sized(q, d') && v < |q.g.adj| && h <= q.limit
    && Improves(At(q, d, v, h), c) && At(q, d', v, h) == Some(c)
    && forall u, k {:trigger At(q, d', u, k)} | 0 <= u < |q.g.adj| && 0 <= k <= q.limit && (u, k) != (v, h) :: At(q, d', u, k) == At(q, d, u, k)
  }

  ghost predicate Relinked(q: Query, p: seq<Option<Link>>, p': seq<Option<Link>>, v: nat, h: nat, l: Link) {
    && LinkAt(q, p', v, h) == Some(l)
    && forall u, k {:trigger LinkAt(q, p', u, k)} | 0 <= u < |q.g.adj| && 0 <= k <= q.limit && (u, k) != (v, h) :: LinkAt(q, p', u, k) == LinkAt(q, p, u, k)
  }

  lemma WriteSlot(q: Query, d: seq<Option<nat>>, p: seq<Option<Link>>, v: nat, h: nat, c: nat, l: Link)
    requires Sized(q, d) && |p| == |d| && v < |q.g.adj| && h <= q.limit
    ensures Slot(|q.g.adj|, v, h) < |d|
    ensures Improves(At(q, d, v, h), c) ==> Dropped(q, d, d[Slot(|q.g.adj|, v, h) := Some(c)], v, h, c)
    ensures Relinked(q, p, p[Slot(|q.g.adj|, v, h) := Some(l)], v, h, l)
  {
    UpdateAt(q, d, v, h, c, v, h);
    UpdateLink(q, d, p, v, h, l, v, h);
    forall u: nat, k: nat | u < |q.g.adj| && k <= q.limit && (u, k) != (v, h)
      ensures At(q, d[Slot(|q.g.adj|, v, h) := Some(c)], u, k) == At(q, d, u, k)
      ensures LinkAt(q, p[Slot(|q.g.adj|, v, h) := Some(l)], u, k) == LinkAt(q, p, u, k)
    {
      UpdateAt(q, d, v, h, c, u, k);
      UpdateLink(q, d, p, v, h, l, u, k);
    }
  }

  lemma DropUnder(q: Query, d: seq<Option<nat>>, d': seq<Option<nat>>, v: nat, h: nat, c: nat, u: nat, k: nat, b: nat)
    requires Dropped(q, d, d', v, h, c) && Under(q, d, u, k, b)
    ensures Under(q, d', u, k, b) && At(q, d', u, k).value <= At(q, d, u, k).value
  {
  }

  lemma DropKeepsLinks(q: Query, d: seq<Option<nat>>, d': seq<Option<nat>>, p: seq<Option<Link>>, p': seq<Option<Link>>,
                       u: nat, v: nat, h: nat, e: nat, c: nat, x: nat, k: nat)
    requires Dropped(q, d, d', v, h + 1, c) && Relinked(q, p, p', v, h + 1, Link(u, h, e))
    requires q.g.HasArc(u, v, e) && q.Allows(Arc(v, e)) && u < |q.g.adj| && At(q, d, u, h).Some? && c == At(q, d, u, h).value + q.g.W(e)
    requires x < |q.g.adj| && k <= q.limit && At(q, d', x, k).Some?
    requires At(q, d, x, k).Some? ==> Linked(q, d, p, x, k)
    ensures Linked(q, d', p', x, k)
  {
    if (x, k) == (v, h + 1) {
      assert At(q, d', u, h) == At(q, d, u, h);
    } else if k > 0 {
      var l := LinkAt(q, p, x, k).value;
      assert LinkAt(q, p', x, k) == Some(l);
      DropUnder(q, d, d', v, h + 1, c, l.node, k - 1, At(q, d, x, k).value);
    }
  }

  lemma DropKeepsServed(q: Query, d: seq<Option<nat>>, d': seq<Option<nat>>, p: seq<Option<Link>>, p': seq<Option<Link>>,
                        v: nat, h: nat, c: nat, l: Link, u: nat, k: nat, arc: Arc)
    requires Dropped(q, d, d', v, h, c) && Relinked(q, p, p', v, h, l) && u < |q.g.adj| && k <= q.limit && (u, k) != (v, h)
    requires Served(q, d, p, u, k, arc)
    ensures Served(q, d', p', u, k, arc)
  {
    assert At(q, d', u, k) == At(q, d, u, k);
    if (arc.to, k + 1) != (v, h) {
      assert At(q, d', arc.to, k + 1) == At(q, d, arc.to, k + 1);
      assert LinkAt(q, p', arc.to, k + 1) == LinkAt(q, p, arc.to, k + 1);
    }
  }

  lemma DropKeepsRelaxed(q: Query, d: seq<Option<nat>>, d': seq<Option<nat>>, p: seq<Option<Link>>, p': seq<Option<Link>>,
                         v: nat, h: nat, c: nat, l: Link, u: nat, k: nat, m: nat)
    requires Dropped(q, d, d', v, h, c) && Relinked(q, p, p', v, h, l)
    requires u < |q.g.adj| && m <= |q.g.adj[u]| && k <= q.limit && (u, k) != (v, h)
    requires RelaxedArcs(q, d, p, u, k, m)
    ensures RelaxedArcs(q, d', p', u, k, m)
  {
    hide Served, Dropped, Relinked;
    forall j | 0 <= j < m && q.Allows(q.g.adj[u][j])
      ensures Served(q, d', p', u, k, q.g.adj[u][j])
    {
      DropKeepsServed(q, d, d', p, p', v, h, c, l, u, k, q.g.adj[u][j]);
    }
  }

  lemma DropKeepsOpen(q: Query, d: seq<Option<nat>>, d': seq<Option<nat>>, p: seq<Option<Link>>, p': seq<Option<Link>>,
                      heap: multiset<HopState>, v: nat, h: nat, c: nat, l: Link, u: nat, k: nat)
    requires Dropped(q, d, d', v, h, c) && Relinked(q, p, p', v, h, l) && u < |q.g.adj| && k <= q.limit
    requires (u, k) == (v, h) || Open(q, d, p, heap, u, k)
    ensures Open(q, d', p', heap + multiset{HopState(c, v, h)}, u, k)
  {
    var heap' := heap + multiset{HopState(c, v, h)};
    if (u, k) == (v, h) {
      assert HopState(c, v, h) in heap';
    } else {
      assert At(q, d', u, k) == At(q, d, u, k);
      if At(q, d, u, k).Some? && HopState(At(q, d, u, k).value, u, k) in heap {
        assert HopState(At(q, d, u, k).value, u, k) in heap';
      } else if At(q, d, u, k).Some? && k < q.limit {
        DropKeepsRelaxed(q, d, d', p, p', v, h, c, l, u, k, |q.g.adj[u]|);
      }
    }
  }

  /** Between two arcs of `u` at hop `h`, popped at cost `cost`. */
  ghost predicate Expanding(q: Query, d: seq<Option<nat>>, p: seq<Option<Link>>, heap: multiset<HopState>,
                            u: nat, h: nat, cost: nat, k: nat)
  {
    && Labels(q, d, p, heap) && AllOpen(q, d, p, heap, Some((u, h)))
    && u < |q.g.adj| && h < q.limit && u != q.t && At(q, d, u, h) == Some(cost)
    && k <= |q.g.adj[u]| && RelaxedArcs(q, d, p, u, h, k)
  }

  lemma LowerArc(q: Query, d: seq<Option<nat>>, p: seq<Option<Link>>, heap: multiset<HopState>,
                 u: nat, h: nat, cost: nat, k: nat, v: nat, e: nat)
    requires Expanding(q, d, p, heap, u, h, cost, k) && k < |q.g.adj[u]| && q.g.adj[u][k] == Arc(v, e) && v < |q.g.adj|
    requires q.Allows(Arc(v, e)) && Improves(At(q, d, v, h + 1), cost + q.g.W(e))
    ensures Slot(|q.g.adj|, v, h + 1) < |d|
    ensures var slot, c := Slot(|q.g.adj|, v, h + 1), cost + q.g.W(e);
            Expanding(q, d[slot := Some(c)], p[slot := Some(Link(u, h, e))], heap + multiset{HopState(c, v, h + 1)}, u, h, cost, k + 1)
  {
    hide Slot, At, LinkAt, Linked, RelaxedArcs, Open, Sized;
    var slot, c := Slot(|q.g.adj|, v, h + 1), cost + q.g.W(e);
    WriteSlot(q, d, p, v, h + 1, c, Link(u, h, e));
    var d', p', heap' := d[slot := Some(c)], p[slot := Some(Link(u, h, e))], heap + multiset{HopState(c, v, h + 1)};
    assert q.g.HasArc(u, v, e);
    forall x: nat, m: nat | x < |q.g.adj| && m <= q.limit && At(q, d', x, m).Some?
      ensures Linked(q, d', p', x, m)
    {
      DropKeepsLinks(q, d, d', p, p', u, v, h, e, c, x, m);
    }
    forall x | x in heap'
      ensures Under(q, d', x.node, x.hops, x.cost)
    {
      if x != HopState(c, v, h + 1) {
        DropUnder(q, d, d', v, h + 1, c, x.node, x.hops, x.cost);
      }
    }
    forall x: nat, m: nat | x < |q.g.adj| && m <= q.limit && (x, m) != (u, h)
      ensures Open(q, d', p', heap', x, m)
    {
      DropKeepsOpen(q, d, d', p, p', heap, v, h + 1, c, Link(u, h, e), x, m);
    }
    DropKeepsRelaxed(q, d, d', p, p', v, h + 1, c, Link(u, h, e), u, h, k);
    OneMoreArc(q, d', p', u, h, k);
  }

  lemma OneMoreArc(q: Query, d: seq<Option<nat>>, p: seq<Option<Link>>, u: nat, h: nat, k: nat)
    requires u < |q.g.adj| && k < |q.g.adj[u]| && RelaxedArcs(q, d, p, u, h, k) && At(q, d, u, h).Some?
    requires q.Allows(q.g.adj[u][k]) ==> Served(q, d, p, u, h, q.g.adj[u][k])
    ensures RelaxedArcs(q, d, p, u, h, k + 1)
  {
  }

  lemma KeepArc(q: Query, d: seq<Option<nat>>, p: seq<Option<Link>>, heap: multiset<HopState>,
                u: nat, h: nat, cost: nat, k: nat)
    requires Expanding(q, d, p, heap, u, h, cost, k) && k < |q.g.adj[u]|
    requires q.Allows(q.g.adj[u][k]) ==> Held(q, d, p, u, h, cost, q.g.adj[u][k])
    ensures Expanding(q, d, p, heap, u, h, cost, k + 1)
  {
    hide Slot, At, Linked, RelaxedArcs, Open, Labels, AllOpen;
    ArcInRange(q, d, p, heap, u, k);
    if q.Allows(q.g.adj[u][k]) {
      HeldServed(q, d, p, heap, u, h, cost, k);
    }
    OneMoreArc(q, d, p, u, h, k);
  }

  /** What the two branch conditions of a relaxation leave behind when neither fires. */
  predicate Held(q: Query, d: seq<Option<nat>>, p: seq<Option<Link>>, u: nat, h: nat, cost: nat, arc: Arc) {
    var held, link := At(q, d, arc.to, h + 1), LinkAt(q, p, arc.to, h + 1);
    && !Improves(held, cost + q.g.W(arc.row))
    && !(held == Some(cost + q.g.W(arc.row)) && link.Some? && u < link.value.node)
  }

  lemma HeldServed(q: Query, d: seq<Option<nat>>, p: seq<Option<Link>>, heap: multiset<HopState>, u: nat, h: nat, cost: nat, k: nat)
    requires Expanding(q, d, p, heap, u, h, cost, k) && k < |q.g.adj[u]| && q.g.adj[u][k].to < |q.g.adj|
    requires Held(q, d, p, u, h, cost, q.g.adj[u][k])
    ensures Served(q, d, p, u, h, q.g.adj[u][k])
  {
    hide Slot, At, LinkAt, AllOpen, RelaxedArcs;
    assert Linked(q, d, p, q.g.adj[u][k].to, h + 1);
  }

  lemma ArcInRange(q: Query, d: seq<Option<nat>>, p: seq<Option<Link>>, heap: multiset<HopState>, u: nat, k: nat)
    requires Labels(q, d, p, heap) && u < |q.g.adj| && k < |q.g.adj[u]|
    ensures q.g.adj[u][k].to < |q.g.adj| && q.g.HasArc(u, q.g.adj[u][k].to, q.g.adj[u][k].row)
    ensures |p| == |d| == (q.limit + 1) * |q.g.adj| && Sized(q, d)
  {
  }

  /** Two predecessors of equal cost: recording the lower one keeps the links sound. */
  lemma TieArc(q: Query, d: seq<Option<nat>>, p: seq<Option<Link>>, heap: multiset<HopState>,
               u: nat, h: nat, cost: nat, k: nat, v: nat, e: nat)
    requires Expanding(q, d, p, heap, u, h, cost, k) && k < |q.g.adj[u]| && q.g.adj[u][k] == Arc(v, e) && v < |q.g.adj|
    requires q.Allows(Arc(v, e)) && At(q, d, v, h + 1) == Some(cost + q.g.W(e))
    requires LinkAt(q, p, v, h + 1).Some? && u < LinkAt(q, p, v, h + 1).value.node
    ensures Slot(|q.g.adj|, v, h + 1) < |p|
    ensures LinkAt(q, p[Slot(|q.g.adj|, v, h + 1) := Some(Link(u, h, e))], v, h + 1) == Some(Link(u, h, e))
    ensures Expanding(q, d, p[Slot(|q.g.adj|, v, h + 1) := Some(Link(u, h, e))], heap, u, h, cost, k)
  {
    hide Slot, At, LinkAt, Linked, RelaxedArcs, Open, Sized;
    var l := Link(u, h, e);
    WriteSlot(q, d, p, v, h + 1, 0, l);
    var p' := p[Slot(|q.g.adj|, v, h + 1) := Some(l)];
    assert q.g.HasArc(u, v, e);
    forall x: nat, m: nat | x < |q.g.adj| && m <= q.limit && At(q, d, x, m).Some?
      ensures Linked(q, d, p', x, m)
    {
      TieKeepsLink(q, d, p, p', u, v, h, e, x, m);
    }
    forall x: nat, m: nat | x < |q.g.adj| && m <= q.limit && (x, m) != (u, h)
      ensures Open(q, d, p', heap, x, m)
    {
      assert Open(q, d, p, heap, x, m);
      TieKeepsOpen(q, d, p, p', heap, v, h + 1, l, x, m);
    }
    TieKeepsRelaxed(q, d, p, p', v, h + 1, l, u, h, k);
  }

  lemma TieKeepsRelaxed(q: Query, d: seq<Option<nat>>, p: seq<Option<Link>>, p': seq<Option<Link>>, v: nat, h: nat, l: Link, x: nat, m: nat, k: nat)
    requires Relinked(q, p, p', v, h, l) && LinkAt(q, p, v, h).Some? && l.node < LinkAt(q, p, v, h).value.node
    requires x < |q.g.adj| && m <= q.limit && k <= |q.g.adj[x]| && RelaxedArcs(q, d, p, x, m, k)
    ensures RelaxedArcs(q, d, p', x, m, k)
  {
    hide Slot, At;
    forall j | 0 <= j < k && q.Allows(q.g.adj[x][j])
      ensures Served(q, d, p', x, m, q.g.adj[x][j])
    {
      assert Served(q, d, p, x, m, q.g.adj[x][j]);
      assert (q.g.adj[x][j].to, m + 1) != (v, h) ==> LinkAt(q, p', q.g.adj[x][j].to, m + 1) == LinkAt(q, p, q.g.adj[x][j].to, m + 1);
    }
  }

  lemma TieKeepsOpen(q: Query, d: seq<Option<nat>>, p: seq<Option<Link>>, p': seq<Option<Link>>, heap: multiset<HopState>,
                     v: nat, h: nat, l: Link, x: nat, m: nat)
    requires Relinked(q, p, p', v, h, l) && LinkAt(q, p, v, h).Some? && l.node < LinkAt(q, p, v, h).value.node
    requires x < |q.g.adj| && m <= q.limit && Open(q, d, p, heap, x, m)
    ensures Open(q, d, p', heap, x, m)
  {
    hide RelaxedArcs, Relinked;
    if RelaxedArcs(q, d, p, x, m, |q.g.adj[x]|) {
      TieKeepsRelaxed(q, d, p, p', v, h, l, x, m, |q.g.adj[x]|);
    }
  }

  lemma TieKeepsLink(q: Query, d: seq<Option<nat>>, p: seq<Option<Link>>, p': seq<Option<Link>>,
                     u: nat, v: nat, h: nat, e: nat, x: nat, m: nat)
    requires Relinked(q, p, p', v, h + 1, Link(u, h, e)) && h < q.limit && u < |q.g.adj| && At(q, d, u, h).Some?
    requires q.g.HasArc(u, v, e) && q.Allows(Arc(v, e)) && At(q, d, v, h + 1) == Some(At(q, d, u, h).value + q.g.W(e))
    requires x < |q.g.adj| && m <= q.limit && Linked(q, d, p, x, m)
    ensures Linked(q, d, p', x, m)
  {
    if (x, m) != (v, h + 1) {
      assert LinkAt(q, p', x, m) == LinkAt(q, p, x, m);
    }
  }

  // ---- popping ----

  lemma PopStale(q: Query, d: seq<Option<nat>>, p: seq<Option<Link>>, heap: multiset<HopState>, top: HopState)
    requires Labels(q, d, p, heap) && AllOpen(q, d, p, heap, None) && top in heap
    requires At(q, d, top.node, top.hops).Some? && top.cost > At(q, d, top.node, top.hops).value
    ensures Labels(q, d, p, heap - multiset{top}) && AllOpen(q, d, p, heap - multiset{top}, None)
  {
    hide Linked, Sized;
    forall u: nat, h: nat | u < |q.g.adj| && h <= q.limit
      ensures Open(q, d, p, heap - multiset{top}, u, h)
    {
      assert Open(q, d, p, heap, u, h);
    }
  }

  lemma PopFresh(q: Query, d: seq<Option<nat>>, p: seq<Option<Link>>, heap: multiset<HopState>, top: HopState)
    requires Labels(q, d, p, heap) && AllOpen(q, d, p, heap, None) && top in heap
    ensures Labels(q, d, p, heap - multiset{top}) && AllOpen(q, d, p, heap - multiset{top}, Some((top.node, top.hops)))
  {
    hide Linked, Sized;
    forall u: nat, h: nat | u < |q.g.adj| && h <= q.limit && (u, h) != (top.node, top.hops)
      ensures Open(q, d, p, heap - multiset{top}, u, h)
    {
      assert Open(q, d, p, heap, u, h);
    }
  }

  /** A node popped at the hop limit, and not the target, is finished. */
  lemma PopAtLimit(q: Query, d: seq<Option<nat>>, p: seq<Option<Link>>, heap: multiset<HopState>, u: nat, h: nat)
    requires AllOpen(q, d, p, heap, Some((u, h))) && u != q.t && h == q.limit
    ensures AllOpen(q, d, p, heap, None)
  {
    forall x: nat, k: nat | x < |q.g.adj| && k <= q.limit
      ensures Open(q, d, p, heap, x, k)
    {
      assert (x, k) != (u, h) ==> Open(q, d, p, heap, x, k);
    }
  }

  lemma DoneExpanding(q: Query, d: seq<Option<nat>>, p: seq<Option<Link>>, heap: multiset<HopState>, u: nat, h: nat, cost: nat)
    requires u < |q.g.adj| && Expanding(q, d, p, heap, u, h, cost, |q.g.adj[u]|)
    ensures Labels(q, d, p, heap) && AllOpen(q, d, p, heap, None)
  {
    hide Linked, Sized;
    forall x: nat, k: nat | x < |q.g.adj| && k <= q.limit
      ensures Open(q, d, p, heap, x, k)
    {
      assert (x, k) != (u, h) ==> Open(q, d, p, heap, x, k);
    }
  }

  // ---- optimality ----

  predicate LexLess(c: nat, h: nat, c': nat, h': nat) {
    c < c' || (c == c' && h < h')
  }

  /** Along a solution that no heap entry beats, the labels never exceed the cost so far. */
  lemma {:induction false} LabelsFollow(q: Query, d: seq<Option<nat>>, p: seq<Option<Link>>, heap: multiset<HopState>, w: Walk, k: nat)
    requires Labels(q, d, p, heap) && AllOpen(q, d, p, heap, None) && At(q, d, q.s, 0) == Some(0)
    requires Solves(q, w) && k <= |w.rows|
    requires forall x | x in heap :: !LexLess(x.cost, x.hops, Cost(q.g, w.rows), |w.rows|)
    ensures Under(q, d, w.nodes[k], k, Cost(q.g, w.rows[..k]))
  {
    hide Slot, At, Linked, Sized;
    if k > 0 {
      LabelsFollow(q, d, p, heap, w, k - 1);
      CostPrefix(q.g, w.rows, k - 1);
      CostSplit(q.g, w.rows, k - 1);
      var u := w.nodes[k - 1];
      assert Open(q, d, p, heap, u, k - 1);
      assert HopState(At(q, d, u, k - 1).value, u, k - 1) !in heap;
      assert q.g.HasArc(u, w.nodes[k], w.rows[k - 1]) && q.Allows(Arc(w.nodes[k], w.rows[k - 1]));
      var j :| 0 <= j < |q.g.adj[u]| && q.g.adj[u][j] == Arc(w.nodes[k], w.rows[k - 1]);
      assert Served(q, d, p, u, k - 1, q.g.adj[u][j]);
    } else {
      assert w.rows[..0] == [];
    }
  }

  /** Some heap entry is lexicographically at most every solution, as long as a solution exists. */
  lemma HeapCovers(q: Query, d: seq<Option<nat>>, p: seq<Option<Link>>, heap: multiset<HopState>, w: Walk)
    requires Labels(q, d, p, heap) && AllOpen(q, d, p, heap, None) && At(q, d, q.s, 0) == Some(0)
    requires Solves(q, w)
    ensures exists x | x in heap :: !LexLess(Cost(q.g, w.rows), |w.rows|, x.cost, x.hops)
  {
    hide Slot, At, Linked, Sized, RelaxedArcs;
    assert w.rows[..|w.rows|] == w.rows;
    assert Open(q, d, p, heap, q.t, |w.rows|);
    if forall x | x in heap :: LexLess(Cost(q.g, w.rows), |w.rows|, x.cost, x.hops) {
      LabelsFollow(q, d, p, heap, w, |w.rows|);
    }
  }

  /** Dropping the loop between two visits of one node leaves a shorter solution that costs no more. */
  lemma CutLoop(q: Query, w: Walk, i: nat, j: nat) returns (w': Walk)
    requires Solves(q, w) && i < j < |w.nodes| && w.nodes[i] == w.nodes[j]
    ensures Solves(q, w') && |w'.rows| < |w.rows| && Cost(q.g, w'.rows) <= Cost(q.g, w.rows)
  {
    w' := Walk(w.nodes[..i] + w.nodes[j..], w.rows[..i] + w.rows[j..]);
    CutCost(q.g, w.rows, i, j);
    CutAllowed(q, w, i, j, w');
  }

  lemma CutCost(g: Network, rows: seq<nat>, i: nat, j: nat)
    requires i <= j <= |rows|
    ensures Cost(g, rows[..i] + rows[j..]) <= Cost(g, rows)
  {
    CostConcat(g, rows[..i], rows[j..]);
    CostSplit(g, rows, i);
    CostSplit(g, rows[i..], j - i);
    assert rows[i..][j - i..] == rows[j..];
  }

  lemma CutAllowed(q: Query, w: Walk, i: nat, j: nat, w': Walk)
    requires AllowedWalk(q, w) && i < j < |w.nodes| && w.nodes[i] == w.nodes[j]
    requires w' == Walk(w.nodes[..i] + w.nodes[j..], w.rows[..i] + w.rows[j..])
    ensures AllowedWalk(q, w') && w'.nodes[0] == w.nodes[0] && w'.nodes[|w'.rows|] == w.nodes[|w.rows|]
  {
    hide Network.HasArc, Query.Allows;
    forall k | 0 <= k < |w'.rows|
      ensures q.g.HasArc(w'.nodes[k], w'.nodes[k + 1], w'.rows[k]) && q.Allows(Arc(w'.nodes[k + 1], w'.rows[k]))
    {
      var m := if k < i then k else k - i + j;
      assert w'.rows[k] == w.rows[m] && w'.nodes[k + 1] == w.nodes[m + 1] && w'.nodes[k] == w.nodes[m];
    }
  }

  // ---- the search ----

  /** The nodes of `w`, which starts at hop count `h`, are each other's recorded predecessors. */
  ghost predicate Chained(q: Query, p: seq<Option<Link>>, w: Walk, h: nat) {
    |w.nodes| == |w.rows| + 1 && forall k {:trigger w.nodes[k]} | 1 <= k < |w.nodes| ::
      LinkAt(q, p, w.nodes[k], h + k).Some? && LinkAt(q, p, w.nodes[k], h + k).value.node == w.nodes[k - 1]
  }

  lemma PrependChained(q: Query, p: seq<Option<Link>>, w: Walk, v: nat, h: nat)
    requires Chained(q, p, w, h) && w.nodes[0] == v && h > 0 && LinkAt(q, p, v, h).Some?
    ensures var l := LinkAt(q, p, v, h).value; Chained(q, p, Walk([l.node] + w.nodes, [l.row] + w.rows), h - 1)
  {
    hide LinkAt;
    var l := LinkAt(q, p, v, h).value;
    var w' := Walk([l.node] + w.nodes, [l.row] + w.rows);
    forall k {:trigger w'.nodes[k]} | 1 <= k < |w'.nodes|
      ensures LinkAt(q, p, w'.nodes[k], h - 1 + k).Some? && LinkAt(q, p, w'.nodes[k], h - 1 + k).value.node == w'.nodes[k - 1]
    {
      assert w'.nodes[k] == w.nodes[k - 1];
    }
  }

  /** Reads the path back through the links; hop counts fall by one at every step. */
  method Reconstruct(q: Query, links: seq<Option<Link>>, hops: nat, cost: nat,
                     ghost d: seq<Option<nat>>, ghost heap: multiset<HopState>) returns (pc: PathCandidate)
    requires Labels(q, d, links, heap) && hops <= q.limit && At(q, d, q.t, hops) == Some(cost)
    ensures Solves(q, Walk(pc.nodes, pc.rows)) && |pc.rows| == hops && pc.cost == cost
    ensures Cost(q.g, pc.rows) <= cost && Chained(q, links, Walk(pc.nodes, pc.rows), 0)
  {
    hide *;
    var nodes: seq<nat>, rows: seq<nat> := [], [];
    var node: nat, h: nat := q.t, hops;
    ghost var w := TrivialWalk(q, d, links, heap);
    while !(node == q.s && h == 0)
      invariant node < |q.g.adj| && h <= hops && At(q, d, node, h).Some?
      invariant AllowedWalk(q, w) && |w.nodes| == |w.rows| + 1 && w.nodes[0] == node && w.nodes[|w.rows|] == q.t
      invariant |w.rows| + h == hops && Chained(q, links, w, h)
      invariant w.nodes == [node] + Reversed(nodes) && w.rows == Reversed(rows)
      invariant At(q, d, node, h).value + Cost(q.g, w.rows) <= cost
      decreases h
    {
      FollowLink(q, d, links, heap, node, h);
      var l := LinkAt(q, links, node, h).value;
      PrependChained(q, links, w, node, h);
      w := Prepend(q, w, l.node, node, l.row);
      ReversedPush(nodes, node);
      ReversedPush(rows, l.row);
      nodes := nodes + [node];
      rows := rows + [l.row];
      node, h := l.node, l.hops;
    }
    ReversedPush(nodes, node);
    nodes := nodes + [node];
    pc := PathCandidate(Reversed(nodes), Reversed(rows), cost);
    WalkSolves(q, w, hops);
    assert w == Walk(pc.nodes, pc.rows);
  }

  lemma TrivialWalk(q: Query, d: seq<Option<nat>>, p: seq<Option<Link>>, heap: multiset<HopState>) returns (w: Walk)
    requires Labels(q, d, p, heap)
    ensures q.t < |q.g.adj| && w == Walk([q.t] + Reversed<nat>([]), Reversed<nat>([])) && AllowedWalk(q, w) && |w.rows| == 0
    ensures Cost(q.g, w.rows) == 0 && forall h :: Chained(q, p, w, h)
  {
    w := Walk([q.t], []);
  }

  lemma FollowLink(q: Query, d: seq<Option<nat>>, p: seq<Option<Link>>, heap: multiset<HopState>, v: nat, h: nat)
    requires Labels(q, d, p, heap) && v < |q.g.adj| && h <= q.limit && At(q, d, v, h).Some? && !(v == q.s && h == 0)
    ensures LinkAt(q, p, v, h).Some?
    ensures var l := LinkAt(q, p, v, h).value;
            && l.node < |q.g.adj| && h == l.hops + 1 && q.g.HasArc(l.node, v, l.row) && q.Allows(Arc(v, l.row))
            && At(q, d, l.node, l.hops).Some?
            && At(q, d, l.node, l.hops).value + q.g.W(l.row) <= At(q, d, v, h).value
  {
    assert Linked(q, d, p, v, h);
  }

  lemma WalkSolves(q: Query, w: Walk, hops: nat)
    requires AllowedWalk(q, w) && |w.nodes| == |w.rows| + 1 && w.nodes[0] == q.s && w.nodes[|w.rows|] == q.t
    requires |w.rows| == hops <= q.limit
    ensures Solves(q, w)
  {
  }

  lemma Prepend(q: Query, w: Walk, u: nat, v: nat, e: nat) returns (w': Walk)
    requires AllowedWalk(q, w) && |w.nodes| > 0 && w.nodes[0] == v && u < |q.g.adj| && q.g.HasArc(u, v, e) && q.Allows(Arc(v, e))
    ensures w' == Walk([u] + w.nodes, [e] + w.rows) && AllowedWalk(q, w') && |w'.nodes| == |w'.rows| + 1
    ensures Cost(q.g, w'.rows) == q.g.W(e) + Cost(q.g, w.rows)
  {
    w' := Walk([u] + w.nodes, [e] + w.rows);
    CostConcat(q.g, [e], w.rows);
    assert [e][..0] == [];
  }

  method ExpandNode(q: Query, dist: array<Option<nat>>, links: array<Option<Link>>,
                    heap: multiset<HopState>, u: nat, h: nat, cost: nat) returns (pushed: multiset<HopState>)
    requires dist as object != links
    requires Expanding(q, dist[..], links[..], heap, u, h, cost, 0)
    modifies dist, links
    ensures Labels(q, dist[..], links[..], pushed) && AllOpen(q, dist[..], links[..], pushed, None)
    ensures Progress(old(dist[..]), dist[..]) || (dist[..] == old(dist[..]) && pushed == heap)
    ensures At(q, old(dist[..]), q.s, 0) == Some(0) ==> At(q, dist[..], q.s, 0) == Some(0)
  {
    hide *;
    pushed := heap;
    ghost var d, p := dist[..], links[..];
    ExpandingBounds(q, d, p, heap, u, h, cost, 0);
    var n := |q.g.adj|;
    var k := 0;
    while k < |q.g.adj[u]|
      invariant 0 <= k <= |q.g.adj[u]| && dist[..] == d && links[..] == p
      invariant Expanding(q, d, p, pushed, u, h, cost, k)
      invariant Progress(old(dist[..]), d) || (d == old(dist[..]) && pushed == heap)
      invariant At(q, old(dist[..]), q.s, 0) == Some(0) ==> At(q, d, q.s, 0) == Some(0)
    {
      var arc := q.g.adj[u][k];
      ExpandingBounds(q, d, p, pushed, u, h, cost, k);
      if !q.Allows(arc) {
        KeepArc(q, d, p, pushed, u, h, cost, k);
        k := k + 1;
        continue;
      }
      SlotInRange(q, d, p, pushed, u, h, cost, k, arc.to);
      var slot := Slot(n, arc.to, h + 1);
      var nc := cost + q.g.W(arc.row);
      if Improves(dist[slot], nc) {
        LowerArc(q, d, p, pushed, u, h, cost, k, arc.to, arc.row);
        LabelDrops(d, slot, nc);
        ProgressChain(old(dist[..]), d, d[slot := Some(nc)]);
        KeepsStart(q, d, slot, arc.to, h, nc);
        dist[slot] := Some(nc);
        links[slot] := Some(Link(u, h, arc.row));
        d, p := d[slot := Some(nc)], p[slot := Some(Link(u, h, arc.row))];
        pushed := pushed + multiset{HopState(nc, arc.to, h + 1)};
      } else {
        NotImproved(dist[slot], nc);
        if nc == dist[slot].value && links[slot].Some? && u < links[slot].value.node {
          TieArc(q, d, p, pushed, u, h, cost, k, arc.to, arc.row);
          links[slot] := Some(Link(u, h, arc.row));
          p := p[slot := Some(Link(u, h, arc.row))];
        }
        NowHeld(q, d, p, u, h, cost, arc);
        KeepArc(q, d, p, pushed, u, h, cost, k);
      }
      k := k + 1;
    }
    DoneExpanding(q, d, p, pushed, u, h, cost);
  }

  lemma NotImproved(held: Option<nat>, c: nat)
    requires !Improves(held, c)
    ensures held.Some? && held.value <= c
  {
  }

  lemma ExpandingBounds(q: Query, d: seq<Option<nat>>, p: seq<Option<Link>>, heap: multiset<HopState>,
                        u: nat, h: nat, cost: nat, k: nat)
    requires Expanding(q, d, p, heap, u, h, cost, k)
    ensures u < |q.g.adj| && h < q.limit && |d| == |p| && k <= |q.g.adj[u]| && q.s < |q.g.adj|
    ensures forall j | 0 <= j < |q.g.adj[u]| :: q.g.adj[u][j].to < |q.g.adj|
  {
  }

  lemma SlotInRange(q: Query, d: seq<Option<nat>>, p: seq<Option<Link>>, heap: multiset<HopState>,
                    u: nat, h: nat, cost: nat, k: nat, v: nat)
    requires Expanding(q, d, p, heap, u, h, cost, k) && v < |q.g.adj|
    ensures Slot(|q.g.adj|, v, h + 1) < |d| == |p|
    ensures At(q, d, v, h + 1) == d[Slot(|q.g.adj|, v, h + 1)] && LinkAt(q, p, v, h + 1) == p[Slot(|q.g.adj|, v, h + 1)]
  {
  }

  lemma NowHeld(q: Query, d: seq<Option<nat>>, p: seq<Option<Link>>, u: nat, h: nat, cost: nat, arc: Arc)
    requires Slot(|q.g.adj|, arc.to, h + 1) < |d| == |p|
    requires !Improves(d[Slot(|q.g.adj|, arc.to, h + 1)], cost + q.g.W(arc.row))
    requires var held, link := d[Slot(|q.g.adj|, arc.to, h + 1)], p[Slot(|q.g.adj|, arc.to, h + 1)];
             !(held == Some(cost + q.g.W(arc.row)) && link.Some? && u < link.value.node)
    ensures Held(q, d, p, u, h, cost, arc)
  {
  }

  lemma KeepsStart(q: Query, d: seq<Option<nat>>, slot: nat, v: nat, h: nat, c: nat)
    requires slot == Slot(|q.g.adj|, v, h + 1) && slot < |d| && v < |q.g.adj| && q.s < |q.g.adj|
    ensures At(q, d[slot := Some(c)], q.s, 0) == At(q, d, q.s, 0)
  {
    if Slot(|q.g.adj|, q.s, 0) == slot {
      SlotUnique(|q.g.adj|, q.s, 0, v, h + 1);
    }
  }

  lemma Begin(q: Query, d: seq<Option<nat>>, p: seq<Option<Link>>)
    requires q.Valid() && |p| == |d| == (q.limit + 1) * |q.g.adj| && q.s < |d|
    requires d == seq(|d|, _ => None)[q.s := Some(0)]
    ensures Labels(q, d, p, multiset{HopState(0, q.s, 0)}) && AllOpen(q, d, p, multiset{HopState(0, q.s, 0)}, None)
    ensures At(q, d, q.s, 0) == Some(0)
  {
    forall u: nat, h: nat {:trigger Slot(|q.g.adj|, u, h)} | u < |q.g.adj| && h <= q.limit
      ensures Slot(|q.g.adj|, u, h) < |d|
      ensures At(q, d, u, h).Some? ==> u == q.s && h == 0
    {
      SlotBound(|q.g.adj|, u, h, q.limit);
      if Slot(|q.g.adj|, u, h) == q.s {
        assert q.s == Slot(|q.g.adj|, q.s, 0);
        SlotUnique(|q.g.adj|, u, h, q.s, 0);
      }
    }
    assert HopState(0, q.s, 0) in multiset{HopState(0, q.s, 0)};
  }

  /** Every label is backed by an allowed walk from the source with that many edges. */
  lemma {:induction false} SlotWalk(q: Query, d: seq<Option<nat>>, p: seq<Option<Link>>, heap: multiset<HopState>, v: nat, h: nat) returns (w: Walk)
    requires Labels(q, d, p, heap) && v < |q.g.adj| && h <= q.limit && At(q, d, v, h).Some?
    ensures AllowedWalk(q, w) && w.nodes[0] == q.s && |w.rows| == h && w.nodes[h] == v && Cost(q.g, w.rows) <= At(q, d, v, h).value
    decreases h
  {
    hide Slot, At, LinkAt;
    assert Linked(q, d, p, v, h);
    if h == 0 {
      w := Walk([v], []);
    } else {
      var l := LinkAt(q, p, v, h).value;
      var front := SlotWalk(q, d, p, heap, l.node, h - 1);
      w := Walk(front.nodes + [v], front.rows + [l.row]);
      assert w.rows[..h - 1] == front.rows;
    }
  }

  /** Along a best solution the labels are exactly the costs so far. */
  lemma PrefixTight(q: Query, d: seq<Option<nat>>, p: seq<Option<Link>>, heap: multiset<HopState>, w: Walk, k: nat)
    requires Labels(q, d, p, heap) && AllOpen(q, d, p, heap, None) && At(q, d, q.s, 0) == Some(0)
    requires Solves(q, w) && k <= |w.rows| && forall x | x in heap :: !LexLess(x.cost, x.hops, Cost(q.g, w.rows), |w.rows|)
    requires forall x | Solves(q, x) :: Cost(q.g, w.rows) <= Cost(q.g, x.rows)
    ensures At(q, d, w.nodes[k], k) == Some(Cost(q.g, w.rows[..k]))
  {
    hide Slot, At, LinkAt, Labels, AllOpen, LexLess;
    LabelsFollow(q, d, p, heap, w, k);
    if At(q, d, w.nodes[k], k).value < Cost(q.g, w.rows[..k]) {
      var front := SlotWalk(q, d, p, heap, w.nodes[k], k);
      var x := Splice(q, front, w, k);
      CostSplit(q.g, w.rows, k);
    }
  }

  lemma Splice(q: Query, a: Walk, w: Walk, k: nat) returns (x: Walk)
    requires AllowedWalk(q, a) && a.nodes[0] == q.s && |a.rows| == k && Solves(q, w) && k <= |w.rows| && a.nodes[k] == w.nodes[k]
    ensures Solves(q, x) && Cost(q.g, x.rows) == Cost(q.g, a.rows) + Cost(q.g, w.rows[k..])
  {
    hide Network.HasArc, Query.Allows;
    x := Walk(a.nodes[..k] + w.nodes[k..], a.rows + w.rows[k..]);
    CostConcat(q.g, a.rows, w.rows[k..]);
    forall m | 0 <= m < |x.rows|
      ensures q.g.HasArc(x.nodes[m], x.nodes[m + 1], x.rows[m]) && q.Allows(Arc(x.nodes[m + 1], x.rows[m]))
    {
      if m < k {
        assert x.nodes[m + 1] == a.nodes[m + 1] && x.rows[m] == a.rows[m] && x.nodes[m] == a.nodes[m];
      } else {
        assert x.nodes[m + 1] == w.nodes[m + 1] && x.rows[m] == w.rows[m] && x.nodes[m] == w.nodes[m];
      }
    }
  }

  /** Where a best solution and the links agree on a node, the link names the lower predecessor. */
  lemma LinkIsLowest(q: Query, d: seq<Option<nat>>, p: seq<Option<Link>>, heap: multiset<HopState>, w: Walk, k: nat)
    requires Labels(q, d, p, heap) && AllOpen(q, d, p, heap, None) && At(q, d, q.s, 0) == Some(0)
    requires Solves(q, w) && 0 < k <= |w.rows| && forall x | x in heap :: !LexLess(x.cost, x.hops, Cost(q.g, w.rows), |w.rows|)
    requires forall x | Solves(q, x) :: Cost(q.g, w.rows) <= Cost(q.g, x.rows)
    ensures LinkAt(q, p, w.nodes[k], k).Some? && LinkAt(q, p, w.nodes[k], k).value.node <= w.nodes[k - 1]
  {
    hide Slot, At, LinkAt, Labels, AllOpen, Solves, LexLess, RelaxedArcs;
    PrefixTight(q, d, p, heap, w, k - 1);
    PrefixTight(q, d, p, heap, w, k);
    CostPrefix(q.g, w.rows, k - 1);
    StepAllowed(q, w, k - 1);
    NotInHeap(q, d, p, heap, w, k - 1);
    ArcServed(q, d, p, w.nodes[k - 1], k - 1, Arc(w.nodes[k], w.rows[k - 1]));
  }

  lemma StepAllowed(q: Query, w: Walk, k: nat)
    requires Solves(q, w) && k < |w.rows|
    ensures |w.nodes| == |w.rows| + 1
    ensures w.nodes[k] < |q.g.adj| && Arc(w.nodes[k + 1], w.rows[k]) in q.g.adj[w.nodes[k]] && q.Allows(Arc(w.nodes[k + 1], w.rows[k]))
  {
    assert q.g.HasArc(w.nodes[k], w.nodes[k + 1], w.rows[k]);
  }

  lemma ArcServed(q: Query, d: seq<Option<nat>>, p: seq<Option<Link>>, u: nat, h: nat, arc: Arc)
    requires u < |q.g.adj| && RelaxedArcs(q, d, p, u, h, |q.g.adj[u]|) && arc in q.g.adj[u] && q.Allows(arc)
    ensures Served(q, d, p, u, h, arc)
  {
    hide Served;
  }

  lemma NotInHeap(q: Query, d: seq<Option<nat>>, p: seq<Option<Link>>, heap: multiset<HopState>, w: Walk, k: nat)
    requires AllOpen(q, d, p, heap, None) && Solves(q, w) && k < |w.rows| && w.nodes[k] < |q.g.adj|
    requires At(q, d, w.nodes[k], k) == Some(Cost(q.g, w.rows[..k]))
    requires forall x | x in heap :: !LexLess(x.cost, x.hops, Cost(q.g, w.rows), |w.rows|)
    ensures RelaxedArcs(q, d, p, w.nodes[k], k, |q.g.adj[w.nodes[k]]|)
  {
    hide Slot, At, LinkAt, RelaxedArcs;
    CostSplit(q.g, w.rows, k);
    assert Open(q, d, p, heap, w.nodes[k], k);
    assert HopState(Cost(q.g, w.rows[..k]), w.nodes[k], k) !in heap;
  }

  /** Two sequences with one end: if wherever they agree from some place on the first has the lower
      element before it, the first is the lower one read backwards. */
  lemma {:induction false} BackLeFrom(a: seq<nat>, b: seq<nat>)
    requires |a| == |b| && (a != [] ==> a[|a| - 1] == b[|b| - 1])
    requires forall k {:trigger a[k]} | 1 <= k < |a| && a[k] == b[k] :: a[k - 1] <= b[k - 1]
    ensures BackLe(a, b)
  {
    var n := |a| - 1;
    if n > 0 {
      if a[n - 1] == b[n - 1] {
        BackLeFrom(a[..n], b[..n]);
      } else {
        assert a[n] == b[n];
      }
    }
  }

  /** The popped target is optimal, and the path read back from it is simple. */
  lemma PoppedIsBest(q: Query, d: seq<Option<nat>>, p: seq<Option<Link>>, heap: multiset<HopState>, top: HopState, pc: PathCandidate)
    requires Labels(q, d, p, heap) && AllOpen(q, d, p, heap, None) && At(q, d, q.s, 0) == Some(0)
    requires forall x | x in heap :: HopLeq(top, x)
    requires Solves(q, Walk(pc.nodes, pc.rows)) && |pc.rows| == top.hops && pc.cost == top.cost && Cost(q.g, pc.rows) <= top.cost
    requires Chained(q, p, Walk(pc.nodes, pc.rows), 0)
    ensures Best(q, pc)
  {
    hide Labels, AllOpen, Solves, Slot, At, BackLe;
    forall w | Solves(q, w)
      ensures !LexLess(Cost(q.g, w.rows), |w.rows|, top.cost, top.hops)
    {
      HeapCovers(q, d, p, heap, w);
      var x :| x in heap && !LexLess(Cost(q.g, w.rows), |w.rows|, x.cost, x.hops);
      assert HopLeq(top, x);
    }
    PoppedIsSimple(q, top, pc);
    forall w | Solves(q, w)
      ensures WalkLe(q.g, Walk(pc.nodes, pc.rows), w)
    {
      if Cost(q.g, w.rows) == top.cost && |w.rows| == top.hops {
        PoppedIsLowest(q, d, p, heap, top, pc, w);
      }
    }
  }

  lemma PoppedIsSimple(q: Query, top: HopState, pc: PathCandidate)
    requires Solves(q, Walk(pc.nodes, pc.rows)) && |pc.rows| == top.hops && Cost(q.g, pc.rows) <= top.cost
    requires forall w | Solves(q, w) :: !LexLess(Cost(q.g, w.rows), |w.rows|, top.cost, top.hops)
    ensures Distinct(pc.nodes) && Cost(q.g, pc.rows) == top.cost && |pc.nodes| == |pc.rows| + 1
  {
    forall i, j | 0 <= i < j < |pc.nodes|
      ensures pc.nodes[i] != pc.nodes[j]
    {
      if pc.nodes[i] == pc.nodes[j] {
        var w := CutLoop(q, Walk(pc.nodes, pc.rows), i, j);
      }
    }
  }

  /** Among the solutions as cheap and as short, the path read back has the lowest nodes from its end. */
  lemma PoppedIsLowest(q: Query, d: seq<Option<nat>>, p: seq<Option<Link>>, heap: multiset<HopState>, top: HopState, pc: PathCandidate, w: Walk)
    requires Labels(q, d, p, heap) && AllOpen(q, d, p, heap, None) && At(q, d, q.s, 0) == Some(0)
    requires forall x | x in heap :: HopLeq(top, x)
    requires Solves(q, Walk(pc.nodes, pc.rows)) && |pc.rows| == top.hops && Chained(q, p, Walk(pc.nodes, pc.rows), 0)
    requires forall x | Solves(q, x) :: !LexLess(Cost(q.g, x.rows), |x.rows|, top.cost, top.hops)
    requires Solves(q, w) && Cost(q.g, w.rows) == top.cost && |w.rows| == top.hops
    ensures |pc.nodes| == |w.nodes| && BackLe(pc.nodes, w.nodes)
  {
    hide Labels, AllOpen, Slot, At, LinkAt, BackLe;
    assert forall x | x in heap :: !LexLess(x.cost, x.hops, Cost(q.g, w.rows), |w.rows|);
    forall k {:trigger pc.nodes[k]} | 1 <= k < |pc.nodes| && pc.nodes[k] == w.nodes[k]
      ensures pc.nodes[k - 1] <= w.nodes[k - 1]
    {
      LinkIsLowest(q, d, p, heap, w, k);
      assert Walk(pc.nodes, pc.rows).nodes[k] == w.nodes[k];
    }
    BackLeFrom(pc.nodes, w.nodes);
  }

  lemma Exhausted(q: Query, d: seq<Option<nat>>, p: seq<Option<Link>>, heap: multiset<HopState>)
    requires Labels(q, d, p, heap) && AllOpen(q, d, p, heap, None) && At(q, d, q.s, 0) == Some(0) && |heap| == 0
    ensures forall w :: !Solves(q, w)
  {
    assert heap == multiset{};
    forall w | Solves(q, w)
      ensures false
    {
      HeapCovers(q, d, p, heap, w);
    }
  }

  lemma TopLabel(q: Query, d: seq<Option<nat>>, p: seq<Option<Link>>, heap: multiset<HopState>, top: HopState)
    requires Labels(q, d, p, heap) && top in heap
    ensures top.node < |q.g.adj| && top.hops <= q.limit && Slot(|q.g.adj|, top.node, top.hops) < |d|
    ensures At(q, d, top.node, top.hops) == d[Slot(|q.g.adj|, top.node, top.hops)]
    ensures At(q, d, top.node, top.hops).Some? && At(q, d, top.node, top.hops).value <= top.cost
  {
  }

  lemma StartExpanding(q: Query, d: seq<Option<nat>>, p: seq<Option<Link>>, heap: multiset<HopState>, u: nat, h: nat, cost: nat)
    requires Labels(q, d, p, heap) && AllOpen(q, d, p, heap, Some((u, h)))
    requires u < |q.g.adj| && h < q.limit && u != q.t && At(q, d, u, h) == Some(cost)
    ensures Expanding(q, d, p, heap, u, h, cost, 0)
  {
  }

  /** The hop limit in force: the caller's, or enough for any simple path. */
  function HopLimit(g: Network, maxHops: Option<nat>): nat {
    match maxHops
    case Some(limit) => limit
    case None => if |g.adj| > 0 then |g.adj| - 1 else 0
  }

  /** A cheapest allowed walk within the hop limit, which is always a simple path; `None` when an end
      is banned or no allowed walk exists. */
  method ShortestPathCandidate(g: Network, s: nat, t: nat, bannedNodes: set<nat>, bannedRows: set<nat>, maxHops: Option<nat>)
    returns (best: Option<PathCandidate>)
    requires g.Valid() && s < |g.adj| && t < |g.adj|
    ensures best.Some? ==> Best(Query(g, s, t, bannedNodes, bannedRows, HopLimit(g, maxHops)), best.value)
    ensures best.None? && s !in bannedNodes && t !in bannedNodes ==>
              forall w :: !Solves(Query(g, s, t, bannedNodes, bannedRows, HopLimit(g, maxHops)), w)
    ensures s in bannedNodes || t in bannedNodes ==> best.None?
  {
    if s in bannedNodes || t in bannedNodes {
      return None;
    }
    var q := Query(g, s, t, bannedNodes, bannedRows, HopLimit(g, maxHops));
    best := Search(q);
  }

  method Search(q: Query) returns (best: Option<PathCandidate>)
    requires q.Valid()
    ensures best.Some? ==> Best(q, best.value)
    ensures best.None? ==> forall w :: !Solves(q, w)
  {
    hide *;
    var n := |q.g.adj|;
    ValidBounds(q);
    var dist := new Option<nat>[(q.limit + 1) * n](_ => None);
    var links := new Option<Link>[(q.limit + 1) * n](_ => None);
    dist[q.s] := Some(0);
    var heap := multiset{HopState(0, q.s, 0)};
    assert dist[..] == seq(|dist[..]|, _ => None)[q.s := Some(0)];
    Begin(q, dist[..], links[..]);

    while |heap| > 0
      invariant dist as object != links
      invariant Labels(q, dist[..], links[..], heap) && AllOpen(q, dist[..], links[..], heap, None)
      invariant At(q, dist[..], q.s, 0) == Some(0)
      decreases Unreached(dist[..]), Total(dist[..]), |heap|
    {
      ghost var d, p := dist[..], links[..];
      HopOrder();
      var top, rest := Heaps.Pop(heap, HopLeq);
      TopLabel(q, d, p, heap, top);
      var slot := Slot(n, top.node, top.hops);
      if top.cost > dist[slot].value {
        PopStale(q, d, p, heap, top);
        heap := rest;
        continue;
      }
      if top.node == q.t {
        var pc := Reconstruct(q, links[..], top.hops, top.cost, d, heap);
        PoppedIsBest(q, d, p, heap, top, pc);
        return Some(pc);
      }
      PopFresh(q, d, p, heap, top);
      heap := rest;
      if top.hops >= q.limit {
        PopAtLimit(q, d, p, heap, top.node, top.hops);
        continue;
      }
      StartExpanding(q, d, p, heap, top.node, top.hops, top.cost);
      heap := ExpandNode(q, dist, links, heap, top.node, top.hops, top.cost);
      if Progress(d, dist[..]) {
        ProgressMeaning(d, dist[..]);
      }
    }
    Exhausted(q, dist[..], links[..], heap);
    best := None;
  }

  lemma ProgressMeaning(d0: seq<Option<nat>>, d: seq<Option<nat>>)
    requires Progress(d0, d)
    ensures Unreached(d) < Unreached(d0) || (Unreached(d) == Unreached(d0) && Total(d) < Total(d0))
  {
  }

  lemma ValidBounds(q: Query)
    requires q.Valid()
    ensures q.s < |q.g.adj| <= (q.limit + 1) * |q.g.adj| && q.t < |q.g.adj|
  {
    MulAtLeast(q.limit + 1, |q.g.adj|);
  }
}
