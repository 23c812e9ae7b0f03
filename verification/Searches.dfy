/** The queue-driven neighbourhood search and the path test, against the same balls as the traversal. */
module Searches {
  import opened Basics
  import opened Rows
  import opened Adjacency
  import opened Balls
  import Csr
  import Nodes = NodeFrames
  import Edges = EdgeFrames
  import Graphs = GraphFrames
  import Traversal

  /** Every id that occurs in an edge. */
  ghost function EdgeIds(rows: seq<EdgeRow>): set<string> {
    set i | 0 <= i < |Edges.IdsOf(rows)| :: Edges.IdsOf(rows)[i]
  }

  ghost function Undirected(rows: seq<EdgeRow>): Query {
    Query(rows, Both, Any, EdgeIds(rows))
  }

  ghost function Outgoing(rows: seq<EdgeRow>): Query {
    Query(rows, Out, Any, EdgeIds(rows))
  }

  // ---- index lookups are steps ----

  lemma {:induction false} NeighborHasRow(c: Csr.CsrIndex, src: seq<nat>, dst: seq<nat>, n: nat, u: nat, v: nat)
    requires Csr.Indexes(c, src, dst, n) && Csr.Covers(src, n)
    ensures v in c.Neighbors(u) <==> exists e: nat :: e < |src| && src[e] == u && dst[e] == v
  {
    hide Csr.Scan;
    var ns, es := c.Neighbors(u), c.EdgeIds(u);
    if v in ns {
      var i :| 0 <= i < |ns| && ns[i] == v;
      assert Csr.Zip(ns, es)[i] in Csr.Zip(ns, es);
      ZipMeans(c, src, dst, n, u, v, es[i]);
    }
    if e: nat :| e < |src| && src[e] == u && dst[e] == v {
      ZipMeans(c, src, dst, n, u, v, e);
      var i :| 0 <= i < |ns| && Csr.Zip(ns, es)[i] == Csr.Target(v, e);
      assert ns[i] == v;
    }
  }

  /** Some edge row goes from index `u` to index `v`. */
  ghost predicate Joins(rows: seq<EdgeRow>, u: nat, v: nat) {
    exists e :: 0 <= e < |rows| && Edges.SrcIdx(rows)[e] == u && Edges.DstIdx(rows)[e] == v
  }

  lemma OutMeans(f: Edges.EdgeFrame, u: nat, v: nat)
    requires Edges.Valid(f)
    ensures f.outCsr.Sliceable() && (v in f.outCsr.Neighbors(u) <==> Joins(f.rows, u, v))
  {
    hide Edges.IdsOf, Edges.SrcIdx, Edges.DstIdx, Csr.Scan, Csr.Covers;
    Edges.IdxBound(f.rows);
    NeighborHasRow(f.outCsr, Edges.SrcIdx(f.rows), Edges.DstIdx(f.rows), |Edges.IdsOf(f.rows)|, u, v);
  }

  lemma InMeans(c: Csr.CsrIndex, rows: seq<EdgeRow>, u: nat, v: nat)
    requires Edges.InOf(c, rows)
    ensures c.Sliceable() && (v in c.Neighbors(u) <==> Joins(rows, v, u))
  {
    hide Edges.IdsOf, Edges.SrcIdx, Edges.DstIdx, Csr.Scan, Csr.Covers;
    Edges.IdxBound(rows);
    NeighborHasRow(c, Edges.DstIdx(rows), Edges.SrcIdx(rows), |Edges.IdsOf(rows)|, u, v);
  }

  lemma JoinsMeans(rows: seq<EdgeRow>, u: nat, v: nat)
    ensures Joins(rows, u, v) ==> u < |Edges.IdsOf(rows)| && v < |Edges.IdsOf(rows)|
    ensures Joins(rows, u, v) <==> LeadsIdx(Outgoing(rows), u, v)
    ensures Joins(rows, u, v) || Joins(rows, v, u) <==> LeadsIdx(Undirected(rows), u, v)
  {
    hide Edges.IdsOf, Edges.SrcIdx, Edges.DstIdx, EdgeIds, Joins;
    JoinsRow(rows, u, v);
    JoinsRow(rows, v, u);
    RowLeads(Outgoing(rows), u, v);
    RowLeads(Undirected(rows), u, v);
  }

  lemma RowLeads(q: Query, u: nat, v: nat)
    requires q.spec == Any && (q.d == Out || q.d == Both)
    ensures LeadsIdx(q, u, v) <==> exists e: nat :: Row(q.rows, u, v, e) || (q.d == Both && Row(q.rows, v, u, e))
  {
    hide Edges.IdsOf;
    if LeadsIdx(q, u, v) {
      var ids := Edges.IdsOf(q.rows);
      var e: nat :| e < |q.rows| && Eligible(q.rows[e], q.spec, q.d, ids[u], ids[v]);
      assert Row(q.rows, u, v, e) || Row(q.rows, v, u, e);
    }
    if e: nat :| Row(q.rows, u, v, e) || (q.d == Both && Row(q.rows, v, u, e)) {
      assert Eligible(q.rows[e], q.spec, q.d, Edges.IdsOf(q.rows)[u], Edges.IdsOf(q.rows)[v]);
    }
  }

  /** `e` witnesses a step from index `u` to index `v`. */
  ghost predicate Row(rows: seq<EdgeRow>, u: nat, v: nat, e: nat) {
    && e < |rows| && u < |Edges.IdsOf(rows)| && v < |Edges.IdsOf(rows)|
    && rows[e].src == Edges.IdsOf(rows)[u] && rows[e].dst == Edges.IdsOf(rows)[v]
  }

  lemma JoinsRow(rows: seq<EdgeRow>, u: nat, v: nat)
    ensures Joins(rows, u, v) <==> exists e :: Row(rows, u, v, e)
  {
    hide Edges.IdsOf, Edges.SrcIdx, Edges.DstIdx;
    if Joins(rows, u, v) {
      var e :| 0 <= e < |rows| && Edges.SrcIdx(rows)[e] == u && Edges.DstIdx(rows)[e] == v;
      TargetInRange(rows, e);
      IdxMeans(rows, e, u);
      IdxMeans(rows, e, v);
      assert Row(rows, u, v, e);
    }
    if e :| Row(rows, u, v, e) {
      IdxMeans(rows, e, u);
      IdxMeans(rows, e, v);
    }
  }

  /** Opening only nodes of the table changes nothing on a closed graph. */
  lemma {:induction false} OpenAlike(a: Query, b: Query, roots: set<string>, k: nat, x: string)
    requires a.rows == b.rows && a.d == b.d && a.spec == b.spec
    requires forall id | id in Edges.IdsOf(a.rows) :: id in a.open <==> id in b.open
    ensures Within(a, roots, k, x) <==> Within(b, roots, k, x)
    decreases k
  {
    hide Edges.IdsOf, Leads;
    if k > 0 {
      OpenAlike(a, b, roots, k - 1, x);
      forall y
        ensures Within(a, roots, k - 1, y) <==> Within(b, roots, k - 1, y)
        ensures Leads(a, y, x) <==> Leads(b, y, x)
      {
        OpenAlike(a, b, roots, k - 1, y);
        LeadsAlike(a, b, y, x);
      }
      if y :| Leads(a, y, x) {
        LeadsIndexed(a, y, x);
      }
    }
  }

  lemma LeadsAlike(a: Query, b: Query, x: string, y: string)
    requires a.rows == b.rows && a.d == b.d && a.spec == b.spec
    ensures Leads(a, x, y) <==> Leads(b, x, y)
  {
  }

  /** On a closed graph, letting steps lead to any endpoint or to any node of the table keeps the same nodes. */
  lemma OpenTable(g: Graphs.GraphFrame, d: Direction, spec: EdgeTypeSpec, roots: set<string>, k: nat, passes: seq<bool>)
    requires Graphs.Closed(g.nodes.rows, g.edges.rows) && |passes| == |g.nodes.rows| && forall r | 0 <= r < |passes| :: passes[r]
    ensures Traversal.NodesWithin(g.nodes.rows, Query(g.edges.rows, d, spec, EdgeIds(g.edges.rows)), roots, k)
         == Traversal.NodesWithin(g.nodes.rows, Query(g.edges.rows, d, spec, Traversal.OpenIds(g.nodes.rows, passes)), roots, k)
  {
    hide Edges.IdsOf, Kept, Graphs.Closed;
    var a, b := Query(g.edges.rows, d, spec, EdgeIds(g.edges.rows)), Query(g.edges.rows, d, spec, Traversal.OpenIds(g.nodes.rows, passes));
    forall id | id in Edges.IdsOf(g.edges.rows)
      ensures id in a.open <==> id in b.open
    {
      EdgeIdIsNode(g.nodes.rows, g.edges.rows, id);
      var r :| 0 <= r < |g.nodes.rows| && Nodes.Ids(g.nodes.rows)[r] == id;
      assert passes[r] && g.nodes.rows[r].id == id;
    }
    forall x
      ensures Within(a, roots, k, x) <==> Within(b, roots, k, x)
    {
      OpenAlike(a, b, roots, k, x);
    }
    assert Traversal.WithinMask(g.nodes.rows, a, roots, k) == Traversal.WithinMask(g.nodes.rows, b, roots, k);
  }

  /** The queue search and the level-synchronous traversal keep the same nodes. */
  lemma KHopIsBfs(g: Graphs.GraphFrame, root: string, k: nat, passes: seq<bool>)
    requires Graphs.Closed(g.nodes.rows, g.edges.rows) && |passes| == |g.nodes.rows| && forall r | 0 <= r < |passes| :: passes[r]
    ensures Traversal.NodesWithin(g.nodes.rows, Undirected(g.edges.rows), {root}, k)
         == Traversal.NodesWithin(g.nodes.rows, Query(g.edges.rows, Both, Any, Traversal.OpenIds(g.nodes.rows, passes)), {root}, k)
  {
    hide Traversal.NodesWithin, Graphs.Closed, EdgeIds;
    OpenTable(g, Both, Any, {root}, k, passes);
  }

  lemma EdgeIdIsNode(nodes: seq<NodeRow>, edges: seq<EdgeRow>, id: string)
    requires Graphs.Closed(nodes, edges) && id in Edges.IdsOf(edges)
    ensures id in Nodes.Ids(nodes)
  {
    hide Edges.IdsOf;
    Edges.IdsOfMember(edges, id);
    var e :| 0 <= e < |edges| && Touches(edges[e], id);
    assert Graphs.EndsKnown(nodes, edges[e]);
  }

  // ---- the queue ----

  datatype Item = Item(node: nat, depth: nat)

  ghost predicate Queued(queue: seq<Item>, v: nat) {
    exists i :: 0 <= i < |queue| && queue[i].node == v
  }

  /** Depths are sound distances bounded by `k`. */
  ghost predicate Depths(q: Query, roots: set<string>, k: nat, depth: map<nat, nat>) {
    forall v | v in depth :: v < |Edges.IdsOf(q.rows)| && depth[v] <= k && Within(q, roots, depth[v], Edges.IdsOf(q.rows)[v])
  }

  /** The queue is sorted and spans at most the depths `d` and `d + 1`, beyond which nothing is discovered. */
  ghost predicate Ordered(queue: seq<Item>, depth: map<nat, nat>, d: nat) {
    && (forall i | 0 <= i < |queue| :: queue[i].node in depth && queue[i].depth == depth[queue[i].node] && d <= queue[i].depth)
    && (forall i, j | 0 <= i < j < |queue| :: queue[i].depth <= queue[j].depth)
    && forall v | v in depth :: depth[v] <= d + 1
  }

  /** All neighbours of `v` are discovered, at most one deeper. */
  ghost predicate Spread(q: Query, depth: map<nat, nat>, v: nat) {
    v in depth && forall w | LeadsIdx(q, v, w) :: w in depth && depth[w] <= depth[v] + 1
  }

  ghost predicate SpreadAll(q: Query, k: nat, queue: seq<Item>, depth: map<nat, nat>, except: set<nat>) {
    forall v | v in depth && v !in except && !Queued(queue, v) :: depth[v] == k || Spread(q, depth, v)
  }

  ghost predicate Searching(q: Query, roots: set<string>, k: nat, queue: seq<Item>, depth: map<nat, nat>, d: nat, except: set<nat>) {
    Depths(q, roots, k, depth) && Ordered(queue, depth, d) && SpreadAll(q, k, queue, depth, except)
  }

  lemma Discover(q: Query, roots: set<string>, k: nat, queue: seq<Item>, depth: map<nat, nat>, u: nat, d: nat, v: nat)
    requires Searching(q, roots, k, queue, depth, d, {u}) && u in depth && depth[u] == d && d < k
    requires v !in depth && LeadsIdx(q, u, v) && OpenIdx(q, v)
    ensures Searching(q, roots, k, queue + [Item(v, d + 1)], depth[v := d + 1], d, {u})
  {
    hide Edges.IdsOf, Leads;
    var queue', depth' := queue + [Item(v, d + 1)], depth[v := d + 1];
    assert Within(q, roots, d + 1, Edges.IdsOf(q.rows)[v]) by {
      assert Within(q, roots, d, Edges.IdsOf(q.rows)[u]) && Leads(q, Edges.IdsOf(q.rows)[u], Edges.IdsOf(q.rows)[v]);
    }
    assert Queued(queue', v) by {
      assert queue'[|queue|].node == v;
    }
    forall w | w in depth' && w != u && !Queued(queue', w)
      ensures depth'[w] == k || Spread(q, depth', w)
    {
      StillQueued(queue, Item(v, d + 1), w);
    }
  }

  lemma QueuedRest(queue: seq<Item>, v: nat)
    requires queue != []
    ensures Queued(queue, v) <==> queue[0].node == v || Queued(queue[1..], v)
  {
    if i :| 0 < i < |queue| && queue[i].node == v {
      assert queue[1..][i - 1].node == v;
    }
    if i :| 0 <= i < |queue| - 1 && queue[1..][i].node == v {
      assert queue[i + 1].node == v;
    }
  }

  lemma StillQueued(queue: seq<Item>, x: Item, w: nat)
    ensures Queued(queue + [x], w) <==> Queued(queue, w) || w == x.node
  {
    if Queued(queue, w) {
      var i :| 0 <= i < |queue| && queue[i].node == w;
      assert (queue + [x])[i].node == w;
    }
    if w == x.node {
      assert (queue + [x])[|queue|].node == w;
    }
  }

  /** Discovers the unseen entries of one neighbour list. */
  method PushAll(ghost q: Query, ghost roots: set<string>, ghost k: nat, ghost root: nat, ghost u: nat, d: nat, ns: seq<nat>, visited0: set<nat>, queue0: seq<Item>,
              ghost depth0: map<nat, nat>)
    returns (visited: set<nat>, queue: seq<Item>, ghost depth: map<nat, nat>)
    requires Searching(q, roots, k, queue0, depth0, d, {u}) && u in depth0 && depth0[u] == d && d < k && visited0 == depth0.Keys && root in depth0
    requires forall v | v in ns :: LeadsIdx(q, u, v) && OpenIdx(q, v)
    ensures Searching(q, roots, k, queue, depth, d, {u}) && visited == depth.Keys && visited0 <= visited && u in depth && depth[u] == d
    ensures root in depth && depth[root] == depth0[root]
    ensures forall v | v in ns :: v in depth
    ensures |queue| - |queue0| == |visited| - |visited0| >= 0
    ensures |visited| <= |Edges.IdsOf(q.rows)|
  {
    hide Searching, LeadsIdx, OpenIdx, Edges.IdsOf;
    visited, queue, depth := visited0, queue0, depth0;
    var i := 0;
    while i < |ns|
      invariant 0 <= i <= |ns| && Searching(q, roots, k, queue, depth, d, {u}) && visited == depth.Keys && visited0 <= visited
      invariant u in depth && depth[u] == d && root in depth && depth[root] == depth0[root]
      invariant forall j | 0 <= j < i :: ns[j] in depth
      invariant |queue| - |queue0| == |visited| - |visited0| >= 0
    {
      var v := ns[i];
      assert v in ns;
      if v !in visited {
        Discover(q, roots, k, queue, depth, u, d, v);
        SizeGrows(visited0, visited, v);
        visited := visited + {v};
        queue := queue + [Item(v, d + 1)];
        depth := depth[v := d + 1];
      }
      i := i + 1;
    }
    DepthsBounded(q, roots, k, queue, depth, d, u);
  }

  lemma DepthsBounded(q: Query, roots: set<string>, k: nat, queue: seq<Item>, depth: map<nat, nat>, d: nat, u: nat)
    requires Searching(q, roots, k, queue, depth, d, {u})
    ensures |depth.Keys| <= |Edges.IdsOf(q.rows)|
  {
    hide Edges.IdsOf;
    Bounded(depth.Keys, |Edges.IdsOf(q.rows)|);
  }

  lemma SizeGrows(a: set<nat>, b: set<nat>, v: nat)
    requires a <= b && v !in b
    ensures |b + {v}| == |b| + 1 && |b| >= |a|
  {
    SubsetSize(a, b);
  }

  ghost function Range(n: nat): (r: set<nat>)
    ensures |r| == n && forall x: nat :: x in r <==> x < n
  {
    if n == 0 then {} else Range(n - 1) + {n - 1}
  }

  lemma Bounded(visited: set<nat>, n: nat)
    requires forall v | v in visited :: v < n
    ensures |visited| <= n
  {
    SubsetSize(visited, Range(n));
  }

  /** Taking the head off the queue. */
  lemma PopItem(q: Query, roots: set<string>, k: nat, queue: seq<Item>, depth: map<nat, nat>, d: nat)
    requires Searching(q, roots, k, queue, depth, d, {}) && queue != []
    ensures queue[0].node in depth && depth[queue[0].node] == queue[0].depth <= k && queue[0].node < |Edges.IdsOf(q.rows)|
    ensures d <= queue[0].depth
    ensures Searching(q, roots, k, queue[1..], depth, queue[0].depth, {queue[0].node})
  {
    hide Edges.IdsOf, Within, Spread;
    forall v | v in depth && v != queue[0].node && !Queued(queue[1..], v)
      ensures !Queued(queue, v)
    {
      QueuedRest(queue, v);
    }
  }

  lemma FinishItem(q: Query, roots: set<string>, k: nat, queue: seq<Item>, depth: map<nat, nat>, u: nat, d: nat)
    requires Searching(q, roots, k, queue, depth, d, {u}) && u in depth && depth[u] == d
    requires d == k || forall v | LeadsIdx(q, u, v) :: v in depth
    ensures Searching(q, roots, k, queue, depth, d, {})
  {
    hide Edges.IdsOf, LeadsIdx, Queued, Within;
  }

  /** When the queue is empty the discovered nodes are the ball of radius `k`. */
  lemma {:induction false} DiscoveredAll(q: Query, roots: set<string>, k: nat, depth: map<nat, nat>, d: nat, j: nat, x: nat)
    requires Searching(q, roots, k, [], depth, d, {}) && j <= k && x < |Edges.IdsOf(q.rows)| && Within(q, roots, j, Edges.IdsOf(q.rows)[x])
    requires forall v: nat | v < |Edges.IdsOf(q.rows)| && Edges.IdsOf(q.rows)[v] in roots :: v in depth && depth[v] == 0
    ensures x in depth && depth[x] <= j
    decreases j
  {
    hide Edges.IdsOf, Leads;
    var ids := Edges.IdsOf(q.rows);
    if ids[x] !in roots {
      if Within(q, roots, j - 1, ids[x]) {
        DiscoveredAll(q, roots, k, depth, d, j - 1, x);
      } else {
        var a :| Within(q, roots, j - 1, a) && Leads(q, a, ids[x]);
        LeadsIndexed(q, a, ids[x]);
        var u :| 0 <= u < |ids| && ids[u] == a;
        DiscoveredAll(q, roots, k, depth, d, j - 1, u);
        assert LeadsIdx(q, u, x);
        assert !Queued([], u);
        assert Spread(q, depth, u);
      }
    }
  }

  lemma SearchedBall(q: Query, roots: set<string>, k: nat, depth: map<nat, nat>, d: nat)
    requires Searching(q, roots, k, [], depth, d, {})
    requires forall v: nat | v < |Edges.IdsOf(q.rows)| && Edges.IdsOf(q.rows)[v] in roots :: v in depth && depth[v] == 0
    ensures depth.Keys == Ball(q, roots, k)
  {
    hide Edges.IdsOf, Within;
    var ids := Edges.IdsOf(q.rows);
    forall v: nat
      ensures v in depth <==> v in Ball(q, roots, k)
    {
      if v in depth {
        WithinGrows(q, roots, depth[v], k, ids[v]);
      }
      if v in Ball(q, roots, k) {
        DiscoveredAll(q, roots, k, depth, d, k, v);
      }
    }
  }

  // ---- k-hop subgraphs ----

  lemma FirstItem(q: Query, root: string, k: nat, u: nat)
    requires u < |Edges.IdsOf(q.rows)| && Edges.IdsOf(q.rows)[u] == root
    ensures Searching(q, {root}, k, [Item(u, 0)], map[u := 0], 0, {})
  {
    hide Edges.IdsOf;
    assert Queued([Item(u, 0)], u) by {
      assert [Item(u, 0)][0].node == u;
    }
  }

  /** Both neighbour lists together are the undirected steps. */
  lemma BothLists(f: Edges.EdgeFrame, inCsr: Csr.CsrIndex, u: nat)
    requires Indexed(f, inCsr)
    ensures f.outCsr.Sliceable() && inCsr.Sliceable()
    ensures forall v | v in f.outCsr.Neighbors(u) || v in inCsr.Neighbors(u) :: LeadsIdx(Undirected(f.rows), u, v) && OpenIdx(Undirected(f.rows), v)
    ensures forall v | LeadsIdx(Undirected(f.rows), u, v) :: v in f.outCsr.Neighbors(u) || v in inCsr.Neighbors(u)
  {
    hide Edges.IdsOf, Joins, Edges.Valid, Edges.InOf, LeadsIdx;
    OutMeans(f, u, u);
    InMeans(inCsr, f.rows, u, u);
    forall v: nat
      ensures LeadsIdx(Undirected(f.rows), u, v) <==> v in f.outCsr.Neighbors(u) || v in inCsr.Neighbors(u)
      ensures LeadsIdx(Undirected(f.rows), u, v) ==> OpenIdx(Undirected(f.rows), v)
    {
      OutMeans(f, u, v);
      InMeans(inCsr, f.rows, u, v);
      JoinsMeans(f.rows, u, v);
      JoinsMeans(f.rows, v, u);
      EdgeIdsOpen(f.rows, v);
    }
  }

  lemma EdgeIdsOpen(rows: seq<EdgeRow>, v: nat)
    ensures v < |Edges.IdsOf(rows)| ==> OpenIdx(Undirected(rows), v) && OpenIdx(Outgoing(rows), v)
  {
    hide Edges.IdsOf;
  }

  /** The queue loop: the discovered indices are the undirected ball of radius `k` around `u`. */
  method Discovered(f: Edges.EdgeFrame, inCsr: Csr.CsrIndex, root: string, u: nat, k: nat) returns (visited: set<nat>)
    requires Indexed(f, inCsr) && u < |Edges.IdsOf(f.rows)| && Edges.IdsOf(f.rows)[u] == root
    ensures visited == Ball(Undirected(f.rows), {root}, k)
  {
    hide Searching, Indexed, LeadsIdx, OpenIdx, Edges.IdsOf, Ball, EdgeIds;
    ghost var q := Undirected(f.rows);
    var queue := [Item(u, 0)];
    visited := {u};
    ghost var depth: map<nat, nat>, d: nat := map[u := 0], 0;
    FirstItem(q, root, k, u);
    while |queue| > 0
      invariant Searching(q, {root}, k, queue, depth, d, {}) && visited == depth.Keys && u in depth && depth[u] == 0
      invariant |visited| <= |Edges.IdsOf(f.rows)|
      decreases |Edges.IdsOf(f.rows)| - |visited|, |queue|
    {
      var item := queue[0];
      PopItem(q, {root}, k, queue, depth, d);
      queue := queue[1..];
      d := item.depth;
      if item.depth == k {
        FinishItem(q, {root}, k, queue, depth, item.node, d);
        continue;
      }
      BothLists(f, inCsr, item.node);
      visited, queue, depth := PushAll(q, {root}, k, u, item.node, item.depth, f.outCsr.Neighbors(item.node), visited, queue, depth);
      visited, queue, depth := PushAll(q, {root}, k, u, item.node, item.depth, inCsr.Neighbors(item.node), visited, queue, depth);
      FinishItem(q, {root}, k, queue, depth, item.node, d);
    }
    assert queue == [];
    OneRoot(f.rows, root, u);
    SearchedBall(q, {root}, k, depth, d);
  }

  lemma OneRoot(rows: seq<EdgeRow>, root: string, u: nat)
    requires u < |Edges.IdsOf(rows)| && Edges.IdsOf(rows)[u] == root
    ensures forall v: nat | v < |Edges.IdsOf(rows)| && Edges.IdsOf(rows)[v] in {root} :: v == u
  {
    hide Edges.IdsOf;
    Edges.IdsOfDistinct(rows);
  }

  lemma {:induction false} IsolatedRoot(q: Query, root: string, k: nat, x: string)
    requires root !in Edges.IdsOf(q.rows)
    ensures Within(q, {root}, k, x) <==> x == root
    decreases k
  {
    hide Edges.IdsOf, Leads;
    if k > 0 {
      IsolatedRoot(q, root, k - 1, x);
      forall a | Within(q, {root}, k - 1, a)
        ensures !Leads(q, a, x)
      {
        IsolatedRoot(q, root, k - 1, a);
        NoStepFrom(q, root, x);
      }
    }
  }

  lemma NoStepFrom(q: Query, a: string, b: string)
    requires a !in Edges.IdsOf(q.rows)
    ensures !Leads(q, a, b)
  {
    hide Edges.IdsOf, Eligible;
    forall e | 0 <= e < |q.rows|
      ensures !Eligible(q.rows[e], q.spec, q.d, a, b)
    {
      NotEligible(q, e, a, b);
    }
  }

  lemma NotEligible(q: Query, e: nat, a: string, b: string)
    requires e < |q.rows| && a !in Edges.IdsOf(q.rows)
    ensures !Eligible(q.rows[e], q.spec, q.d, a, b)
  {
    hide Edges.IdsOf;
    Edges.EndsIn(q.rows, e);
  }

  /** The ids behind a set of edge-local indices. */
  function IdsAt(g: Graphs.GraphFrame, visited: set<nat>): set<string> {
    set i | i in visited && i < |g.edgeNodeIdxToId| :: g.edgeNodeIdxToId[i]
  }

  lemma IdsAtWithin(g: Graphs.GraphFrame, root: string, k: nat, visited: set<nat>, id: string)
    requires Graphs.Valid(g) && visited == Ball(Undirected(g.edges.rows), {root}, k) && root in Edges.IdsOf(g.edges.rows)
    ensures id in IdsAt(g, visited) <==> Within(Undirected(g.edges.rows), {root}, k, id)
  {
    hide Edges.IdsOf, Edges.Valid, Within, Leads;
    var q, ids := Undirected(g.edges.rows), Edges.IdsOf(g.edges.rows);
    if id in IdsAt(g, visited) {
      var i :| i in visited && i < |ids| && ids[i] == id;
      BallHas(q, {root}, k, i);
    }
    if Within(q, {root}, k, id) {
      if id != root {
        Traversal.WithinIndexed(q, {root}, k, id);
      }
      var i :| 0 <= i < |ids| && ids[i] == id;
      BallHas(q, {root}, k, i);
    }
  }

  lemma InducedIsWithin(rows: seq<NodeRow>, ids: set<string>, q: Query, root: string, k: nat)
    requires forall id :: id in ids <==> Within(q, {root}, k, id)
    ensures Graphs.InducedNodes(rows, ids) == Traversal.NodesWithin(rows, q, {root}, k)
  {
    hide Within, Kept;
    assert Graphs.NodeMask(rows, ids) == Traversal.WithinMask(rows, q, {root}, k);
  }

  lemma SameInduced(nodes: seq<NodeRow>, edges: seq<EdgeRow>, ids: set<string>)
    ensures Graphs.InducedEdges(nodes, edges, ids) == Graphs.InducedEdges(nodes, edges, Nodes.IdSet(Graphs.InducedNodes(nodes, ids)))
  {
    Graphs.InducedIds(nodes, ids);
    var all := Nodes.IdSet(nodes);
    assert ids * all * all == ids * all;
  }

  /** The `k`-hop subgraph of `root`: exactly the nodes within `k` undirected steps and the edges between them. */
  method KHopSubgraph(g: Graphs.GraphFrame, root: string, k: nat) returns (r: Result<Graphs.GraphFrame>)
    requires Graphs.Valid(g)
    ensures r == Failure(NodeNotFound(root)) <==> root !in Nodes.Ids(g.nodes.rows)
    ensures root in Nodes.Ids(g.nodes.rows) ==>
      && r.Success? && Graphs.Valid(r.value)
      && r.value.nodes.rows == Traversal.NodesWithin(g.nodes.rows, Undirected(g.edges.rows), {root}, k)
      && r.value.edges.rows == Graphs.InducedEdges(g.nodes.rows, g.edges.rows, Nodes.IdSet(r.value.nodes.rows))
  {
    hide Edges.IdsOf, Edges.Valid, Indexed, Ball, Within, Kept, Graphs.Valid, Graphs.InducedNodes, Graphs.InducedEdges, Traversal.NodesWithin, IdsAt,
         Nodes.IdSet, Graphs.Closed;
    GraphIndexes(g, root);
    if root !in g.nodeIdToIdx {
      return Failure(NodeNotFound(root));
    }
    var ids: set<string>;
    if root !in g.edgeNodeIdToIdx {
      ids := {root};
      forall id
        ensures id in ids <==> Within(Undirected(g.edges.rows), {root}, k, id)
      {
        IsolatedRoot(Undirected(g.edges.rows), root, k, id);
      }
    } else {
      Traversal.GraphParts(g);
      var inCsr := Edges.InCsr(g.edges);
      NowIndexed(g.edges, inCsr);
      var visited := Discovered(g.edges, inCsr, root, g.edgeNodeIdToIdx[root], k);
      ids := IdsAt(g, visited);
      forall id
        ensures id in ids <==> Within(Undirected(g.edges.rows), {root}, k, id)
      {
        IdsAtWithin(g, root, k, visited, id);
      }
    }
    InducedIsWithin(g.nodes.rows, ids, Undirected(g.edges.rows), root, k);
    SameInduced(g.nodes.rows, g.edges.rows, ids);
    r := Graphs.Subgraph(g, ids);
  }

  lemma GraphIndexes(g: Graphs.GraphFrame, id: string)
    requires Graphs.Valid(g)
    ensures id in g.nodeIdToIdx <==> id in Nodes.Ids(g.nodes.rows)
    ensures id in g.nodes.idIndex <==> id in Nodes.Ids(g.nodes.rows)
    ensures id in g.edgeNodeIdToIdx <==> id in Edges.IdsOf(g.edges.rows)
    ensures id in g.edges.nodeIndex <==> id in Edges.IdsOf(g.edges.rows)
    ensures id in g.edgeNodeIdToIdx ==> g.edgeNodeIdToIdx[id] < |Edges.IdsOf(g.edges.rows)| && Edges.IdsOf(g.edges.rows)[g.edgeNodeIdToIdx[id]] == id
    ensures id in g.edges.nodeIndex ==> g.edges.nodeIndex[id] < |Edges.IdsOf(g.edges.rows)| && Edges.IdsOf(g.edges.rows)[g.edges.nodeIndex[id]] == id
  {
    hide Edges.IdsOf, Edges.TypesOf, Edges.OutOf;
    if id in Edges.IdsOf(g.edges.rows) {
      var i :| 0 <= i < |Edges.IdsOf(g.edges.rows)| && Edges.IdsOf(g.edges.rows)[i] == id;
    }
  }

  // ---- path tests ----

  /** The visited indices are the ball of radius `k`, and the frontier is its outermost layer. */
  ghost predicate Layer(q: Query, src: string, k: nat, visited: set<nat>, frontier: seq<nat>) {
    && visited == Ball(q, {src}, k)
    && (forall v | v in frontier :: v in visited)
    && forall u, v | u in visited && u !in frontier && LeadsIdx(q, u, v) :: v in visited
  }

  /** Mid-round: `now` is the ball being expanded and its members outside `rest` are finished. */
  ghost predicate Growing(q: Query, now: set<nat>, rest: set<nat>, visited: set<nat>, frontier: seq<nat>) {
    && now <= visited && (forall v | v in frontier :: v in visited)
    && (forall v | v in visited && v !in now :: v in frontier && OpenIdx(q, v) && exists u :: u in now && LeadsIdx(q, u, v))
    && forall u, v | u in now && u !in rest && LeadsIdx(q, u, v) :: v in visited
  }

  lemma BeginLayer(q: Query, src: string, k: nat, visited: set<nat>, frontier: seq<nat>)
    requires Layer(q, src, k, visited, frontier)
    ensures Growing(q, visited, Traversal.SetOf(frontier), visited, [])
  {
    hide LeadsIdx, OpenIdx, Ball;
  }

  lemma EndLayer(q: Query, src: string, k: nat, now: set<nat>, visited: set<nat>, frontier: seq<nat>)
    requires now == Ball(q, {src}, k) && Growing(q, now, {}, visited, frontier)
    ensures Layer(q, src, k + 1, visited, frontier)
  {
    hide LeadsIdx, OpenIdx, Ball;
    NextBall(q, {src}, k, now, visited);
  }

  lemma AddToLayer(q: Query, now: set<nat>, rest: set<nat>, visited: set<nat>, frontier: seq<nat>, u: nat, v: nat)
    requires Growing(q, now, rest, visited, frontier) && u in now && LeadsIdx(q, u, v) && OpenIdx(q, v) && v !in visited
    ensures Growing(q, now, rest, visited + {v}, frontier + [v])
  {
    hide LeadsIdx, OpenIdx;
  }

  lemma FinishInLayer(q: Query, now: set<nat>, rest: set<nat>, visited: set<nat>, frontier: seq<nat>, u: nat, rest': set<nat>)
    requires Growing(q, now, rest, visited, frontier) && forall v | LeadsIdx(q, u, v) :: v in visited
    requires rest <= rest' + {u}
    ensures Growing(q, now, rest', visited, frontier)
  {
    hide LeadsIdx, OpenIdx;
  }

  lemma OutSteps(f: Edges.EdgeFrame, u: nat)
    requires Edges.Valid(f)
    ensures f.outCsr.Sliceable() && forall v :: v in f.outCsr.Neighbors(u) <==> LeadsIdx(Outgoing(f.rows), u, v)
    ensures forall v | v in f.outCsr.Neighbors(u) :: OpenIdx(Outgoing(f.rows), v)
  {
    hide Edges.IdsOf, Joins, Edges.Valid, LeadsIdx;
    OutMeans(f, u, u);
    forall v: nat
      ensures v in f.outCsr.Neighbors(u) <==> LeadsIdx(Outgoing(f.rows), u, v)
      ensures v in f.outCsr.Neighbors(u) ==> OpenIdx(Outgoing(f.rows), v)
    {
      OutMeans(f, u, v);
      JoinsMeans(f.rows, u, v);
      EdgeIdsOpen(f.rows, v);
    }
  }

  /** Scans the out-neighbours of `u`; stops as soon as `dst` is one of them. */
  method ScanOut(f: Edges.EdgeFrame, ghost now: set<nat>, ghost rest: set<nat>, u: nat, dst: nat, visited0: set<nat>, frontier0: seq<nat>)
    returns (found: bool, visited: set<nat>, frontier: seq<nat>)
    requires Edges.Valid(f) && Growing(Outgoing(f.rows), now, rest, visited0, frontier0) && u in now
    ensures found ==> LeadsIdx(Outgoing(f.rows), u, dst) && OpenIdx(Outgoing(f.rows), dst)
    ensures !found ==> Growing(Outgoing(f.rows), now, rest, visited, frontier) && forall v | LeadsIdx(Outgoing(f.rows), u, v) :: v in visited
    ensures visited0 <= visited && |frontier| - |frontier0| == |visited| - |visited0|
    ensures !found && dst !in visited0 ==> dst !in visited
  {
    hide Growing, LeadsIdx, OpenIdx, Edges.Valid, Outgoing;
    found, visited, frontier := false, visited0, frontier0;
    OutSteps(f, u);
    var ns := f.outCsr.Neighbors(u);
    var j := 0;
    while j < |ns|
      invariant 0 <= j <= |ns| && Growing(Outgoing(f.rows), now, rest, visited, frontier)
      invariant visited0 <= visited && |frontier| - |frontier0| == |visited| - |visited0|
      invariant forall h | 0 <= h < j :: ns[h] in visited
      invariant dst !in visited0 ==> dst !in visited
    {
      var nb := ns[j];
      assert nb in ns;
      if nb == dst {
        return true, visited, frontier;
      }
      if nb !in visited {
        AddToLayer(Outgoing(f.rows), now, rest, visited, frontier, u, nb);
        visited := visited + {nb};
        frontier := frontier + [nb];
      }
      j := j + 1;
    }
  }

  /** One round: either `dst` turns up as a neighbour of the current ball, or the next ball is complete without it. */
  method NextLayer(f: Edges.EdgeFrame, ghost src: string, ghost k: nat, dst: nat, visited0: set<nat>, frontier0: seq<nat>)
    returns (found: bool, visited: set<nat>, frontier: seq<nat>)
    requires Edges.Valid(f) && Layer(Outgoing(f.rows), src, k, visited0, frontier0)
    ensures found ==> dst in Ball(Outgoing(f.rows), {src}, k + 1)
    ensures !found ==> Layer(Outgoing(f.rows), src, k + 1, visited, frontier) && visited0 <= visited
    ensures !found && dst !in visited0 ==> dst !in visited
    ensures !found ==> |frontier| == |visited| - |visited0|
  {
    hide Growing, Layer, LeadsIdx, OpenIdx, Ball, Edges.Valid, Outgoing, EdgeIds;
    ghost var q := Outgoing(f.rows);
    BeginLayer(q, src, k, visited0, frontier0);
    LayerBall(q, src, k, visited0, frontier0);
    found, visited, frontier := false, visited0, [];
    ghost var rest := Traversal.SetOf(frontier0);
    var i := 0;
    while i < |frontier0|
      invariant 0 <= i <= |frontier0| && rest == Traversal.SetOf(frontier0[i..])
      invariant Growing(q, visited0, rest, visited, frontier) && visited0 <= visited
      invariant dst !in visited0 ==> dst !in visited
      invariant |frontier| == |visited| - |visited0|
    {
      var u := frontier0[i];
      found, visited, frontier := ScanOut(f, visited0, rest, u, dst, visited, frontier);
      if found {
        StepInto(q, src, k, visited0, u, dst);
        return;
      }
      FinishInLayer(q, visited0, rest, visited, frontier, u, Traversal.SetOf(frontier0[i + 1..]));
      i := i + 1;
      rest := Traversal.SetOf(frontier0[i..]);
    }
    assert rest == {};
    EndLayer(q, src, k, visited0, visited, frontier);
  }

  lemma LayerBall(q: Query, src: string, k: nat, visited: set<nat>, frontier: seq<nat>)
    requires Layer(q, src, k, visited, frontier)
    ensures visited == Ball(q, {src}, k) && (forall v | v in frontier :: v in visited)
    ensures |visited| <= |Edges.IdsOf(q.rows)|
  {
    hide Edges.IdsOf;
    Bounded(visited, |Edges.IdsOf(q.rows)|);
  }

  lemma StepInto(q: Query, src: string, k: nat, now: set<nat>, u: nat, v: nat)
    requires now == Ball(q, {src}, k) && u in now && LeadsIdx(q, u, v) && OpenIdx(q, v)
    ensures v in Ball(q, {src}, k + 1)
  {
    hide Edges.IdsOf, Leads;
    assert Within(q, {src}, k, Edges.IdsOf(q.rows)[u]) && Leads(q, Edges.IdsOf(q.rows)[u], Edges.IdsOf(q.rows)[v]);
  }

  /** With an empty frontier every later ball is the same. */
  lemma NothingFurther(q: Query, src: string, k: nat, visited: set<nat>, x: nat)
    requires Layer(q, src, k, visited, []) && x < |Edges.IdsOf(q.rows)| && x !in visited
    ensures forall m: nat | k <= m :: !Within(q, {src}, m, Edges.IdsOf(q.rows)[x])
  {
    hide Edges.IdsOf, LeadsIdx, OpenIdx;
    BallCloses(q, {src}, k);
    forall m: nat | k <= m
      ensures !Within(q, {src}, m, Edges.IdsOf(q.rows)[x])
    {
      ClosedStays(q, {src}, k, m, Edges.IdsOf(q.rows)[x]);
    }
  }

  lemma SmallerToo(q: Query, src: string, k: nat, x: string)
    requires !Within(q, {src}, k, x)
    ensures forall m: nat | m <= k :: !Within(q, {src}, m, x)
  {
    forall m: nat | m <= k
      ensures !Within(q, {src}, m, x)
    {
      if Within(q, {src}, m, x) {
        WithinGrows(q, {src}, m, k, x);
      }
    }
  }

  /** `dst` is within the hop limit of `src`, or within any number of hops if there is none. */
  ghost predicate PathWithin(q: Query, src: string, dst: string, maxHops: Option<nat>) {
    if maxHops.Some? then Within(q, {src}, maxHops.value, dst) else exists k: nat :: Within(q, {src}, k, dst)
  }

  lemma FirstLayer(rows: seq<EdgeRow>, src: string, u: nat)
    requires u < |Edges.IdsOf(rows)| && Edges.IdsOf(rows)[u] == src
    ensures Layer(Outgoing(rows), src, 0, {u}, [u])
  {
    hide Edges.IdsOf;
    OneRoot(rows, src, u);
    forall i: nat
      ensures i in Ball(Outgoing(rows), {src}, 0) <==> i == u
    {
    }
  }

  lemma FoundWithin(q: Query, src: string, k: nat, maxHops: Option<nat>, v: nat)
    requires v in Ball(q, {src}, k) && (maxHops.Some? ==> k <= maxHops.value)
    ensures v < |Edges.IdsOf(q.rows)| && PathWithin(q, src, Edges.IdsOf(q.rows)[v], maxHops)
  {
    hide Edges.IdsOf, Within;
    if maxHops.Some? {
      WithinGrows(q, {src}, k, maxHops.value, Edges.IdsOf(q.rows)[v]);
    }
  }

  lemma NotFound(q: Query, src: string, k: nat, visited: set<nat>, frontier: seq<nat>, maxHops: Option<nat>, v: nat)
    requires Layer(q, src, k, visited, frontier) && v < |Edges.IdsOf(q.rows)| && v !in visited
    requires if frontier == [] then maxHops.Some? ==> k <= maxHops.value else maxHops == Some(k)
    ensures !PathWithin(q, src, Edges.IdsOf(q.rows)[v], maxHops)
  {
    hide Edges.IdsOf, Within, LeadsIdx;
    if frontier == [] {
      NothingFurther(q, src, k, visited, v);
    }
    SmallerToo(q, src, k, Edges.IdsOf(q.rows)[v]);
  }

  lemma NoPathToIsolated(q: Query, src: string, dst: string, maxHops: Option<nat>)
    requires src != dst && (src !in Edges.IdsOf(q.rows) || dst !in Edges.IdsOf(q.rows))
    ensures !PathWithin(q, src, dst, maxHops)
  {
    hide Edges.IdsOf, Within;
    forall k: nat
      ensures !Within(q, {src}, k, dst)
    {
      if src !in Edges.IdsOf(q.rows) {
        IsolatedRoot(q, src, k, dst);
      } else if Within(q, {src}, k, dst) {
        Traversal.WithinIndexed(q, {src}, k, dst);
      }
    }
  }

  lemma SelfPath(q: Query, src: string, maxHops: Option<nat>)
    ensures PathWithin(q, src, src, maxHops)
  {
    assert Within(q, {src}, 0, src);
  }

  /** True exactly when `dst` lies in the outgoing ball of the given radius, the unbounded search included. */
  method HasPath(g: Graphs.GraphFrame, src: string, dst: string, maxHops: Option<nat>) returns (r: Result<bool>)
    requires Graphs.Valid(g)
    ensures r.Failure? <==> src !in Nodes.Ids(g.nodes.rows) || dst !in Nodes.Ids(g.nodes.rows)
    ensures r.Failure? ==> r.error == NodeNotFound(if src !in Nodes.Ids(g.nodes.rows) then src else dst)
    ensures r.Success? ==> (r.value <==> PathWithin(Outgoing(g.edges.rows), src, dst, maxHops))
  {
    hide Edges.IdsOf, Edges.Valid, Graphs.Valid, Layer, PathWithin, Ball, EdgeIds;
    GraphIndexes(g, src);
    GraphIndexes(g, dst);
    Traversal.GraphParts(g);
    if src !in g.nodes.idIndex {
      return Failure(NodeNotFound(src));
    }
    if dst !in g.nodes.idIndex {
      return Failure(NodeNotFound(dst));
    }
    ghost var q := Outgoing(g.edges.rows);
    if src == dst {
      SelfPath(q, src, maxHops);
      return Success(true);
    }
    if src !in g.edges.nodeIndex || dst !in g.edges.nodeIndex {
      NoPathToIsolated(q, src, dst, maxHops);
      return Success(false);
    }
    var s, d := g.edges.nodeIndex[src], g.edges.nodeIndex[dst];
    var visited, frontier, hop := {s}, [s], 0;
    FirstLayer(g.edges.rows, src, s);
    LayerBall(q, src, 0, visited, frontier);
    while |frontier| > 0 && (maxHops.None? || hop < maxHops.value)
      invariant Layer(q, src, hop, visited, frontier) && d !in visited && |visited| <= |Edges.IdsOf(q.rows)|
      invariant maxHops.Some? ==> hop <= maxHops.value
      decreases |Edges.IdsOf(q.rows)| - |visited|, |frontier|
    {
      var found, visited', frontier' := NextLayer(g.edges, src, hop, d, visited, frontier);
      if found {
        FoundWithin(q, src, hop + 1, maxHops, d);
        return Success(true);
      }
      LayerBall(q, src, hop + 1, visited', frontier');
      visited, frontier, hop := visited', frontier', hop + 1;
    }
    NotFound(q, src, hop, visited, frontier, maxHops, d);
    return Success(false);
  }
}
