/** Splitting a graph into shards with boundary edges, and merging it back. */
module Partition {
  import opened Basics
  import opened Rows
  import opened Assignments
  import Nodes = NodeFrames
  import Edges = EdgeFrames
  import Graphs = GraphFrames

  // ---- splitting a list by an assignment ----

  function PartMask(a: seq<nat>, t: nat, w: seq<bool>): (mask: seq<bool>)
    requires |a| == |w|
    ensures |mask| == |a| && forall i | 0 <= i < |a| :: mask[i] <==> w[i] && a[i] == t
  {
    seq(|a|, i requires 0 <= i < |a| => w[i] && a[i] == t)
  }

  function BelowMask(a: seq<nat>, k: nat, w: seq<bool>): (mask: seq<bool>)
    requires |a| == |w|
    ensures |mask| == |a| && forall i | 0 <= i < |a| :: mask[i] <==> w[i] && a[i] < k
  {
    seq(|a|, i requires 0 <= i < |a| => w[i] && a[i] < k)
  }

  function All(n: nat): (w: seq<bool>)
    ensures |w| == n && forall i | 0 <= i < n :: w[i]
  {
    seq(n, _ => true)
  }

  /** The selected entries of parts `0..k`, one part after another. */
  function Parts<T>(s: seq<T>, a: seq<nat>, w: seq<bool>, k: nat): (r: seq<seq<T>>)
    requires |s| == |a| == |w|
    ensures |r| == k && forall t | 0 <= t < k :: r[t] == Kept(s, PartMask(a, t, w))
  {
    seq(k, t requires 0 <= t < k => Kept(s, PartMask(a, t, w)))
  }

  lemma {:induction false} MaskSplit<T(!new)>(s: seq<T>, m: seq<bool>, m1: seq<bool>, m2: seq<bool>)
    requires |s| == |m| == |m1| == |m2| && forall i | 0 <= i < |m| :: (m[i] <==> m1[i] || m2[i]) && !(m1[i] && m2[i])
    ensures multiset(Kept(s, m)) == multiset(Kept(s, m1)) + multiset(Kept(s, m2))
    decreases |s|
  {
    if s != [] {
      var n := |s| - 1;
      MaskSplit(s[..n], m[..n], m1[..n], m2[..n]);
    }
  }

  /** Putting the parts together again gives every selected entry exactly once. */
  lemma {:induction false} PartsConserve<T(!new)>(s: seq<T>, a: seq<nat>, w: seq<bool>, k: nat)
    requires |s| == |a| == |w|
    ensures multiset(Joined(Parts(s, a, w, k))) == multiset(Kept(s, BelowMask(a, k, w)))
    decreases k
  {
    if k == 0 {
      assert Parts(s, a, w, 0) == [];
      KeptNone(s, BelowMask(a, 0, w));
    } else {
      PartsConserve(s, a, w, k - 1);
      MaskSplit(s, BelowMask(a, k, w), BelowMask(a, k - 1, w), PartMask(a, k - 1, w));
      assert Parts(s, a, w, k)[..k - 1] == Parts(s, a, w, k - 1);
    }
  }

  lemma PartsWhole<T(!new)>(s: seq<T>, a: seq<nat>, k: nat)
    requires |s| == |a| && forall i | 0 <= i < |a| :: a[i] < k
    ensures multiset(Joined(Parts(s, a, All(|s|), k))) == multiset(s)
  {
    PartsConserve(s, a, All(|s|), k);
    KeptAll(s, BelowMask(a, k, All(|s|)));
  }

  // ---- partitioned graphs ----

  datatype PartitionedGraph = PartitionedGraph(shards: seq<Graphs.GraphFrame>, boundaryEdges: Edges.EdgeFrame, nShards: nat,
                                               nodeToShard: map<string, nat>) {

    function ShardOf(id: string): Option<nat> {
      if id in nodeToShard then Some(nodeToShard[id]) else None
    }
  }

  /** The part an edge belongs to: its endpoints' shard if they share one, otherwise the boundary `n`. */
  function EdgePart(r: EdgeRow, shardOf: map<string, nat>, n: nat): nat {
    if r.src in shardOf && r.dst in shardOf && shardOf[r.src] == shardOf[r.dst] then shardOf[r.src] else n
  }

  function EdgeParts(rows: seq<EdgeRow>, shardOf: map<string, nat>, n: nat): (r: seq<nat>)
    ensures |r| == |rows| && forall e | 0 <= e < |rows| :: r[e] == EdgePart(rows[e], shardOf, n)
  {
    seq(|rows|, e requires 0 <= e < |rows| => EdgePart(rows[e], shardOf, n))
  }

  /** The lookup gives every node of the table its assigned shard, and nothing else. */
  ghost predicate Assigns(shardOf: map<string, nat>, rows: seq<NodeRow>, a: seq<nat>) {
    && |a| == |rows|
    && (forall i | 0 <= i < |rows| :: rows[i].id in shardOf && shardOf[rows[i].id] == a[i])
    && forall id | id in shardOf :: id in Nodes.Ids(rows)
  }

  ghost predicate Shard(g: Graphs.GraphFrame, a: seq<nat>, shardOf: map<string, nat>, n: nat, t: nat, shard: Graphs.GraphFrame)
    requires |a| == |g.nodes.rows|
  {
    && Graphs.Valid(shard) && Graphs.Closed(shard.nodes.rows, shard.edges.rows)
    && shard.nodes.rows == Kept(g.nodes.rows, PartMask(a, t, All(|a|)))
    && shard.edges.rows == Kept(g.edges.rows, PartMask(EdgeParts(g.edges.rows, shardOf, n), t, All(|g.edges.rows|)))
  }

  /** Every node sits in the one shard it is assigned to, every edge in the one part that fits it, and each
      shard is a valid graph whose edges stay inside it. */
  ghost predicate Partitioned(g: Graphs.GraphFrame, a: seq<nat>, pg: PartitionedGraph) {
    && Graphs.Valid(g) && |a| == |g.nodes.rows| && (forall i | 0 <= i < |a| :: a[i] < pg.nShards)
    && pg.nShards > 0 && |pg.shards| == pg.nShards && Assigns(pg.nodeToShard, g.nodes.rows, a)
    && (forall t | 0 <= t < pg.nShards :: Shard(g, a, pg.nodeToShard, pg.nShards, t, pg.shards[t]))
    && Edges.Valid(pg.boundaryEdges)
    && pg.boundaryEdges.rows ==
       Kept(g.edges.rows, PartMask(EdgeParts(g.edges.rows, pg.nodeToShard, pg.nShards), pg.nShards, All(|g.edges.rows|)))
  }

  method BuildShardMap(rows: seq<NodeRow>, a: seq<nat>) returns (shardOf: map<string, nat>)
    requires |a| == |rows| && Distinct(Nodes.Ids(rows))
    ensures Assigns(shardOf, rows, a)
  {
    shardOf := map[];
    var i := 0;
    while i < |rows|
      invariant 0 <= i <= |rows|
      invariant forall k | 0 <= k < i :: rows[k].id in shardOf && shardOf[rows[k].id] == a[k]
      invariant forall id | id in shardOf :: id in Nodes.Ids(rows)
    {
      assert Nodes.Ids(rows)[i] == rows[i].id;
      assert forall k | 0 <= k < i :: Nodes.Ids(rows)[k] != Nodes.Ids(rows)[i];
      shardOf := shardOf[rows[i].id := a[i]];
      i := i + 1;
    }
  }

  /** The boolean masks are filled row by row; an edge whose ends do not share a shard goes to the boundary. */
  method EdgeMasks(rows: seq<EdgeRow>, shardOf: map<string, nat>, n: nat) returns (shardMasks: seq<seq<bool>>, boundaryMask: seq<bool>)
    requires forall id | id in shardOf :: shardOf[id] < n
    ensures |shardMasks| == n && forall t | 0 <= t < n :: shardMasks[t] == PartMask(EdgeParts(rows, shardOf, n), t, All(|rows|))
    ensures boundaryMask == PartMask(EdgeParts(rows, shardOf, n), n, All(|rows|))
  {
    var none := seq(|rows|, _ => false);
    shardMasks := seq(n, _ => none);
    boundaryMask := none;
    ghost var parts := EdgeParts(rows, shardOf, n);
    var row := 0;
    while row < |rows|
      invariant 0 <= row <= |rows| && |shardMasks| == n && |boundaryMask| == |rows|
      invariant forall t | 0 <= t < n :: |shardMasks[t]| == |rows|
      invariant forall t, e | 0 <= t < n && 0 <= e < |rows| :: shardMasks[t][e] <==> e < row && parts[e] == t
      invariant forall e | 0 <= e < |rows| :: boundaryMask[e] <==> e < row && parts[e] == n
    {
      var r := rows[row];
      if r.src in shardOf && r.dst in shardOf && shardOf[r.src] == shardOf[r.dst] {
        var s := shardOf[r.src];
        shardMasks := shardMasks[s := shardMasks[s][row := true]];
      } else {
        boundaryMask := boundaryMask[row := true];
      }
      row := row + 1;
    }
  }

  method NodeMasks(a: seq<nat>, n: nat) returns (masks: seq<seq<bool>>)
    requires forall i | 0 <= i < |a| :: a[i] < n
    ensures |masks| == n && forall t | 0 <= t < n :: masks[t] == PartMask(a, t, All(|a|))
  {
    var none := seq(|a|, _ => false);
    masks := seq(n, _ => none);
    var row := 0;
    while row < |a|
      invariant 0 <= row <= |a| && |masks| == n
      invariant forall t | 0 <= t < n :: |masks[t]| == |a|
      invariant forall t, i | 0 <= t < n && 0 <= i < |a| :: masks[t][i] <==> i < row && a[i] == t
    {
      masks := masks[a[row] := masks[a[row]][row := true]];
      row := row + 1;
    }
  }

  /** An edge kept in shard `t` has both ends among the nodes kept in shard `t`. */
  lemma ShardClosed(g: Graphs.GraphFrame, a: seq<nat>, shardOf: map<string, nat>, n: nat, t: nat)
    requires Assigns(shardOf, g.nodes.rows, a) && t < n
    ensures Graphs.Closed(Kept(g.nodes.rows, PartMask(a, t, All(|a|))),
                          Kept(g.edges.rows, PartMask(EdgeParts(g.edges.rows, shardOf, n), t, All(|g.edges.rows|))))
  {
    hide Kept, PartMask, EdgeParts;
    var nodes := Kept(g.nodes.rows, PartMask(a, t, All(|a|)));
    var mask := PartMask(EdgeParts(g.edges.rows, shardOf, n), t, All(|g.edges.rows|));
    var edges := Kept(g.edges.rows, mask);
    forall e | 0 <= e < |edges|
      ensures Graphs.EndsKnown(nodes, edges[e])
    {
      KeptMember(g.edges.rows, mask, edges[e]);
      var i :| 0 <= i < |g.edges.rows| && mask[i] && g.edges.rows[i] == edges[e];
      NodeInShard(g.nodes.rows, a, shardOf, t, edges[e].src);
      NodeInShard(g.nodes.rows, a, shardOf, t, edges[e].dst);
    }
  }

  lemma NodeInShard(rows: seq<NodeRow>, a: seq<nat>, shardOf: map<string, nat>, t: nat, id: string)
    requires Assigns(shardOf, rows, a)
    ensures id in shardOf && shardOf[id] == t <==> id in Nodes.Ids(Kept(rows, PartMask(a, t, All(|a|))))
  {
    hide Kept, PartMask;
    var mask := PartMask(a, t, All(|a|));
    var kept := Kept(rows, mask);
    if id in shardOf && shardOf[id] == t {
      var i :| 0 <= i < |rows| && Nodes.Ids(rows)[i] == id;
      KeptMember(rows, mask, rows[i]);
      var k :| 0 <= k < |kept| && kept[k] == rows[i];
      assert Nodes.Ids(kept)[k] == id;
    }
    if id in Nodes.Ids(kept) {
      var k :| 0 <= k < |kept| && Nodes.Ids(kept)[k] == id;
      KeptMember(rows, mask, kept[k]);
      var i :| 0 <= i < |rows| && mask[i] && rows[i] == kept[k];
    }
  }

  lemma ShardBounds(shardOf: map<string, nat>, rows: seq<NodeRow>, a: seq<nat>, n: nat)
    requires Assigns(shardOf, rows, a) && forall i | 0 <= i < |a| :: a[i] < n
    ensures forall id | id in shardOf :: shardOf[id] < n
  {
    forall id | id in shardOf
      ensures shardOf[id] < n
    {
      var i :| 0 <= i < |rows| && Nodes.Ids(rows)[i] == id;
    }
  }

  // ---- a row lives in exactly one place ----

  lemma RowPlace(g: Graphs.GraphFrame, a: seq<nat>, pg: PartitionedGraph, r: EdgeRow)
    requires Partitioned(g, a, pg)
    ensures r in pg.boundaryEdges.rows <==> r in g.edges.rows && EdgePart(r, pg.nodeToShard, pg.nShards) == pg.nShards
    ensures forall t | 0 <= t < pg.nShards :: r in pg.shards[t].edges.rows <==> r in g.edges.rows && EdgePart(r, pg.nodeToShard, pg.nShards) == t
  {
    hide Kept, Graphs.Valid, Graphs.Closed, Edges.Valid, Assigns, PartMask, EdgePart;
    PlaceOf(g.edges.rows, pg.nodeToShard, pg.nShards, pg.nShards, r);
    forall t | 0 <= t < pg.nShards
      ensures r in pg.shards[t].edges.rows <==> r in g.edges.rows && EdgePart(r, pg.nodeToShard, pg.nShards) == t
    {
      assert Shard(g, a, pg.nodeToShard, pg.nShards, t, pg.shards[t]);
      PlaceOf(g.edges.rows, pg.nodeToShard, pg.nShards, t, r);
    }
  }

  lemma PlaceOf(rows: seq<EdgeRow>, shardOf: map<string, nat>, n: nat, t: nat, r: EdgeRow)
    ensures r in Kept(rows, PartMask(EdgeParts(rows, shardOf, n), t, All(|rows|))) <==> r in rows && EdgePart(r, shardOf, n) == t
  {
    hide EdgePart, Kept;
    var parts := EdgeParts(rows, shardOf, n);
    var mask := PartMask(parts, t, All(|rows|));
    KeptMember(rows, mask, r);
    if r in rows && EdgePart(r, shardOf, n) == t {
      var e :| 0 <= e < |rows| && rows[e] == r;
      assert mask[e];
    }
  }

  /** An edge row is in the shard of its two ends if they share one, and otherwise in the boundary; nowhere else. */
  ghost predicate EdgesPlaced(g: Graphs.GraphFrame, pg: PartitionedGraph) {
    forall r | r in g.edges.rows ::
      var inside := r.src in pg.nodeToShard && r.dst in pg.nodeToShard && pg.nodeToShard[r.src] == pg.nodeToShard[r.dst];
      && (r in pg.boundaryEdges.rows <==> !inside)
      && forall t | 0 <= t < |pg.shards| :: r in pg.shards[t].edges.rows <==> inside && pg.nodeToShard[r.src] == t
  }

  lemma EdgesArePlaced(g: Graphs.GraphFrame, a: seq<nat>, pg: PartitionedGraph)
    requires Partitioned(g, a, pg)
    ensures EdgesPlaced(g, pg)
  {
    hide Kept, Graphs.Valid, Graphs.Closed, Edges.Valid, Assigns, PartMask, Shard;
    forall r | r in g.edges.rows
      ensures var inside := r.src in pg.nodeToShard && r.dst in pg.nodeToShard && pg.nodeToShard[r.src] == pg.nodeToShard[r.dst];
              && (r in pg.boundaryEdges.rows <==> !inside)
              && forall t | 0 <= t < |pg.shards| :: r in pg.shards[t].edges.rows <==> inside && pg.nodeToShard[r.src] == t
    {
      ShardBounds(pg.nodeToShard, g.nodes.rows, a, pg.nShards);
      RowPlace(g, a, pg, r);
    }
  }

  lemma AssignedShards(shardOf: map<string, nat>, rows: seq<NodeRow>, a: seq<nat>)
    requires Assigns(shardOf, rows, a)
    ensures |a| == |rows| && forall i | 0 <= i < |rows| :: rows[i].id in shardOf && shardOf[rows[i].id] == a[i]
  {
  }

  /** Splits a graph into `nShards` shards and a boundary, for every method and every hash function. */
  method SplitGraph(g: Graphs.GraphFrame, nShards: nat, how: PartitionMethod, hash: string -> nat)
    returns (r: Result<PartitionedGraph>, ghost a: seq<nat>)
    requires Graphs.Valid(g)
    ensures r == Failure(InvalidConfig) <==> nShards == 0
    ensures nShards > 0 ==> r.Success? && r.value.nShards == nShards && Partitioned(g, a, r.value)
    ensures nShards > 0 ==> AssignedBy(how, g.nodes.rows, nShards, hash, a)
    ensures nShards > 0 ==> EdgesPlaced(g, r.value)
    ensures nShards > 0 ==> forall i | 0 <= i < |g.nodes.rows| :: g.nodes.rows[i].id in r.value.nodeToShard && r.value.nodeToShard[g.nodes.rows[i].id] == a[i]
  {
    hide EdgesPlaced, Graphs.Valid, Kept, PartMask, EdgeParts, AssignedBy, Assigns, Edges.Valid, Nodes.Valid, Graphs.Closed;
    a := [];
    if nShards == 0 {
      return Failure(InvalidConfig), a;
    }
    GraphFacts(g);
    var assignments := AssignNodes(g.nodes.rows, nShards, how, hash);
    a := assignments;
    var nodeToShard := BuildShardMap(g.nodes.rows, assignments);
    ShardBounds(nodeToShard, g.nodes.rows, assignments, nShards);
    var nodeMasks := NodeMasks(assignments, nShards);
    var edgeMasks, boundaryMask := EdgeMasks(g.edges.rows, nodeToShard, nShards);
    var shards: seq<Graphs.GraphFrame> := [];
    var t := 0;
    while t < nShards
      invariant 0 <= t <= nShards && |shards| == t
      invariant forall k | 0 <= k < t :: Shard(g, assignments, nodeToShard, nShards, k, shards[k])
    {
      var shardNodes := Nodes.Filter(g.nodes, nodeMasks[t]);
      var shardEdges := Edges.Filter(g.edges, edgeMasks[t]);
      ShardClosed(g, assignments, nodeToShard, nShards, t);
      var shard := Graphs.New(shardNodes.value, shardEdges.value);
      shards := shards + [shard.value];
      t := t + 1;
    }
    var boundary := Edges.Filter(g.edges, boundaryMask);
    var pg := PartitionedGraph(shards, boundary.value, nShards, nodeToShard);
    EdgesArePlaced(g, a, pg);
    AssignedShards(nodeToShard, g.nodes.rows, a);
    return Success(pg), a;
  }

  lemma GraphFacts(g: Graphs.GraphFrame)
    requires Graphs.Valid(g)
    ensures Nodes.Valid(g.nodes) && Edges.Valid(g.edges) && Distinct(Nodes.Ids(g.nodes.rows))
  {
    hide Edges.Valid;
  }

  // ---- conservation ----

  function NodeFramesOf(shards: seq<Graphs.GraphFrame>): (r: seq<Nodes.NodeFrame>)
    ensures |r| == |shards| && forall t | 0 <= t < |r| :: r[t] == shards[t].nodes
  {
    seq(|shards|, t requires 0 <= t < |shards| => shards[t].nodes)
  }

  function EdgeFramesOf(shards: seq<Graphs.GraphFrame>): (r: seq<Edges.EdgeFrame>)
    ensures |r| == |shards| && forall t | 0 <= t < |r| :: r[t] == shards[t].edges
  {
    seq(|shards|, t requires 0 <= t < |shards| => shards[t].edges)
  }

  /** Together the shards hold every node row once. */
  lemma NodesConserved(g: Graphs.GraphFrame, a: seq<nat>, pg: PartitionedGraph)
    requires Partitioned(g, a, pg)
    ensures multiset(Joined(Nodes.RowsOf(NodeFramesOf(pg.shards)))) == multiset(g.nodes.rows)
  {
    hide Graphs.Valid, Kept, Edges.Valid, Assigns, Graphs.Closed;
    PartsWhole(g.nodes.rows, a, pg.nShards);
    assert Nodes.RowsOf(NodeFramesOf(pg.shards)) == Parts(g.nodes.rows, a, All(|a|), pg.nShards);
  }

  /** The shards' rows and then the boundary's are the parts in order. */
  lemma PartRows(g: Graphs.GraphFrame, a: seq<nat>, pg: PartitionedGraph)
    requires Partitioned(g, a, pg)
    ensures var parts := EdgeParts(g.edges.rows, pg.nodeToShard, pg.nShards);
            Edges.RowsOf(EdgeFramesOf(pg.shards) + [pg.boundaryEdges]) == Parts(g.edges.rows, parts, All(|g.edges.rows|), pg.nShards + 1)
  {
    hide Graphs.Valid, Kept, Edges.Valid, Graphs.Closed, Assigns;
    var parts := EdgeParts(g.edges.rows, pg.nodeToShard, pg.nShards);
    var frames := EdgeFramesOf(pg.shards) + [pg.boundaryEdges];
    var want := Parts(g.edges.rows, parts, All(|g.edges.rows|), pg.nShards + 1);
    forall t | 0 <= t < |frames|
      ensures frames[t].rows == want[t]
    {
      if t < pg.nShards {
        assert Shard(g, a, pg.nodeToShard, pg.nShards, t, pg.shards[t]);
      }
    }
  }

  /** Together the shards and the boundary hold every edge row once. */
  lemma EdgesConserved(g: Graphs.GraphFrame, a: seq<nat>, pg: PartitionedGraph)
    requires Partitioned(g, a, pg)
    ensures multiset(Joined(Edges.RowsOf(EdgeFramesOf(pg.shards) + [pg.boundaryEdges]))) == multiset(g.edges.rows)
  {
    hide Graphs.Valid, Kept, Edges.Valid, Graphs.Closed, Shard, Parts;
    ShardBounds(pg.nodeToShard, g.nodes.rows, a, pg.nShards);
    PartRows(g, a, pg);
    PartsWhole(g.edges.rows, EdgeParts(g.edges.rows, pg.nodeToShard, pg.nShards), pg.nShards + 1);
  }

  lemma {:induction false} SameIds(a: seq<NodeRow>, b: seq<NodeRow>)
    requires multiset(a) <= multiset(b) && Distinct(Nodes.Ids(b))
    ensures Distinct(Nodes.Ids(a))
  {
    forall i, j | 0 <= i < j < |a|
      ensures a[i].id != a[j].id
    {
      assert a[i] in multiset(a) && a[j] in multiset(a);
      var x :| 0 <= x < |b| && b[x] == a[i];
      var y :| 0 <= y < |b| && b[y] == a[j];
      assert Nodes.Ids(b)[x] == a[i].id && Nodes.Ids(b)[y] == a[j].id;
      if x == y {
        TwiceInOnce(a, i, j);
        OnceIn(b, a[i]);
      }
    }
  }

  lemma TwiceInOnce<T>(a: seq<T>, i: nat, j: nat)
    requires i < j < |a| && a[i] == a[j]
    ensures multiset(a)[a[i]] >= 2
  {
    assert a == a[..j] + [a[j]] + a[j + 1..];
    assert a[i] in a[..j];
    assert multiset(a[..j])[a[i]] >= 1;
  }

  lemma {:induction false} OnceIn(b: seq<NodeRow>, x: NodeRow)
    requires Distinct(Nodes.Ids(b))
    ensures multiset(b)[x] <= 1
  {
    if b != [] {
      var n := |b| - 1;
      assert Nodes.Ids(b[..n]) == Nodes.Ids(b)[..n];
      OnceIn(b[..n], x);
      assert b == b[..n] + [b[n]];
      forall i | 0 <= i < n
        ensures b[i] != b[n]
      {
        assert Nodes.Ids(b)[i] != Nodes.Ids(b)[n];
      }
    }
  }

  lemma ClosedByMembers(nodes: seq<NodeRow>, edges: seq<EdgeRow>, nodes': seq<NodeRow>, edges': seq<EdgeRow>)
    requires multiset(nodes) == multiset(nodes') && multiset(edges) == multiset(edges') && Graphs.Closed(nodes, edges)
    ensures Graphs.Closed(nodes', edges')
  {
    forall e | 0 <= e < |edges'|
      ensures Graphs.EndsKnown(nodes', edges'[e])
    {
      assert edges'[e] in multiset(edges');
      var k :| 0 <= k < |edges| && edges[k] == edges'[e];
      assert Graphs.EndsKnown(nodes, edges[k]);
      IdKept(nodes, nodes', edges[k].src);
      IdKept(nodes, nodes', edges[k].dst);
    }
  }

  lemma IdKept(nodes: seq<NodeRow>, nodes': seq<NodeRow>, id: string)
    requires multiset(nodes) == multiset(nodes') && id in Nodes.Ids(nodes)
    ensures id in Nodes.Ids(nodes')
  {
    var i :| 0 <= i < |nodes| && Nodes.Ids(nodes)[i] == id;
    assert nodes[i] in multiset(nodes);
    var j :| 0 <= j < |nodes'| && nodes'[j] == nodes[i];
    assert Nodes.Ids(nodes')[j] == id;
  }

  /** Merging a partitioned graph restores its node rows and its edge rows; it fails only on a graph that
      already had a dangling edge. */
  method Merge(ghost g: Graphs.GraphFrame, ghost a: seq<nat>, pg: PartitionedGraph) returns (r: Result<Graphs.GraphFrame>)
    requires Partitioned(g, a, pg)
    ensures r.Success? <==> Graphs.Closed(g.nodes.rows, g.edges.rows)
    ensures r.Success? ==> Graphs.Valid(r.value)
    ensures r.Success? ==> multiset(r.value.nodes.rows) == multiset(g.nodes.rows) && multiset(r.value.edges.rows) == multiset(g.edges.rows)
    ensures r.Failure? ==> r.error.DanglingEdge?
  {
    hide Partitioned, Graphs.Valid, Edges.Valid, Nodes.Valid, Graphs.Closed, Joined;
    PartFrames(g, a, pg);
    NodesConserved(g, a, pg);
    EdgesConserved(g, a, pg);
    var nodeFrames := NodeFramesOf(pg.shards);
    var edgeFrames := EdgeFramesOf(pg.shards) + [pg.boundaryEdges];
    SameIds(Joined(Nodes.RowsOf(nodeFrames)), g.nodes.rows);
    var nodes := Nodes.Concat(nodeFrames);
    var edges := Edges.Concat(edgeFrames);
    r := Graphs.New(nodes.value, edges.value);
    if r.Success? {
      ClosedByMembers(nodes.value.rows, edges.value.rows, g.nodes.rows, g.edges.rows);
    }
    if Graphs.Closed(g.nodes.rows, g.edges.rows) {
      ClosedByMembers(g.nodes.rows, g.edges.rows, nodes.value.rows, edges.value.rows);
    }
  }

  lemma PartFrames(g: Graphs.GraphFrame, a: seq<nat>, pg: PartitionedGraph)
    requires Partitioned(g, a, pg)
    ensures |pg.shards| > 0 && Distinct(Nodes.Ids(g.nodes.rows))
    ensures forall t | 0 <= t < |pg.shards| :: Nodes.Valid(NodeFramesOf(pg.shards)[t])
    ensures forall t | 0 <= t < |pg.shards| + 1 :: Edges.Valid((EdgeFramesOf(pg.shards) + [pg.boundaryEdges])[t])
  {
    hide Kept, Graphs.Closed, Edges.Valid, Assigns;
    GraphFacts(g);
    forall t | 0 <= t < |pg.shards|
      ensures Nodes.Valid(pg.shards[t].nodes) && Edges.Valid(pg.shards[t].edges)
    {
      assert Shard(g, a, pg.nodeToShard, pg.nShards, t, pg.shards[t]);
    }
  }
}
