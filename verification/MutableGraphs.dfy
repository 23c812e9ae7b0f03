/** The delta-buffered mutable graph: a base CSR snapshot with tombstones, frozen mini-CSR chunks and a
    pending buffer, kept in step with a plain edge list. */
module MutableGraphs {
  import opened Basics
  import opened Rows
  import opened PlainGraphs
  import opened MutableStores
  import Csr
  import Nodes = NodeFrames
  import Edges = EdgeFrames
  import Graphs = GraphFrames
  import Reads = MutableReads
  import Steps = MutableSteps
  import Merges = MutableMerges

  // ---- bridging facts ----

  lemma ValidReady(s: Store, t: Trace)
    requires MutableStores.Valid(s, t)
    ensures Ready(s, t) && |s.pending| <= FLUSH_THRESHOLD
  {
  }

  lemma ReadyNodes(s: Store, t: Trace)
    requires Ready(s, t)
    ensures NodesOk(s)
  {
  }

  lemma ReadyValid(s: Store, t: Trace)
    requires Ready(s, t) && |s.pending| <= FLUSH_THRESHOLD
    ensures MutableStores.Valid(s, t)
  {
  }

  lemma {:induction false} LoadedEdges(rows: seq<EdgeRow>, tomb: seq<bool>, live: set<string>)
    requires |rows| == |tomb| && forall e | 0 <= e < |rows| :: tomb[e] && EndsLive(rows[e], live)
    ensures LiveBase(rows, tomb, live) == Merges.Loaded(rows)
  {
    if rows != [] {
      LoadedEdges(rows[..|rows| - 1], tomb[..|rows| - 1], live);
    }
  }

  lemma NumbersIndex(index: map<string, nat>, ids: seq<string>)
    requires Numbers(index, ids)
    ensures forall id | id in index :: index[id] < |ids| && ids[index[id]] == id
    ensures forall id :: id in index <==> id in ids
  {
    forall id | id in index
      ensures index[id] < |ids| && ids[index[id]] == id
    {
      var i :| 0 <= i < |ids| && ids[i] == id;
    }
  }

  lemma LoadedNodes(s: Store, g: Graphs.GraphFrame)
    requires Graphs.Valid(g) && s.nodeFrame == g.nodes && s.nodeIdToIdx == g.nodeIdToIdx && s.nodeIdxToId == g.nodeIdxToId
    requires |s.nodeTombstones| == |g.nodes.rows| && forall r | 0 <= r < |g.nodes.rows| :: s.nodeTombstones[r]
    ensures NodesOk(s) && LiveNodes(s) == g.nodes.rows
  {
    hide Edges.Valid, Edges.IdsOf;
    NumbersIndex(g.nodeIdToIdx, Nodes.Ids(g.nodes.rows));
    forall r | 0 <= r < |g.nodes.rows|
      ensures g.nodes.rows[r].id in g.nodeIdToIdx
    {
      assert Nodes.Ids(g.nodes.rows)[r] == g.nodes.rows[r].id;
    }
    KeptAll(g.nodes.rows, s.nodeTombstones);
  }

  lemma LoadedIndex(g: Graphs.GraphFrame)
    requires Graphs.Valid(g) && Graphs.Closed(g.nodes.rows, g.edges.rows)
    ensures IndexOk(g.edgeNodeIdToIdx, g.edgeNodeIdxToId, g.nodeIdToIdx, {})
    ensures forall i | 0 <= i < |g.edgeNodeIdxToId| :: Current(g.edgeNodeIdToIdx, g.edgeNodeIdxToId, i)
  {
    hide Edges.Valid, Edges.IdsOf, Nodes.Valid;
    var ids := Edges.IdsOf(g.edges.rows);
    NumbersIndex(g.edgeNodeIdToIdx, ids);
    NumbersIndex(g.nodeIdToIdx, Nodes.Ids(g.nodes.rows));
    forall id | id in g.edgeNodeIdToIdx
      ensures id in g.nodeIdToIdx
    {
      Edges.IdsOfMember(g.edges.rows, id);
      var e :| 0 <= e < |g.edges.rows| && Touches(g.edges.rows[e], id);
      assert Graphs.EndsKnown(g.nodes.rows, g.edges.rows[e]);
    }
  }

  lemma LoadedBase(s: Store, g: Graphs.GraphFrame)
    requires Graphs.Valid(g) && s.edgeData == g.edges && s.baseCsr == g.edges.outCsr && s.stableRows
    requires s.edgeNodeIdToIdx == g.edgeNodeIdToIdx && s.edgeNodeIdxToId == g.edgeNodeIdxToId && |s.edgeTombstones| == |g.edges.rows|
    requires forall i | 0 <= i < |g.edgeNodeIdxToId| :: Current(g.edgeNodeIdToIdx, g.edgeNodeIdxToId, i)
    ensures BaseOk(s)
  {
    hide Edges.Valid, Edges.IdsOf, Current;
    forall e | 0 <= e < |g.edges.rows|
      ensures Edges.SrcIdx(g.edges.rows)[e] < |Edges.IdsOf(g.edges.rows)| && Edges.DstIdx(g.edges.rows)[e] < |Edges.IdsOf(g.edges.rows)|
    {
      Edges.EndsIn(g.edges.rows, e);
    }
  }

  /** A freshly loaded graph satisfies the invariant and stands for its own rows. */
  lemma LoadedValid(s: Store, g: Graphs.GraphFrame)
    requires Graphs.Valid(g) && Graphs.Closed(g.nodes.rows, g.edges.rows)
    requires s.nodeFrame == g.nodes && s.nodeIdToIdx == g.nodeIdToIdx && s.nodeIdxToId == g.nodeIdxToId
    requires s.edgeData == g.edges && s.baseCsr == g.edges.outCsr && s.stableRows && s.pending == [] && s.frozen == []
    requires s.edgeNodeIdToIdx == g.edgeNodeIdToIdx && s.edgeNodeIdxToId == g.edgeNodeIdxToId
    requires |s.nodeTombstones| == |g.nodes.rows| && forall r | 0 <= r < |g.nodes.rows| :: s.nodeTombstones[r]
    requires |s.edgeTombstones| == |g.edges.rows| && forall e | 0 <= e < |g.edges.rows| :: s.edgeTombstones[e]
    ensures MutableStores.Valid(s, Trace([], {})) && NeverReadded(s, Trace([], {}))
    ensures Sized(s) && View(s) == Plain(g.nodes.rows, Merges.Loaded(g.edges.rows), |g.edges.rows|)
  {
    hide Graphs.Valid, Graphs.Closed, NodesOk, BaseOk, IndexOk, LiveBase, Current, LiveNodes, LiveIds;
    LoadedNodes(s, g);
    LoadedIndex(g);
    LoadedBase(s, g);
    ReadySized(s, Trace([], {}));
    Steps.BaseLive(s, Trace([], {}));
    LoadedEdges(g.edges.rows, s.edgeTombstones, LiveIds(s));
    assert ChunkRows([]) == [] && PendingFrames([]) == [];
  }

  function PendingEdges(pending: seq<PendingEdgeRow>): (r: seq<Edges.EdgeFrame>)
    ensures |r| == |pending| && forall k | 0 <= k < |pending| :: r[k] == pending[k].edge
    ensures Edges.RowsOf(r) == PendingFrames(pending)
  {
    seq(|pending|, k requires 0 <= k < |pending| => pending[k].edge)
  }

  lemma PendingBuildable(s: Store, t: Trace)
    requires Ready(s, t)
    ensures Csr.Covers(Steps.PendingEnds(s.pending).src, |s.edgeNodeIdxToId|)
    ensures forall k | 0 <= k < |s.pending| :: Edges.Valid(PendingEdges(s.pending)[k])
  {
    hide NodesOk, BaseOk, FrozenOk, IndexOk, Edges.Valid;
    Steps.PendingNames(s.pending, s.edgeNodeIdToIdx, s.edgeNodeIdxToId);
    PendingFramesValid(s.pending, s.edgeNodeIdToIdx, s.edgeNodeIdxToId);
  }

  lemma PendingFramesValid(pending: seq<PendingEdgeRow>, index: map<string, nat>, ids: seq<string>)
    requires PendingOk(pending, index, ids)
    ensures forall k | 0 <= k < |pending| :: Edges.Valid(pending[k].edge)
  {
    forall k | 0 <= k < |pending|
      ensures Edges.Valid(pending[k].edge)
    {
      assert RowOk(pending[k], index, ids);
    }
  }

  /** `id` resolves to the current index `idx`. */
  predicate Resolves(index: map<string, nat>, ids: seq<string>, id: string, idx: nat) {
    Current(index, ids, idx) && ids[idx] == id
  }

  lemma RegisterResolves(s: Store, t: Trace, id: string)
    requires Ready(s, t) && id !in s.edgeNodeIdToIdx && id in s.nodeIdToIdx
    ensures Resolves(s.edgeNodeIdToIdx[id := |s.edgeNodeIdxToId|], s.edgeNodeIdxToId + [id], id, |s.edgeNodeIdxToId|)
    ensures forall x, i :: Resolves(s.edgeNodeIdToIdx, s.edgeNodeIdxToId, x, i) ==>
                           Resolves(s.edgeNodeIdToIdx[id := |s.edgeNodeIdxToId|], s.edgeNodeIdxToId + [id], x, i)
  {
    hide NodesOk, BaseOk, PendingOk, FrozenOk;
    Steps.RegisterIndex(s.edgeNodeIdToIdx, s.edgeNodeIdxToId, s.nodeIdToIdx, t.deleted, id);
  }

  lemma KnownResolves(s: Store, t: Trace, id: string)
    requires Ready(s, t) && id in s.edgeNodeIdToIdx
    ensures id in s.nodeIdToIdx && Resolves(s.edgeNodeIdToIdx, s.edgeNodeIdxToId, id, s.edgeNodeIdToIdx[id])
  {
    hide NodesOk, BaseOk, PendingOk, FrozenOk;
  }

  lemma RowMade(p: PendingEdgeRow, index: map<string, nat>, ids: seq<string>)
    requires Edges.Valid(p.edge) && |p.edge.rows| == 1
    requires Resolves(index, ids, p.edge.rows[0].src, p.srcIdx) && Resolves(index, ids, p.edge.rows[0].dst, p.dstIdx)
    ensures RowOk(p, index, ids)
  {
  }

  lemma {:induction false} LiveBaseMember(rows: seq<EdgeRow>, tomb: seq<bool>, live: set<string>, row: nat, e: PlainEdge)
    requires |rows| == |tomb| && e.base == Some(row)
    ensures e in LiveBase(rows, tomb, live) <==> row < |rows| && tomb[row] && EndsLive(rows[row], live) && e.row == rows[row]
  {
    if rows != [] {
      LiveBaseMember(rows[..|rows| - 1], tomb[..|rows| - 1], live, row, e);
    }
  }

  lemma {:induction false} LiveDeltaMember(rows: seq<EdgeRow>, live: set<string>)
    ensures forall e | e in LiveDelta(rows, live) :: e.base == None
  {
    if rows != [] {
      LiveDeltaMember(rows[..|rows| - 1], live);
    }
  }

  /** A stable row is present exactly while its tombstone says so. */
  lemma BaseRowLive(s: Store, t: Trace, row: nat)
    requires MutableStores.Valid(s, t)
    ensures Sized(s) && (HasBase(View(s), row) <==> row < |s.edgeTombstones| && s.edgeTombstones[row])
    ensures HasBase(View(s), row) ==> BaseRow(View(s), row) == s.edgeData.rows[row]
  {
    hide NodesOk, BaseOk, PendingOk, FrozenOk, IndexOk, LiveBase, LiveDelta, LiveIds, LiveNodes;
    ReadySized(s, t);
    Steps.BaseLive(s, t);
    LiveDeltaMember(DeltaRows(s), LiveIds(s));
    forall e: PlainEdge | e.base == Some(row)
      ensures e in LiveBase(s.edgeData.rows, s.edgeTombstones, LiveIds(s)) <==>
              row < |s.edgeTombstones| && s.edgeTombstones[row] && e.row == s.edgeData.rows[row]
    {
      LiveBaseMember(s.edgeData.rows, s.edgeTombstones, LiveIds(s), row, e);
    }
    if row < |s.edgeTombstones| && s.edgeTombstones[row] {
      assert PlainEdge(Some(row), s.edgeData.rows[row]) in View(s).edges;
    }
  }

  lemma LiveRowInRange(s: Store, t: Trace, row: nat)
    requires MutableStores.Valid(s, t) && row < |s.edgeTombstones|
    ensures Sized(s) && row < View(s).baseRows
  {
    ReadySized(s, t);
  }

  lemma {:induction false} WithoutBaseSize(edges: seq<PlainEdge>, row: nat)
    ensures |WithoutBase(edges, row)| <= |edges|
    ensures (exists e :: e in edges && e.base == Some(row)) ==> |WithoutBase(edges, row)| < |edges|
    ensures (!exists e :: e in edges && e.base == Some(row)) ==> WithoutBase(edges, row) == edges
  {
    if edges != [] {
      var n := |edges| - 1;
      WithoutBaseSize(edges[..n], row);
      assert edges == edges[..n] + [edges[n]];
    }
  }

  lemma UnlinkLoses(p: Plain, row: nat)
    ensures HasBase(p, row) <==> Unlink(p, row) != p
  {
    WithoutBaseSize(p.edges, row);
  }

  lemma UnlinkKeepsNodes(p: Plain, row: nat, edge: seq<EdgeRow>)
    ensures CanLink(Unlink(p, row), edge) <==> CanLink(p, edge)
  {
  }

  lemma NoSuchBase(s: Store, t: Trace, row: nat)
    requires MutableStores.Valid(s, t) && row >= |s.edgeTombstones|
    ensures Sized(s) && Unlink(View(s), row) == View(s)
  {
    BaseRowLive(s, t, row);
    UnlinkLoses(View(s), row);
  }

  lemma LiveNodesAre(s: Store)
    requires Sized(s)
    ensures View(s).nodes == LiveNodes(s)
  {
  }

  lemma CanAppendMeaning(p: Plain, nodes: seq<NodeRow>)
    ensures CanAppend(p, nodes) <==> Distinct(Nodes.Ids(p.nodes + nodes))
  {
  }

  lemma TwoFrames(a: Nodes.NodeFrame, b: Nodes.NodeFrame)
    ensures Joined(Nodes.RowsOf([a, b])) == a.rows + b.rows
  {
    var rs := Nodes.RowsOf([a, b]);
    assert rs[..1][..0] == [] && rs[..1][0] == a.rows && rs[1] == b.rows;
    assert Joined(rs[..1]) == [] + a.rows;
  }

  lemma NothingAdded(s: Store, t: Trace, nodes: seq<NodeRow>)
    requires Ready(s, t) && nodes == []
    ensures Sized(s) && CanAppend(View(s), nodes) && Append(View(s), nodes) == View(s)
    ensures !Steps.Revives(s, Nodes.IdSet(nodes)) && LiveIds(s) + Nodes.IdSet(nodes) == LiveIds(s)
  {
    hide BaseOk, PendingOk, FrozenOk, LiveBase, LiveDelta;
    ReadySized(s, t);
    Nodes.KeptDistinct(s.nodeFrame.rows, s.nodeTombstones);
    assert View(s).nodes + nodes == View(s).nodes;
    assert Nodes.IdSet(nodes) == {};
    assert LiveIds(s) + {} == LiveIds(s);
  }

  lemma MergedIds(s: Store, t: Trace, f: Nodes.NodeFrame, nodes: seq<NodeRow>)
    requires Ready(s, t) && Nodes.Valid(f) && Sized(s) && f.rows == LiveNodes(s) + nodes
    ensures f.idIndex.Keys == LiveIds(s) + Nodes.IdSet(nodes)
  {
    hide BaseOk, PendingOk, FrozenOk, IndexOk, LiveNodes;
    LiveMeansResolvable(s);
    NumbersIndex(f.idIndex, Nodes.Ids(f.rows));
    forall id
      ensures id in f.idIndex <==> id in LiveIds(s) || id in Nodes.IdSet(nodes)
    {
      LiveNodeIds(s, id);
      assert Nodes.Ids(f.rows) == Nodes.Ids(LiveNodes(s)) + Nodes.Ids(nodes);
      Nodes.IdSetMeans(nodes);
    }
  }

  lemma ReplacedValid(s: Store, t: Trace, f: Nodes.NodeFrame, tomb: seq<bool>, ids: set<string>)
    requires MutableStores.Valid(s, t) && Nodes.Valid(f) && |tomb| == |f.rows| && (forall r | 0 <= r < |tomb| :: tomb[r])
    requires f.idIndex.Keys == LiveIds(s) + ids
    ensures MutableStores.Valid(Steps.NodesReplaced(s, f, tomb), t) && LiveIds(Steps.NodesReplaced(s, f, tomb)) == LiveIds(s) + ids
  {
    hide NodesOk, BaseOk, PendingOk, FrozenOk, IndexOk, LiveIds;
    LiveMeansResolvable(s);
    Steps.ReplaceNodes(s, t, f, tomb);
  }

  method RebuildNodeMappings(f: Nodes.NodeFrame) returns (index: map<string, nat>, ids: seq<string>)
    requires Nodes.Valid(f)
    ensures index == f.idIndex && ids == Nodes.Ids(f.rows)
  {
    index, ids := map[], [];
    var row := 0;
    while row < |f.rows|
      invariant 0 <= row <= |f.rows| && ids == Nodes.Ids(f.rows)[..row] && Numbers(index, ids)
    {
      var id := f.rows[row].id;
      NumbersMore(index, ids, id);
      assert Nodes.Ids(f.rows)[row] == id && id !in ids;
      index := index[id := row];
      ids := ids + [id];
      row := row + 1;
    }
    SameNumbers(index, f.idIndex, ids);
  }

  // ---- deleting a node ----

  lemma IdsInRange(c: Csr.CsrIndex, src: seq<nat>, dst: seq<nat>, n: nat, u: nat)
    requires Csr.Indexes(c, src, dst, n) && Csr.Covers(src, n)
    ensures forall e: nat :: e in c.EdgeIds(u) <==> e < |src| && src[e] == u
  {
    var ns, es := c.Neighbors(u), c.EdgeIds(u);
    if u < n {
      assert Csr.Scan(src, dst, u, Csr.Zip(ns, es));
      forall e: nat
        ensures e in es <==> e < |src| && src[e] == u
      {
        if e in es {
          var i :| 0 <= i < |es| && es[i] == e;
          assert Csr.Zip(ns, es)[i] in Csr.Zip(ns, es);
        }
        if e < |src| && src[e] == u {
          assert Csr.Target(dst[e], e) in Csr.Zip(ns, es);
        }
      }
    }
  }

  lemma OutRows(f: Edges.EdgeFrame, u: nat)
    requires Edges.Valid(f)
    ensures f.outCsr.Sliceable() && forall e: nat :: e in f.outCsr.EdgeIds(u) <==> e < |f.rows| && Edges.SrcIdx(f.rows)[e] == u
  {
    hide Edges.IdsOf, Edges.SrcIdx, Edges.DstIdx, Csr.Scan, Csr.Covers;
    Edges.IdxBound(f.rows);
    IdsInRange(f.outCsr, Edges.SrcIdx(f.rows), Edges.DstIdx(f.rows), |Edges.IdsOf(f.rows)|, u);
  }

  lemma InRows(c: Csr.CsrIndex, rows: seq<EdgeRow>, u: nat)
    requires Edges.InOf(c, rows)
    ensures c.Sliceable() && forall e: nat :: e in c.EdgeIds(u) <==> e < |rows| && Edges.DstIdx(rows)[e] == u
  {
    hide Edges.IdsOf, Edges.SrcIdx, Edges.DstIdx, Csr.Scan, Csr.Covers;
    Edges.IdxBound(rows);
    IdsInRange(c, Edges.DstIdx(rows), Edges.SrcIdx(rows), |Edges.IdsOf(rows)|, u);
  }

  lemma BaseFrame(s: Store, t: Trace)
    requires Ready(s, t)
    ensures Edges.Valid(s.edgeData) && |s.edgeTombstones| == |s.edgeData.rows|
  {
  }

  /** Clearing the rows that leave or enter the node's index clears the live rows that touch its id. */
  lemma WalksClear(s: Store, t: Trace, edgeIdx: nat, id: string, tomb: seq<bool>)
    requires Ready(s, t) && id in s.edgeNodeIdToIdx && s.edgeNodeIdToIdx[id] == edgeIdx && |tomb| == |s.edgeTombstones| == |s.edgeData.rows|
    requires forall e | 0 <= e < |tomb| :: tomb[e] <==>
      s.edgeTombstones[e] && Edges.SrcIdx(s.edgeData.rows)[e] != edgeIdx && Edges.DstIdx(s.edgeData.rows)[e] != edgeIdx
    ensures Steps.Cleared(s.edgeData.rows, s.edgeTombstones, tomb, id)
  {
    hide NodesOk, PendingOk, FrozenOk, Edges.Valid, Edges.IdsOf, Edges.SrcIdx, Edges.DstIdx, Names;
    Reads.BaseNames(s);
    Steps.BaseNamesMeaning(s);
  }

  lemma NoEdgeTouches(s: Store, t: Trace, id: string)
    requires Ready(s, t) && id !in s.edgeNodeIdToIdx
    ensures |s.edgeTombstones| == |s.edgeData.rows| && Steps.Cleared(s.edgeData.rows, s.edgeTombstones, s.edgeTombstones, id)
  {
    hide NodesOk, PendingOk, FrozenOk, Edges.Valid, Edges.IdsOf, Edges.SrcIdx, Edges.DstIdx, Names;
    Reads.BaseNames(s);
    Steps.BaseNamesMeaning(s);
  }

  lemma DroppedLive(s: Store, t: Trace, id: string, tomb: seq<bool>, pending: seq<PendingEdgeRow>)
    requires Ready(s, t) && id in s.nodeIdToIdx && Steps.Detached(s, id, tomb, pending)
    ensures s.nodeIdToIdx[id] < |s.nodeTombstones| && LiveIds(Steps.NodeDropped(s, id, tomb, pending)) == LiveIds(s) - {id}
  {
    Steps.DropNodeNodes(s, id, tomb, pending);
    LiveMeansResolvable(s);
    LiveMeansResolvable(Steps.NodeDropped(s, id, tomb, pending));
  }

  /** Everything that holds once a node has been dropped. */
  lemma Dropped(s: Store, t: Trace, id: string, tomb: seq<bool>, pending: seq<PendingEdgeRow>)
    requires MutableStores.Valid(s, t) && id in s.nodeIdToIdx && Steps.Cleared(s.edgeData.rows, s.edgeTombstones, tomb, id)
    requires pending == if id in s.edgeNodeIdToIdx then Steps.Retained(s.pending, s.edgeNodeIdToIdx[id]) else s.pending
    ensures Sized(s) && s.nodeIdToIdx[id] < |s.nodeTombstones|
    ensures MutableStores.Valid(Steps.NodeDropped(s, id, tomb, pending), t.(deleted := t.deleted + {id}))
    ensures Sized(Steps.NodeDropped(s, id, tomb, pending)) && View(Steps.NodeDropped(s, id, tomb, pending)) == Remove(View(s), id)
    ensures LiveIds(Steps.NodeDropped(s, id, tomb, pending)) == LiveIds(s) - {id}
  {
    hide Ready, Steps.Cleared, Steps.Retained, View, LiveIds, Remove;
    Steps.DropNodeValid(s, t, id, tomb, pending);
    Steps.DropNodeView(s, t, id, tomb, pending);
    DroppedLive(s, t, id, tomb, pending);
    ReadySized(Steps.NodeDropped(s, id, tomb, pending), t.(deleted := t.deleted + {id}));
  }

  // ---- updating a node ----

  lemma FrameHas(f: Nodes.NodeFrame, id: string)
    requires Nodes.Valid(f)
    ensures id in f.idIndex <==> id in Nodes.Ids(f.rows)
    ensures id in f.idIndex ==> f.idIndex[id] < |f.rows| && f.rows[f.idIndex[id]].id == id
  {
    NumbersIndex(f.idIndex, Nodes.Ids(f.rows));
  }

  lemma WithoutRow(f: Nodes.NodeFrame, id: string, mask: seq<bool>)
    requires Nodes.Valid(f) && id in f.idIndex && |mask| == |f.rows|
    requires forall r | 0 <= r < |mask| :: mask[r] <==> r != f.idIndex[id]
    ensures Kept(f.rows, mask) == WithoutNode(f.rows, id)
  {
    FrameHas(f, id);
    var all := seq(|f.rows|, _ => true);
    KeptAll(f.rows, all);
    Steps.DropNode(f.rows, all, f.idIndex[id]);
    assert mask == all[f.idIndex[id] := false];
  }

  /** Deleting `oldId` and then adding `ids` makes some hidden frozen edge visible. */
  ghost predicate RevivesAfter(s: Store, oldId: string, ids: set<string>) {
    exists r :: r in Joined(ChunkRows(s.frozen)) && !EndsLive(r, LiveIds(s) - {oldId}) && EndsLive(r, LiveIds(s) - {oldId} + ids)
  }

  lemma RevivesMeaning(s: Store, mid: Store, oldId: string, ids: set<string>)
    requires mid.frozen == s.frozen && LiveIds(mid) == LiveIds(s) - {oldId}
    ensures Steps.Revives(mid, ids) <==> RevivesAfter(s, oldId, ids)
  {
  }

  /** Updating a node under its own id, which should drop its edges, brings the frozen ones straight back:
      the update is faithful exactly when no visible frozen edge touches the node. */
  lemma KeepingIdRevives(s: Store, id: string)
    requires id in LiveIds(s)
    ensures RevivesAfter(s, id, {id}) <==> exists r :: r in Joined(ChunkRows(s.frozen)) && EndsLive(r, LiveIds(s)) && Touches(r, id)
  {
    var live := LiveIds(s);
    assert live - {id} + {id} == live;
    forall r
      ensures !EndsLive(r, live - {id}) && EndsLive(r, live) <==> EndsLive(r, live) && Touches(r, id)
    {
    }
  }

  // ---- reading, compacting, freezing ----

  lemma StoreReadable(s: Store, t: Trace)
    requires Ready(s, t)
    ensures Reads.Readable(s) && s.stableRows
  {
    Reads.ReadyReadable(s, t);
  }

  lemma FlattenedStart(s: Store)
    requires Reads.Readable(s)
    ensures Merges.Flattened([], [], s, 0)
  {
  }

  lemma FlattenedCovers(src: seq<nat>, dst: seq<nat>, s: Store, n: nat)
    requires Reads.Readable(s) && Merges.Flattened(src, dst, s, n)
    ensures |src| == |dst| && Csr.Covers(src, n)
  {
  }

  lemma DeltaStart(live: set<string>)
    ensures Joined(Edges.RowsOf([])) == [] == Merges.PlainRows(LiveDelta(Joined(ChunkRows([])), live))
  {
  }

  lemma DeltaMore(chunks: seq<FrozenEdgeChunk>, k: nat, fs: seq<Edges.EdgeFrame>, f: Edges.EdgeFrame, live: set<string>)
    requires k < |chunks| && f.rows == Merges.PlainRows(LiveDelta(chunks[k].edges.rows, live))
    requires Joined(Edges.RowsOf(fs)) == Merges.PlainRows(LiveDelta(Joined(ChunkRows(chunks[..k])), live))
    ensures Joined(Edges.RowsOf(if |f.rows| != 0 then fs + [f] else fs)) == Merges.PlainRows(LiveDelta(Joined(ChunkRows(chunks[..k + 1])), live))
  {
    hide LiveDelta;
    var before, now := Joined(ChunkRows(chunks[..k])), chunks[k].edges.rows;
    assert ChunkRows(chunks[..k + 1])[..k] == ChunkRows(chunks[..k]);
    assert Joined(ChunkRows(chunks[..k + 1])) == before + now;
    Reads.DeltaConcat(before, now, live);
    assert Merges.PlainRows(LiveDelta(before, live) + LiveDelta(now, live)) == Merges.PlainRows(LiveDelta(before, live)) + f.rows;
    assert Edges.RowsOf(fs + [f])[..|fs|] == Edges.RowsOf(fs);
  }

  lemma SameNodes(s: Store, s': Store)
    requires NodesOk(s) && s'.nodeFrame == s.nodeFrame && s'.nodeTombstones == s.nodeTombstones
    requires s'.nodeIdToIdx == s.nodeIdToIdx && s'.nodeIdxToId == s.nodeIdxToId
    ensures NodesOk(s') && LiveNodes(s') == LiveNodes(s) && LiveIds(s') == LiveIds(s)
  {
  }

  lemma TwoEdgeFrames(a: Edges.EdgeFrame, b: Edges.EdgeFrame)
    ensures Joined(Edges.RowsOf([a, b])) == a.rows + b.rows
  {
    var rs := Edges.RowsOf([a, b]);
    assert rs[..1][..0] == [] && rs[..1][0] == a.rows && rs[1] == b.rows;
    assert Joined(rs[..1]) == [] + a.rows;
  }

  /** The rows a flushed store freezes to, and why they pass endpoint validation. */
  lemma FrozenView(s: Store, t: Trace)
    requires Ready(s, t) && s.pending == []
    ensures NodesOk(s) && |s.edgeTombstones| == |s.edgeData.rows| && Sized(s) && View(s).nodes == LiveNodes(s)
    ensures Merges.PlainRows(View(s).edges)
         == Merges.PlainRows(LiveBase(s.edgeData.rows, s.edgeTombstones, LiveIds(s))) + Merges.PlainRows(LiveDelta(Joined(ChunkRows(s.frozen)), LiveIds(s)))
    ensures Graphs.Closed(LiveNodes(s), Merges.PlainRows(View(s).edges))
  {
    hide BaseOk, PendingOk, FrozenOk, IndexOk, LiveBase, LiveDelta, LiveIds, Has;
    ReadySized(s, t);
    Merges.ViewClosed(s, t);
    assert PendingFrames([]) == [];
    assert DeltaRows(s) == Joined(ChunkRows(s.frozen));
    ClosedRows(View(s));
  }

  lemma ClosedRows(p: Plain)
    requires forall e | e in p.edges :: Has(p, e.row.src) && Has(p, e.row.dst)
    ensures Graphs.Closed(p.nodes, Merges.PlainRows(p.edges))
  {
    forall i | 0 <= i < |p.edges|
      ensures Graphs.EndsKnown(p.nodes, Merges.PlainRows(p.edges)[i])
    {
      assert p.edges[i] in p.edges;
    }
  }

  // ---- whole runs ----

  lemma PureLive(s: Store, t: Trace)
    requires MutableStores.Valid(s, t)
    ensures NeverReadded(s, t) <==> LiveIds(s) !! t.deleted
  {
    LiveMeansResolvable(s);
  }

  lemma NovelAdd(s: Store, t: Trace, ids: set<string>)
    requires MutableStores.Valid(s, t) && NeverReadded(s, t) && ids !! t.deleted
    ensures !Steps.Revives(s, ids)
  {
    Steps.NovelRevivesNothing(s, t, ids);
  }

  lemma NovelUpdate(s: Store, t: Trace, oldId: string, ids: set<string>)
    requires MutableStores.Valid(s, t) && NeverReadded(s, t)
    ensures ids !! t.deleted + {oldId} ==> !RevivesAfter(s, oldId, ids)
  {
    hide BaseOk, PendingOk, NodesOk;
    if ids !! t.deleted + {oldId} {
      Steps.NovelRevivesNothing(s, t, ids);
      ReviveWithout(s, oldId, ids);
    }
  }

  lemma ReviveWithout(s: Store, oldId: string, ids: set<string>)
    requires !Steps.Revives(s, ids) && oldId !in ids
    ensures !RevivesAfter(s, oldId, ids)
  {
  }

  lemma RepeatedRows(p: Plain, nodes: seq<NodeRow>)
    requires !Distinct(Nodes.Ids(nodes))
    ensures !CanAppend(p, nodes)
  {
    CanAppendMeaning(p, nodes);
    var all := Nodes.Ids(p.nodes + nodes);
    assert all == Nodes.Ids(p.nodes) + Nodes.Ids(nodes);
    var i, j :| 0 <= i < j < |nodes| && Nodes.Ids(nodes)[i] == Nodes.Ids(nodes)[j];
    assert all[|p.nodes| + i] == all[|p.nodes| + j];
  }

  class MutableGraphFrame {
    var nodeFrame: Nodes.NodeFrame
    var baseCsr: Csr.CsrIndex
    var edgeData: Edges.EdgeFrame
    var stableRows: bool
    var pending: seq<PendingEdgeRow>
    var frozen: seq<FrozenEdgeChunk>
    var nodeIdToIdx: map<string, nat>
    var nodeIdxToId: seq<string>
    var edgeNodeIdToIdx: map<string, nat>
    var edgeNodeIdxToId: seq<string>
    var nodeTombstones: seq<bool>
    var edgeTombstones: seq<bool>
    ghost var trace: Trace

    function Now(): Store
      reads this
    {
      Store(nodeFrame, baseCsr, edgeData, stableRows, pending, frozen, nodeIdToIdx, nodeIdxToId,
            edgeNodeIdToIdx, edgeNodeIdxToId, nodeTombstones, edgeTombstones)
    }

    /** The invariant of a graph that has not been compacted. */
    ghost predicate Valid()
      reads this
    {
      MutableStores.Valid(Now(), trace)
    }

    ghost predicate Pure()
      reads this
    {
      NeverReadded(Now(), trace)
    }

    /** The plain graph this object stands for. */
    ghost function Graph(): Plain
      requires Valid()
      reads this
    {
      ReadySized(Now(), trace);
      View(Now())
    }

    constructor FromGraphFrame(g: Graphs.GraphFrame)
      requires Graphs.Valid(g) && Graphs.Closed(g.nodes.rows, g.edges.rows)
      ensures Valid() && Pure() && trace.deleted == {} && pending == [] && frozen == []
      ensures Graph() == Plain(g.nodes.rows, Merges.Loaded(g.edges.rows), |g.edges.rows|)
    {
      nodeFrame := g.nodes;
      edgeData := g.edges;
      baseCsr := g.edges.outCsr;
      stableRows := true;
      pending, frozen := [], [];
      nodeIdToIdx, nodeIdxToId := g.nodeIdToIdx, g.nodeIdxToId;
      edgeNodeIdToIdx, edgeNodeIdxToId := g.edgeNodeIdToIdx, g.edgeNodeIdxToId;
      nodeTombstones := seq(|g.nodes.rows|, _ => true);
      edgeTombstones := seq(|g.edges.rows|, _ => true);
      trace := Trace([], {});
      new;
      hide Graphs.Valid, Graphs.Closed, MutableStores.Valid, NeverReadded, View;
      LoadedValid(Now(), g);
    }

    // ---- edges ----

    /** The edge-node index of `id`, registered on first use. */
    method ResolveEdgeNodeIdx(id: string) returns (r: Result<nat>)
      requires Valid()
      modifies `edgeNodeIdToIdx, `edgeNodeIdxToId
      ensures Valid() && Graph() == old(Graph())
      ensures r.Success? <==> Has(old(Graph()), id)
      ensures r.Failure? ==> r.error == NodeNotFound(id) && Now() == old(Now())
      ensures r.Success? ==> Resolves(edgeNodeIdToIdx, edgeNodeIdxToId, id, r.value)
      ensures forall x, i :: Resolves(old(edgeNodeIdToIdx), old(edgeNodeIdxToId), x, i) ==> Resolves(edgeNodeIdToIdx, edgeNodeIdxToId, x, i)
    {
      hide MutableStores.Valid, Ready, View, Has, Resolves;
      ValidReady(Now(), trace);
      HasMeansResolvable(Now(), trace, id);
      if id in edgeNodeIdToIdx {
        KnownResolves(Now(), trace, id);
        return Success(edgeNodeIdToIdx[id]);
      }
      if id !in nodeIdToIdx {
        return Failure(NodeNotFound(id));
      }
      Steps.Register(Now(), trace, id);
      RegisterResolves(Now(), trace, id);
      var idx := |edgeNodeIdxToId|;
      edgeNodeIdToIdx := edgeNodeIdToIdx[id := idx];
      edgeNodeIdxToId := edgeNodeIdxToId + [id];
      assert Now() == Steps.Registered(old(Now()), id);
      ReadyValid(Now(), trace);
      return Success(idx);
    }

    /** Moves the pending rows into a frozen mini-CSR chunk. */
    method FlushPending()
      requires Ready(Now(), trace)
      modifies `pending, `frozen, `trace
      ensures Valid() && pending == [] && trace.deleted == old(trace.deleted)
      ensures Sized(old(Now())) && Graph() == View(old(Now()))
      ensures Merges.SameReads(old(Now()), Now())
      ensures |frozen| == |old(frozen)| + if |old(pending)| > 0 then 1 else 0
    {
      hide Ready, MutableStores.Valid, View, Csr.Covers, Csr.Indexes, Edges.Valid;
      ReadySized(Now(), trace);
      if |pending| == 0 {
        ReadyValid(Now(), trace);
        Reads.ReadyReadable(Now(), trace);
        return;
      }
      var frames := PendingEdges(pending);
      var ends := Steps.PendingEnds(pending);
      PendingBuildable(Now(), trace);
      var miniCsr := Csr.Build(ends.src, ends.dst, |edgeNodeIdxToId|);
      var edges := Edges.Concat(frames);
      var chunk := FrozenEdgeChunk(miniCsr, edges.value);
      Steps.Flush(Now(), trace, chunk);
      Merges.FlushKeepsReads(Now(), trace, chunk);
      ghost var before := Now();
      trace := trace.(ends := trace.ends + [ends]);
      frozen := frozen + [chunk];
      pending := [];
      assert Now() == Steps.Flushed(before, chunk);
    }

    /** Appends one edge row; the pending buffer is flushed once it exceeds the threshold. */
    method AddEdgeRow(edge: Edges.EdgeFrame) returns (r: Result<()>)
      requires Valid() && Edges.Valid(edge)
      modifies `edgeNodeIdToIdx, `edgeNodeIdxToId, `pending, `frozen, `trace
      ensures Valid() && trace.deleted == old(trace.deleted)
      ensures r.Success? <==> CanLink(old(Graph()), edge.rows)
      ensures Graph() == Apply(old(Graph()), Op.AddEdgeRow(edge.rows))
      ensures r.Success? ==> Graph().nodes == old(Graph()).nodes && Gains(old(Graph()).edges, Graph().edges, edge.rows[0])
      ensures r.Success? ==> |pending| == (if |old(pending)| < 1024 then |old(pending)| + 1 else 0)
      ensures r.Success? ==> |frozen| == |old(frozen)| + (if |old(pending)| < 1024 then 0 else 1)
      ensures |edge.rows| != 1 ==> r == Failure(InvalidConfig) && Now() == old(Now())
      ensures |edge.rows| == 1 && r.Failure? ==>
        r.error == NodeNotFound(if Has(old(Graph()), edge.rows[0].src) then edge.rows[0].dst else edge.rows[0].src)
    {
      hide MutableStores.Valid, Ready, View, Edges.Valid, Has, Resolves;
      if |edge.rows| != 1 {
        return Failure(InvalidConfig);
      }
      var src, dst := edge.rows[0].src, edge.rows[0].dst;
      var srcIdx :- ResolveEdgeNodeIdx(src);
      var dstIdx :- ResolveEdgeNodeIdx(dst);
      var row := PendingEdgeRow(srcIdx, dstIdx, edge);
      ValidReady(Now(), trace);
      RowMade(row, edgeNodeIdToIdx, edgeNodeIdxToId);
      Steps.AddPending(Now(), trace, row);
      ghost var before := Now();
      pending := pending + [row];
      assert Now() == before.(pending := before.pending + [row]);
      if |pending| > FLUSH_THRESHOLD {
        FlushPending();
      } else {
        ReadyValid(Now(), trace);
      }
      return Success(());
    }

    /** Appends an edge with the default type and null user columns. */
    method AddEdge(src: string, dst: string) returns (r: Result<()>)
      requires Valid()
      modifies `edgeNodeIdToIdx, `edgeNodeIdxToId, `pending, `frozen, `trace
      ensures Valid() && trace.deleted == old(trace.deleted)
      ensures r.Success? <==> Has(old(Graph()), src) && Has(old(Graph()), dst)
      ensures Graph() == Apply(old(Graph()), Op.AddEdge(src, dst))
      ensures r.Success? ==> Graph().edges == old(Graph()).edges + [PlainEdge(None, EdgeRow(src, dst, "__delta__", map[]))]
      ensures r.Success? ==> |pending| == (if |old(pending)| < 1024 then |old(pending)| + 1 else 0)
      ensures r.Success? ==> |frozen| == |old(frozen)| + (if |old(pending)| < 1024 then 0 else 1)
      ensures r.Failure? ==> r.error == NodeNotFound(if Has(old(Graph()), src) then dst else src)
    {
      hide MutableStores.Valid, View, Edges.Valid, Has;
      var edge := Edges.FromValidBatch([DefaultRow(src, dst)]);
      r := AddEdgeRow(edge);
    }

    /** Tombstones one stable row; deleting a dead row again succeeds. */
    method DeleteEdge(row: nat) returns (r: Result<()>)
      requires Valid()
      modifies `edgeTombstones
      ensures Valid() && Graph() == Apply(old(Graph()), Op.DeleteEdge(row))
      ensures Graph().nodes == old(Graph()).nodes && LosesRow(old(Graph()).edges, Graph().edges, row)
      ensures r.Success? <==> row < old(Graph()).baseRows
      ensures r.Failure? ==> r.error == EdgeNotFound(row) && Now() == old(Now())
    {
      hide NodesOk, BaseOk, PendingOk, FrozenOk, IndexOk, LiveBase, LiveDelta, LiveNodes, WithoutBase, LosesRow;
      ReadySized(Now(), trace);
      UnlinkEffect(View(Now()), row);
      if row >= |edgeTombstones| {
        NoSuchBase(Now(), trace, row);
        return Failure(EdgeNotFound(row));
      }
      Steps.DropEdge(Now(), trace, row);
      ghost var before := Now();
      edgeTombstones := edgeTombstones[row := false];
      assert Now() == before.(edgeTombstones := before.edgeTombstones[row := false]);
      return Success(());
    }

    method ValidateBaseEdgeRow(row: nat) returns (r: Result<()>)
      requires Valid()
      ensures r.Success? <==> HasBase(Graph(), row)
      ensures r.Success? ==> row < |edgeTombstones| == |edgeData.rows| && edgeTombstones[row] && BaseRow(Graph(), row) == edgeData.rows[row]
      ensures r.Failure? ==> r.error == EdgeNotFound(row)
    {
      hide MutableStores.Valid, View;
      BaseRowLive(Now(), trace, row);
      if row >= |edgeTombstones| || !edgeTombstones[row] {
        return Failure(EdgeNotFound(row));
      }
      return Success(());
    }

    /** Replaces a stable row by a new one. Not atomic: when the replacement is refused after the row was
        found live, the old row is already gone. */
    method UpdateEdgeRow(row: nat, edge: Edges.EdgeFrame) returns (r: Result<()>)
      requires Valid() && Edges.Valid(edge)
      modifies `edgeTombstones, `edgeNodeIdToIdx, `edgeNodeIdxToId, `pending, `frozen, `trace
      ensures Valid() && trace.deleted == old(trace.deleted)
      ensures Graph() == Apply(old(Graph()), Op.UpdateEdgeRow(row, edge.rows))
      ensures r.Success? ==> Effect(old(Graph()), Op.UpdateEdgeRow(row, edge.rows), Graph())
      ensures r.Success? <==> HasBase(old(Graph()), row) && CanLink(old(Graph()), edge.rows)
      ensures r.Failure? ==> (Graph() == old(Graph()) <==> !HasBase(old(Graph()), row))
      ensures r.Failure? && !HasBase(old(Graph()), row) ==> r.error == EdgeNotFound(row) && Now() == old(Now())
    {
      hide MutableStores.Valid, Ready, View, Edges.Valid, Has, HasBase, WithoutBase, BaseRow, Effect, LosesRow;
      ApplyEffect(Graph(), Op.UpdateEdgeRow(row, edge.rows));
      var found := ValidateBaseEdgeRow(row);
      if found.Failure? {
        return Failure(found.error);
      }
      LiveRowInRange(Now(), trace, row);
      UnlinkLoses(Graph(), row);
      UnlinkKeepsNodes(Graph(), row, edge.rows);
      var dropped := DeleteEdge(row);
      r := AddEdgeRow(edge);
    }

    /** Rewires a stable row, keeping its payload. An error leaves everything as it was. */
    method UpdateEdge(row: nat, src: string, dst: string) returns (r: Result<()>)
      requires Valid()
      modifies `edgeTombstones, `edgeNodeIdToIdx, `edgeNodeIdxToId, `pending, `frozen, `trace
      ensures Valid() && trace.deleted == old(trace.deleted)
      ensures Graph() == Apply(old(Graph()), Op.UpdateEdge(row, src, dst))
      ensures r.Success? ==>
        var before, after := old(Graph()).edges, Graph().edges;
        && |after| > 0 && LosesRow(before, after[..|after| - 1], row) && after[|after| - 1].base.None?
        && after[|after| - 1].row.src == src && after[|after| - 1].row.dst == dst
        && exists k :: 0 <= k < |before| && before[k].base == Some(row)
                       && after[|after| - 1].row.etype == before[k].row.etype && after[|after| - 1].row.payload == before[k].row.payload
      ensures r.Success? <==> Has(old(Graph()), src) && Has(old(Graph()), dst) && HasBase(old(Graph()), row)
      ensures r.Failure? ==> Now() == old(Now())
      ensures r.Failure? ==> r.error == if !Has(old(Graph()), src) then NodeNotFound(src)
                                        else if !Has(old(Graph()), dst) then NodeNotFound(dst)
                                        else EdgeNotFound(row)
    {
      hide MutableStores.Valid, Ready, View, Edges.Valid, Has, HasBase, WithoutBase, BaseRow, LosesRow;
      ValidReady(Now(), trace);
      ApplyEffect(Graph(), Op.UpdateEdge(row, src, dst));
      HasMeansResolvable(Now(), trace, src);
      HasMeansResolvable(Now(), trace, dst);
      if src !in nodeIdToIdx {
        return Failure(NodeNotFound(src));
      }
      if dst !in nodeIdToIdx {
        return Failure(NodeNotFound(dst));
      }
      var found := ValidateBaseEdgeRow(row);
      if found.Failure? {
        return Failure(found.error);
      }
      var replacement := Edges.FromValidBatch([edgeData.rows[row].(src := src, dst := dst)]);
      r := UpdateEdgeRow(row, replacement);
    }

    // ---- nodes ----

    method CurrentLiveNodeFrame() returns (f: Nodes.NodeFrame)
      requires NodesOk(Now())
      ensures Nodes.Valid(f) && f.rows == LiveNodes(Now())
    {
      hide Kept;
      if forall i | 0 <= i < |nodeTombstones| :: nodeTombstones[i] {
        KeptAll(nodeFrame.rows, nodeTombstones);
        return nodeFrame;
      }
      var kept := Nodes.Filter(nodeFrame, nodeTombstones);
      return kept.value;
    }

    method ReplaceNodeFrame(f: Nodes.NodeFrame)
      requires Nodes.Valid(f)
      modifies `nodeFrame, `nodeIdToIdx, `nodeIdxToId, `nodeTombstones
      ensures exists tomb :: && Now() == Steps.NodesReplaced(old(Now()), f, tomb) && |tomb| == |f.rows|
                             && forall i | 0 <= i < |tomb| :: tomb[i]
    {
      hide Nodes.Valid;
      var index, ids := RebuildNodeMappings(f);
      ghost var before := Now();
      nodeFrame := f;
      nodeIdToIdx := index;
      nodeIdxToId := ids;
      nodeTombstones := seq(|f.rows|, _ => true);
      assert Now() == Steps.NodesReplaced(before, f, nodeTombstones);
    }

    /** Appends nodes to the live ones. The edges stay as they were exactly when no hidden frozen edge
        gets both its endpoints back. */
    method AddNodesBatch(nodes: Nodes.NodeFrame) returns (r: Result<()>)
      requires Valid() && Nodes.Valid(nodes)
      modifies `nodeFrame, `nodeIdToIdx, `nodeIdxToId, `nodeTombstones
      ensures Valid() && trace == old(trace)
      ensures r.Success? <==> CanAppend(old(Graph()), nodes.rows)
      ensures r.Failure? ==> Now() == old(Now()) && r.error.DuplicateNodeId?
                             && Nodes.FirstRepeat(old(Graph()).nodes + nodes.rows, r.error.dup)
      ensures r.Success? ==> Graph().nodes == old(Graph()).nodes + nodes.rows && Graph().baseRows == old(Graph()).baseRows
      ensures r.Success? ==> (Graph() == Append(old(Graph()), nodes.rows) <==> !Steps.Revives(old(Now()), Nodes.IdSet(nodes.rows)))
      ensures r.Success? ==> (Graph().edges == old(Graph()).edges <==> !Steps.Revives(old(Now()), Nodes.IdSet(nodes.rows)))
      ensures r.Success? ==> LiveIds(Now()) == LiveIds(old(Now())) + Nodes.IdSet(nodes.rows)
    {
      hide MutableStores.Valid, Ready, NodesOk, View, Nodes.Valid, CanAppend, Nodes.IdSet, Steps.Revives, LiveIds, LiveNodes, Steps.NodesReplaced, Kept;
      ValidReady(Now(), trace);
      ReadySized(Now(), trace);
      ReadyNodes(Now(), trace);
      if |nodes.rows| == 0 {
        NothingAdded(Now(), trace, nodes.rows);
        return Success(());
      }
      var currentLive := CurrentLiveNodeFrame();
      var merged := Nodes.Concat([currentLive, nodes]);
      TwoFrames(currentLive, nodes);
      LiveNodesAre(Now());
      CanAppendMeaning(View(Now()), nodes.rows);
      if merged.Failure? {
        return Failure(merged.error);
      }
      MergedIds(Now(), trace, merged.value, nodes.rows);
      ReplaceNodeFrame(merged.value);
      ghost var tomb :| && Now() == Steps.NodesReplaced(old(Now()), merged.value, tomb) && |tomb| == |merged.value.rows|
                        && forall i | 0 <= i < |tomb| :: tomb[i];
      Steps.ReplaceNodesView(old(Now()), trace, merged.value, tomb, Nodes.IdSet(nodes.rows));
      ReplacedValid(old(Now()), trace, merged.value, tomb, Nodes.IdSet(nodes.rows));
      return Success(());
    }

    method AddNode(node: Nodes.NodeFrame) returns (r: Result<()>)
      requires Valid() && Nodes.Valid(node)
      modifies `nodeFrame, `nodeIdToIdx, `nodeIdxToId, `nodeTombstones
      ensures Valid() && trace == old(trace)
      ensures r.Success? <==> |node.rows| == 1 && CanAppend(old(Graph()), node.rows)
      ensures r.Failure? ==> Now() == old(Now()) && (|node.rows| != 1 ==> r.error == InvalidConfig)
      ensures r.Success? ==> Graph().nodes == old(Graph()).nodes + node.rows && Graph().baseRows == old(Graph()).baseRows
      ensures r.Success? ==> (Graph() == Append(old(Graph()), node.rows) <==> !Steps.Revives(old(Now()), Nodes.IdSet(node.rows)))
      ensures r.Success? ==> (Graph().edges == old(Graph()).edges <==> !Steps.Revives(old(Now()), Nodes.IdSet(node.rows)))
      ensures r.Success? ==> LiveIds(Now()) == LiveIds(old(Now())) + Nodes.IdSet(node.rows)
    {
      if |node.rows| != 1 {
        return Failure(InvalidConfig);
      }
      r := AddNodesBatch(node);
    }

    /** Tombstones a node and, with it, every stable or pending edge that touches it; frozen edges are hidden. */
    method DeleteNode(id: string) returns (r: Result<()>)
      requires Valid()
      modifies `nodeIdToIdx, `nodeTombstones, `edgeNodeIdToIdx, `edgeTombstones, `pending, `trace
      ensures Valid() && Graph() == Apply(old(Graph()), Op.DeleteNode(id))
      ensures r.Success? ==> Effect(old(Graph()), Op.DeleteNode(id), Graph())
      ensures r.Success? <==> Has(old(Graph()), id)
      ensures r.Failure? ==> r.error == NodeNotFound(id) && Now() == old(Now()) && trace == old(trace)
      ensures r.Success? ==> trace == old(trace).(deleted := old(trace).deleted + {id})
      ensures r.Success? ==> LiveIds(Now()) == LiveIds(old(Now())) - {id}
      ensures nodeFrame == old(nodeFrame) && frozen == old(frozen)
    {
      hide MutableStores.Valid, Ready, View, Has, LiveIds, Remove, Steps.Cleared, Steps.Retained, Edges.Valid, Effect;
      ValidReady(Now(), trace);
      ApplyEffect(Graph(), Op.DeleteNode(id));
      HasMeansResolvable(Now(), trace, id);
      if id !in nodeIdToIdx {
        return Failure(NodeNotFound(id));
      }
      ghost var before := Now();
      var tomb, rows := edgeTombstones, pending;
      if id in edgeNodeIdToIdx {
        var edgeIdx := edgeNodeIdToIdx[id];
        tomb := TombstoneEdges(edgeIdx, id);
        rows := Steps.Retained(pending, edgeIdx);
      } else {
        NoEdgeTouches(Now(), trace, id);
      }
      Dropped(before, trace, id, tomb, rows);
      nodeTombstones := nodeTombstones[nodeIdToIdx[id] := false];
      nodeIdToIdx := nodeIdToIdx - {id};
      edgeNodeIdToIdx := edgeNodeIdToIdx - {id};
      edgeTombstones := tomb;
      pending := rows;
      trace := trace.(deleted := trace.deleted + {id});
      assert Now() == Steps.NodeDropped(before, id, tomb, rows);
      return Success(());
    }

    /** The tombstones after clearing every row that leaves or enters `edgeIdx`. */
    method TombstoneEdges(edgeIdx: nat, ghost id: string) returns (tomb: seq<bool>)
      requires Ready(Now(), trace) && id in edgeNodeIdToIdx && edgeNodeIdToIdx[id] == edgeIdx
      ensures Steps.Cleared(edgeData.rows, edgeTombstones, tomb, id)
    {
      hide NodesOk, PendingOk, FrozenOk, Steps.Cleared, IndexOk, BaseOk, Edges.Valid, Edges.InOf, Edges.SrcIdx, Edges.DstIdx;
      BaseFrame(Now(), trace);
      var inCsr := Edges.InCsr(edgeData);
      OutRows(edgeData, edgeIdx);
      InRows(inCsr, edgeData.rows, edgeIdx);
      tomb := edgeTombstones;
      var outIds, inIds := edgeData.outCsr.EdgeIds(edgeIdx), inCsr.EdgeIds(edgeIdx);
      var k := 0;
      while k < |outIds|
        invariant 0 <= k <= |outIds| && |tomb| == |edgeTombstones|
        invariant forall e | 0 <= e < |tomb| :: tomb[e] <==> edgeTombstones[e] && e !in outIds[..k]
      {
        assert outIds[k] in outIds;
        tomb := tomb[outIds[k] := false];
        k := k + 1;
      }
      assert outIds[..k] == outIds;
      k := 0;
      while k < |inIds|
        invariant 0 <= k <= |inIds| && |tomb| == |edgeTombstones|
        invariant forall e | 0 <= e < |tomb| :: tomb[e] <==> edgeTombstones[e] && e !in outIds && e !in inIds[..k]
      {
        assert inIds[k] in inIds;
        tomb := tomb[inIds[k] := false];
        k := k + 1;
      }
      assert inIds[..k] == inIds;
      WalksClear(Now(), trace, edgeIdx, id, tomb);
    }

    /** Replaces a live node. An error leaves everything as it was; on success the node's edges are gone and
        the others stay, unless the new id revives hidden frozen edges. */
    method UpdateNode(oldId: string, node: Nodes.NodeFrame) returns (r: Result<()>)
      requires Valid() && Nodes.Valid(node)
      modifies `nodeFrame, `nodeIdToIdx, `nodeIdxToId, `nodeTombstones, `edgeNodeIdToIdx, `edgeTombstones, `pending, `trace
      ensures Valid()
      ensures r.Success? <==> |node.rows| == 1 && Has(old(Graph()), oldId) && CanAppend(Remove(old(Graph()), oldId), node.rows)
      ensures r.Failure? ==> Now() == old(Now()) && trace == old(trace)
      ensures r.Success? ==> Graph().nodes == Remove(old(Graph()), oldId).nodes + node.rows && Graph().baseRows == old(Graph()).baseRows
      ensures r.Success? ==> trace == old(trace).(deleted := old(trace).deleted + {oldId})
      ensures r.Success? ==> LiveIds(Now()) == LiveIds(old(Now())) - {oldId} + Nodes.IdSet(node.rows)
      ensures r.Success? ==> (Graph() == Append(Remove(old(Graph()), oldId), node.rows) <==> !RevivesAfter(old(Now()), oldId, Nodes.IdSet(node.rows)))
      ensures r.Success? && !RevivesAfter(old(Now()), oldId, Nodes.IdSet(node.rows)) ==> Effect(old(Graph()), Op.UpdateNode(oldId, node.rows), Graph())
    {
      hide Effect, MutableStores.Valid, Ready, NodesOk, View, Has, Nodes.Valid, CanAppend, Nodes.IdSet, LiveIds, LiveNodes, RevivesAfter, WithoutNode, WithoutEnds, Steps.Revives, Kept;
      if |node.rows| != 1 {
        return Failure(InvalidConfig);
      }
      ValidReady(Now(), trace);
      ApplyEffect(Graph(), Op.UpdateNode(oldId, node.rows));
      ReadySized(Now(), trace);
      HasMeansResolvable(Now(), trace, oldId);
      LiveNodesAre(Now());
      ReadyNodes(Now(), trace);
      LiveNodeIds(Now(), oldId);
      var currentLive := CurrentLiveNodeFrame();
      FrameHas(currentLive, oldId);
      if oldId !in currentLive.idIndex {
        return Failure(NodeNotFound(oldId));
      }
      var oldRow := currentLive.idIndex[oldId];
      var mask := seq(|currentLive.rows|, row => row != oldRow);
      var without := Nodes.Filter(currentLive, mask);
      WithoutRow(currentLive, oldId, mask);
      var check := Nodes.Concat([without.value, node]);
      TwoFrames(without.value, node);
      CanAppendMeaning(Remove(Graph(), oldId), node.rows);
      if check.Failure? {
        return Failure(check.error);
      }
      var gone := DeleteNode(oldId);
      RevivesMeaning(old(Now()), Now(), oldId, Nodes.IdSet(node.rows));
      r := AddNodesBatch(node);
    }

    // ---- reading ----

    /** The neighbours `idx` reaches, merged from base, frozen and pending edges. Until a deleted id is
        added again they are exactly the successors in the plain edge list. */
    method OutNeighbors(idx: nat) returns (r: seq<nat>)
      requires Valid()
      ensures idx >= |edgeNodeIdxToId| ==> r == []
      ensures Pure() && idx < |edgeNodeIdxToId| ==>
        multiset(Reads.Named(r, edgeNodeIdxToId)) == multiset(Successors(Graph().edges, edgeNodeIdxToId[idx]))
    {
      hide MutableStores.Valid, Ready, NeverReadded, Reads.Readable, View, Reads.Named, Successors;
      ValidReady(Now(), trace);
      Reads.ReadyReadable(Now(), trace);
      r := Reads.OutNeighbors(Now(), idx);
      if idx < |edgeNodeIdxToId| && Pure() {
        Reads.ReadsAgree(Now(), trace, idx);
      }
    }

    // ---- compacting and freezing ----

    /** The first compaction: every read answers as before, nothing is pending or frozen, and the new index
        holds exactly the visible edges, so no tombstoned row and no dead endpoint survives in it. */
    method Compact()
      requires Valid()
      modifies `baseCsr, `edgeData, `stableRows, `pending, `frozen, `trace
      ensures pending == [] && frozen == [] && !stableRows && trace.deleted == old(trace.deleted)
      ensures edgeData == old(edgeData).(outCsr := baseCsr)
      ensures Merges.SameReads(old(Now()), Now()) && Merges.HoldsReads(baseCsr, old(Now()))
      ensures old(Pure()) ==> Merges.HoldsSuccessors(baseCsr, edgeNodeIdxToId, old(Graph()).edges)
    {
      hide MutableStores.Valid, Ready, NeverReadded, Reads.Readable, View, Merges.SameReads, Merges.HoldsReads, Merges.HoldsSuccessors,
           Merges.Flattened, Merges.MergedRow, Csr.Indexes, Csr.Covers;
      ValidReady(Now(), trace);
      FlushPending();
      ValidReady(Now(), trace);
      StoreReadable(Now(), trace);
      var srcRows, dstRows, srcIdx := [], [], 0;
      ghost var before := Now();
      FlattenedStart(before);
      while srcIdx < |edgeNodeIdxToId|
        invariant 0 <= srcIdx <= |edgeNodeIdxToId| && Now() == before && trace.deleted == old(trace.deleted)
        invariant Merges.Flattened(srcRows, dstRows, before, srcIdx)
      {
        var row := Merges.MergedRow(Now(), srcIdx);
        Merges.FlattenNode(srcRows, dstRows, before, srcIdx, row);
        srcRows := srcRows + Merges.Repeat(srcIdx, |row|);
        dstRows := dstRows + row;
        srcIdx := srcIdx + 1;
      }
      FlattenedCovers(srcRows, dstRows, before, srcIdx);
      var newCsr := Csr.Build(srcRows, dstRows, |edgeNodeIdxToId|);
      Merges.CompactHolds(before, newCsr, srcRows, dstRows);
      Merges.HoldsOld(newCsr, old(Now()), before);
      if old(Pure()) {
        ValidReady(old(Now()), old(trace));
        Merges.HoldsPlain(newCsr, old(Now()), old(trace));
      }
      edgeData := edgeData.(outCsr := newCsr);
      baseCsr := newCsr;
      stableRows := false;
      frozen := [];
      assert Now() == Merges.Compacted(before, newCsr);
      Merges.SameReadsTrans(old(Now()), before, Now());
    }

    method LiveBaseEdgeFrame() returns (f: Edges.EdgeFrame)
      requires |edgeTombstones| == |edgeData.rows|
      ensures Edges.Valid(f) && f.rows == Merges.PlainRows(LiveBase(edgeData.rows, edgeTombstones, LiveIds(Now())))
    {
      hide Edges.Valid, LiveBase, LiveIds;
      Merges.BaseMaskKeeps(edgeData.rows, edgeTombstones, LiveIds(Now()));
      var kept := Edges.Filter(edgeData, Merges.BaseMask(edgeData.rows, edgeTombstones, LiveIds(Now())));
      return kept.value;
    }

    method MaterializeDeltaEdgeFrame(chunks: seq<FrozenEdgeChunk>) returns (f: Edges.EdgeFrame)
      ensures Edges.Valid(f) && f.rows == Merges.PlainRows(LiveDelta(Joined(ChunkRows(chunks)), LiveIds(Now())))
    {
      hide Edges.Valid, LiveDelta, LiveIds;
      var liveChunks: seq<Edges.EdgeFrame> := [];
      var k := 0;
      DeltaStart(LiveIds(Now()));
      while k < |chunks|
        invariant 0 <= k <= |chunks| && forall i | 0 <= i < |liveChunks| :: Edges.Valid(liveChunks[i])
        invariant Joined(Edges.RowsOf(liveChunks)) == Merges.PlainRows(LiveDelta(Joined(ChunkRows(chunks[..k])), LiveIds(Now())))
      {
        var rows := chunks[k].edges.rows;
        Merges.LiveMaskKeeps(rows, LiveIds(Now()));
        var live := Edges.Filter(chunks[k].edges, Merges.LiveMask(rows, LiveIds(Now())));
        DeltaMore(chunks, k, liveChunks, live.value, LiveIds(Now()));
        if |live.value.rows| != 0 {
          liveChunks := liveChunks + [live.value];
        }
        k := k + 1;
      }
      assert chunks[..k] == chunks;
      if |liveChunks| == 0 {
        f := Edges.FromValidBatch([]);
        return;
      }
      var joined := Edges.Concat(liveChunks);
      return joined.value;
    }

    /** Freezing yields a valid graph whose nodes are the live nodes and whose edge rows are the live base
        rows in original order followed by the live added rows in insertion order. It cannot fail, and until a deleted id is
        added again the frozen out-neighbours are the ones read just before. */
    method Freeze() returns (r: Result<Graphs.GraphFrame>)
      requires Valid()
      modifies `baseCsr, `edgeData, `stableRows, `pending, `frozen, `trace
      ensures r.Success? && Graphs.Valid(r.value) && Graphs.Closed(r.value.nodes.rows, r.value.edges.rows)
      ensures r.value.nodes.rows == old(Graph()).nodes
      ensures r.value.edges.rows == Merges.PlainRows(old(Graph()).edges)
      ensures old(Pure()) ==> Merges.FrameAnswers(old(Now()), r.value.edges)
    {
      hide Merges.FrameAnswers, MutableStores.Valid, Ready, View, Merges.SameReads, Merges.HoldsReads, Merges.HoldsSuccessors, LiveBase, LiveDelta, LiveNodes,
           Edges.Valid, Nodes.Valid, Graphs.Valid, Graphs.Closed, Merges.PlainRows, NodesOk, LiveIds, Joined, NeverReadded;
      ValidReady(Now(), trace);
      FlushPending();
      ValidReady(Now(), trace);
      ghost var before := Now();
      var frozenChunks := frozen;
      FrozenView(before, trace);
      Compact();
      SameNodes(before, Now());
      var nodes := CurrentLiveNodeFrame();
      var baseEdges := LiveBaseEdgeFrame();
      var deltaEdges := MaterializeDeltaEdgeFrame(frozenChunks);
      var edges := baseEdges;
      if |deltaEdges.rows| != 0 {
        var joined := Edges.Concat([baseEdges, deltaEdges]);
        TwoEdgeFrames(baseEdges, deltaEdges);
        edges := joined.value;
      }
      assert edges.rows == baseEdges.rows + deltaEdges.rows;
      r := Graphs.New(nodes, edges);
      if old(Pure()) {
        ValidReady(old(Now()), old(trace));
        Merges.FreezeKeepsReads(old(Now()), old(trace), edges);
      }
    }

    // ---- whole runs ----

    /** One operation of a run that never re-adds a deleted id. */
    method Execute(op: Op)
      requires Valid() && Pure() && AddedIds(op) !! trace.deleted + DeletedIds(Graph(), op)
      modifies this
      ensures Valid() && Pure() && Graph() == Apply(old(Graph()), op)
      ensures Succeeds(old(Graph()), op) ==> Effect(old(Graph()), op, Graph())
      ensures trace.deleted == old(trace.deleted) + DeletedIds(old(Graph()), op)
    {
      hide MutableStores.Valid, View, NeverReadded, LiveIds, Steps.Revives, RevivesAfter, CanAppend, Has, HasBase, CanLink, Edges.Valid, Nodes.Valid,
           Nodes.IdSet, Remove, WithoutBase, BaseRow, Effect, Succeeds, LosesRow, Gains;
      PureLive(Now(), trace);
      ApplyEffect(Graph(), op);
      ghost var before := Now();
      match op
      case AddNode(nodes) => {
        var f := Nodes.FromRecordBatch(nodes);
        if f.Success? {
          NovelAdd(Now(), trace, Nodes.IdSet(nodes));
          var r := AddNode(f.value);
          assert LiveIds(Now()) !! trace.deleted;
          PureLive(Now(), trace);
        } else {
          RepeatedRows(Graph(), nodes);
        }
      }
      case AddNodesBatch(nodes) => {
        var f := Nodes.FromRecordBatch(nodes);
        if f.Success? {
          NovelAdd(Now(), trace, Nodes.IdSet(nodes));
          var r := AddNodesBatch(f.value);
          assert LiveIds(Now()) !! trace.deleted;
          PureLive(Now(), trace);
        } else {
          RepeatedRows(Graph(), nodes);
        }
      }
      case UpdateNode(oldId, nodes) => {
        var f := Nodes.FromRecordBatch(nodes);
        if f.Success? {
          NovelUpdate(Now(), trace, oldId, Nodes.IdSet(nodes));
          var r := UpdateNode(oldId, f.value);
          assert LiveIds(Now()) !! trace.deleted;
          PureLive(Now(), trace);
        } else {
          RepeatedRows(Remove(Graph(), oldId), nodes);
        }
      }
      case DeleteNode(id) => {
        var r := DeleteNode(id);
        PureLive(Now(), trace);
      }
      case AddEdge(src, dst) => {
        var r := AddEdge(src, dst);
        Steps.SameLive(before, Now());
        PureLive(Now(), trace);
      }
      case AddEdgeRow(rows) => {
        var edge := Edges.FromValidBatch(rows);
        var r := AddEdgeRow(edge);
        Steps.SameLive(before, Now());
        PureLive(Now(), trace);
      }
      case DeleteEdge(row) => {
        var r := DeleteEdge(row);
        Steps.SameLive(before, Now());
        PureLive(Now(), trace);
      }
      case UpdateEdge(row, src, dst) => {
        var r := UpdateEdge(row, src, dst);
        Steps.SameLive(before, Now());
        PureLive(Now(), trace);
      }
      case UpdateEdgeRow(row, rows) => {
        var edge := Edges.FromValidBatch(rows);
        var r := UpdateEdgeRow(row, edge);
        Steps.SameLive(before, Now());
        PureLive(Now(), trace);
      }
    }

    /** Simulation over whole runs: whatever was added, deleted and updated, in whatever order, and whenever
        flushes fired, the object stands for the plain graph the same operations produce. */
    method Run(ops: seq<Op>)
      requires Valid() && Pure() && NeverReadds(Graph(), trace.deleted, ops)
      modifies this
      ensures Valid() && Pure() && Graph() == ApplyAll(old(Graph()), ops)
      ensures trace.deleted == old(trace.deleted) + DeletedAll(old(Graph()), ops)
    {
      hide MutableStores.Valid, View, NeverReadded, Apply, AddedIds, DeletedIds;
      ghost var start, deleted := Graph(), trace.deleted;
      var k := 0;
      while k < |ops|
        invariant 0 <= k <= |ops| && Valid() && Pure() && Graph() == ApplyAll(start, ops[..k])
        invariant trace.deleted == deleted + DeletedAll(start, ops[..k])
      {
        assert ops[..k + 1][..k] == ops[..k];
        Execute(ops[k]);
        k := k + 1;
      }
      assert ops[..k] == ops;
    }
  }
}
