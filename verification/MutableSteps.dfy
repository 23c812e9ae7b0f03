/** What each single change to the store does to the invariant and to the plain graph it stands for. */
module MutableSteps {
  import opened Basics
  import opened Rows
  import opened PlainGraphs
  import opened MutableStores
  import Csr
  import Nodes = NodeFrames
  import Edges = EdgeFrames
  import Reads = MutableReads

  // ---- appending to the pending buffer ----

  lemma SameLive(s: Store, s': Store)
    requires s'.nodeIdToIdx == s.nodeIdToIdx && s'.nodeTombstones == s.nodeTombstones
    ensures LiveIds(s') == LiveIds(s)
  {
  }

  lemma AddPending(s: Store, t: Trace, p: PendingEdgeRow)
    requires Ready(s, t) && RowOk(p, s.edgeNodeIdToIdx, s.edgeNodeIdxToId)
    ensures Ready(s.(pending := s.pending + [p]), t)
    ensures Sized(s) && View(s.(pending := s.pending + [p])) == Link(View(s), p.edge.rows[0])
  {
    hide NodesOk, BaseOk, FrozenOk, IndexOk, RowOk, LiveIds, LiveBase, LiveDelta, Joined, EndsLive;
    ReadySized(s, t);
    var s' := s.(pending := s.pending + [p]);
    SameBase(s, s');
    SameLive(s, s');
    PendingMore(s.pending, p);
    OneFrame(p, s.edgeNodeIdToIdx, s.edgeNodeIdxToId);
    assert DeltaRows(s') == DeltaRows(s) + p.edge.rows;
    Reads.DeltaConcat(DeltaRows(s), p.edge.rows, LiveIds(s));
    RowIsLive(s, t, p);
    OneLive(p.edge.rows, LiveIds(s));
  }

  lemma PendingMore(pending: seq<PendingEdgeRow>, p: PendingEdgeRow)
    ensures Joined(PendingFrames(pending + [p])) == Joined(PendingFrames(pending)) + p.edge.rows
  {
    assert PendingFrames(pending + [p])[..|pending|] == PendingFrames(pending);
  }

  lemma OneFrame(p: PendingEdgeRow, index: map<string, nat>, ids: seq<string>)
    requires RowOk(p, index, ids)
    ensures |p.edge.rows| == 1
  {
  }

  lemma RowIsLive(s: Store, t: Trace, p: PendingEdgeRow)
    requires Ready(s, t) && RowOk(p, s.edgeNodeIdToIdx, s.edgeNodeIdxToId)
    ensures EndsLive(p.edge.rows[0], LiveIds(s))
  {
    LiveMeansResolvable(s);
  }

  lemma OneLive(rows: seq<EdgeRow>, live: set<string>)
    requires |rows| == 1 && EndsLive(rows[0], live)
    ensures LiveDelta(rows, live) == [PlainEdge(None, rows[0])]
  {
    assert rows[..0] == [];
  }

  // ---- registering a new edge-node index ----

  function Registered(s: Store, id: string): Store {
    s.(edgeNodeIdToIdx := s.edgeNodeIdToIdx[id := |s.edgeNodeIdxToId|], edgeNodeIdxToId := s.edgeNodeIdxToId + [id])
  }

  lemma Register(s: Store, t: Trace, id: string)
    requires Ready(s, t) && id !in s.edgeNodeIdToIdx && id in s.nodeIdToIdx
    ensures Ready(Registered(s, id), t) && Sized(s) && View(Registered(s, id)) == View(s)
    ensures forall i :: Current(s.edgeNodeIdToIdx, s.edgeNodeIdxToId, i) ==>
                        Current(Registered(s, id).edgeNodeIdToIdx, Registered(s, id).edgeNodeIdxToId, i)
  {
    hide NodesOk, BaseOk, PendingOk, FrozenOk, IndexOk, LiveIds, LiveBase, LiveDelta, Joined, Current;
    ReadySized(s, t);
    SameLive(s, Registered(s, id));
    RegisterIndex(s.edgeNodeIdToIdx, s.edgeNodeIdxToId, s.nodeIdToIdx, t.deleted, id);
    RegisterBase(s, id);
    RegisterPending(s.pending, s.edgeNodeIdToIdx, s.edgeNodeIdxToId, id);
    RegisterFrozen(s.frozen, t.ends, s.edgeNodeIdxToId, id);
  }

  lemma RegisterIndex(index: map<string, nat>, ids: seq<string>, nodes: map<string, nat>, deleted: set<string>, id: string)
    requires IndexOk(index, ids, nodes, deleted) && id !in index && id in nodes
    ensures IndexOk(index[id := |ids|], ids + [id], nodes, deleted)
    ensures forall i :: Current(index, ids, i) ==> Current(index[id := |ids|], ids + [id], i)
  {
  }

  lemma RegisterBase(s: Store, id: string)
    requires NodesOk(s) && BaseOk(s) && id !in s.edgeNodeIdToIdx
    ensures NodesOk(Registered(s, id)) && BaseOk(Registered(s, id))
  {
    hide Edges.Valid, Edges.IdsOf, Edges.SrcIdx, Edges.DstIdx;
    var s' := Registered(s, id);
    assert Edges.IdsOf(s.edgeData.rows) <= s'.edgeNodeIdxToId;
  }

  lemma RegisterPending(pending: seq<PendingEdgeRow>, index: map<string, nat>, ids: seq<string>, id: string)
    requires PendingOk(pending, index, ids) && id !in index
    ensures PendingOk(pending, index[id := |ids|], ids + [id])
  {
    hide Edges.Valid;
    forall k | 0 <= k < |pending|
      ensures RowOk(pending[k], index[id := |ids|], ids + [id])
    {
      assert RowOk(pending[k], index, ids);
    }
  }

  lemma RegisterFrozen(frozen: seq<FrozenEdgeChunk>, ends: seq<Ends>, ids: seq<string>, id: string)
    requires FrozenOk(frozen, ends, ids)
    ensures FrozenOk(frozen, ends, ids + [id])
  {
    hide Edges.Valid, Csr.Indexes, Csr.Covers;
    forall k | 0 <= k < |frozen|
      ensures ChunkOk(frozen[k], ends[k], ids + [id])
    {
      assert ChunkOk(frozen[k], ends[k], ids);
    }
  }

  // ---- flushing ----

  function PendingEnds(pending: seq<PendingEdgeRow>): (r: Ends)
    ensures |r.src| == |r.dst| == |pending|
    ensures forall k | 0 <= k < |pending| :: r.src[k] == pending[k].srcIdx && r.dst[k] == pending[k].dstIdx
  {
    Ends(seq(|pending|, k requires 0 <= k < |pending| => pending[k].srcIdx), seq(|pending|, k requires 0 <= k < |pending| => pending[k].dstIdx))
  }

  lemma {:induction false} PendingNames(pending: seq<PendingEdgeRow>, index: map<string, nat>, ids: seq<string>)
    requires PendingOk(pending, index, ids)
    ensures Names(PendingEnds(pending), Joined(PendingFrames(pending)), ids)
    ensures Csr.Covers(PendingEnds(pending).src, |ids|)
  {
    if pending != [] {
      var n := |pending| - 1;
      PendingNames(pending[..n], index, ids);
      assert PendingFrames(pending)[..n] == PendingFrames(pending[..n]);
      assert RowOk(pending[n], index, ids);
      PendingNamesOne(pending, Joined(PendingFrames(pending[..n])), index, ids);
    }
  }

  lemma PendingNamesOne(pending: seq<PendingEdgeRow>, before: seq<EdgeRow>, index: map<string, nat>, ids: seq<string>)
    requires pending != [] && RowOk(pending[|pending| - 1], index, ids)
    requires Names(PendingEnds(pending[..|pending| - 1]), before, ids) && Csr.Covers(PendingEnds(pending[..|pending| - 1]).src, |ids|)
    ensures Names(PendingEnds(pending), before + pending[|pending| - 1].edge.rows, ids) && Csr.Covers(PendingEnds(pending).src, |ids|)
  {
    hide Edges.Valid;
    var n := |pending| - 1;
    var a, b := PendingEnds(pending[..n]), PendingEnds(pending);
    assert forall k | 0 <= k < n :: a.src[k] == b.src[k] && a.dst[k] == b.dst[k];
  }

  function Flushed(s: Store, chunk: FrozenEdgeChunk): Store {
    s.(pending := [], frozen := s.frozen + [chunk])
  }

  lemma Flush(s: Store, t: Trace, chunk: FrozenEdgeChunk)
    requires Ready(s, t) && Edges.Valid(chunk.edges) && chunk.edges.rows == Joined(PendingFrames(s.pending))
    requires Csr.Indexes(chunk.csr, PendingEnds(s.pending).src, PendingEnds(s.pending).dst, |s.edgeNodeIdxToId|)
    ensures Valid(Flushed(s, chunk), t.(ends := t.ends + [PendingEnds(s.pending)]))
    ensures Sized(s) && View(Flushed(s, chunk)) == View(s)
  {
    hide NodesOk, IndexOk, BaseOk, Names, Csr.Covers, Edges.Valid, RowOk;
    ReadySized(s, t);
    var s' := Flushed(s, chunk);
    PendingNames(s.pending, s.edgeNodeIdToIdx, s.edgeNodeIdxToId);
    assert ChunkOk(chunk, PendingEnds(s.pending), s.edgeNodeIdxToId);
    assert LiveIds(s') == LiveIds(s);
    assert ChunkRows(s'.frozen)[..|s.frozen|] == ChunkRows(s.frozen);
    assert PendingFrames([]) == [];
    assert DeltaRows(s') == DeltaRows(s);
    SameBase(s, s');
  }

  lemma SameBase(s: Store, s': Store)
    requires BaseOk(s) && NodesOk(s) && s' == s.(pending := s'.pending, frozen := s'.frozen)
    ensures BaseOk(s') && NodesOk(s')
  {
  }

  // ---- tombstoning one base edge ----

  lemma DropEdge(s: Store, t: Trace, row: nat)
    requires Ready(s, t) && row < |s.edgeTombstones|
    ensures Ready(s.(edgeTombstones := s.edgeTombstones[row := false]), t)
    ensures Sized(s) && View(s.(edgeTombstones := s.edgeTombstones[row := false])) == Unlink(View(s), row)
  {
    hide NodesOk, IndexOk, PendingOk, FrozenOk, LiveBase, LiveDelta, WithoutBase;
    ReadySized(s, t);
    var s' := s.(edgeTombstones := s.edgeTombstones[row := false]);
    assert LiveIds(s') == LiveIds(s);
    DropNodes(s, s');
    DropBase(s.edgeData.rows, s.edgeTombstones, row, LiveIds(s));
    DropNoDelta(DeltaRows(s), row, LiveIds(s));
    WithoutBaseConcat(LiveBase(s.edgeData.rows, s.edgeTombstones, LiveIds(s)), LiveDelta(DeltaRows(s), LiveIds(s)), row);
  }

  lemma DropNodes(s: Store, s': Store)
    requires NodesOk(s) && s' == s.(edgeTombstones := s'.edgeTombstones)
    ensures NodesOk(s')
  {
  }

  lemma {:induction false} WithoutBaseConcat(a: seq<PlainEdge>, b: seq<PlainEdge>, row: nat)
    ensures WithoutBase(a + b, row) == WithoutBase(a, row) + WithoutBase(b, row)
  {
    if b == [] {
      assert a + b == a;
    } else {
      assert (a + b)[..|a + b| - 1] == a + b[..|b| - 1];
      WithoutBaseConcat(a, b[..|b| - 1], row);
    }
  }

  lemma {:induction false} DropNoDelta(rows: seq<EdgeRow>, row: nat, live: set<string>)
    ensures WithoutBase(LiveDelta(rows, live), row) == LiveDelta(rows, live)
  {
    if rows != [] {
      var n := |rows| - 1;
      DropNoDelta(rows[..n], row, live);
      WithoutBaseConcat(LiveDelta(rows[..n], live), if EndsLive(rows[n], live) then [PlainEdge(None, rows[n])] else [], row);
    }
  }

  lemma {:induction false} DropBase(rows: seq<EdgeRow>, tomb: seq<bool>, row: nat, live: set<string>)
    requires |rows| == |tomb|
    ensures LiveBase(rows, if row < |tomb| then tomb[row := false] else tomb, live) == WithoutBase(LiveBase(rows, tomb, live), row)
  {
    if rows != [] {
      var n := |rows| - 1;
      DropBase(rows[..n], tomb[..n], row, live);
      var tomb' := if row < |tomb| then tomb[row := false] else tomb;
      assert tomb'[..n] == if row < n then tomb[..n][row := false] else tomb[..n];
      WithoutBaseConcat(LiveBase(rows[..n], tomb[..n], live), if tomb[n] && EndsLive(rows[n], live) then [PlainEdge(Some(n), rows[n])] else [], row);
    }
  }

  // ---- deleting a node ----

  /** The rows of the pending buffer that do not touch index `idx`. */
  function Retained(pending: seq<PendingEdgeRow>, idx: nat): seq<PendingEdgeRow> {
    if pending == [] then []
    else
      var p := pending[|pending| - 1];
      Retained(pending[..|pending| - 1], idx) + if p.srcIdx != idx && p.dstIdx != idx then [p] else []
  }

  /** The tombstones after clearing every live row that touches `id`. */
  ghost predicate Cleared(rows: seq<EdgeRow>, tomb: seq<bool>, tomb': seq<bool>, id: string) {
    && |tomb'| == |tomb| == |rows|
    && forall e | 0 <= e < |rows| :: tomb'[e] <==> tomb[e] && !Touches(rows[e], id)
  }

  lemma {:induction false} WithoutEndsConcat(a: seq<PlainEdge>, b: seq<PlainEdge>, id: string)
    ensures WithoutEnds(a + b, id) == WithoutEnds(a, id) + WithoutEnds(b, id)
  {
    if b == [] {
      assert a + b == a;
    } else {
      assert (a + b)[..|a + b| - 1] == a + b[..|b| - 1];
      WithoutEndsConcat(a, b[..|b| - 1], id);
    }
  }

  lemma OneEdge(e: PlainEdge, id: string)
    ensures WithoutEnds([e], id) == (if Touches(e.row, id) then [] else [e]) && WithoutEnds([], id) == []
  {
    assert [e][..0] == [];
  }

  lemma LiveLess(r: EdgeRow, live: set<string>, id: string)
    ensures EndsLive(r, live - {id}) <==> EndsLive(r, live) && !Touches(r, id)
  {
  }

  lemma {:induction false} ClearBase(rows: seq<EdgeRow>, tomb: seq<bool>, tomb': seq<bool>, live: set<string>, id: string)
    requires Cleared(rows, tomb, tomb', id)
    ensures LiveBase(rows, tomb', live - {id}) == WithoutEnds(LiveBase(rows, tomb, live), id)
  {
    if rows != [] {
      hide WithoutEnds, EndsLive, Touches;
      var n := |rows| - 1;
      OneEdge(PlainEdge(Some(n), rows[n]), id);
      LiveLess(rows[n], live, id);
      ClearBase(rows[..n], tomb[..n], tomb'[..n], live, id);
      WithoutEndsConcat(LiveBase(rows[..n], tomb[..n], live), if tomb[n] && EndsLive(rows[n], live) then [PlainEdge(Some(n), rows[n])] else [], id);
    }
  }

  lemma {:induction false} ClearDelta(rows: seq<EdgeRow>, live: set<string>, id: string)
    ensures LiveDelta(rows, live - {id}) == WithoutEnds(LiveDelta(rows, live), id)
  {
    if rows != [] {
      var n := |rows| - 1;
      ClearDelta(rows[..n], live, id);
      WithoutEndsConcat(LiveDelta(rows[..n], live), if EndsLive(rows[n], live) then [PlainEdge(None, rows[n])] else [], id);
    }
  }

  /** Pruned rows would be hidden anyway. */
  lemma {:induction false} PruneDelta(pending: seq<PendingEdgeRow>, idx: nat, index: map<string, nat>, ids: seq<string>, live: set<string>, id: string)
    requires PendingOk(pending, index, ids) && id in index && index[id] == idx && idx < |ids| && ids[idx] == id && id !in live
    ensures LiveDelta(Joined(PendingFrames(Retained(pending, idx))), live) == LiveDelta(Joined(PendingFrames(pending)), live)
  {
    hide RowOk, LiveDelta, Joined;
    if pending != [] {
      var n := |pending| - 1;
      var p := pending[n];
      var before, kept := pending[..n], Retained(pending[..n], idx);
      PruneDelta(before, idx, index, ids, live, id);
      assert pending == before + [p];
      PendingMore(before, p);
      Reads.DeltaConcat(Joined(PendingFrames(before)), p.edge.rows, live);
      if p.srcIdx != idx && p.dstIdx != idx {
        PendingMore(kept, p);
        Reads.DeltaConcat(Joined(PendingFrames(kept)), p.edge.rows, live);
      } else {
        assert Retained(pending, idx) == kept;
        PrunedTouches(p, idx, index, ids, id);
        HiddenRow(p, index, ids, live, id);
      }
    }
  }

  lemma PrunedTouches(p: PendingEdgeRow, idx: nat, index: map<string, nat>, ids: seq<string>, id: string)
    requires RowOk(p, index, ids) && id in index && index[id] == idx && idx < |ids| && ids[idx] == id && (p.srcIdx == idx || p.dstIdx == idx)
    ensures |p.edge.rows| == 1 && Touches(p.edge.rows[0], id)
  {
  }

  lemma HiddenRow(p: PendingEdgeRow, index: map<string, nat>, ids: seq<string>, live: set<string>, id: string)
    requires RowOk(p, index, ids) && |p.edge.rows| == 1 && Touches(p.edge.rows[0], id) && id !in live
    ensures LiveDelta(p.edge.rows, live) == []
  {
    assert p.edge.rows[..0] == [];
  }

  lemma {:induction false} PruneRows(pending: seq<PendingEdgeRow>, idx: nat, index: map<string, nat>, ids: seq<string>, id: string)
    requires PendingOk(pending, index, ids) && id in index && index[id] == idx
    ensures PendingOk(Retained(pending, idx), index - {id}, ids) && |Retained(pending, idx)| <= |pending|
  {
    hide Edges.Valid;
    if pending != [] {
      PruneRows(pending[..|pending| - 1], idx, index, ids, id);
      assert RowOk(pending[|pending| - 1], index, ids);
    }
  }

  lemma {:induction false} DropNode(rows: seq<NodeRow>, tomb: seq<bool>, r: nat)
    requires |rows| == |tomb| && r < |rows| && Distinct(Nodes.Ids(rows))
    ensures Kept(rows, tomb[r := false]) == WithoutNode(Kept(rows, tomb), rows[r].id)
  {
    hide WithoutNode;
    var n := |rows| - 1;
    OneNode(rows[n], rows[r].id);
    WithoutNodeConcat(Kept(rows[..n], tomb[..n]), if tomb[n] then [rows[n]] else [], rows[r].id);
    assert Nodes.Ids(rows[..n]) == Nodes.Ids(rows)[..n];
    assert Nodes.Ids(rows)[r] == rows[r].id && Nodes.Ids(rows)[n] == rows[n].id;
    if r < n {
      DropNode(rows[..n], tomb[..n], r);
      assert tomb[r := false][..n] == tomb[..n][r := false];
    } else {
      assert tomb[r := false][..n] == tomb[..n];
      KeptOthers(rows[..n], tomb[..n], rows[n].id);
    }
  }

  lemma OneNode(r: NodeRow, id: string)
    ensures WithoutNode([r], id) == (if r.id == id then [] else [r]) && WithoutNode([], id) == []
  {
    assert [r][..0] == [];
  }

  lemma {:induction false} KeptOthers(rows: seq<NodeRow>, tomb: seq<bool>, id: string)
    requires |rows| == |tomb| && id !in Nodes.Ids(rows)
    ensures WithoutNode(Kept(rows, tomb), id) == Kept(rows, tomb)
  {
    if rows != [] {
      hide WithoutNode;
      var n := |rows| - 1;
      assert Nodes.Ids(rows[..n]) == Nodes.Ids(rows)[..n] && Nodes.Ids(rows)[n] == rows[n].id;
      OneNode(rows[n], id);
      KeptOthers(rows[..n], tomb[..n], id);
      WithoutNodeConcat(Kept(rows[..n], tomb[..n]), if tomb[n] then [rows[n]] else [], id);
    }
  }

  lemma {:induction false} WithoutNodeConcat(a: seq<NodeRow>, b: seq<NodeRow>, id: string)
    ensures WithoutNode(a + b, id) == WithoutNode(a, id) + WithoutNode(b, id)
  {
    if b == [] {
      assert a + b == a;
    } else {
      assert (a + b)[..|a + b| - 1] == a + b[..|b| - 1];
      WithoutNodeConcat(a, b[..|b| - 1], id);
    }
  }

  function NodeDropped(s: Store, id: string, tomb: seq<bool>, pending: seq<PendingEdgeRow>): Store
    requires id in s.nodeIdToIdx && s.nodeIdToIdx[id] < |s.nodeTombstones|
  {
    s.(nodeIdToIdx := s.nodeIdToIdx - {id}, nodeTombstones := s.nodeTombstones[s.nodeIdToIdx[id] := false],
       edgeNodeIdToIdx := s.edgeNodeIdToIdx - {id}, edgeTombstones := tomb, pending := pending)
  }

  /** What the two index walks and the pruning achieve, whether or not `id` has an edge-node index. */
  ghost predicate Detached(s: Store, id: string, tomb: seq<bool>, pending: seq<PendingEdgeRow>) {
    && Cleared(s.edgeData.rows, s.edgeTombstones, tomb, id)
    && pending == if id in s.edgeNodeIdToIdx then Retained(s.pending, s.edgeNodeIdToIdx[id]) else s.pending
  }

  lemma DropNodeValid(s: Store, t: Trace, id: string, tomb: seq<bool>, pending: seq<PendingEdgeRow>)
    requires Ready(s, t) && id in s.nodeIdToIdx && Detached(s, id, tomb, pending)
    ensures s.nodeIdToIdx[id] < |s.nodeTombstones|
    ensures Ready(NodeDropped(s, id, tomb, pending), t.(deleted := t.deleted + {id})) && |pending| <= |s.pending|
  {
    var s', t' := NodeDropped(s, id, tomb, pending), t.(deleted := t.deleted + {id});
    DropNodeNodes(s, id, tomb, pending);
    DropNodeBase(s, t, id, tomb, pending);
    DropNodePending(s, t, id, pending);
    DropNodeIndex(s.edgeNodeIdToIdx, s.edgeNodeIdxToId, s.nodeIdToIdx, t.deleted, id);
  }

  lemma DropNodeNodes(s: Store, id: string, tomb: seq<bool>, pending: seq<PendingEdgeRow>)
    requires NodesOk(s) && id in s.nodeIdToIdx
    ensures NodesOk(NodeDropped(s, id, tomb, pending))
  {
    var s' := NodeDropped(s, id, tomb, pending);
    var dead := s.nodeIdToIdx[id];
    forall r | 0 <= r < |s.nodeFrame.rows| && s'.nodeTombstones[r]
      ensures s.nodeFrame.rows[r].id in s'.nodeIdToIdx
    {
      assert Nodes.Ids(s.nodeFrame.rows)[r] != Nodes.Ids(s.nodeFrame.rows)[dead];
    }
  }

  lemma DropNodeBase(s: Store, t: Trace, id: string, tomb: seq<bool>, pending: seq<PendingEdgeRow>)
    requires Ready(s, t) && id in s.nodeIdToIdx && s.nodeIdToIdx[id] < |s.nodeTombstones| && Cleared(s.edgeData.rows, s.edgeTombstones, tomb, id)
    ensures BaseOk(NodeDropped(s, id, tomb, pending))
  {
    hide Edges.Valid, Edges.IdsOf, NodesOk, PendingOk, FrozenOk, Names;
    Reads.BaseNames(s);
    BaseNamesMeaning(s);
  }

  lemma BaseNamesMeaning(s: Store)
    requires |s.edgeTombstones| == |s.edgeData.rows|
    requires Names(Ends(Edges.SrcIdx(s.edgeData.rows), Edges.DstIdx(s.edgeData.rows)), s.edgeData.rows, s.edgeNodeIdxToId)
    ensures forall e | 0 <= e < |s.edgeData.rows| ::
              && Edges.SrcIdx(s.edgeData.rows)[e] < |s.edgeNodeIdxToId| && s.edgeNodeIdxToId[Edges.SrcIdx(s.edgeData.rows)[e]] == s.edgeData.rows[e].src
              && Edges.DstIdx(s.edgeData.rows)[e] < |s.edgeNodeIdxToId| && s.edgeNodeIdxToId[Edges.DstIdx(s.edgeData.rows)[e]] == s.edgeData.rows[e].dst
  {
  }

  lemma DropNodePending(s: Store, t: Trace, id: string, pending: seq<PendingEdgeRow>)
    requires Ready(s, t)
    requires pending == if id in s.edgeNodeIdToIdx then Retained(s.pending, s.edgeNodeIdToIdx[id]) else s.pending
    ensures PendingOk(pending, s.edgeNodeIdToIdx - {id}, s.edgeNodeIdxToId) && |pending| <= |s.pending|
  {
    hide NodesOk, BaseOk, FrozenOk, Edges.Valid;
    if id in s.edgeNodeIdToIdx {
      PruneRows(s.pending, s.edgeNodeIdToIdx[id], s.edgeNodeIdToIdx, s.edgeNodeIdxToId, id);
    } else {
      assert s.edgeNodeIdToIdx - {id} == s.edgeNodeIdToIdx;
    }
  }

  lemma DropNodeIndex(index: map<string, nat>, ids: seq<string>, nodes: map<string, nat>, deleted: set<string>, id: string)
    requires IndexOk(index, ids, nodes, deleted)
    ensures IndexOk(index - {id}, ids, nodes - {id}, deleted + {id})
  {
  }

  lemma DropNodeView(s: Store, t: Trace, id: string, tomb: seq<bool>, pending: seq<PendingEdgeRow>)
    requires Ready(s, t) && id in s.nodeIdToIdx && Detached(s, id, tomb, pending)
    ensures Sized(s) && s.nodeIdToIdx[id] < |s.nodeTombstones|
    ensures View(NodeDropped(s, id, tomb, pending)) == Remove(View(s), id)
  {
    hide PendingOk, FrozenOk, LiveBase, LiveDelta, WithoutEnds, WithoutNode, Retained, Edges.Valid, Joined, Kept;
    var s' := NodeDropped(s, id, tomb, pending);
    var live := LiveIds(s);
    DropNodeNodes(s, id, tomb, pending);
    LiveMeansResolvable(s);
    LiveMeansResolvable(s');
    assert LiveIds(s') == live - {id};
    DropNode(s.nodeFrame.rows, s.nodeTombstones, s.nodeIdToIdx[id]);
    ClearBase(s.edgeData.rows, s.edgeTombstones, tomb, live, id);
    var frozen, before, after := Joined(ChunkRows(s.frozen)), Joined(PendingFrames(s.pending)), Joined(PendingFrames(pending));
    Reads.DeltaConcat(frozen, before, live - {id});
    Reads.DeltaConcat(frozen, after, live - {id});
    ClearDelta(frozen + before, live, id);
    if id in s.edgeNodeIdToIdx {
      PruneDelta(s.pending, s.edgeNodeIdToIdx[id], s.edgeNodeIdToIdx, s.edgeNodeIdxToId, live - {id}, id);
    }
    WithoutEndsConcat(LiveBase(s.edgeData.rows, s.edgeTombstones, live), LiveDelta(DeltaRows(s), live), id);
  }

  // ---- replacing the node frame by the live nodes and some more ----

  function NodesReplaced(s: Store, f: Nodes.NodeFrame, tomb: seq<bool>): Store {
    s.(nodeFrame := f, nodeIdToIdx := f.idIndex, nodeIdxToId := Nodes.Ids(f.rows), nodeTombstones := tomb)
  }

  /** Some frozen edge that is hidden now would show again once `ids` are nodes. */
  ghost predicate Revives(s: Store, ids: set<string>) {
    exists r :: r in Joined(ChunkRows(s.frozen)) && !EndsLive(r, LiveIds(s)) && EndsLive(r, LiveIds(s) + ids)
  }

  lemma ReplaceNodes(s: Store, t: Trace, f: Nodes.NodeFrame, tomb: seq<bool>)
    requires Ready(s, t) && Nodes.Valid(f) && |tomb| == |f.rows| && (forall r | 0 <= r < |tomb| :: tomb[r])
    requires forall id | id in s.nodeIdToIdx :: id in f.idIndex
    ensures Ready(NodesReplaced(s, f, tomb), t) && LiveNodes(NodesReplaced(s, f, tomb)) == f.rows
    ensures LiveIds(NodesReplaced(s, f, tomb)) == f.idIndex.Keys
  {
    hide Edges.Valid, FrozenOk, PendingOk;
    var s' := NodesReplaced(s, f, tomb);
    forall id | id in f.idIndex
      ensures f.idIndex[id] < |f.rows| && f.rows[f.idIndex[id]].id == id
    {
      assert id in Nodes.Ids(f.rows);
    }
    forall r | 0 <= r < |f.rows|
      ensures f.rows[r].id in f.idIndex
    {
      assert Nodes.Ids(f.rows)[r] == f.rows[r].id;
    }
    assert NodesOk(s');
    KeptAll(f.rows, tomb);
    LiveMeansResolvable(s');
  }

  lemma {:induction false} GrowBase(rows: seq<EdgeRow>, tomb: seq<bool>, live: set<string>, more: set<string>)
    requires |rows| == |tomb| && live <= more && forall e | 0 <= e < |rows| && tomb[e] :: EndsLive(rows[e], live)
    ensures LiveBase(rows, tomb, more) == LiveBase(rows, tomb, live)
  {
    if rows != [] {
      GrowBase(rows[..|rows| - 1], tomb[..|rows| - 1], live, more);
    }
  }

  lemma {:induction false} GrowDelta(rows: seq<EdgeRow>, live: set<string>, more: set<string>)
    requires live <= more
    ensures |LiveDelta(rows, live)| <= |LiveDelta(rows, more)|
    ensures |LiveDelta(rows, live)| == |LiveDelta(rows, more)| <==> forall r | r in rows && EndsLive(r, more) :: EndsLive(r, live)
    ensures |LiveDelta(rows, live)| == |LiveDelta(rows, more)| ==> LiveDelta(rows, live) == LiveDelta(rows, more)
  {
    if rows != [] {
      var n := |rows| - 1;
      GrowDelta(rows[..n], live, more);
      assert rows == rows[..n] + [rows[n]];
      assert forall r :: r in rows <==> r in rows[..n] || r == rows[n];
    }
  }

  lemma BaseLive(s: Store, t: Trace)
    requires Ready(s, t)
    ensures forall e | 0 <= e < |s.edgeTombstones| && s.edgeTombstones[e] :: EndsLive(s.edgeData.rows[e], LiveIds(s))
  {
    hide Edges.Valid, Edges.IdsOf, PendingOk, FrozenOk, Names;
    Reads.BaseNames(s);
    BaseNamesMeaning(s);
    LiveMeansResolvable(s);
  }

  lemma {:induction false} PendingLive(pending: seq<PendingEdgeRow>, index: map<string, nat>, ids: seq<string>, live: set<string>)
    requires PendingOk(pending, index, ids) && forall id | id in index :: id in live
    ensures forall r | r in Joined(PendingFrames(pending)) :: EndsLive(r, live)
  {
    if pending != [] {
      var n := |pending| - 1;
      PendingLive(pending[..n], index, ids, live);
      assert PendingFrames(pending)[..n] == PendingFrames(pending[..n]);
      assert RowOk(pending[n], index, ids);
    }
  }

  /** Adding nodes leaves every edge as it was exactly when no hidden frozen edge is revived. */
  lemma ReplaceNodesView(s: Store, t: Trace, f: Nodes.NodeFrame, tomb: seq<bool>, ids: set<string>)
    requires Ready(s, t) && Nodes.Valid(f) && |tomb| == |f.rows| && forall r | 0 <= r < |tomb| :: tomb[r]
    requires f.idIndex.Keys == LiveIds(s) + ids
    ensures Sized(s) && Ready(NodesReplaced(s, f, tomb), t) && View(NodesReplaced(s, f, tomb)).nodes == f.rows
    ensures View(NodesReplaced(s, f, tomb)).baseRows == View(s).baseRows
    ensures View(NodesReplaced(s, f, tomb)).edges == View(s).edges <==> !Revives(s, ids)
  {
    hide LiveBase, LiveDelta, PendingOk, FrozenOk, Edges.Valid, BaseOk, IndexOk, Joined, LiveNodes, Nodes.Valid;
    var s' := NodesReplaced(s, f, tomb);
    var live, more := LiveIds(s), LiveIds(s) + ids;
    LiveMeansResolvable(s);
    ReplaceNodes(s, t, f, tomb);
    BaseLive(s, t);
    ReadySized(s, t);
    GrowBase(s.edgeData.rows, s.edgeTombstones, live, more);
    var frozen, pending := Joined(ChunkRows(s.frozen)), Joined(PendingFrames(s.pending));
    Reads.DeltaConcat(frozen, pending, live);
    Reads.DeltaConcat(frozen, pending, more);
    Resolvable(s, t);
    PendingLive(s.pending, s.edgeNodeIdToIdx, s.edgeNodeIdxToId, live);
    GrowDelta(frozen, live, more);
    GrowDelta(pending, live, more);
    SameTail(LiveBase(s.edgeData.rows, s.edgeTombstones, live), LiveDelta(frozen, live), LiveDelta(frozen, more), LiveDelta(pending, live));
    ReviveMeaning(frozen, live, more, s, ids);
  }

  lemma ReviveMeaning(frozen: seq<EdgeRow>, live: set<string>, more: set<string>, s: Store, ids: set<string>)
    requires frozen == Joined(ChunkRows(s.frozen)) && live == LiveIds(s) && more == live + ids
    ensures Revives(s, ids) <==> !forall r | r in frozen && EndsLive(r, more) :: EndsLive(r, live)
  {
  }

  lemma Resolvable(s: Store, t: Trace)
    requires Ready(s, t)
    ensures forall id | id in s.edgeNodeIdToIdx :: id in LiveIds(s)
  {
    LiveMeansResolvable(s);
  }

  lemma SameTail<T>(a: seq<T>, b: seq<T>, c: seq<T>, d: seq<T>)
    ensures a + (b + d) == a + (c + d) <==> b == c
  {
    if a + (b + d) == a + (c + d) {
      assert b + d == (a + (b + d))[|a|..] && c + d == (a + (c + d))[|a|..];
      assert |b| == |c|;
      assert b == (b + d)[..|b|] && c == (c + d)[..|b|];
    }
  }

  /** Without re-adding a deleted id nothing is revived. */
  lemma NovelRevivesNothing(s: Store, t: Trace, ids: set<string>)
    requires Ready(s, t) && NeverReadded(s, t) && ids !! t.deleted
    ensures !Revives(s, ids)
  {
    hide BaseOk, PendingOk;
    LiveMeansResolvable(s);
    forall r | r in Joined(ChunkRows(s.frozen)) && EndsLive(r, LiveIds(s) + ids)
      ensures EndsLive(r, LiveIds(s))
    {
      FrozenEnds(s.frozen, t.ends, s.edgeNodeIdxToId, r);
    }
  }

  lemma {:induction false} FrozenEnds(frozen: seq<FrozenEdgeChunk>, ends: seq<Ends>, ids: seq<string>, r: EdgeRow)
    requires FrozenOk(frozen, ends, ids) && r in Joined(ChunkRows(frozen))
    ensures r.src in ids && r.dst in ids
  {
    hide Edges.Valid;
    var n := |frozen| - 1;
    assert ChunkRows(frozen)[..n] == ChunkRows(frozen[..n]);
    assert ChunkOk(frozen[n], ends[n], ids);
    if r in frozen[n].edges.rows {
      var e :| 0 <= e < |frozen[n].edges.rows| && frozen[n].edges.rows[e] == r;
      assert ids[ends[n].src[e]] == r.src && ids[ends[n].dst[e]] == r.dst;
    } else {
      FrozenEnds(frozen[..n], ends[..n], ids, r);
    }
  }
}
