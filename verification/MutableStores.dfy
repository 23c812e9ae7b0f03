/** The fields of the mutable graph as one value: a base snapshot with tombstones, frozen chunks and a
    pending buffer, the plain graph they stand for, and the invariant that ties the two together. */
module MutableStores {
  import opened Basics
  import opened Rows
  import opened PlainGraphs
  import Csr
  import Nodes = NodeFrames
  import Edges = EdgeFrames

  datatype PendingEdgeRow = PendingEdgeRow(srcIdx: nat, dstIdx: nat, edge: Edges.EdgeFrame)

  datatype FrozenEdgeChunk = FrozenEdgeChunk(csr: Csr.CsrIndex, edges: Edges.EdgeFrame)

  datatype Store = Store(nodeFrame: Nodes.NodeFrame, baseCsr: Csr.CsrIndex, edgeData: Edges.EdgeFrame, stableRows: bool,
                         pending: seq<PendingEdgeRow>, frozen: seq<FrozenEdgeChunk>,
                         nodeIdToIdx: map<string, nat>, nodeIdxToId: seq<string>,
                         edgeNodeIdToIdx: map<string, nat>, edgeNodeIdxToId: seq<string>,
                         nodeTombstones: seq<bool>, edgeTombstones: seq<bool>)

  /** Ghost companions of a run: the endpoint indices each chunk was built from, and every id ever deleted. */
  datatype Ends = Ends(src: seq<nat>, dst: seq<nat>)

  datatype Trace = Trace(ends: seq<Ends>, deleted: set<string>)

  // ---- liveness, as the read paths test it (`true` in a tombstone vector means live) ----

  predicate NodeIsLiveById(s: Store, id: string) {
    id in s.nodeIdToIdx && s.nodeIdToIdx[id] < |s.nodeTombstones| && s.nodeTombstones[s.nodeIdToIdx[id]]
  }

  predicate EdgeNodeIsLive(s: Store, idx: nat) {
    idx < |s.edgeNodeIdxToId| && NodeIsLiveById(s, s.edgeNodeIdxToId[idx])
  }

  function LiveIds(s: Store): set<string> {
    set id | id in s.nodeIdToIdx && NodeIsLiveById(s, id)
  }

  predicate EndsLive(r: EdgeRow, live: set<string>) {
    r.src in live && r.dst in live
  }

  predicate IdxLive(ids: seq<string>, live: set<string>, idx: nat) {
    idx < |ids| && ids[idx] in live
  }

  // ---- the plain graph a store stands for ----

  function LiveNodes(s: Store): seq<NodeRow>
    requires |s.nodeTombstones| == |s.nodeFrame.rows|
  {
    Kept(s.nodeFrame.rows, s.nodeTombstones)
  }

  /** The base rows that are neither tombstoned nor left without an endpoint. */
  function LiveBase(rows: seq<EdgeRow>, tomb: seq<bool>, live: set<string>): seq<PlainEdge>
    requires |rows| == |tomb|
  {
    if rows == [] then []
    else
      var n := |rows| - 1;
      LiveBase(rows[..n], tomb[..n], live) + if tomb[n] && EndsLive(rows[n], live) then [PlainEdge(Some(n), rows[n])] else []
  }

  function LiveDelta(rows: seq<EdgeRow>, live: set<string>): seq<PlainEdge> {
    if rows == [] then []
    else
      var n := |rows| - 1;
      LiveDelta(rows[..n], live) + if EndsLive(rows[n], live) then [PlainEdge(None, rows[n])] else []
  }

  function ChunkRows(frozen: seq<FrozenEdgeChunk>): (r: seq<seq<EdgeRow>>)
    ensures |r| == |frozen| && forall k | 0 <= k < |r| :: r[k] == frozen[k].edges.rows
  {
    seq(|frozen|, k requires 0 <= k < |frozen| => frozen[k].edges.rows)
  }

  function PendingFrames(pending: seq<PendingEdgeRow>): (r: seq<seq<EdgeRow>>)
    ensures |r| == |pending| && forall k | 0 <= k < |r| :: r[k] == pending[k].edge.rows
  {
    seq(|pending|, k requires 0 <= k < |pending| => pending[k].edge.rows)
  }

  /** All rows added since the base snapshot, frozen before pending. */
  function DeltaRows(s: Store): seq<EdgeRow> {
    Joined(ChunkRows(s.frozen)) + Joined(PendingFrames(s.pending))
  }

  ghost predicate Sized(s: Store) {
    |s.nodeTombstones| == |s.nodeFrame.rows| && |s.edgeTombstones| == |s.edgeData.rows|
  }

  /** Live nodes; live base rows in original order, then live added rows in insertion order. */
  ghost function View(s: Store): Plain
    requires Sized(s)
  {
    Plain(LiveNodes(s),
          LiveBase(s.edgeData.rows, s.edgeTombstones, LiveIds(s)) + LiveDelta(DeltaRows(s), LiveIds(s)),
          |s.edgeTombstones|)
  }

  // ---- the invariant ----

  ghost predicate NodesOk(s: Store) {
    && Nodes.Valid(s.nodeFrame) && |s.nodeTombstones| == |s.nodeFrame.rows| && s.nodeIdxToId == Nodes.Ids(s.nodeFrame.rows)
    && (forall id | id in s.nodeIdToIdx :: && s.nodeIdToIdx[id] < |s.nodeFrame.rows|
                                           && s.nodeFrame.rows[s.nodeIdToIdx[id]].id == id && s.nodeTombstones[s.nodeIdToIdx[id]])
    && forall r | 0 <= r < |s.nodeFrame.rows| && s.nodeTombstones[r] :: s.nodeFrame.rows[r].id in s.nodeIdToIdx
  }

  /** `idx` is the index under which its id would be resolved today. */
  predicate Current(index: map<string, nat>, ids: seq<string>, idx: nat) {
    idx < |ids| && ids[idx] in index && index[ids[idx]] == idx
  }

  /** Every edge-node index is current or belongs to an id that was deleted; resolvable ids are live nodes. */
  ghost predicate IndexOk(index: map<string, nat>, ids: seq<string>, nodes: map<string, nat>, deleted: set<string>) {
    && (forall id | id in index :: id in nodes && index[id] < |ids| && ids[index[id]] == id)
    && forall i | 0 <= i < |ids| :: Current(index, ids, i) || ids[i] in deleted
  }

  ghost predicate BaseOk(s: Store) {
    && s.stableRows && Edges.Valid(s.edgeData) && s.baseCsr == s.edgeData.outCsr && |s.edgeTombstones| == |s.edgeData.rows|
    && Edges.IdsOf(s.edgeData.rows) <= s.edgeNodeIdxToId
    && forall e | 0 <= e < |s.edgeTombstones| && s.edgeTombstones[e] ::
         && Current(s.edgeNodeIdToIdx, s.edgeNodeIdxToId, Edges.SrcIdx(s.edgeData.rows)[e])
         && Current(s.edgeNodeIdToIdx, s.edgeNodeIdxToId, Edges.DstIdx(s.edgeData.rows)[e])
  }

  ghost predicate RowOk(p: PendingEdgeRow, index: map<string, nat>, ids: seq<string>) {
    && Edges.Valid(p.edge) && |p.edge.rows| == 1
    && Current(index, ids, p.srcIdx) && ids[p.srcIdx] == p.edge.rows[0].src
    && Current(index, ids, p.dstIdx) && ids[p.dstIdx] == p.edge.rows[0].dst
  }

  ghost predicate PendingOk(pending: seq<PendingEdgeRow>, index: map<string, nat>, ids: seq<string>) {
    forall k | 0 <= k < |pending| :: RowOk(pending[k], index, ids)
  }

  /** The indices name the rows' endpoints. */
  ghost predicate Names(ns: Ends, rows: seq<EdgeRow>, ids: seq<string>) {
    && |ns.src| == |ns.dst| == |rows|
    && forall e | 0 <= e < |rows| :: && ns.src[e] < |ids| && ids[ns.src[e]] == rows[e].src
                                     && ns.dst[e] < |ids| && ids[ns.dst[e]] == rows[e].dst
  }

  ghost predicate ChunkOk(c: FrozenEdgeChunk, ns: Ends, ids: seq<string>) {
    && Edges.Valid(c.edges) && Names(ns, c.edges.rows, ids)
    && |c.csr.offsets| > 0 && Csr.Indexes(c.csr, ns.src, ns.dst, |c.csr.offsets| - 1) && Csr.Covers(ns.src, |c.csr.offsets| - 1)
  }

  ghost predicate FrozenOk(frozen: seq<FrozenEdgeChunk>, ends: seq<Ends>, ids: seq<string>) {
    |frozen| == |ends| && forall k | 0 <= k < |frozen| :: ChunkOk(frozen[k], ends[k], ids)
  }

  const FLUSH_THRESHOLD := 1024

  /** The invariant inside an operation, when the pending buffer may be one row over its limit. */
  ghost predicate Ready(s: Store, t: Trace) {
    && NodesOk(s) && IndexOk(s.edgeNodeIdToIdx, s.edgeNodeIdxToId, s.nodeIdToIdx, t.deleted) && BaseOk(s)
    && PendingOk(s.pending, s.edgeNodeIdToIdx, s.edgeNodeIdxToId)
    && FrozenOk(s.frozen, t.ends, s.edgeNodeIdxToId)
  }

  /** Holds from construction to the first `compact`. */
  ghost predicate Valid(s: Store, t: Trace) {
    Ready(s, t) && |s.pending| <= FLUSH_THRESHOLD
  }

  /** No id that was ever deleted is live again. */
  ghost predicate NeverReadded(s: Store, t: Trace) {
    forall id | id in t.deleted :: id !in s.nodeIdToIdx
  }

  lemma ReadySized(s: Store, t: Trace)
    requires Ready(s, t)
    ensures Sized(s)
  {
  }

  // ---- liveness facts ----

  lemma LiveMeansResolvable(s: Store)
    requires NodesOk(s)
    ensures LiveIds(s) == s.nodeIdToIdx.Keys
    ensures forall id :: NodeIsLiveById(s, id) <==> id in s.nodeIdToIdx
  {
  }

  lemma LiveNodeIds(s: Store, id: string)
    requires NodesOk(s)
    ensures id in Nodes.Ids(LiveNodes(s)) <==> id in s.nodeIdToIdx
  {
    var kept := LiveNodes(s);
    if id in Nodes.Ids(kept) {
      var i :| 0 <= i < |kept| && Nodes.Ids(kept)[i] == id;
      KeptMember(s.nodeFrame.rows, s.nodeTombstones, kept[i]);
    }
    if id in s.nodeIdToIdx {
      var r := s.nodeIdToIdx[id];
      KeptMember(s.nodeFrame.rows, s.nodeTombstones, s.nodeFrame.rows[r]);
      var i :| 0 <= i < |kept| && kept[i] == s.nodeFrame.rows[r];
      assert Nodes.Ids(kept)[i] == id;
    }
  }

  lemma HasMeansResolvable(s: Store, t: Trace, id: string)
    requires Ready(s, t)
    ensures Sized(s) && (Has(View(s), id) <==> id in s.nodeIdToIdx)
  {
    LiveNodeIds(s, id);
  }
}
