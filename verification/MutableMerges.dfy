/** Merging the base snapshot and the frozen chunks: what compaction keeps and what a frozen graph holds. */
module MutableMerges {
  import opened Basics
  import opened Rows
  import opened PlainGraphs
  import opened MutableStores
  import opened MutableReads
  import Csr
  import Nodes = NodeFrames
  import Edges = EdgeFrames
  import Steps = MutableSteps

  // ---- flushing ----

  /** Two stores answer every neighbour query alike, up to order. */
  ghost predicate SameReads(s: Store, s': Store) {
    Readable(s) && Readable(s') && forall u: nat :: multiset(OutNeighbors(s, u)) == multiset(OutNeighbors(s', u))
  }

  lemma {:induction false} PendingScan(pending: seq<PendingEdgeRow>, u: nat, ids: seq<string>, live: set<string>)
    requires IdxLive(ids, live, u)
    ensures Surviving(Csr.Leaving(Steps.PendingEnds(pending).src, Steps.PendingEnds(pending).dst, u), false, [], ids, live)
         == PendingReads(pending, u, ids, live)
  {
    if pending != [] {
      var n := |pending| - 1;
      var ends, before := Steps.PendingEnds(pending), Steps.PendingEnds(pending[..n]);
      PendingScan(pending[..n], u, ids, live);
      assert ends.src[..n] == before.src && ends.dst[..n] == before.dst;
      var now := if ends.src[n] == u then [Csr.Target(ends.dst[n], n)] else [];
      SurvivingConcat(Csr.Leaving(before.src, before.dst, u), now, false, [], ids, live);
    }
  }

  lemma ChunkReads(csr: Csr.CsrIndex, pending: seq<PendingEdgeRow>, n: nat, u: nat, ids: seq<string>, live: set<string>)
    requires Csr.Indexes(csr, Steps.PendingEnds(pending).src, Steps.PendingEnds(pending).dst, n) && Csr.Covers(Steps.PendingEnds(pending).src, n)
    requires IdxLive(ids, live, u)
    ensures multiset(LiveIdx(csr.Neighbors(u), ids, live)) == multiset(PendingReads(pending, u, ids, live))
  {
    hide Csr.Scan, Csr.Leaving, Surviving, LiveIdx, PendingReads, Csr.Covers;
    var ends, ts := Steps.PendingEnds(pending), Csr.Zip(csr.Neighbors(u), csr.EdgeIds(u));
    Csr.LookupIsLeaving(csr, ends.src, ends.dst, n, u);
    LiveIdxSurviving(ts, csr.Neighbors(u), [], ids, live);
    SurvivingBag(ts, Csr.Leaving(ends.src, ends.dst, u), false, [], ids, live);
    PendingScan(pending, u, ids, live);
  }

  lemma FlushKeepsReads(s: Store, t: Trace, chunk: FrozenEdgeChunk)
    requires Ready(s, t)
    requires Csr.Indexes(chunk.csr, Steps.PendingEnds(s.pending).src, Steps.PendingEnds(s.pending).dst, |s.edgeNodeIdxToId|)
    ensures SameReads(s, Steps.Flushed(s, chunk))
  {
    hide NodesOk, BaseOk, FrozenOk, IndexOk, Csr.Scan, Csr.Covers;
    var s' := Steps.Flushed(s, chunk);
    ReadyReadable(s, t);
    Steps.PendingNames(s.pending, s.edgeNodeIdToIdx, s.edgeNodeIdxToId);
    assert Readable(s');
    forall u: nat
      ensures multiset(OutNeighbors(s, u)) == multiset(OutNeighbors(s', u))
    {
      FlushedRead(s, chunk, u);
    }
  }

  lemma FlushedRead(s: Store, chunk: FrozenEdgeChunk, u: nat)
    requires Readable(s) && Readable(Steps.Flushed(s, chunk))
    requires Csr.Indexes(chunk.csr, Steps.PendingEnds(s.pending).src, Steps.PendingEnds(s.pending).dst, |s.edgeNodeIdxToId|)
    requires Csr.Covers(Steps.PendingEnds(s.pending).src, |s.edgeNodeIdxToId|)
    ensures multiset(OutNeighbors(s, u)) == multiset(OutNeighbors(Steps.Flushed(s, chunk), u))
  {
    hide Csr.Scan, Csr.Covers, Csr.Indexes, Surviving, LiveIdx, LiveIds, NodeIsLiveById, FrozenReads, PendingReads;
    var s' := Steps.Flushed(s, chunk);
    var ids, live := s.edgeNodeIdxToId, LiveIds(s);
    Steps.SameLive(s, s');
    LiveEither(s, u);
    LiveEither(s', u);
    if EdgeNodeIsLive(s, u) {
      ChunkReads(chunk.csr, s.pending, |ids|, u, ids, live);
      assert s'.frozen[|s.frozen|] == chunk;
      FrozenReadsMore(s.frozen, chunk, u, ids, live);
      NothingPending(u, ids, live);
    }
  }

  lemma FrozenReadsMore(frozen: seq<FrozenEdgeChunk>, chunk: FrozenEdgeChunk, u: nat, ids: seq<string>, live: set<string>)
    requires (forall k | 0 <= k < |frozen| :: frozen[k].csr.Sliceable()) && chunk.csr.Sliceable() && IdxLive(ids, live, u)
    ensures FrozenReads(frozen + [chunk], u, ids, live) == FrozenReads(frozen, u, ids, live) + LiveIdx(chunk.csr.Neighbors(u), ids, live)
  {
    assert (frozen + [chunk])[..|frozen|] == frozen;
  }

  lemma NothingPending(u: nat, ids: seq<string>, live: set<string>)
    ensures PendingReads([], u, ids, live) == []
  {
  }

  lemma LiveEither(s: Store, u: nat)
    ensures EdgeNodeIsLive(s, u) <==> IdxLive(s.edgeNodeIdxToId, LiveIds(s), u)
  {
  }

  // ---- compaction ----

  /** The surviving targets of `u`: nothing for a dead node; live base rows, then live frozen rows. */
  function MergedRow(s: Store, u: nat): seq<nat>
    requires Readable(s)
  {
    if !EdgeNodeIsLive(s, u) then []
    else
      var ids, live := s.edgeNodeIdxToId, LiveIds(s);
      Surviving(Csr.Zip(s.baseCsr.Neighbors(u), s.baseCsr.EdgeIds(u)), true, s.edgeTombstones, ids, live) + FrozenReads(s.frozen, u, ids, live)
  }

  function Targets(ts: seq<Csr.Target>): (r: seq<nat>)
    ensures |r| == |ts| && forall i | 0 <= i < |ts| :: r[i] == ts[i].dst
  {
    seq(|ts|, i requires 0 <= i < |ts| => ts[i].dst)
  }

  /** The flattened rows of the first `n` nodes. */
  ghost predicate Flattened(src: seq<nat>, dst: seq<nat>, s: Store, n: nat)
    requires Readable(s)
  {
    |src| == |dst| && Csr.Covers(src, n) && forall u | 0 <= u < n :: Targets(Csr.Leaving(src, dst, u)) == MergedRow(s, u)
  }

  function Repeat(u: nat, k: nat): (r: seq<nat>)
    ensures |r| == k && forall i | 0 <= i < k :: r[i] == u
  {
    seq(k, i => u)
  }

  lemma {:induction false} LeavingAppend(src: seq<nat>, dst: seq<nat>, u: nat, row: seq<nat>, v: nat)
    requires |src| == |dst|
    ensures Targets(Csr.Leaving(src + Repeat(u, |row|), dst + row, v)) == Targets(Csr.Leaving(src, dst, v)) + if u == v then row else []
    decreases |row|
  {
    if row == [] {
      assert src + Repeat(u, 0) == src && dst + row == dst;
    } else {
      var k := |row| - 1;
      var a, b := src + Repeat(u, |row|), dst + row;
      assert a[..|a| - 1] == src + Repeat(u, k) && b[..|b| - 1] == dst + row[..k];
      LeavingAppend(src, dst, u, row[..k], v);
      assert row == row[..k] + [row[k]];
      TargetsConcat(Csr.Leaving(a[..|a| - 1], b[..|b| - 1], v), if u == v then [Csr.Target(row[k], |a| - 1)] else []);
    }
  }

  lemma FlattenNode(src: seq<nat>, dst: seq<nat>, s: Store, n: nat, row: seq<nat>)
    requires Readable(s) && Flattened(src, dst, s, n) && row == MergedRow(s, n)
    ensures Flattened(src + Repeat(n, |row|), dst + row, s, n + 1)
  {
    hide MergedRow, Readable, Targets;
    forall u | 0 <= u < n + 1
      ensures Targets(Csr.Leaving(src + Repeat(n, |row|), dst + row, u)) == MergedRow(s, u)
    {
      LeavingAppend(src, dst, n, row, u);
      if u == n {
        Csr.LeavingNone(src, dst, u, n);
      }
    }
  }

  function Compacted(s: Store, csr: Csr.CsrIndex): Store {
    s.(baseCsr := csr, edgeData := s.edgeData.(outCsr := csr), stableRows := false, frozen := [])
  }

  lemma TargetsConcat(a: seq<Csr.Target>, b: seq<Csr.Target>)
    ensures Targets(a + b) == Targets(a) + Targets(b)
  {
  }

  lemma {:induction false} TargetsBag(a: seq<Csr.Target>, b: seq<Csr.Target>)
    requires multiset(a) == multiset(b)
    ensures multiset(Targets(a)) == multiset(Targets(b))
    decreases |a|
  {
    if a == [] {
      assert |multiset(b)| == 0;
    } else {
      var n := |a| - 1;
      var j := TakeOut(a, b);
      TargetsBag(a[..n], b[..j] + b[j + 1..]);
      TargetsConcat(a[..n], [a[n]]);
      TargetsConcat(b[..j], [b[j]]);
      TargetsConcat(b[..j] + [b[j]], b[j + 1..]);
      TargetsConcat(b[..j], b[j + 1..]);
    }
  }

  /** The rebuilt index holds exactly the merged rows: no tombstoned row, no dead endpoint. */
  lemma RebuiltHolds(s: Store, csr: Csr.CsrIndex, src: seq<nat>, dst: seq<nat>, n: nat, u: nat)
    requires Readable(s) && Flattened(src, dst, s, n) && Csr.Indexes(csr, src, dst, n) && u < n
    ensures multiset(csr.Neighbors(u)) == multiset(MergedRow(s, u))
  {
    hide MergedRow, Readable, Csr.Scan, Csr.Leaving;
    Csr.LookupIsLeaving(csr, src, dst, n, u);
    var ts := Csr.Zip(csr.Neighbors(u), csr.EdgeIds(u));
    TargetsBag(ts, Csr.Leaving(src, dst, u));
    assert Targets(ts) == csr.Neighbors(u);
  }

  ghost predicate AllLive(ns: seq<nat>, ids: seq<string>, live: set<string>) {
    forall v | v in ns :: IdxLive(ids, live, v)
  }

  lemma {:induction false} SurvivingLive(ts: seq<Csr.Target>, stable: bool, tomb: seq<bool>, ids: seq<string>, live: set<string>)
    ensures AllLive(Surviving(ts, stable, tomb, ids, live), ids, live)
  {
    if ts != [] {
      SurvivingLive(ts[..|ts| - 1], stable, tomb, ids, live);
    }
  }

  lemma {:induction false} LiveIdxLive(ns: seq<nat>, ids: seq<string>, live: set<string>)
    ensures AllLive(LiveIdx(ns, ids, live), ids, live)
    ensures AllLive(ns, ids, live) ==> LiveIdx(ns, ids, live) == ns
  {
    if ns != [] {
      var n := |ns| - 1;
      LiveIdxLive(ns[..n], ids, live);
      assert ns == ns[..n] + [ns[n]];
    }
  }

  lemma {:induction false} FrozenReadsLive(frozen: seq<FrozenEdgeChunk>, u: nat, ids: seq<string>, live: set<string>)
    requires forall k | 0 <= k < |frozen| :: frozen[k].csr.Sliceable()
    ensures AllLive(FrozenReads(frozen, u, ids, live), ids, live)
  {
    if frozen != [] {
      var n := |frozen| - 1;
      FrozenReadsLive(frozen[..n], u, ids, live);
      LiveIdxLive(frozen[n].csr.Neighbors(u), ids, live);
    }
  }

  lemma MergedLive(s: Store, u: nat)
    requires Readable(s)
    ensures AllLive(MergedRow(s, u), s.edgeNodeIdxToId, LiveIds(s))
  {
    if EdgeNodeIsLive(s, u) {
      SurvivingLive(Csr.Zip(s.baseCsr.Neighbors(u), s.baseCsr.EdgeIds(u)), true, s.edgeTombstones, s.edgeNodeIdxToId, LiveIds(s));
      FrozenReadsLive(s.frozen, u, s.edgeNodeIdxToId, LiveIds(s));
    }
  }

  /** Reading after compaction gives what reading before it gave. */
  lemma CompactKeepsReads(s: Store, csr: Csr.CsrIndex, src: seq<nat>, dst: seq<nat>, u: nat)
    requires Readable(s) && s.stableRows && s.pending == []
    requires Flattened(src, dst, s, |s.edgeNodeIdxToId|) && Csr.Indexes(csr, src, dst, |s.edgeNodeIdxToId|)
    ensures Readable(Compacted(s, csr))
    ensures multiset(OutNeighbors(Compacted(s, csr), u)) == multiset(OutNeighbors(s, u))
    ensures u < |s.edgeNodeIdxToId| ==> multiset(csr.Neighbors(u)) == multiset(OutNeighbors(s, u))
  {
    hide Flattened, Csr.Scan, Surviving, FrozenReads, Csr.Covers;
    var s' := Compacted(s, csr);
    if u < |s.edgeNodeIdxToId| {
      RebuiltHolds(s, csr, src, dst, |s.edgeNodeIdxToId|, u);
      MergedLive(s, u);
      assert MergedRow(s, u) == OutNeighbors(s, u);
      CompactedRead(s', u, MergedRow(s, u));
    }
  }

  /** The index lists, for every node, what the store answers. */
  ghost predicate HoldsReads(csr: Csr.CsrIndex, s: Store) {
    csr.Sliceable() && Readable(s) && forall u | 0 <= u < |s.edgeNodeIdxToId| :: multiset(csr.Neighbors(u)) == multiset(OutNeighbors(s, u))
  }

  /** The index lists, for every node, its successors among `es`. */
  ghost predicate HoldsSuccessors(csr: Csr.CsrIndex, ids: seq<string>, es: seq<PlainEdge>) {
    csr.Sliceable() && forall u | 0 <= u < |ids| :: multiset(Named(csr.Neighbors(u), ids)) == multiset(Successors(es, ids[u]))
  }

  lemma CompactHolds(s: Store, csr: Csr.CsrIndex, src: seq<nat>, dst: seq<nat>)
    requires Readable(s) && s.stableRows && s.pending == []
    requires Flattened(src, dst, s, |s.edgeNodeIdxToId|) && Csr.Indexes(csr, src, dst, |s.edgeNodeIdxToId|)
    ensures SameReads(s, Compacted(s, csr)) && HoldsReads(csr, s)
  {
    hide Flattened, OutNeighbors, Csr.Scan;
    forall u: nat
      ensures Readable(Compacted(s, csr)) && multiset(OutNeighbors(s, u)) == multiset(OutNeighbors(Compacted(s, csr), u))
      ensures u < |s.edgeNodeIdxToId| ==> multiset(csr.Neighbors(u)) == multiset(OutNeighbors(s, u))
    {
      CompactKeepsReads(s, csr, src, dst, u);
    }
    CompactKeepsReads(s, csr, src, dst, 0);
  }

  lemma SameReadsTrans(a: Store, b: Store, c: Store)
    requires SameReads(a, b) && SameReads(b, c)
    ensures SameReads(a, c)
  {
    hide OutNeighbors, Readable;
  }

  lemma HoldsOld(csr: Csr.CsrIndex, a: Store, b: Store)
    requires SameReads(a, b) && HoldsReads(csr, b) && a.edgeNodeIdxToId == b.edgeNodeIdxToId
    ensures HoldsReads(csr, a)
  {
    hide OutNeighbors, Readable;
  }

  /** An index that lists the answers lists the plain graph's successors. */
  lemma HoldsPlain(csr: Csr.CsrIndex, s: Store, t: Trace)
    requires HoldsReads(csr, s) && Ready(s, t) && NeverReadded(s, t)
    ensures Sized(s) && HoldsSuccessors(csr, s.edgeNodeIdxToId, View(s).edges)
  {
    hide OutNeighbors, Readable, Ready, NeverReadded, View, Named;
    ReadySized(s, t);
    forall u | 0 <= u < |s.edgeNodeIdxToId|
      ensures multiset(Named(csr.Neighbors(u), s.edgeNodeIdxToId)) == multiset(Successors(View(s).edges, s.edgeNodeIdxToId[u]))
    {
      ReadsAgree(s, t, u);
      NamedBag(csr.Neighbors(u), OutNeighbors(s, u), s.edgeNodeIdxToId);
    }
  }

  /** A compacted store reads its base index and nothing else. */
  lemma CompactedRead(s: Store, u: nat, row: seq<nat>)
    requires Readable(s) && !s.stableRows && s.pending == [] && s.frozen == []
    requires multiset(s.baseCsr.Neighbors(u)) == multiset(row) && AllLive(row, s.edgeNodeIdxToId, LiveIds(s))
    requires !EdgeNodeIsLive(s, u) ==> row == []
    ensures multiset(OutNeighbors(s, u)) == multiset(row)
  {
    hide Surviving, LiveIdx, LiveIds, NodeIsLiveById, IdxLive;
    var ids, live, ns := s.edgeNodeIdxToId, LiveIds(s), s.baseCsr.Neighbors(u);
    var ts := Csr.Zip(ns, s.baseCsr.EdgeIds(u));
    assert forall v :: v in ns <==> v in multiset(ns);
    assert forall v :: v in row <==> v in multiset(row);
    LiveIdxLive(ns, ids, live);
    LiveIdxSurviving(ts, ns, s.edgeTombstones, ids, live);
  }

  // ---- freezing ----

  function PlainRows(es: seq<PlainEdge>): (r: seq<EdgeRow>)
    ensures |r| == |es| && forall i | 0 <= i < |es| :: r[i] == es[i].row
  {
    seq(|es|, i requires 0 <= i < |es| => es[i].row)
  }

  function BaseMask(rows: seq<EdgeRow>, tomb: seq<bool>, live: set<string>): (mask: seq<bool>)
    requires |rows| == |tomb|
    ensures |mask| == |rows|
  {
    seq(|rows|, e requires 0 <= e < |rows| => tomb[e] && EndsLive(rows[e], live))
  }

  function LiveMask(rows: seq<EdgeRow>, live: set<string>): (mask: seq<bool>)
    ensures |mask| == |rows|
  {
    seq(|rows|, e requires 0 <= e < |rows| => EndsLive(rows[e], live))
  }

  lemma {:induction false} BaseMaskKeeps(rows: seq<EdgeRow>, tomb: seq<bool>, live: set<string>)
    requires |rows| == |tomb|
    ensures Kept(rows, BaseMask(rows, tomb, live)) == PlainRows(LiveBase(rows, tomb, live))
  {
    if rows != [] {
      var n := |rows| - 1;
      BaseMaskKeeps(rows[..n], tomb[..n], live);
      assert BaseMask(rows, tomb, live)[..n] == BaseMask(rows[..n], tomb[..n], live);
    }
  }

  lemma {:induction false} LiveMaskKeeps(rows: seq<EdgeRow>, live: set<string>)
    ensures Kept(rows, LiveMask(rows, live)) == PlainRows(LiveDelta(rows, live))
  {
    if rows != [] {
      var n := |rows| - 1;
      LiveMaskKeeps(rows[..n], live);
      assert LiveMask(rows, live)[..n] == LiveMask(rows[..n], live);
    }
  }

  lemma {:induction false} LiveBaseEnds(rows: seq<EdgeRow>, tomb: seq<bool>, live: set<string>)
    requires |rows| == |tomb|
    ensures forall e | e in LiveBase(rows, tomb, live) :: EndsLive(e.row, live)
  {
    if rows != [] {
      LiveBaseEnds(rows[..|rows| - 1], tomb[..|rows| - 1], live);
    }
  }

  lemma {:induction false} LiveDeltaEnds(rows: seq<EdgeRow>, live: set<string>)
    ensures forall e | e in LiveDelta(rows, live) :: EndsLive(e.row, live)
  {
    if rows != [] {
      LiveDeltaEnds(rows[..|rows| - 1], live);
    }
  }

  /** Every visible edge joins two live nodes, so the plain graph passes endpoint validation. */
  lemma ViewClosed(s: Store, t: Trace)
    requires Ready(s, t)
    ensures Sized(s) && forall e | e in View(s).edges :: Has(View(s), e.row.src) && Has(View(s), e.row.dst)
  {
    hide BaseOk, PendingOk, FrozenOk, IndexOk, LiveBase, LiveDelta, LiveNodes, Has;
    ReadySized(s, t);
    LiveMeansResolvable(s);
    LiveBaseEnds(s.edgeData.rows, s.edgeTombstones, LiveIds(s));
    LiveDeltaEnds(DeltaRows(s), LiveIds(s));
    forall id | id in s.nodeIdToIdx
      ensures Has(View(s), id)
    {
      HasMeansResolvable(s, t, id);
    }
  }

  // ---- reading an immutable frame ----

  function Loaded(rows: seq<EdgeRow>): (r: seq<PlainEdge>)
    ensures |r| == |rows| && forall e | 0 <= e < |rows| :: r[e] == PlainEdge(Some(e), rows[e])
  {
    seq(|rows|, e requires 0 <= e < |rows| => PlainEdge(Some(e), rows[e]))
  }

  lemma {:induction false} SuccessorsOfRows(a: seq<PlainEdge>, b: seq<PlainEdge>, id: string)
    requires PlainRows(a) == PlainRows(b)
    ensures Successors(a, id) == Successors(b, id)
  {
    if a != [] {
      var n := |a| - 1;
      assert a[n].row == PlainRows(a)[n] == PlainRows(b)[n] == b[n].row;
      assert PlainRows(a[..n]) == PlainRows(a)[..n] && PlainRows(b[..n]) == PlainRows(b)[..n];
      SuccessorsOfRows(a[..n], b[..n], id);
    }
  }

  lemma {:induction false} AllLiveDelta(rows: seq<EdgeRow>, live: set<string>)
    requires forall e | 0 <= e < |rows| :: EndsLive(rows[e], live)
    ensures PlainRows(LiveDelta(rows, live)) == rows
  {
    if rows != [] {
      AllLiveDelta(rows[..|rows| - 1], live);
    }
  }

  lemma FrameNames(f: Edges.EdgeFrame)
    requires Edges.Valid(f)
    ensures ChunkOk(FrozenEdgeChunk(f.outCsr, f), Ends(Edges.SrcIdx(f.rows), Edges.DstIdx(f.rows)), Edges.IdsOf(f.rows))
  {
    hide Edges.IdsOf;
    forall e | 0 <= e < |f.rows|
      ensures Edges.SrcIdx(f.rows)[e] < |Edges.IdsOf(f.rows)| && Edges.IdsOf(f.rows)[Edges.SrcIdx(f.rows)[e]] == f.rows[e].src
      ensures Edges.DstIdx(f.rows)[e] < |Edges.IdsOf(f.rows)| && Edges.IdsOf(f.rows)[Edges.DstIdx(f.rows)[e]] == f.rows[e].dst
    {
      Edges.EndsIn(f.rows, e);
    }
  }

  /** The out-neighbours an immutable frame returns for a node are its successors in the edge list. */
  lemma FrameReads(f: Edges.EdgeFrame, es: seq<PlainEdge>, u: nat)
    requires Edges.Valid(f) && PlainRows(es) == f.rows && u < |Edges.IdsOf(f.rows)|
    ensures f.outCsr.Sliceable()
    ensures multiset(Named(f.outCsr.Neighbors(u), Edges.IdsOf(f.rows))) == multiset(Successors(es, Edges.IdsOf(f.rows)[u]))
  {
    hide Edges.IdsOf, Edges.TypesOf, ChunkOk, Csr.Scan, Successors, LiveDelta, LiveIdx, Named, PlainRows, Edges.SrcIdx, Edges.DstIdx;
    var ids := Edges.IdsOf(f.rows);
    var live := set i | 0 <= i < |ids| :: ids[i];
    FrameNames(f);
    FrameEndsLive(f.rows, live);
    AllIdxLive(f, u, live);
    ChunkAgrees(FrozenEdgeChunk(f.outCsr, f), Ends(Edges.SrcIdx(f.rows), Edges.DstIdx(f.rows)), u, ids, live);
    LiveIdxLive(f.outCsr.Neighbors(u), ids, live);
    AllLiveDelta(f.rows, live);
    SuccessorsOfRows(es, LiveDelta(f.rows, live), ids[u]);
  }

  lemma FrameEndsLive(rows: seq<EdgeRow>, live: set<string>)
    requires forall id | id in Edges.IdsOf(rows) :: id in live
    ensures forall e | 0 <= e < |rows| :: EndsLive(rows[e], live)
  {
    forall e | 0 <= e < |rows|
      ensures EndsLive(rows[e], live)
    {
      Edges.EndsIn(rows, e);
    }
  }

  lemma AllIdxLive(f: Edges.EdgeFrame, u: nat, live: set<string>)
    requires Edges.Valid(f) && u < |Edges.IdsOf(f.rows)| && live == set i | 0 <= i < |Edges.IdsOf(f.rows)| :: Edges.IdsOf(f.rows)[i]
    ensures f.outCsr.Sliceable() && AllLive(f.outCsr.Neighbors(u), Edges.IdsOf(f.rows), live) && Singular(Edges.IdsOf(f.rows), live)
  {
    hide Edges.IdsOf, Edges.TypesOf, Csr.Leaving;
    var src, dst, ids := Edges.SrcIdx(f.rows), Edges.DstIdx(f.rows), Edges.IdsOf(f.rows);
    var ns, es := f.outCsr.Neighbors(u), f.outCsr.EdgeIds(u);
    assert Csr.Scan(src, dst, u, Csr.Zip(ns, es));
    forall v | v in ns
      ensures IdxLive(ids, live, v)
    {
      var i :| 0 <= i < |ns| && ns[i] == v;
      assert Csr.Zip(ns, es)[i] == Csr.Target(v, es[i]);
      assert Csr.Target(v, es[i]) in Csr.Zip(ns, es);
      assert dst[es[i]] == v;
      Edges.EndsIn(f.rows, es[i]);
    }
  }

  /** A graph frozen from the store answers like the store did just before. */
  lemma FrozenMatches(s: Store, t: Trace, f: Edges.EdgeFrame, u: nat, v: nat)
    requires Ready(s, t) && NeverReadded(s, t) && Sized(s) && Edges.Valid(f) && f.rows == PlainRows(View(s).edges)
    requires u < |s.edgeNodeIdxToId| && v < |Edges.IdsOf(f.rows)| && Edges.IdsOf(f.rows)[v] == s.edgeNodeIdxToId[u]
    ensures Readable(s) && f.outCsr.Sliceable()
    ensures multiset(Named(f.outCsr.Neighbors(v), Edges.IdsOf(f.rows))) == multiset(Named(OutNeighbors(s, u), s.edgeNodeIdxToId))
  {
    hide OutNeighbors, Ready, NeverReadded, View, Named, Edges.Valid, Edges.IdsOf, PlainRows;
    ReadsAgree(s, t, u);
    FrameReads(f, View(s).edges, v);
  }

  /** A node without an edge row in the frozen graph had no neighbours before. */
  lemma {:induction false} FrozenIsolated(es: seq<PlainEdge>, id: string)
    requires id !in Edges.IdsOf(PlainRows(es))
    ensures Successors(es, id) == []
  {
    if es != [] {
      var n := |es| - 1;
      assert PlainRows(es)[..n] == PlainRows(es[..n]) && PlainRows(es)[n] == es[n].row;
      Edges.Extend(PlainRows(es), n);
      assert PlainRows(es)[..n + 1] == PlainRows(es);
      FrozenIsolated(es[..n], id);
    }
  }

  /** The ids a frame's out-index gives for `id`; none for an id without edges. */
  function FrameNeighbors(f: Edges.EdgeFrame, id: string): seq<string>
    requires Edges.Valid(f)
  {
    if id in f.nodeIndex then Named(f.outCsr.Neighbors(f.nodeIndex[id]), Edges.IdsOf(f.rows)) else []
  }

  /** The frozen edges answer every read as the mutable graph `s` did. */
  ghost predicate FrameAnswers(s: Store, f: Edges.EdgeFrame) {
    Readable(s) && Edges.Valid(f) && forall u | 0 <= u < |s.edgeNodeIdxToId| ::
      multiset(Named(OutNeighbors(s, u), s.edgeNodeIdxToId)) == multiset(FrameNeighbors(f, s.edgeNodeIdxToId[u]))
  }

  lemma FreezeKeepsReads(s: Store, t: Trace, f: Edges.EdgeFrame)
    requires Ready(s, t) && NeverReadded(s, t) && Sized(s) && Edges.Valid(f) && f.rows == PlainRows(View(s).edges)
    ensures FrameAnswers(s, f)
  {
    hide OutNeighbors, Ready, NeverReadded, View, Named, PlainRows, Successors, Edges.IdsOf, Edges.OutOf, Edges.TypesOf, Readable;
    ReadyReadable(s, t);
    forall u | 0 <= u < |s.edgeNodeIdxToId|
      ensures multiset(Named(OutNeighbors(s, u), s.edgeNodeIdxToId)) == multiset(FrameNeighbors(f, s.edgeNodeIdxToId[u]))
    {
      var id := s.edgeNodeIdxToId[u];
      if id in f.nodeIndex {
        var v :| 0 <= v < |Edges.IdsOf(f.rows)| && Edges.IdsOf(f.rows)[v] == id;
        FrozenMatches(s, t, f, u, v);
      } else {
        ReadsAgree(s, t, u);
        FrozenIsolated(View(s).edges, id);
      }
    }
  }
}
