/** The merged read path of the mutable graph and its agreement with the plain edge list. */
module MutableReads {
  import opened Basics
  import opened Rows
  import opened PlainGraphs
  import opened MutableStores
  import Csr
  import Nodes = NodeFrames
  import Edges = EdgeFrames

  ghost predicate Readable(s: Store) {
    s.baseCsr.Sliceable() && forall k | 0 <= k < |s.frozen| :: s.frozen[k].csr.Sliceable()
  }

  /** Targets of base entries whose row (while row ids are stable) and target are live. */
  function Surviving(ts: seq<Csr.Target>, stable: bool, tomb: seq<bool>, ids: seq<string>, live: set<string>): seq<nat> {
    if ts == [] then []
    else
      var t := ts[|ts| - 1];
      Surviving(ts[..|ts| - 1], stable, tomb, ids, live)
      + if (!stable || (t.row < |tomb| && tomb[t.row])) && IdxLive(ids, live, t.dst) then [t.dst] else []
  }

  function LiveIdx(ns: seq<nat>, ids: seq<string>, live: set<string>): seq<nat> {
    if ns == [] then []
    else LiveIdx(ns[..|ns| - 1], ids, live) + if IdxLive(ids, live, ns[|ns| - 1]) then [ns[|ns| - 1]] else []
  }

  function FrozenReads(frozen: seq<FrozenEdgeChunk>, u: nat, ids: seq<string>, live: set<string>): seq<nat>
    requires forall k | 0 <= k < |frozen| :: frozen[k].csr.Sliceable()
  {
    if frozen == [] then []
    else
      var n := |frozen| - 1;
      FrozenReads(frozen[..n], u, ids, live)
      + if IdxLive(ids, live, u) then LiveIdx(frozen[n].csr.Neighbors(u), ids, live) else []
  }

  function PendingReads(pending: seq<PendingEdgeRow>, u: nat, ids: seq<string>, live: set<string>): seq<nat> {
    if pending == [] then []
    else
      var p := pending[|pending| - 1];
      PendingReads(pending[..|pending| - 1], u, ids, live)
      + if p.srcIdx == u && IdxLive(ids, live, u) && IdxLive(ids, live, p.dstIdx) then [p.dstIdx] else []
  }

  /** The read path: base snapshot, then frozen chunks, then the pending buffer. */
  function OutNeighbors(s: Store, u: nat): seq<nat>
    requires Readable(s)
  {
    if !EdgeNodeIsLive(s, u) then []
    else
      var ids, live := s.edgeNodeIdxToId, LiveIds(s);
      Surviving(Csr.Zip(s.baseCsr.Neighbors(u), s.baseCsr.EdgeIds(u)), s.stableRows, s.edgeTombstones, ids, live)
      + FrozenReads(s.frozen, u, ids, live)
      + PendingReads(s.pending, u, ids, live)
  }

  function Named(ns: seq<nat>, ids: seq<string>): (r: seq<string>)
    ensures |r| == |ns| && forall i | 0 <= i < |ns| :: r[i] == if ns[i] < |ids| then ids[ns[i]] else ""
  {
    seq(|ns|, i requires 0 <= i < |ns| => if ns[i] < |ids| then ids[ns[i]] else "")
  }

  lemma NamedConcat(a: seq<nat>, b: seq<nat>, ids: seq<string>)
    ensures Named(a + b, ids) == Named(a, ids) + Named(b, ids)
  {
  }

  /** The last entry of `a` sits somewhere in any rearrangement `b`, and the rest is a rearrangement too. */
  lemma TakeOut<T(!new)>(a: seq<T>, b: seq<T>) returns (j: nat)
    requires a != [] && multiset(a) == multiset(b)
    ensures j < |b| && b[j] == a[|a| - 1] && multiset(a[..|a| - 1]) == multiset(b[..j] + b[j + 1..])
    ensures a == a[..|a| - 1] + [a[|a| - 1]] && b == b[..j] + [b[j]] + b[j + 1..]
  {
    var n := |a| - 1;
    assert a == a[..n] + [a[n]];
    assert a[n] in multiset(b);
    j :| 0 <= j < |b| && b[j] == a[n];
    assert b == b[..j] + [b[j]] + b[j + 1..];
    forall x
      ensures multiset(a[..n])[x] == multiset(b[..j] + b[j + 1..])[x]
    {
      assert multiset(a)[x] == multiset(a[..n])[x] + multiset([a[n]])[x];
      assert multiset(b)[x] == multiset(b[..j] + [b[j]])[x] + multiset(b[j + 1..])[x];
    }
  }

  lemma {:induction false} NamedBag(a: seq<nat>, b: seq<nat>, ids: seq<string>)
    requires multiset(a) == multiset(b)
    ensures multiset(Named(a, ids)) == multiset(Named(b, ids))
    decreases |a|
  {
    if a == [] {
      assert |multiset(b)| == 0;
    } else {
      var n := |a| - 1;
      var j := TakeOut(a, b);
      NamedBag(a[..n], b[..j] + b[j + 1..], ids);
      NamedConcat(a[..n], [a[n]], ids);
      NamedConcat(b[..j], [b[j]], ids);
      NamedConcat(b[..j] + [b[j]], b[j + 1..], ids);
      NamedConcat(b[..j], b[j + 1..], ids);
    }
  }

  // ---- reads depend on the entries, not on their order ----

  lemma {:induction false} SurvivingConcat(a: seq<Csr.Target>, b: seq<Csr.Target>, stable: bool, tomb: seq<bool>, ids: seq<string>, live: set<string>)
    ensures Surviving(a + b, stable, tomb, ids, live) == Surviving(a, stable, tomb, ids, live) + Surviving(b, stable, tomb, ids, live)
  {
    if b == [] {
      assert a + b == a;
    } else {
      assert (a + b)[..|a + b| - 1] == a + b[..|b| - 1];
      SurvivingConcat(a, b[..|b| - 1], stable, tomb, ids, live);
    }
  }

  lemma {:induction false} SurvivingBag(a: seq<Csr.Target>, b: seq<Csr.Target>, stable: bool, tomb: seq<bool>, ids: seq<string>, live: set<string>)
    requires multiset(a) == multiset(b)
    ensures multiset(Surviving(a, stable, tomb, ids, live)) == multiset(Surviving(b, stable, tomb, ids, live))
    decreases |a|
  {
    if a == [] {
      assert |multiset(b)| == 0;
    } else {
      var n := |a| - 1;
      var j := TakeOut(a, b);
      SurvivingBag(a[..n], b[..j] + b[j + 1..], stable, tomb, ids, live);
      SurvivingConcat(a[..n], [a[n]], stable, tomb, ids, live);
      SurvivingConcat(b[..j], [b[j]], stable, tomb, ids, live);
      SurvivingConcat(b[..j] + [b[j]], b[j + 1..], stable, tomb, ids, live);
      SurvivingConcat(b[..j], b[j + 1..], stable, tomb, ids, live);
    }
  }

  lemma {:induction false} LiveIdxSurviving(ts: seq<Csr.Target>, ns: seq<nat>, tomb: seq<bool>, ids: seq<string>, live: set<string>)
    requires |ts| == |ns| && forall i | 0 <= i < |ts| :: ts[i].dst == ns[i]
    ensures LiveIdx(ns, ids, live) == Surviving(ts, false, tomb, ids, live)
  {
    if ts != [] {
      LiveIdxSurviving(ts[..|ts| - 1], ns[..|ts| - 1], tomb, ids, live);
    }
  }

  // ---- the linear scan at index level is the successor list at id level ----

  /** A live id has one index. */
  ghost predicate Singular(ids: seq<string>, live: set<string>) {
    forall i, j | 0 <= i < |ids| && 0 <= j < |ids| && ids[i] == ids[j] && ids[i] in live :: i == j
  }

  lemma SingularIds(s: Store, t: Trace)
    requires Ready(s, t) && NeverReadded(s, t)
    ensures Singular(s.edgeNodeIdxToId, LiveIds(s))
  {
    LiveMeansResolvable(s);
  }

  lemma NamesPrefix(ns: Ends, rows: seq<EdgeRow>, ids: seq<string>)
    requires Names(ns, rows, ids) && rows != []
    ensures |ns.src| == |ns.dst| == |rows|
    ensures Names(Ends(ns.src[..|rows| - 1], ns.dst[..|rows| - 1]), rows[..|rows| - 1], ids)
    ensures ns.src[|rows| - 1] < |ids| && ids[ns.src[|rows| - 1]] == rows[|rows| - 1].src
    ensures ns.dst[|rows| - 1] < |ids| && ids[ns.dst[|rows| - 1]] == rows[|rows| - 1].dst
  {
  }

  lemma OneEntry(now: seq<Csr.Target>, edge: seq<PlainEdge>, a: nat, b: nat, n: nat, e: PlainEdge, stable: bool, tomb: seq<bool>,
                 u: nat, ids: seq<string>, live: set<string>)
    requires Singular(ids, live) && IdxLive(ids, live, u) && a < |ids| && b < |ids| && ids[a] == e.row.src && ids[b] == e.row.dst
    requires now == if a == u then [Csr.Target(b, n)] else []
    requires stable ==> n < |tomb|
    requires edge == if (stable ==> tomb[n]) && EndsLive(e.row, live) then [e] else []
    ensures Named(Surviving(now, stable, tomb, ids, live), ids) == Successors(edge, ids[u])
  {
    assert Successors(edge, ids[u]) == if edge != [] && e.row.src == ids[u] then [e.row.dst] else [];
    assert e.row.src == ids[u] <==> a == u;
  }

  lemma {:induction false} BaseScan(ns: Ends, rows: seq<EdgeRow>, tomb: seq<bool>, all: seq<bool>, u: nat, ids: seq<string>, live: set<string>)
    requires Names(ns, rows, ids) && |tomb| == |rows| && tomb <= all && Singular(ids, live) && IdxLive(ids, live, u)
    ensures Named(Surviving(Csr.Leaving(ns.src, ns.dst, u), true, all, ids, live), ids) == Successors(LiveBase(rows, tomb, live), ids[u])
    decreases |rows|
  {
    if rows == [] {
    } else {
      hide Singular, Named, EndsLive, Names;
      var n := |rows| - 1;
      NamesPrefix(ns, rows, ids);
      BaseScan(Ends(ns.src[..n], ns.dst[..n]), rows[..n], tomb[..n], all, u, ids, live);
      var before := Csr.Leaving(ns.src[..n], ns.dst[..n], u);
      var now := if ns.src[n] == u then [Csr.Target(ns.dst[n], n)] else [];
      SurvivingConcat(before, now, true, all, ids, live);
      NamedConcat(Surviving(before, true, all, ids, live), Surviving(now, true, all, ids, live), ids);
      var edge := if tomb[n] && EndsLive(rows[n], live) then [PlainEdge(Some(n), rows[n])] else [];
      SuccessorsConcat(LiveBase(rows[..n], tomb[..n], live), edge, ids[u]);
      assert all[n] == tomb[n];
      OneEntry(now, edge, ns.src[n], ns.dst[n], n, PlainEdge(Some(n), rows[n]), true, all, u, ids, live);
    }
  }

  lemma {:induction false} SuccessorsConcat(a: seq<PlainEdge>, b: seq<PlainEdge>, id: string)
    ensures Successors(a + b, id) == Successors(a, id) + Successors(b, id)
  {
    if b == [] {
      assert a + b == a;
    } else {
      assert (a + b)[..|a + b| - 1] == a + b[..|b| - 1];
      SuccessorsConcat(a, b[..|b| - 1], id);
    }
  }

  lemma {:induction false} DeltaConcat(a: seq<EdgeRow>, b: seq<EdgeRow>, live: set<string>)
    ensures LiveDelta(a + b, live) == LiveDelta(a, live) + LiveDelta(b, live)
  {
    if b == [] {
      assert a + b == a;
    } else {
      assert (a + b)[..|a + b| - 1] == a + b[..|b| - 1];
      DeltaConcat(a, b[..|b| - 1], live);
    }
  }

  lemma {:induction false} ChunkScan(ns: Ends, rows: seq<EdgeRow>, u: nat, ids: seq<string>, live: set<string>)
    requires Names(ns, rows, ids) && Singular(ids, live) && IdxLive(ids, live, u)
    ensures Named(Surviving(Csr.Leaving(ns.src, ns.dst, u), false, [], ids, live), ids) == Successors(LiveDelta(rows, live), ids[u])
    decreases |rows|
  {
    if rows == [] {
    } else {
      hide Singular, Named, EndsLive, Names;
      var n := |rows| - 1;
      NamesPrefix(ns, rows, ids);
      ChunkScan(Ends(ns.src[..n], ns.dst[..n]), rows[..n], u, ids, live);
      var before := Csr.Leaving(ns.src[..n], ns.dst[..n], u);
      var now := if ns.src[n] == u then [Csr.Target(ns.dst[n], n)] else [];
      SurvivingConcat(before, now, false, [], ids, live);
      NamedConcat(Surviving(before, false, [], ids, live), Surviving(now, false, [], ids, live), ids);
      var edge := if EndsLive(rows[n], live) then [PlainEdge(None, rows[n])] else [];
      SuccessorsConcat(LiveDelta(rows[..n], live), edge, ids[u]);
      OneEntry(now, edge, ns.src[n], ns.dst[n], n, PlainEdge(None, rows[n]), false, [], u, ids, live);
    }
  }

  // ---- each of the three sources agrees ----

  lemma BaseNames(s: Store)
    requires BaseOk(s)
    ensures Names(Ends(Edges.SrcIdx(s.edgeData.rows), Edges.DstIdx(s.edgeData.rows)), s.edgeData.rows, s.edgeNodeIdxToId)
    ensures Csr.Covers(Edges.SrcIdx(s.edgeData.rows), |Edges.IdsOf(s.edgeData.rows)|)
  {
    hide Edges.IdsOf;
    forall e | 0 <= e < |s.edgeData.rows|
      ensures Edges.SrcIdx(s.edgeData.rows)[e] < |Edges.IdsOf(s.edgeData.rows)| && Edges.DstIdx(s.edgeData.rows)[e] < |Edges.IdsOf(s.edgeData.rows)|
      ensures s.edgeNodeIdxToId[Edges.SrcIdx(s.edgeData.rows)[e]] == s.edgeData.rows[e].src
      ensures s.edgeNodeIdxToId[Edges.DstIdx(s.edgeData.rows)[e]] == s.edgeData.rows[e].dst
    {
      Edges.EndsIn(s.edgeData.rows, e);
    }
  }

  lemma BaseAgrees(s: Store, u: nat, live: set<string>)
    requires BaseOk(s) && Singular(s.edgeNodeIdxToId, live) && IdxLive(s.edgeNodeIdxToId, live, u)
    ensures s.baseCsr.Sliceable()
    ensures multiset(Named(Surviving(Csr.Zip(s.baseCsr.Neighbors(u), s.baseCsr.EdgeIds(u)), true, s.edgeTombstones, s.edgeNodeIdxToId, live), s.edgeNodeIdxToId))
         == multiset(Successors(LiveBase(s.edgeData.rows, s.edgeTombstones, live), s.edgeNodeIdxToId[u]))
  {
    hide Singular, Named, Surviving, Successors, LiveBase, Edges.IdsOf, Edges.SrcIdx, Edges.DstIdx, Csr.Leaving, Names, Csr.Scan, Csr.Covers;
    var rows, ids := s.edgeData.rows, s.edgeNodeIdxToId;
    var ns := Ends(Edges.SrcIdx(rows), Edges.DstIdx(rows));
    BaseNames(s);
    Csr.LookupIsLeaving(s.baseCsr, ns.src, ns.dst, |Edges.IdsOf(rows)|, u);
    SurvivingBag(Csr.Zip(s.baseCsr.Neighbors(u), s.baseCsr.EdgeIds(u)), Csr.Leaving(ns.src, ns.dst, u), true, s.edgeTombstones, ids, live);
    NamedBag(Surviving(Csr.Zip(s.baseCsr.Neighbors(u), s.baseCsr.EdgeIds(u)), true, s.edgeTombstones, ids, live),
             Surviving(Csr.Leaving(ns.src, ns.dst, u), true, s.edgeTombstones, ids, live), ids);
    BaseScan(ns, rows, s.edgeTombstones, s.edgeTombstones, u, ids, live);
  }

  lemma ChunkAgrees(c: FrozenEdgeChunk, ns: Ends, u: nat, ids: seq<string>, live: set<string>)
    requires ChunkOk(c, ns, ids) && Singular(ids, live) && IdxLive(ids, live, u)
    ensures multiset(Named(LiveIdx(c.csr.Neighbors(u), ids, live), ids)) == multiset(Successors(LiveDelta(c.edges.rows, live), ids[u]))
  {
    hide Singular, Named, Surviving, Successors, LiveDelta, LiveIdx, Csr.Leaving, Names, Csr.Scan, Csr.Covers, Edges.Valid;
    var ts := Csr.Zip(c.csr.Neighbors(u), c.csr.EdgeIds(u));
    Csr.LookupIsLeaving(c.csr, ns.src, ns.dst, |c.csr.offsets| - 1, u);
    LiveIdxSurviving(ts, c.csr.Neighbors(u), [], ids, live);
    SurvivingBag(ts, Csr.Leaving(ns.src, ns.dst, u), false, [], ids, live);
    NamedBag(LiveIdx(c.csr.Neighbors(u), ids, live), Surviving(Csr.Leaving(ns.src, ns.dst, u), false, [], ids, live), ids);
    ChunkScan(ns, c.edges.rows, u, ids, live);
  }

  lemma FrozenSliceable(frozen: seq<FrozenEdgeChunk>, ends: seq<Ends>, ids: seq<string>)
    requires FrozenOk(frozen, ends, ids)
    ensures forall k | 0 <= k < |frozen| :: frozen[k].csr.Sliceable()
  {
    forall k | 0 <= k < |frozen|
      ensures frozen[k].csr.Sliceable()
    {
      assert ChunkOk(frozen[k], ends[k], ids);
    }
  }

  lemma {:induction false} FrozenAgrees(frozen: seq<FrozenEdgeChunk>, ends: seq<Ends>, u: nat, ids: seq<string>, live: set<string>)
    requires FrozenOk(frozen, ends, ids) && Singular(ids, live) && IdxLive(ids, live, u)
    requires forall k | 0 <= k < |frozen| :: frozen[k].csr.Sliceable()
    ensures multiset(Named(FrozenReads(frozen, u, ids, live), ids)) == multiset(Successors(LiveDelta(Joined(ChunkRows(frozen)), live), ids[u]))
  {
    hide ChunkOk, Singular, LiveIdx, Successors, LiveDelta, Named;
    if frozen == [] {
      FrozenNothing(u, ids, live);
    } else {
      var n := |frozen| - 1;
      FrozenAgrees(frozen[..n], ends[..n], u, ids, live);
      ChunkAgrees(frozen[n], ends[n], u, ids, live);
      assert ChunkRows(frozen)[..n] == ChunkRows(frozen[..n]);
      var before, now := Joined(ChunkRows(frozen[..n])), frozen[n].edges.rows;
      DeltaConcat(before, now, live);
      SuccessorsConcat(LiveDelta(before, live), LiveDelta(now, live), ids[u]);
      NamedConcat(FrozenReads(frozen[..n], u, ids, live), LiveIdx(frozen[n].csr.Neighbors(u), ids, live), ids);
    }
  }

  lemma FrozenNothing(u: nat, ids: seq<string>, live: set<string>)
    requires u < |ids|
    ensures Named(FrozenReads([], u, ids, live), ids) == [] == Successors(LiveDelta(Joined(ChunkRows([])), live), ids[u])
  {
  }

  lemma {:induction false} PendingAgrees(pending: seq<PendingEdgeRow>, index: map<string, nat>, u: nat, ids: seq<string>, live: set<string>)
    requires PendingOk(pending, index, ids) && Singular(ids, live) && IdxLive(ids, live, u)
    ensures Named(PendingReads(pending, u, ids, live), ids) == Successors(LiveDelta(Joined(PendingFrames(pending)), live), ids[u])
  {
    if pending == [] {
    } else {
      var n := |pending| - 1;
      PendingAgrees(pending[..n], index, u, ids, live);
      assert PendingFrames(pending)[..n] == PendingFrames(pending[..n]);
      var before := Joined(PendingFrames(pending[..n]));
      PendingOne(pending[n], index, before, u, ids, live);
      NamedConcat(PendingReads(pending[..n], u, ids, live), OneRead(pending[n], u, ids, live), ids);
    }
  }

  function OneRead(p: PendingEdgeRow, u: nat, ids: seq<string>, live: set<string>): seq<nat> {
    if p.srcIdx == u && IdxLive(ids, live, u) && IdxLive(ids, live, p.dstIdx) then [p.dstIdx] else []
  }

  lemma PendingOne(p: PendingEdgeRow, index: map<string, nat>, before: seq<EdgeRow>, u: nat, ids: seq<string>, live: set<string>)
    requires RowOk(p, index, ids) && Singular(ids, live) && IdxLive(ids, live, u)
    ensures Successors(LiveDelta(before + p.edge.rows, live), ids[u]) == Successors(LiveDelta(before, live), ids[u]) + Named(OneRead(p, u, ids, live), ids)
  {
    DeltaConcat(before, p.edge.rows, live);
    SuccessorsConcat(LiveDelta(before, live), LiveDelta(p.edge.rows, live), ids[u]);
    OneRow(p, index, u, ids, live);
  }

  lemma OneRow(p: PendingEdgeRow, index: map<string, nat>, u: nat, ids: seq<string>, live: set<string>)
    requires RowOk(p, index, ids) && Singular(ids, live) && IdxLive(ids, live, u)
    ensures Successors(LiveDelta(p.edge.rows, live), ids[u]) == Named(OneRead(p, u, ids, live), ids)
  {
    hide Edges.Valid;
    var row := p.edge.rows[0];
    assert p.edge.rows == [row];
    assert LiveDelta([row], live) == LiveDelta([], live) + if EndsLive(row, live) then [PlainEdge(None, row)] else [];
    assert row.src == ids[u] <==> p.srcIdx == u;
  }

  // ---- the main theorem ----

  lemma {:induction false} NoDeadBase(rows: seq<EdgeRow>, tomb: seq<bool>, live: set<string>, id: string)
    requires |rows| == |tomb| && id !in live
    ensures Successors(LiveBase(rows, tomb, live), id) == []
  {
    if rows != [] {
      var n := |rows| - 1;
      NoDeadBase(rows[..n], tomb[..n], live, id);
      SuccessorsConcat(LiveBase(rows[..n], tomb[..n], live), if tomb[n] && EndsLive(rows[n], live) then [PlainEdge(Some(n), rows[n])] else [], id);
    }
  }

  lemma {:induction false} NoDeadDelta(rows: seq<EdgeRow>, live: set<string>, id: string)
    requires id !in live
    ensures Successors(LiveDelta(rows, live), id) == []
  {
    if rows != [] {
      var n := |rows| - 1;
      NoDeadDelta(rows[..n], live, id);
      SuccessorsConcat(LiveDelta(rows[..n], live), if EndsLive(rows[n], live) then [PlainEdge(None, rows[n])] else [], id);
    }
  }

  lemma ReadyReadable(s: Store, t: Trace)
    requires Ready(s, t)
    ensures Readable(s)
  {
    FrozenSliceable(s.frozen, t.ends, s.edgeNodeIdxToId);
  }

  /** Wherever an edge sits, the read path returns exactly the successors of the plain edge list. */
  lemma ReadsAgree(s: Store, t: Trace, u: nat)
    requires Ready(s, t) && NeverReadded(s, t) && u < |s.edgeNodeIdxToId|
    ensures Sized(s) && Readable(s)
    ensures multiset(Named(OutNeighbors(s, u), s.edgeNodeIdxToId)) == multiset(Successors(View(s).edges, s.edgeNodeIdxToId[u]))
  {
    hide BaseOk, IndexOk, PendingOk, FrozenOk, Surviving, FrozenReads, PendingReads, Successors, LiveBase, LiveDelta, Named, Joined, Singular, LiveIds,
         LiveNodes, NeverReadded;
    ReadyReadable(s, t);
    ReadySized(s, t);
    LiveMeansResolvable(s);
    var ids, live, id := s.edgeNodeIdxToId, LiveIds(s), s.edgeNodeIdxToId[u];
    var frozen, pending := Joined(ChunkRows(s.frozen)), Joined(PendingFrames(s.pending));
    var base := LiveBase(s.edgeData.rows, s.edgeTombstones, live);
    DeltaConcat(frozen, pending, live);
    SuccessorsConcat(base, LiveDelta(frozen, live) + LiveDelta(pending, live), id);
    SuccessorsConcat(LiveDelta(frozen, live), LiveDelta(pending, live), id);
    if EdgeNodeIsLive(s, u) {
      SingularIds(s, t);
      StableRows(s);
      BaseAgrees(s, u, live);
      FrozenAgrees(s.frozen, t.ends, u, ids, live);
      PendingAgrees(s.pending, s.edgeNodeIdToIdx, u, ids, live);
      var a := Surviving(Csr.Zip(s.baseCsr.Neighbors(u), s.baseCsr.EdgeIds(u)), true, s.edgeTombstones, ids, live);
      var b, c := FrozenReads(s.frozen, u, ids, live), PendingReads(s.pending, u, ids, live);
      NamedConcat(a + b, c, ids);
      NamedConcat(a, b, ids);
    } else {
      NoDeadBase(s.edgeData.rows, s.edgeTombstones, live, id);
      NoDeadDelta(frozen, live, id);
      NoDeadDelta(pending, live, id);
      NoNames(ids);
    }
  }

  lemma NoNames(ids: seq<string>)
    ensures Named([], ids) == []
  {
  }

  lemma StableRows(s: Store)
    requires BaseOk(s)
    ensures s.stableRows
  {
  }
}
