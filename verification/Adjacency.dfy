/** Direction and type filters, and the steps an edge frame offers from one compact node index. */
module Adjacency {
  import opened Basics
  import opened Rows
  import Csr
  import Edges = EdgeFrames
  import Networks

  datatype Direction = Out | In | Both | Undirected

  datatype EdgeTypeSpec = Any | Single(etype: string) | Multiple(etypes: seq<string>)

  predicate MatchesEdgeType(r: EdgeRow, spec: EdgeTypeSpec) {
    match spec
    case Any => true
    case Single(t) => r.etype == t
    case Multiple(ts) => exists t :: t in ts && t == r.etype
  }

  /** Following `r` in direction `d` leads from `a` to `b`. */
  predicate Links(r: EdgeRow, d: Direction, a: string, b: string) {
    match d
    case Out => r.src == a && r.dst == b
    case In => r.dst == a && r.src == b
    case Both => (r.src == a && r.dst == b) || (r.dst == a && r.src == b)
    case Undirected => (r.src == a && r.dst == b) || (r.dst == a && r.src == b)
  }

  predicate Eligible(r: EdgeRow, spec: EdgeTypeSpec, d: Direction, a: string, b: string) {
    MatchesEdgeType(r, spec) && Links(r, d, a, b)
  }

  /** What a filter admits and where a direction leads, type by type and end by end. */
  lemma EligibleMeans(r: EdgeRow, spec: EdgeTypeSpec, d: Direction, a: string, b: string)
    ensures Eligible(r, spec, d, a, b) <==>
      && (spec.Any? || (spec.Single? && r.etype == spec.etype) || (spec.Multiple? && r.etype in spec.etypes))
      && ((!d.In? && r.src == a && r.dst == b) || (!d.Out? && r.dst == a && r.src == b))
  {
  }

  // ---- the frame's answer ----

  /** Zips neighbours with edge rows and keeps the pairs whose edge has an admitted type. */
  function CollectPairs(ns: seq<nat>, es: seq<nat>, spec: EdgeTypeSpec, rows: seq<EdgeRow>): seq<Networks.Arc>
    requires |ns| == |es| && forall i | 0 <= i < |es| :: es[i] < |rows|
  {
    if ns == [] then []
    else
      var k := |ns| - 1;
      CollectPairs(ns[..k], es[..k], spec, rows) + if MatchesEdgeType(rows[es[k]], spec) then [Networks.Arc(ns[k], es[k])] else []
  }

  lemma {:induction false} CollectMember(ns: seq<nat>, es: seq<nat>, spec: EdgeTypeSpec, rows: seq<EdgeRow>, v: nat, e: nat)
    requires |ns| == |es| && forall i | 0 <= i < |es| :: es[i] < |rows|
    ensures Networks.Arc(v, e) in CollectPairs(ns, es, spec, rows) <==>
            e < |rows| && MatchesEdgeType(rows[e], spec) && Csr.Target(v, e) in Csr.Zip(ns, es)
  {
    if ns == [] {
      assert Csr.Zip(ns, es) == [];
    } else {
      var k := |ns| - 1;
      CollectMember(ns[..k], es[..k], spec, rows, v, e);
      assert Csr.Zip(ns, es) == Csr.Zip(ns[..k], es[..k]) + [Csr.Target(ns[k], es[k])];
    }
  }

  ghost predicate Indexed(f: Edges.EdgeFrame, inCsr: Csr.CsrIndex) {
    Edges.Valid(f) && Edges.InOf(inCsr, f.rows)
  }

  lemma NowIndexed(f: Edges.EdgeFrame, inCsr: Csr.CsrIndex)
    requires Edges.Valid(f) && Edges.InOf(inCsr, f.rows)
    ensures Indexed(f, inCsr)
  {
  }

  lemma IdRanges(f: Edges.EdgeFrame, inCsr: Csr.CsrIndex, u: nat)
    requires Indexed(f, inCsr)
    ensures f.outCsr.Sliceable() && inCsr.Sliceable()
    ensures forall i | 0 <= i < |f.outCsr.EdgeIds(u)| :: f.outCsr.EdgeIds(u)[i] < |f.rows|
    ensures forall i | 0 <= i < |inCsr.EdgeIds(u)| :: inCsr.EdgeIds(u)[i] < |f.rows|
  {
    hide Edges.IdsOf, Edges.SrcIdx, Edges.DstIdx;
    RangeOf(f.outCsr, Edges.SrcIdx(f.rows), Edges.DstIdx(f.rows), |Edges.IdsOf(f.rows)|, u);
    RangeOf(inCsr, Edges.DstIdx(f.rows), Edges.SrcIdx(f.rows), |Edges.IdsOf(f.rows)|, u);
  }

  lemma RangeOf(c: Csr.CsrIndex, src: seq<nat>, dst: seq<nat>, n: nat, u: nat)
    requires Csr.Indexes(c, src, dst, n)
    ensures forall i | 0 <= i < |c.EdgeIds(u)| :: c.EdgeIds(u)[i] < |src|
  {
    if u < n {
      assert Csr.Scan(src, dst, u, Csr.Zip(c.Neighbors(u), c.EdgeIds(u)));
      forall i | 0 <= i < |c.EdgeIds(u)|
        ensures c.EdgeIds(u)[i] < |src|
      {
        assert Csr.Zip(c.Neighbors(u), c.EdgeIds(u))[i] in Csr.Zip(c.Neighbors(u), c.EdgeIds(u));
      }
    }
  }

  /** The admitted pairs that one index lists for `u`. */
  function PairsAt(c: Csr.CsrIndex, u: nat, spec: EdgeTypeSpec, rows: seq<EdgeRow>): seq<Networks.Arc>
    requires c.Sliceable() && forall i | 0 <= i < |c.EdgeIds(u)| :: c.EdgeIds(u)[i] < |rows|
  {
    CollectPairs(c.Neighbors(u), c.EdgeIds(u), spec, rows)
  }

  /** The (neighbour, edge row) pairs reachable from `u` in one admitted step. */
  function NeighborPairs(f: Edges.EdgeFrame, inCsr: Csr.CsrIndex, u: nat, d: Direction, spec: EdgeTypeSpec): seq<Networks.Arc>
    requires Indexed(f, inCsr)
  {
    IdRanges(f, inCsr, u);
    var outs := PairsAt(f.outCsr, u, spec, f.rows);
    var ins := PairsAt(inCsr, u, spec, f.rows);
    match d
    case Out => outs
    case In => ins
    case Both => outs + ins
    case Undirected => outs + ins
  }

  lemma ZipMeans(c: Csr.CsrIndex, src: seq<nat>, dst: seq<nat>, n: nat, u: nat, v: nat, e: nat)
    requires Csr.Indexes(c, src, dst, n) && Csr.Covers(src, n)
    ensures Csr.Target(v, e) in Csr.Zip(c.Neighbors(u), c.EdgeIds(u)) <==> e < |src| && src[e] == u && dst[e] == v
  {
    if u < n {
      assert Csr.Scan(src, dst, u, Csr.Zip(c.Neighbors(u), c.EdgeIds(u)));
    }
  }

  lemma IdxMeans(rows: seq<EdgeRow>, e: nat, u: nat)
    requires e < |rows| && u < |Edges.IdsOf(rows)|
    ensures Edges.SrcIdx(rows)[e] == u <==> rows[e].src == Edges.IdsOf(rows)[u]
    ensures Edges.DstIdx(rows)[e] == u <==> rows[e].dst == Edges.IdsOf(rows)[u]
  {
    hide Edges.IdsOf;
    Edges.IdsOfDistinct(rows);
    Edges.EndsIn(rows, e);
    PositionAt(Edges.IdsOf(rows), u);
  }

  /** The pairs are exactly the eligible edge rows between the two nodes. */
  lemma PairsExact(f: Edges.EdgeFrame, inCsr: Csr.CsrIndex, d: Direction, spec: EdgeTypeSpec, u: nat, v: nat, e: nat)
    requires Indexed(f, inCsr) && u < |Edges.IdsOf(f.rows)|
    ensures Networks.Arc(v, e) in NeighborPairs(f, inCsr, u, d, spec) <==>
            && e < |f.rows| && v < |Edges.IdsOf(f.rows)|
            && Eligible(f.rows[e], spec, d, Edges.IdsOf(f.rows)[u], Edges.IdsOf(f.rows)[v])
    ensures Networks.Arc(v, e) in NeighborPairs(f, inCsr, u, d, spec) ==>
            && (spec.Any? || (spec.Single? && f.rows[e].etype == spec.etype) || (spec.Multiple? && f.rows[e].etype in spec.etypes))
            && (d.Out? ==> f.rows[e].src == Edges.IdsOf(f.rows)[u]) && (d.In? ==> f.rows[e].dst == Edges.IdsOf(f.rows)[u])
  {
    if e < |f.rows| && v < |Edges.IdsOf(f.rows)| {
      EligibleMeans(f.rows[e], spec, d, Edges.IdsOf(f.rows)[u], Edges.IdsOf(f.rows)[v]);
    }
    hide Edges.IdsOf, Edges.SrcIdx, Edges.DstIdx, Csr.Scan, Csr.Covers, CollectPairs, MatchesEdgeType;
    var src, dst, n := Edges.SrcIdx(f.rows), Edges.DstIdx(f.rows), |Edges.IdsOf(f.rows)|;
    IdRanges(f, inCsr, u);
    Edges.IdxBound(f.rows);
    CollectMember(f.outCsr.Neighbors(u), f.outCsr.EdgeIds(u), spec, f.rows, v, e);
    CollectMember(inCsr.Neighbors(u), inCsr.EdgeIds(u), spec, f.rows, v, e);
    ZipMeans(f.outCsr, src, dst, n, u, v, e);
    ZipMeans(inCsr, dst, src, n, u, v, e);
    if e < |f.rows| {
      IdxMeans(f.rows, e, u);
      TargetInRange(f.rows, e);
      if v < n {
        IdxMeans(f.rows, e, v);
      }
    }
  }

  lemma TargetInRange(rows: seq<EdgeRow>, e: nat)
    requires e < |rows|
    ensures Edges.SrcIdx(rows)[e] < |Edges.IdsOf(rows)| && Edges.DstIdx(rows)[e] < |Edges.IdsOf(rows)|
  {
    hide Edges.IdsOf;
    Edges.EndsIn(rows, e);
  }

  // ---- the network every path search runs on ----

  function NetworkOf(f: Edges.EdgeFrame, inCsr: Csr.CsrIndex, d: Direction, spec: EdgeTypeSpec, weight: seq<nat>): (g: Networks.Network)
    requires Indexed(f, inCsr)
    ensures |g.adj| == |Edges.IdsOf(f.rows)| && g.weight == weight
    ensures forall u | 0 <= u < |g.adj| :: g.adj[u] == NeighborPairs(f, inCsr, u, d, spec)
  {
    Networks.Network(seq(|Edges.IdsOf(f.rows)|, u requires 0 <= u < |Edges.IdsOf(f.rows)| => NeighborPairs(f, inCsr, u, d, spec)), weight)
  }

  /** The network's arcs are the eligible edges of the frame, and every edge row joins one pair of nodes. */
  lemma NetworkFaithful(f: Edges.EdgeFrame, inCsr: Csr.CsrIndex, d: Direction, spec: EdgeTypeSpec, weight: seq<nat>)
    requires Indexed(f, inCsr)
    ensures NetworkOf(f, inCsr, d, spec, weight).Valid()
    ensures forall u: nat, v: nat, e: nat :: NetworkOf(f, inCsr, d, spec, weight).HasArc(u, v, e) <==>
      && u < |Edges.IdsOf(f.rows)| && v < |Edges.IdsOf(f.rows)| && e < |f.rows|
      && Eligible(f.rows[e], spec, d, Edges.IdsOf(f.rows)[u], Edges.IdsOf(f.rows)[v])
  {
    hide Edges.IdsOf, NeighborPairs, Eligible, Indexed;
    var g := NetworkOf(f, inCsr, d, spec, weight);
    forall u: nat, v: nat, e: nat
      ensures g.HasArc(u, v, e) <==>
        && u < |Edges.IdsOf(f.rows)| && v < |Edges.IdsOf(f.rows)| && e < |f.rows|
        && Eligible(f.rows[e], spec, d, Edges.IdsOf(f.rows)[u], Edges.IdsOf(f.rows)[v])
    {
      if u < |Edges.IdsOf(f.rows)| {
        PairsExact(f, inCsr, d, spec, u, v, e);
      }
    }
    forall u, k | 0 <= u < |g.adj| && 0 <= k < |g.adj[u]|
      ensures g.adj[u][k].to < |g.adj|
    {
      PairsExact(f, inCsr, d, spec, u, g.adj[u][k].to, g.adj[u][k].row);
      assert g.adj[u][k] in g.adj[u];
    }
  }
}
