/** Unweighted betweenness of a graph: the kernel from every source over the edge frame's own neighbour lists. */
module Betweenness {
  import opened Basics
  import opened Rows
  import opened Sums
  import opened RouteCounts
  import opened Brandes
  import Adjacency
  import BrandesKernel
  import Csr
  import Nodes = NodeFrames
  import Edges = EdgeFrames
  import Graphs = GraphFrames

  // ---- the neighbour lists ----

  /** The out-neighbours of every compact index. */
  function OutLists(f: Edges.EdgeFrame): RouteCounts.Adjacency
    requires Edges.Valid(f)
  {
    seq(|f.nodeIndex|, u requires 0 <= u < |f.nodeIndex| => f.outCsr.Neighbors(u))
  }

  /** How many edge rows lead from `a` to `b`. */
  function EdgeCount(rows: seq<EdgeRow>, a: string, b: string): nat {
    if rows == [] then 0
    else
      var n := |rows| - 1;
      EdgeCount(rows[..n], a, b) + if rows[n].src == a && rows[n].dst == b then 1 else 0
  }

  function Dsts(ts: seq<Csr.Target>): (r: seq<nat>)
    ensures |r| == |ts| && forall i | 0 <= i < |ts| :: r[i] == ts[i].dst
  {
    seq(|ts|, i requires 0 <= i < |ts| => ts[i].dst)
  }

  lemma {:induction false} DstsBag(a: seq<Csr.Target>, b: seq<Csr.Target>)
    requires multiset(a) == multiset(b)
    ensures multiset(Dsts(a)) == multiset(Dsts(b))
    decreases |a|
  {
    hide Dsts;
    if a == [] {
      assert |multiset(b)| == 0;
    } else {
      assert a[0] in multiset(b);
      var i :| 0 <= i < |b| && b[i] == a[0];
      DropOne(a, 0);
      DropOne(b, i);
      DstsBag(a[..0] + a[1..], b[..i] + b[i + 1..]);
      DstsDrop(a, 0);
      DstsDrop(b, i);
    }
  }

  lemma DstsDrop(s: seq<Csr.Target>, i: nat)
    requires i < |s|
    ensures multiset(Dsts(s)) == multiset(Dsts(s[..i] + s[i + 1..])) + multiset{s[i].dst}
  {
    DropOne(Dsts(s), i);
    assert Dsts(s[..i] + s[i + 1..]) == Dsts(s)[..i] + Dsts(s)[i + 1..];
  }

  lemma DropOne<T>(s: seq<T>, i: nat)
    requires i < |s|
    ensures multiset(s) == multiset(s[..i] + s[i + 1..]) + multiset{s[i]}
    ensures multiset(s[..i] + s[i + 1..]) == multiset(s) - multiset{s[i]}
  {
    assert s == s[..i] + [s[i]] + s[i + 1..];
  }

  lemma {:induction false} LeavingCount(src: seq<nat>, dst: seq<nat>, rows: seq<EdgeRow>, u: nat, w: nat, a: string, b: string)
    requires |src| == |dst| == |rows|
    requires forall e | 0 <= e < |rows| :: (src[e] == u <==> rows[e].src == a) && (dst[e] == w <==> rows[e].dst == b)
    ensures multiset(Dsts(Csr.Leaving(src, dst, u)))[w] == EdgeCount(rows, a, b)
  {
    if rows != [] {
      var n := |rows| - 1;
      LeavingCount(src[..n], dst[..n], rows[..n], u, w, a, b);
      var front := Csr.Leaving(src[..n], dst[..n], u);
      if src[n] == u {
        assert Dsts(front + [Csr.Target(dst[n], n)]) == Dsts(front) + [dst[n]];
      } else {
        assert front + [] == front;
      }
    }
  }

  /** Each list holds a neighbour once per edge row that leads there, and nothing out of range. */
  lemma OutListsFaithful(f: Edges.EdgeFrame, u: nat, w: nat)
    requires Edges.Valid(f) && u < |f.nodeIndex| && w < |f.nodeIndex|
    ensures |f.nodeIndex| == |Edges.IdsOf(f.rows)|
    ensures multiset(OutLists(f)[u])[w] == EdgeCount(f.rows, Edges.IdsOf(f.rows)[u], Edges.IdsOf(f.rows)[w])
  {
    hide Edges.IdsOf, Csr.Leaving, Csr.Scan, EdgeCount, Edges.SrcIdx, Edges.DstIdx, Csr.Covers, Edges.TypesOf;
    Edges.FrameNumbers(f);
    var ids, src, dst := Edges.IdsOf(f.rows), Edges.SrcIdx(f.rows), Edges.DstIdx(f.rows);
    var ns, es := f.outCsr.Neighbors(u), f.outCsr.EdgeIds(u);
    Edges.IdxBound(f.rows);
    Csr.LookupIsLeaving(f.outCsr, src, dst, |ids|, u);
    DstsBag(Csr.Zip(ns, es), Csr.Leaving(src, dst, u));
    assert Dsts(Csr.Zip(ns, es)) == ns;
    forall e | 0 <= e < |f.rows|
      ensures (src[e] == u <==> f.rows[e].src == ids[u]) && (dst[e] == w <==> f.rows[e].dst == ids[w])
    {
      Adjacency.IdxMeans(f.rows, e, u);
      Adjacency.IdxMeans(f.rows, e, w);
    }
    LeavingCount(src, dst, f.rows, u, w, ids[u], ids[w]);
  }

  lemma OutListsClosed(f: Edges.EdgeFrame)
    requires Edges.Valid(f)
    ensures Closed(OutLists(f)) && |OutLists(f)| == |Edges.IdsOf(f.rows)|
  {
    hide Edges.IdsOf, Csr.Leaving, Csr.Scan, Edges.SrcIdx, Edges.DstIdx, Csr.Covers, Edges.TypesOf;
    Edges.FrameNumbers(f);
    Edges.IdxBound(f.rows);
    forall u, j | 0 <= u < |f.nodeIndex| && 0 <= j < |f.outCsr.Neighbors(u)|
      ensures f.outCsr.Neighbors(u)[j] < |f.nodeIndex|
    {
      NeighborInRange(f.outCsr, Edges.SrcIdx(f.rows), Edges.DstIdx(f.rows), |f.nodeIndex|, u, j);
    }
  }

  lemma NeighborInRange(c: Csr.CsrIndex, src: seq<nat>, dst: seq<nat>, n: nat, u: nat, j: nat)
    requires Csr.Indexes(c, src, dst, n) && Csr.Covers(src, n) && Csr.Covers(dst, n) && u < n && j < |c.Neighbors(u)|
    ensures c.Neighbors(u)[j] < n
  {
    var z := Csr.Zip(c.Neighbors(u), c.EdgeIds(u));
    assert Csr.Scan(src, dst, u, z);
    assert z[j] in z;
  }

  // ---- the scores ----

  /** What each source adds to the score of `v`. */
  ghost function PerSource(adj: RouteCounts.Adjacency, v: nat): (r: seq<real>)
    ensures |r| == |adj| && forall s | 0 <= s < |adj| :: r[s] == if v == s then 0.0 else Sum(Dependencies(adj, s, v))
  {
    seq(|adj|, s requires 0 <= s < |adj| => if v == s then 0.0 else Sum(Dependencies(adj, s, v)))
  }

  /** The kernel from every source, the local scores added up. */
  method SumOverSources(adj: RouteCounts.Adjacency) returns (scores: seq<real>)
    requires Closed(adj)
    ensures |scores| == |adj| && forall v | 0 <= v < |adj| :: scores[v] == Sum(PerSource(adj, v))
  {
    hide *;
    var totals := new real[|adj|](_ => 0.0);
    var s := 0;
    NoSource(adj);
    while s < |adj|
      invariant 0 <= s <= |adj|
      invariant forall v | 0 <= v < |adj| :: totals[v] == Sum(PerSource(adj, v)[..s])
    {
      var local := BrandesKernel.UnweightedBrandesFromSource(adj, s);
      var v := 0;
      while v < |adj|
        invariant 0 <= v <= |adj|
        invariant forall x | 0 <= x < v :: totals[x] == Sum(PerSource(adj, x)[..s + 1])
        invariant forall x | v <= x < |adj| :: totals[x] == Sum(PerSource(adj, x)[..s])
      {
        OneMoreSource(adj, v, s);
        totals[v] := totals[v] + local[v];
        v := v + 1;
      }
      s := s + 1;
    }
    scores := totals[..];
    forall v | 0 <= v < |adj|
      ensures PerSource(adj, v)[..s] == PerSource(adj, v)
    {
    }
  }

  lemma NoSource(adj: RouteCounts.Adjacency)
    ensures forall v | 0 <= v < |adj| :: Sum(PerSource(adj, v)[..0]) == 0.0
  {
  }

  lemma OneMoreSource(adj: RouteCounts.Adjacency, v: nat, s: nat)
    requires v < |adj| && s < |adj|
    ensures Sum(PerSource(adj, v)[..s + 1]) ==
            Sum(PerSource(adj, v)[..s]) + if v == s then 0.0 else Sum(Dependencies(adj, s, v))
  {
    hide Sum, Dependencies;
    var terms := PerSource(adj, v);
    assert terms[..s + 1] == terms[..s] + [terms[s]];
    SumPush(terms[..s], terms[s]);
  }

  /** The number of ordered pairs of other nodes, or 1 where there is none. */
  function Norm(n: nat): (r: real)
    ensures r > 0.0
  {
    if n > 2 then Pairs(n) else 1.0
  }

  function Pairs(n: nat): (r: real)
    requires n > 2
    ensures r > 0.0
  {
    ((n - 1) * (n - 2)) as real
  }

  /** The normalised score of a node: over all sources and targets other than itself, the fraction of the
      shortest edge sequences that pass through it. A node without edges scores nothing. */
  ghost function Score(g: Graphs.GraphFrame, id: string): real
    requires Graphs.Valid(g)
  {
    if |g.nodes.rows| < 2 || id !in g.edges.nodeIndex then 0.0
    else Sum(PerSource(OutLists(g.edges), g.edges.nodeIndex[id])) / Norm(|g.nodes.rows|)
  }

  // ---- what the scores mean ----

  ghost predicate ScoreFacts(g: Graphs.GraphFrame, id: string)
    requires Graphs.Valid(g)
  {
    var n := |g.nodes.rows|;
    && (n < 2 || id !in g.edges.nodeIndex ==> Score(g, id) == 0.0)
    && (n >= 2 && id in g.edges.nodeIndex ==> Score(g, id) == Sum(PerSource(OutLists(g.edges), g.edges.nodeIndex[id])) / Norm(n))
    && (n > 2 && id in g.edges.nodeIndex ==> Score(g, id) * ((n - 1) * (n - 2)) as real == Sum(PerSource(OutLists(g.edges), g.edges.nodeIndex[id])))
    && (Graphs.Closed(g.nodes.rows, g.edges.rows) && id in Nodes.Ids(g.nodes.rows) ==> 0.0 <= Score(g, id) <= 1.0)
  }

  /** A shortest length is unique, and the dependency is the ratio of the routes of that length. */
  lemma DependencyAt(adj: RouteCounts.Adjacency, s: nat, v: nat, t: nat, d: nat)
    requires Shortest(adj, s, t, d) && t != v
    ensures |Routes(adj, s, t, d)| > 0 && |Through(adj, s, t, d, v)| <= |Routes(adj, s, t, d)|
    ensures Dependency(adj, s, v, t) == |Through(adj, s, t, d, v)| as real / |Routes(adj, s, t, d)| as real
  {
    hide Count, Routes, Visits;
    CountIsSize(adj, s, t, d);
    forall e: nat | Shortest(adj, s, t, e)
      ensures e == d
    {
    }
    SubsetSize(Through(adj, s, t, d, v), Routes(adj, s, t, d));
  }

  lemma DependencyBounds(adj: RouteCounts.Adjacency, s: nat, v: nat, t: nat)
    requires s < |adj| && s != v
    ensures 0.0 <= Dependency(adj, s, v, t) <= 1.0
    ensures t == v || t == s ==> Dependency(adj, s, v, t) == 0.0
  {
    if t == s {
      NothingBetween(adj, s, v);
    } else if t != v && exists d: nat :: Shortest(adj, s, t, d) {
      var d: nat :| Shortest(adj, s, t, d);
      DependencyAt(adj, s, v, t, d);
      Fraction(|Through(adj, s, t, d, v)| as real, |Routes(adj, s, t, d)| as real);
    }
  }

  lemma Fraction(a: real, b: real)
    requires 0.0 <= a <= b && b > 0.0
    ensures 0.0 <= a / b <= 1.0
  {
  }

  lemma NothingBetween(adj: RouteCounts.Adjacency, s: nat, v: nat)
    requires s < |adj| && s != v
    ensures Dependency(adj, s, v, s) == 0.0
  {
    assert Shortest(adj, s, s, 0);
    DependencyAt(adj, s, v, s, 0);
    forall p | p in Routes(adj, s, s, 0)
      ensures !Visits(adj, s, p, v)
    {
      assert p == [];
    }
    assert Through(adj, s, s, 0, v) == {};
  }

  /** From one source no node can carry more than all other targets. */
  lemma FromOneSource(adj: RouteCounts.Adjacency, s: nat, v: nat)
    requires s < |adj| && v < |adj| && s != v
    ensures 0.0 <= Sum(Dependencies(adj, s, v)) <= (|adj| - 2) as real
  {
    hide Sum, Dependency;
    var n := |adj|;
    var ones := Constant(n, 1.0);
    var most := ones[v := 0.0][s := 0.0];
    forall t | 0 <= t < n
      ensures 0.0 <= Dependencies(adj, s, v)[t] <= most[t]
    {
      DependencyBounds(adj, s, v, t);
    }
    SumNonNegative(Dependencies(adj, s, v));
    SumLe(Dependencies(adj, s, v), most);
    SumConstant(n, 1.0);
    SumUpdate(ones, v, 0.0);
    SumUpdate(ones[v := 0.0], s, 0.0);
  }

  lemma FromAllSources(adj: RouteCounts.Adjacency, v: nat)
    requires v < |adj|
    ensures 0.0 <= Sum(PerSource(adj, v)) <= ((|adj| - 1) * (|adj| - 2)) as real
  {
    hide Sum, Dependencies;
    var n := |adj|;
    var all := Constant(n, (n - 2) as real);
    forall s | 0 <= s < n
      ensures 0.0 <= PerSource(adj, v)[s] <= all[v := 0.0][s]
    {
      if s != v {
        FromOneSource(adj, s, v);
      }
    }
    SumNonNegative(PerSource(adj, v));
    SumLe(PerSource(adj, v), all[v := 0.0]);
    SumConstant(n, (n - 2) as real);
    SumUpdate(all, v, 0.0);
    CountPairs(n);
  }

  lemma CountPairs(n: int)
    ensures n as real * (n - 2) as real - (n - 2) as real == ((n - 1) * (n - 2)) as real
  {
    assert n * (n - 2) - (n - 2) == (n - 1) * (n - 2);
    assert (n * (n - 2)) as real == n as real * (n - 2) as real;
  }

  /** On a closed graph there are no more indexed ids than nodes. */
  lemma IndexedFit(g: Graphs.GraphFrame)
    requires Graphs.Valid(g) && Graphs.Closed(g.nodes.rows, g.edges.rows)
    ensures |g.edges.nodeIndex| <= |g.nodes.rows|
  {
    hide Edges.IdsOf, Edges.OutOf, Edges.TypesOf;
    NumbersSize(g.edges.nodeIndex, Edges.IdsOf(g.edges.rows));
    NumbersSize(g.nodes.idIndex, Nodes.Ids(g.nodes.rows));
    forall id | id in g.edges.nodeIndex
      ensures id in g.nodes.idIndex
    {
      Edges.IdsOfMember(g.edges.rows, id);
      var e :| 0 <= e < |g.edges.rows| && Touches(g.edges.rows[e], id);
      assert Graphs.EndsKnown(g.nodes.rows, g.edges.rows[e]);
      var i :| 0 <= i < |g.nodes.rows| && Nodes.Ids(g.nodes.rows)[i] == id;
    }
    SubsetSize(g.edges.nodeIndex.Keys, g.nodes.idIndex.Keys);
  }

  lemma MorePairs(a: int, b: int)
    requires 1 <= a <= b
    ensures (a - 1) * (a - 2) <= (b - 1) * (b - 2)
    decreases b
  {
    if a < b {
      MorePairs(a, b - 1);
      assert (b - 1) * (b - 2) == (b - 2) * (b - 3) + 2 * (b - 2);
    }
  }

  lemma ScoreMeans(g: Graphs.GraphFrame, id: string)
    requires Graphs.Valid(g)
    ensures ScoreFacts(g, id)
  {
    hide Edges.IdsOf, Edges.OutOf, Edges.TypesOf, Numbers, Sum, PerSource, Graphs.Closed, OutLists;
    var n := |g.nodes.rows|;
    if n >= 2 && id in g.edges.nodeIndex {
      var adj, v := OutLists(g.edges), g.edges.nodeIndex[id];
      IndexInRange(g, id);
      OutListsSize(g.edges);
      FromAllSources(adj, v);
      var total := Sum(PerSource(adj, v));
      if n > 2 {
        Unscale(total, Pairs(n));
      }
      if Graphs.Closed(g.nodes.rows, g.edges.rows) {
        IndexedFit(g);
        MorePairs(|adj|, n);
        Fraction(total, Norm(n));
      }
    }
  }

  lemma OutListsSize(f: Edges.EdgeFrame)
    requires Edges.Valid(f)
    ensures |OutLists(f)| == |f.nodeIndex|
  {
    hide Edges.IdsOf, Edges.OutOf, Edges.TypesOf;
  }

  lemma Unscale(a: real, b: real)
    requires b > 0.0
    ensures a / b * b == a
  {
  }

  // ---- the centre of a star ----

  /** Node 0 is joined to each of the nodes 1 to `m` in both directions. */
  function Star(m: nat): RouteCounts.Adjacency {
    [seq(m, i => i + 1)] + seq(m, _ => [0])
  }

  /** From leaf to leaf there is one shortest route, through the centre. */
  lemma LeafToLeaf(m: nat, s: nat, t: nat)
    requires 1 <= s <= m && 1 <= t <= m && s != t
    ensures Dependency(Star(m), s, 0, t) == 1.0
  {
    hide Count, Routes, Shortest;
    var adj := Star(m);
    LeafDistance(m, s, t);
    DependencyAt(adj, s, 0, t, 2);
    forall p | p in Routes(adj, s, t, 2)
      ensures Visits(adj, s, p, 0)
    {
      RoutesExact(adj, s, t, 2, p);
      assert adj[s] == [0];
      assert NodeAt(adj, s, p, 1) == 0;
    }
    assert Through(adj, s, t, 2, 0) == Routes(adj, s, t, 2);
  }

  lemma LeafDistance(m: nat, s: nat, t: nat)
    requires 1 <= s <= m && 1 <= t <= m && s != t
    ensures Shortest(Star(m), s, t, 2)
  {
    hide Sum;
    var adj := Star(m);
    assert adj[s] == [0] && |adj[0]| == m && forall i | 0 <= i < m :: adj[0][i] == i + 1;
    var last := CountNext(adj, 0, t, 1);
    CountUnfolds(adj, 0, t, 1);
    assert last[t - 1] == 1.0 && forall i | 0 <= i < m && i != t - 1 :: last[i] == 0.0;
    SumSingle(last, t - 1);
    CountUnfolds(adj, s, t, 2);
    SumSingle(CountNext(adj, s, t, 2), 0);
    CountUnfolds(adj, s, t, 1);
    SumZero(CountNext(adj, s, t, 1));
    assert Count(adj, s, t, 0) == 0.0;
  }

  lemma FromLeaf(m: nat, s: nat)
    requires 1 <= s <= m
    ensures Sum(Dependencies(Star(m), s, 0)) == (m - 1) as real
  {
    hide Sum, Dependency;
    var adj := Star(m);
    var ones := Constant(m + 1, 1.0);
    forall t | 0 <= t < m + 1
      ensures Dependencies(adj, s, 0)[t] == ones[0 := 0.0][s := 0.0][t]
    {
      DependencyBounds(adj, s, 0, t);
      if t != 0 && t != s {
        LeafToLeaf(m, s, t);
      }
    }
    assert Dependencies(adj, s, 0) == ones[0 := 0.0][s := 0.0];
    SumConstant(m + 1, 1.0);
    SumUpdate(ones, 0, 0.0);
    SumUpdate(ones[0 := 0.0], s, 0.0);
  }

  /** The centre of a star of at least two leaves scores 1. */
  lemma StarCentre(g: Graphs.GraphFrame, m: nat, id: string)
    requires Graphs.Valid(g) && m >= 2 && |g.nodes.rows| == m + 1
    requires OutLists(g.edges) == Star(m) && id in g.edges.nodeIndex && g.edges.nodeIndex[id] == 0
    ensures Score(g, id) == 1.0
  {
    hide Sum, Dependencies, Edges.IdsOf, Edges.OutOf, Edges.TypesOf, Numbers, OutLists, Star;
    var adj := Star(m);
    StarSize(m);
    var all := Constant(m + 1, (m - 1) as real);
    forall s | 0 <= s < m + 1
      ensures PerSource(adj, 0)[s] == all[0 := 0.0][s]
    {
      if s != 0 {
        FromLeaf(m, s);
      }
    }
    assert PerSource(adj, 0) == all[0 := 0.0];
    SumConstant(m + 1, (m - 1) as real);
    SumUpdate(all, 0, 0.0);
    CountPairs(m + 1);
    Fraction(Pairs(m + 1), Pairs(m + 1));
    Unscale(1.0, Pairs(m + 1));
  }

  lemma StarSize(m: nat)
    ensures |Star(m)| == m + 1
  {
  }

  /** Betweenness of every node, in node-row order. */
  method BetweennessCentrality(g: Graphs.GraphFrame) returns (values: seq<real>)
    requires Graphs.Valid(g)
    ensures |values| == |g.nodes.rows|
    ensures forall row | 0 <= row < |values| :: values[row] == Score(g, g.nodes.rows[row].id)
    ensures forall row | 0 <= row < |values| && g.nodes.rows[row].id !in g.edges.nodeIndex :: values[row] == 0.0
    ensures |values| > 2 ==> forall row | 0 <= row < |values| && g.nodes.rows[row].id in g.edges.nodeIndex ::
      values[row] * ((|values| - 1) * (|values| - 2)) as real == Sum(PerSource(OutLists(g.edges), g.edges.nodeIndex[g.nodes.rows[row].id]))
    ensures Graphs.Closed(g.nodes.rows, g.edges.rows) ==> forall row | 0 <= row < |values| :: 0.0 <= values[row] <= 1.0
  {
    hide Sum, Dependencies, PerSource, Norm, Score, Closed, Graphs.Closed, Numbers, Edges.OutOf, Edges.TypesOf, Edges.IdsOf;
    var n := |g.nodes.rows|;
    forall row | 0 <= row < n
      ensures ScoreFacts(g, g.nodes.rows[row].id)
    {
      ScoreMeans(g, g.nodes.rows[row].id);
    }
    if n < 2 {
      return Constant(n, 0.0);
    }
    OutListsClosed(g.edges);
    var adj := OutLists(g.edges);
    var scores := SumOverSources(adj);
    values := [];
    var row := 0;
    while row < n
      invariant 0 <= row <= n && |values| == row
      invariant forall k | 0 <= k < row :: values[k] == Score(g, g.nodes.rows[k].id)
    {
      var id := g.nodes.rows[row].id;
      if id in g.edges.nodeIndex {
        IndexInRange(g, id);
        values := values + [scores[g.edges.nodeIndex[id]] / Norm(n)];
      } else {
        values := values + [0.0];
      }
      row := row + 1;
    }
  }

  lemma IndexInRange(g: Graphs.GraphFrame, id: string)
    requires Graphs.Valid(g) && id in g.edges.nodeIndex
    ensures g.edges.nodeIndex[id] < |g.edges.nodeIndex|
  {
    hide Edges.IdsOf, Edges.OutOf, Edges.TypesOf;
    Edges.FrameNumbers(g.edges);
    var ids := Edges.IdsOf(g.edges.rows);
    var i :| 0 <= i < |ids| && ids[i] == id;
  }
}
