/** The compressed sparse row index of a list of directed edges. */
module Csr {

  datatype CsrIndex = CsrIndex(offsets: seq<nat>, neighbors: seq<nat>, edgeIds: seq<nat>) {

    function NodeCount(): nat {
      if |offsets| == 0 then 0 else |offsets| - 1
    }

    function EdgeCount(): nat {
      |neighbors|
    }

    /** Well-formed slices: every range lies inside both lists. */
    predicate Sliceable() {
      && |neighbors| == |edgeIds|
      && (forall i | 0 <= i < |offsets| :: offsets[i] <= |neighbors|)
      && forall i | 0 <= i < |offsets| - 1 :: offsets[i] <= offsets[i + 1]
    }

    /** The neighbours of `u`; none for an index out of range. */
    function Neighbors(u: nat): seq<nat>
      requires Sliceable()
    {
      if u >= NodeCount() then [] else neighbors[offsets[u]..offsets[u + 1]]
    }

    function EdgeIds(u: nat): seq<nat>
      requires Sliceable()
    {
      if u >= NodeCount() then [] else edgeIds[offsets[u]..offsets[u + 1]]
    }

    function Degree(u: nat): nat
      requires Sliceable()
    {
      if u >= NodeCount() then 0 else offsets[u + 1] - offsets[u]
    }
  }

  // ---- the linear scan the index stands for ----

  datatype Target = Target(dst: nat, row: nat)

  predicate Before(a: Target, b: Target) {
    a.dst < b.dst || (a.dst == b.dst && a.row < b.row)
  }

  ghost predicate Ascending(ts: seq<Target>) {
    forall i, j | 0 <= i < j < |ts| :: Before(ts[i], ts[j])
  }

  /** `ts` lists every edge leaving `u`, once, in (target, row) order. */
  ghost predicate Scan(src: seq<nat>, dst: seq<nat>, u: nat, ts: seq<Target>) {
    && |src| == |dst| && Ascending(ts)
    && forall t :: t in ts <==> t.row < |src| && src[t.row] == u && dst[t.row] == t.dst
  }

  function Zip(ns: seq<nat>, es: seq<nat>): (r: seq<Target>)
    requires |ns| == |es|
    ensures |r| == |ns| && forall i | 0 <= i < |r| :: r[i] == Target(ns[i], es[i])
  {
    seq(|ns|, i requires 0 <= i < |ns| => Target(ns[i], es[i]))
  }

  /** The index answers every lookup with the linear scan, and its offsets partition the edges. */
  ghost predicate Indexes(c: CsrIndex, src: seq<nat>, dst: seq<nat>, n: nat) {
    && c.Sliceable() && |src| == |dst| == |c.neighbors|
    && |c.offsets| == n + 1 && c.offsets[0] == 0 && c.offsets[n] == |src|
    && forall u | 0 <= u < n :: Scan(src, dst, u, Zip(c.Neighbors(u), c.EdgeIds(u)))
  }

  lemma {:induction false} ScanUnique(src: seq<nat>, dst: seq<nat>, u: nat, a: seq<Target>, b: seq<Target>)
    requires Scan(src, dst, u, a) && Scan(src, dst, u, b)
    ensures a == b
  {
    SameAscending(a, b);
  }

  lemma {:induction false} SameAscending(a: seq<Target>, b: seq<Target>)
    requires Ascending(a) && Ascending(b) && forall t :: t in a <==> t in b
    ensures a == b
    decreases |a|
  {
    if a == [] {
      if b != [] {
        Head(b);
      }
    } else if b == [] {
      Head(a);
    } else {
      SameFirst(a, b);
      forall t
        ensures t in a[1..] <==> t in b[1..]
      {
        RestMember(a, t);
        RestMember(b, t);
      }
      SameAscending(a[1..], b[1..]);
      assert a == [a[0]] + a[1..] && b == [b[0]] + b[1..];
    }
  }

  lemma Head(a: seq<Target>)
    requires a != []
    ensures a[0] in a
  {
  }

  lemma SameFirst(a: seq<Target>, b: seq<Target>)
    requires Ascending(a) && Ascending(b) && a != [] && b != [] && forall t :: t in a <==> t in b
    ensures a[0] == b[0]
  {
    assert a[0] in b && b[0] in a;
    var i :| 0 <= i < |b| && b[i] == a[0];
    var j :| 0 <= j < |a| && a[j] == b[0];
  }

  lemma RestMember(a: seq<Target>, t: Target)
    requires Ascending(a) && a != []
    ensures t in a[1..] <==> t in a && t != a[0]
  {
    if t in a && t != a[0] {
      var i :| 0 <= i < |a| && a[i] == t;
      assert a[1..][i - 1] == t;
    }
  }

  /** A list of edges has exactly one index. */
  lemma IndexUnique(c: CsrIndex, d: CsrIndex, src: seq<nat>, dst: seq<nat>, n: nat)
    requires Indexes(c, src, dst, n) && Indexes(d, src, dst, n)
    ensures c == d
  {
    OffsetsAgree(c, d, src, dst, n, n);
    forall p | 0 <= p < |src|
      ensures c.neighbors[p] == d.neighbors[p] && c.edgeIds[p] == d.edgeIds[p]
    {
      var u := Owner(c, src, dst, n, p);
      ScanUnique(src, dst, u, Zip(c.Neighbors(u), c.EdgeIds(u)), Zip(d.Neighbors(u), d.EdgeIds(u)));
      var q := p - c.offsets[u];
      assert Zip(c.Neighbors(u), c.EdgeIds(u))[q] == Zip(d.Neighbors(u), d.EdgeIds(u))[q];
    }
  }

  lemma {:induction false} OffsetsAgree(c: CsrIndex, d: CsrIndex, src: seq<nat>, dst: seq<nat>, n: nat, k: nat)
    requires Indexes(c, src, dst, n) && Indexes(d, src, dst, n) && k <= n
    ensures forall u | 0 <= u <= k :: c.offsets[u] == d.offsets[u]
  {
    if k > 0 {
      OffsetsAgree(c, d, src, dst, n, k - 1);
      ScanUnique(src, dst, k - 1, Zip(c.Neighbors(k - 1), c.EdgeIds(k - 1)), Zip(d.Neighbors(k - 1), d.EdgeIds(k - 1)));
    }
  }

  /** Every position of the neighbour list belongs to some node's range. */
  lemma Owner(c: CsrIndex, src: seq<nat>, dst: seq<nat>, n: nat, p: nat) returns (u: nat)
    requires Indexes(c, src, dst, n) && p < |src|
    ensures u < n && c.offsets[u] <= p < c.offsets[u + 1]
  {
    u := 0;
    while c.offsets[u + 1] <= p
      invariant u < n && c.offsets[u] <= p
      decreases n - u
    {
      u := u + 1;
    }
  }

  // ---- sorting ----

  datatype Triple = Triple(src: nat, dst: nat, row: nat)

  predicate TripleLess(a: Triple, b: Triple) {
    a.src < b.src || (a.src == b.src && (a.dst < b.dst || (a.dst == b.dst && a.row < b.row)))
  }

  ghost predicate SortedTriples(ts: seq<Triple>) {
    forall i, j | 0 <= i < j < |ts| :: TripleLess(ts[i], ts[j])
  }

  /** Every edge of the list appears as one triple. */
  ghost predicate Packs(ts: seq<Triple>, src: seq<nat>, dst: seq<nat>) {
    && |src| == |dst| == |ts|
    && forall t :: t in ts <==> t.row < |src| && t == Triple(src[t.row], dst[t.row], t.row)
  }

  function Insert(t: Triple, ts: seq<Triple>): (r: seq<Triple>)
    requires SortedTriples(ts) && t !in ts
    ensures SortedTriples(r) && |r| == |ts| + 1 && forall x :: x in r <==> x == t || x in ts
  {
    if ts == [] then [t]
    else if TripleLess(t, ts[0]) then [t] + ts
    else
      assert ts == [ts[0]] + ts[1..];
      var rest := Insert(t, ts[1..]);
      assert forall x | x in rest :: TripleLess(ts[0], x);
      [ts[0]] + rest
  }

  /** The library's sort, on triples that differ at least in their rows. */
  method SortPacked(src: seq<nat>, dst: seq<nat>) returns (ts: seq<Triple>)
    requires |src| == |dst|
    ensures SortedTriples(ts) && Packs(ts, src, dst)
  {
    ts := [];
    var i := 0;
    while i < |src|
      invariant 0 <= i <= |src| && |ts| == i && SortedTriples(ts)
      invariant forall t :: t in ts <==> t.row < i && t == Triple(src[t.row], dst[t.row], t.row)
    {
      ts := Insert(Triple(src[i], dst[i], i), ts);
      i := i + 1;
    }
  }

  // ---- counting and prefix sums ----

  /** How many triples start before node `u`. */
  function CountBelow(ts: seq<Triple>, u: nat): nat {
    if ts == [] then 0 else CountBelow(ts[..|ts| - 1], u) + if ts[|ts| - 1].src < u then 1 else 0
  }

  function CountAt(ts: seq<Triple>, u: nat): nat {
    if ts == [] then 0 else CountAt(ts[..|ts| - 1], u) + if ts[|ts| - 1].src == u then 1 else 0
  }

  lemma {:induction false} CountStep(ts: seq<Triple>, u: nat)
    ensures CountBelow(ts, u + 1) == CountBelow(ts, u) + CountAt(ts, u)
    ensures CountBelow(ts, u) <= |ts|
  {
    if ts != [] {
      CountStep(ts[..|ts| - 1], u);
    }
  }

  lemma {:induction false} CountEnds(ts: seq<Triple>, n: nat)
    requires forall i | 0 <= i < |ts| :: ts[i].src < n
    ensures CountBelow(ts, 0) == 0 && CountBelow(ts, n) == |ts|
  {
    if ts != [] {
      CountEnds(ts[..|ts| - 1], n);
    }
  }

  /** In sorted triples, the ones starting before `u` are exactly the first `CountBelow`. */
  lemma {:induction false} SortedPositions(ts: seq<Triple>, u: nat, p: nat)
    requires SortedTriples(ts) && p < |ts|
    ensures ts[p].src < u <==> p < CountBelow(ts, u)
  {
    var n := |ts| - 1;
    CountStep(ts[..n], u);
    if p < n {
      SortedPositions(ts[..n], u, p);
    } else if n > 0 && ts[n].src < u {
      AllBelow(ts[..n], u);
    } else if ts[n].src < u {
      assert CountBelow(ts[..0], u) == 0;
    }
  }

  lemma {:induction false} AllBelow(ts: seq<Triple>, u: nat)
    requires forall i | 0 <= i < |ts| :: ts[i].src < u
    ensures CountBelow(ts, u) == |ts|
  {
    if ts != [] {
      AllBelow(ts[..|ts| - 1], u);
    }
  }

  // ---- building ----

  ghost predicate Covers(src: seq<nat>, n: nat) {
    forall i | 0 <= i < |src| :: src[i] < n
  }

  ghost predicate StartsBelow(ts: seq<Triple>, n: nat) {
    forall i | 0 <= i < |ts| :: ts[i].src < n
  }

  /** The arrays hold the triples in order, and `offsets` counts the triples before each node. */
  ghost predicate Lays(c: CsrIndex, ts: seq<Triple>, n: nat) {
    && |c.neighbors| == |c.edgeIds| == |ts| && |c.offsets| == n + 1
    && (forall u | 0 <= u <= n :: c.offsets[u] == CountBelow(ts, u))
    && forall p | 0 <= p < |ts| :: c.neighbors[p] == ts[p].dst && c.edgeIds[p] == ts[p].row
  }

  method BuildFromSortedEdges(edges: seq<Triple>, nodeCount: nat) returns (c: CsrIndex)
    requires StartsBelow(edges, nodeCount)
    ensures Lays(c, edges, nodeCount)
  {
    var offsets := new nat[nodeCount + 1](_ => 0);
    var i := 0;
    while i < |edges|
      invariant 0 <= i <= |edges|
      invariant offsets[0] == 0 && forall u | 0 <= u < nodeCount :: offsets[u + 1] == CountAt(edges[..i], u)
    {
      assert edges[..i + 1][..i] == edges[..i] && edges[..i + 1][i] == edges[i];
      offsets[edges[i].src + 1] := offsets[edges[i].src + 1] + 1;
      i := i + 1;
    }
    assert edges[..i] == edges;
    CountEnds(edges, nodeCount);
    i := 1;
    while i <= nodeCount
      invariant 1 <= i <= nodeCount + 1
      invariant forall u | 0 <= u < i :: offsets[u] == CountBelow(edges, u)
      invariant forall u | i - 1 <= u < nodeCount :: offsets[u + 1] == CountAt(edges, u)
    {
      CountStep(edges, i - 1);
      offsets[i] := offsets[i] + offsets[i - 1];
      i := i + 1;
    }
    var neighbors := new nat[|edges|](_ => 0);
    var edgeIds := new nat[|edges|](_ => 0);
    var pos := 0;
    while pos < |edges|
      invariant 0 <= pos <= |edges|
      invariant forall p | 0 <= p < pos :: neighbors[p] == edges[p].dst && edgeIds[p] == edges[p].row
      invariant forall u | 0 <= u <= nodeCount :: offsets[u] == CountBelow(edges, u)
    {
      neighbors[pos] := edges[pos].dst;
      edgeIds[pos] := edges[pos].row;
      pos := pos + 1;
    }
    c := CsrIndex(offsets[..], neighbors[..], edgeIds[..]);
  }

  lemma PacksStarts(ts: seq<Triple>, src: seq<nat>, dst: seq<nat>, n: nat)
    requires Packs(ts, src, dst) && Covers(src, n)
    ensures StartsBelow(ts, n)
  {
    forall i | 0 <= i < |ts|
      ensures ts[i].src < n
    {
      assert ts[i] in ts;
    }
  }

  lemma LaysSliceable(c: CsrIndex, ts: seq<Triple>, n: nat)
    requires Lays(c, ts, n) && StartsBelow(ts, n)
    ensures c.Sliceable() && c.offsets[0] == 0 && c.offsets[n] == |ts|
  {
    CountEnds(ts, n);
    forall u | 0 <= u <= n
      ensures c.offsets[u] <= |ts|
    {
      CountStep(ts, u);
    }
    forall u | 0 <= u < n
      ensures c.offsets[u] <= c.offsets[u + 1]
    {
      CountStep(ts, u);
    }
  }

  lemma LaysScan(c: CsrIndex, ts: seq<Triple>, src: seq<nat>, dst: seq<nat>, n: nat, u: nat)
    requires Lays(c, ts, n) && c.Sliceable() && SortedTriples(ts) && Packs(ts, src, dst) && u < n
    ensures Scan(src, dst, u, Zip(c.Neighbors(u), c.EdgeIds(u)))
  {
    var lo := c.offsets[u];
    var z := Zip(c.Neighbors(u), c.EdgeIds(u));
    forall k | 0 <= k < |z|
      ensures lo + k < |ts| && ts[lo + k] == Triple(u, z[k].dst, z[k].row)
    {
      SortedPositions(ts, u, lo + k);
      SortedPositions(ts, u + 1, lo + k);
    }
    forall t
      ensures t in z <==> t.row < |src| && src[t.row] == u && dst[t.row] == t.dst
    {
      LaysMember(c, ts, src, dst, n, u, z, t);
    }
  }

  lemma LaysMember(c: CsrIndex, ts: seq<Triple>, src: seq<nat>, dst: seq<nat>, n: nat, u: nat, z: seq<Target>, t: Target)
    requires Lays(c, ts, n) && c.Sliceable() && SortedTriples(ts) && Packs(ts, src, dst) && u < n
    requires |z| == c.offsets[u + 1] - c.offsets[u]
    requires forall k | 0 <= k < |z| :: c.offsets[u] + k < |ts| && ts[c.offsets[u] + k] == Triple(u, z[k].dst, z[k].row)
    ensures t in z <==> t.row < |src| && src[t.row] == u && dst[t.row] == t.dst
  {
    var x := Triple(u, t.dst, t.row);
    if t in z {
      var k :| 0 <= k < |z| && z[k] == t;
      assert ts[c.offsets[u] + k] == x;
      assert x in ts;
    }
    if t.row < |src| && src[t.row] == u && dst[t.row] == t.dst {
      assert x in ts;
      var p :| 0 <= p < |ts| && ts[p] == x;
      SortedPositions(ts, u, p);
      SortedPositions(ts, u + 1, p);
      assert z[p - c.offsets[u]] == t;
    }
  }

  lemma LaysIndexes(c: CsrIndex, ts: seq<Triple>, src: seq<nat>, dst: seq<nat>, n: nat)
    requires Lays(c, ts, n) && SortedTriples(ts) && Packs(ts, src, dst) && Covers(src, n)
    ensures Indexes(c, src, dst, n)
  {
    PacksStarts(ts, src, dst, n);
    LaysSliceable(c, ts, n);
    forall u | 0 <= u < n
      ensures Scan(src, dst, u, Zip(c.Neighbors(u), c.EdgeIds(u)))
    {
      LaysScan(c, ts, src, dst, n, u);
    }
  }

  /** The index over edges `src[i] -> dst[i]`; `nodeCount` must cover every source. */
  method Build(src: seq<nat>, dst: seq<nat>, nodeCount: nat) returns (c: CsrIndex)
    requires |src| == |dst| && Covers(src, nodeCount)
    ensures Indexes(c, src, dst, nodeCount)
    ensures c.Sliceable() && forall u | 0 <= u < nodeCount :: InOrder(c.Neighbors(u), c.EdgeIds(u))
  {
    hide *;
    var edges := SortPacked(src, dst);
    PacksStarts(edges, src, dst, nodeCount);
    c := BuildFromSortedEdges(edges, nodeCount);
    LaysIndexes(c, edges, src, dst, nodeCount);
    IndexInOrder(c, src, dst, nodeCount);
  }

  /** By target, then by edge row. */
  ghost predicate InOrder(ns: seq<nat>, es: seq<nat>) {
    |ns| == |es| && forall i, j | 0 <= i < j < |ns| :: ns[i] < ns[j] || (ns[i] == ns[j] && es[i] < es[j])
  }

  lemma IndexInOrder(c: CsrIndex, src: seq<nat>, dst: seq<nat>, n: nat)
    requires Indexes(c, src, dst, n)
    ensures c.Sliceable() && forall u | 0 <= u < n :: InOrder(c.Neighbors(u), c.EdgeIds(u))
  {
    forall u | 0 <= u < n
      ensures InOrder(c.Neighbors(u), c.EdgeIds(u))
    {
      var z := Zip(c.Neighbors(u), c.EdgeIds(u));
      assert Scan(src, dst, u, z);
      forall i, j | 0 <= i < j < |z|
        ensures z[i].dst < z[j].dst || (z[i].dst == z[j].dst && z[i].row < z[j].row)
      {
        assert Before(z[i], z[j]);
      }
      OrderOfPairs(z, c.Neighbors(u), c.EdgeIds(u));
    }
  }

  lemma OrderOfPairs(z: seq<Target>, ns: seq<nat>, es: seq<nat>)
    requires |z| == |ns| == |es| && forall i | 0 <= i < |z| :: z[i] == Target(ns[i], es[i])
    requires forall i, j | 0 <= i < j < |z| :: z[i].dst < z[j].dst || (z[i].dst == z[j].dst && z[i].row < z[j].row)
    ensures InOrder(ns, es)
  {
    forall i, j | 0 <= i < j < |ns|
      ensures ns[i] < ns[j] || (ns[i] == ns[j] && es[i] < es[j])
    {
      assert z[i] == Target(ns[i], es[i]) && z[j] == Target(ns[j], es[j]);
    }
  }

  /** The index over the same edges with the roles of source and target exchanged. */
  method BuildReverse(src: seq<nat>, dst: seq<nat>, nodeCount: nat) returns (c: CsrIndex)
    requires |src| == |dst| && Covers(dst, nodeCount)
    ensures Indexes(c, dst, src, nodeCount)
    ensures c.Sliceable() && forall u | 0 <= u < nodeCount :: InOrder(c.Neighbors(u), c.EdgeIds(u))
  {
    hide *;
    var edges := SortPacked(dst, src);
    PacksStarts(edges, dst, src, nodeCount);
    c := BuildFromSortedEdges(edges, nodeCount);
    LaysIndexes(c, edges, dst, src, nodeCount);
    IndexInOrder(c, dst, src, nodeCount);
  }

  /** Forward and reverse index hold the same edges under the same row ids. */
  lemma Transpose(f: CsrIndex, r: CsrIndex, src: seq<nat>, dst: seq<nat>, n: nat, u: nat, v: nat, row: nat)
    requires Indexes(f, src, dst, n) && Indexes(r, dst, src, n) && u < n && v < n
    ensures Target(v, row) in Zip(f.Neighbors(u), f.EdgeIds(u)) <==> Target(u, row) in Zip(r.Neighbors(v), r.EdgeIds(v))
  {
    assert Scan(src, dst, u, Zip(f.Neighbors(u), f.EdgeIds(u)));
    assert Scan(dst, src, v, Zip(r.Neighbors(v), r.EdgeIds(v)));
  }

  // ---- reading an index as the list of edges it was built from ----

  /** The edges leaving `u` in row order: the linear scan. */
  function Leaving(src: seq<nat>, dst: seq<nat>, u: nat): seq<Target>
    requires |src| == |dst|
  {
    if src == [] then []
    else
      var n := |src| - 1;
      Leaving(src[..n], dst[..n], u) + if src[n] == u then [Target(dst[n], n)] else []
  }

  lemma {:induction false} LeavingMember(src: seq<nat>, dst: seq<nat>, u: nat, t: Target)
    requires |src| == |dst|
    ensures multiset(Leaving(src, dst, u))[t] == if t.row < |src| && src[t.row] == u && dst[t.row] == t.dst then 1 else 0
  {
    if src != [] {
      var n := |src| - 1;
      LeavingMember(src[..n], dst[..n], u, t);
    }
  }

  lemma {:induction false} AscendingOnce(ts: seq<Target>, t: Target)
    requires Ascending(ts)
    ensures multiset(ts)[t] == if t in ts then 1 else 0
  {
    if ts != [] {
      var n := |ts| - 1;
      AscendingOnce(ts[..n], t);
      assert ts == ts[..n] + [ts[n]];
      forall i | 0 <= i < n
        ensures ts[i] != ts[n]
      {
        assert Before(ts[i], ts[n]);
      }
    }
  }

  /** Each lookup lists the edges of the linear scan, each the same number of times. */
  lemma ScanIsLeaving(src: seq<nat>, dst: seq<nat>, u: nat, ts: seq<Target>)
    requires Scan(src, dst, u, ts)
    ensures multiset(ts) == multiset(Leaving(src, dst, u))
  {
    forall t
      ensures multiset(ts)[t] == multiset(Leaving(src, dst, u))[t]
    {
      LeavingMember(src, dst, u, t);
      AscendingOnce(ts, t);
    }
  }

  lemma {:induction false} LeavingNone(src: seq<nat>, dst: seq<nat>, u: nat, n: nat)
    requires |src| == |dst| && Covers(src, n) && n <= u
    ensures Leaving(src, dst, u) == []
  {
    if src != [] {
      var k := |src| - 1;
      LeavingNone(src[..k], dst[..k], u, n);
    }
  }

  /** Every lookup, in range or not, is the linear scan up to order. */
  lemma LookupIsLeaving(c: CsrIndex, src: seq<nat>, dst: seq<nat>, n: nat, u: nat)
    requires Indexes(c, src, dst, n) && Covers(src, n)
    ensures multiset(Zip(c.Neighbors(u), c.EdgeIds(u))) == multiset(Leaving(src, dst, u))
  {
    if u < n {
      ScanIsLeaving(src, dst, u, Zip(c.Neighbors(u), c.EdgeIds(u)));
    } else {
      LeavingNone(src, dst, u, n);
    }
  }
}
