/** One source of unweighted Brandes betweenness: the counting BFS and the dependency accumulation. */
module Brandes {
  import opened Sums
  import opened RouteCounts

  // ---- what the kernel promises ----

  /** `d` is the length of a shortest route from `s` to `t`. */
  ghost predicate Shortest(adj: Adjacency, s: nat, t: nat, d: nat) {
    Count(adj, s, t, d) > 0.0 && forall k: nat | k < d :: Count(adj, s, t, k) == 0.0
  }

  ghost predicate Visits(adj: Adjacency, s: nat, p: seq<nat>, v: nat) {
    exists j: nat :: j <= |p| && NodeAt(adj, s, p, j) == v
  }

  ghost function Through(adj: Adjacency, s: nat, t: nat, d: nat, v: nat): set<seq<nat>> {
    set p | p in Routes(adj, s, t, d) && Visits(adj, s, p, v)
  }

  /** The fraction of the shortest routes from `s` to `t` that pass through `v`. */
  ghost function Dependency(adj: Adjacency, s: nat, v: nat, t: nat): real {
    if t != v && exists d: nat :: Shortest(adj, s, t, d) then
      var d: nat :| Shortest(adj, s, t, d);
      CountIsSize(adj, s, t, d);
      |Through(adj, s, t, d, v)| as real / |Routes(adj, s, t, d)| as real
    else 0.0
  }

  ghost function Dependencies(adj: Adjacency, s: nat, v: nat): (r: seq<real>)
    ensures |r| == |adj| && forall t | 0 <= t < |adj| :: r[t] == Dependency(adj, s, v, t)
  {
    seq(|adj|, t requires 0 <= t < |adj| => Dependency(adj, s, v, t))
  }

  // ---- the distance labels ----

  /** No edge skips a level: the finished BFS labelling. */
  ghost predicate Levelled(adj: Adjacency, s: nat, dist: seq<int>) {
    && Closed(adj) && |dist| == |adj| && s < |adj| && dist[s] == 0
    && (forall v | 0 <= v < |dist| && dist[v] >= 0 :: Count(adj, s, v, dist[v]) > 0.0)
    && (forall u, j | 0 <= u < |adj| && dist[u] >= 0 && 0 <= j < |adj[u]| :: 0 <= dist[adj[u][j]] <= dist[u] + 1)
  }

  lemma {:induction false} PositiveTerm(xs: seq<real>) returns (i: nat)
    requires Sum(xs) > 0.0
    ensures i < |xs| && xs[i] > 0.0
  {
    var n := |xs| - 1;
    if xs[n] > 0.0 {
      i := n;
    } else {
      i := PositiveTerm(xs[..n]);
    }
  }

  /** Labels obey the triangle inequality along every route. */
  lemma {:induction false} Triangle(adj: Adjacency, s: nat, dist: seq<int>, w: nat, t: nat, k: nat)
    requires Levelled(adj, s, dist) && w < |adj| && dist[w] >= 0 && Count(adj, w, t, k) > 0.0
    ensures t < |adj| && 0 <= dist[t] <= dist[w] + k
    decreases k
  {
    if k > 0 {
      CountUnfolds(adj, w, t, k);
      var j := PositiveTerm(CountNext(adj, w, t, k));
      Triangle(adj, s, dist, adj[w][j], t, k - 1);
    }
  }

  lemma LabelIsShortest(adj: Adjacency, s: nat, dist: seq<int>, t: nat)
    requires Levelled(adj, s, dist) && t < |adj|
    ensures dist[t] >= 0 ==> Shortest(adj, s, t, dist[t])
    ensures dist[t] < 0 ==> forall k: nat :: Count(adj, s, t, k) == 0.0
    ensures forall d: nat :: Shortest(adj, s, t, d) ==> dist[t] == d
  {
    forall k: nat
      ensures Count(adj, s, t, k) > 0.0 ==> 0 <= dist[t] <= k
      ensures Count(adj, s, t, k) >= 0.0
    {
      CountNonNegative(adj, s, t, k);
      if Count(adj, s, t, k) > 0.0 {
        Triangle(adj, s, dist, s, t, k);
      }
    }
  }

  // ---- routes through a node ----

  lemma LevelledSize(adj: Adjacency, s: nat, dist: seq<int>)
    requires Levelled(adj, s, dist)
    ensures Closed(adj) && |dist| == |adj| && s < |adj| && dist[s] == 0
  {
  }

  /** A shortest route meets `v` only at the step given by the label of `v`. */
  lemma MeetsAtLabel(adj: Adjacency, s: nat, dist: seq<int>, t: nat, v: nat, p: seq<nat>, j: nat)
    requires Levelled(adj, s, dist) && t < |adj| && dist[t] >= 0
    requires p in Routes(adj, s, t, dist[t]) && j <= |p| && NodeAt(adj, s, p, j) == v
    ensures |p| == dist[t] && v < |adj| && dist[v] == j
  {
    LevelledSize(adj, s, dist);
    hide Levelled, Count, Routes, RoutesVia, IsRoute;
    RoutesExact(adj, s, t, dist[t], p);
    RoutesViaExact(adj, s, t, dist[t], v, j, p);
    ViaSize(adj, s, t, dist[t], v, j);
    NonEmpty(RoutesVia(adj, s, t, dist[t], v, j), p);
    CountNonNegative(adj, s, v, j);
    CountNonNegative(adj, v, t, dist[t] - j);
    ProductPositive(Count(adj, s, v, j), Count(adj, v, t, dist[t] - j));
    Triangle(adj, s, dist, s, v, j);
    Triangle(adj, s, dist, v, t, dist[t] - j);
  }

  lemma NonEmpty<T>(xs: set<T>, x: T)
    requires x in xs
    ensures |xs| as real >= 1.0
  {
    assert |xs| > 0;
  }

  lemma ProductPositive(a: real, b: real)
    requires a >= 0.0 && b >= 0.0 && a * b > 0.0
    ensures a > 0.0 && b > 0.0
  {
  }

  lemma ThroughIsVia(adj: Adjacency, s: nat, dist: seq<int>, t: nat, v: nat)
    requires Levelled(adj, s, dist) && t < |adj| && dist[t] >= 0 && v < |adj| && 0 <= dist[v] <= dist[t]
    ensures Through(adj, s, t, dist[t], v) == RoutesVia(adj, s, t, dist[t], v, dist[v])
  {
    forall p
      ensures p in Through(adj, s, t, dist[t], v) <==> p in RoutesVia(adj, s, t, dist[t], v, dist[v])
    {
      RoutesViaExact(adj, s, t, dist[t], v, dist[v], p);
      if p in Through(adj, s, t, dist[t], v) {
        var j: nat :| j <= |p| && NodeAt(adj, s, p, j) == v;
        MeetsAtLabel(adj, s, dist, t, v, p, j);
      }
    }
  }

  lemma ThroughEmpty(adj: Adjacency, s: nat, dist: seq<int>, t: nat, v: nat)
    requires Levelled(adj, s, dist) && t < |adj| && dist[t] >= 0 && !(v < |adj| && 0 <= dist[v] <= dist[t])
    ensures Through(adj, s, t, dist[t], v) == {}
  {
    forall p | p in Routes(adj, s, t, dist[t])
      ensures !Visits(adj, s, p, v)
    {
      forall j: nat | j <= |p|
        ensures NodeAt(adj, s, p, j) != v
      {
        if NodeAt(adj, s, p, j) == v {
          MeetsAtLabel(adj, s, dist, t, v, p, j);
        }
      }
    }
  }

  /** The number of shortest routes through `v`, as a product of counts. */
  lemma ThroughSize(adj: Adjacency, s: nat, dist: seq<int>, t: nat, v: nat)
    requires Levelled(adj, s, dist) && t < |adj| && dist[t] >= 0
    ensures |Through(adj, s, t, dist[t], v)| as real ==
            if v < |adj| && 0 <= dist[v] <= dist[t] then Count(adj, s, v, dist[v]) * Count(adj, v, t, dist[t] - dist[v]) else 0.0
  {
    hide Through, RoutesVia, Count;
    if v < |adj| && 0 <= dist[v] <= dist[t] {
      ThroughIsVia(adj, s, dist, t, v);
      ViaSize(adj, s, t, dist[t], v, dist[v]);
    } else {
      ThroughEmpty(adj, s, dist, t, v);
    }
  }

  lemma DependencyValue(adj: Adjacency, s: nat, dist: seq<int>, v: nat, t: nat)
    requires Levelled(adj, s, dist) && t < |adj|
    ensures t == v || dist[t] < 0 ==> Dependency(adj, s, v, t) == 0.0
    ensures dist[t] >= 0 ==> Count(adj, s, t, dist[t]) > 0.0
    ensures t != v && dist[t] >= 0 ==>
              Dependency(adj, s, v, t) == |Through(adj, s, t, dist[t], v)| as real / Count(adj, s, t, dist[t])
  {
    hide Through, Count, Routes;
    LabelIsShortest(adj, s, dist, t);
    if dist[t] >= 0 {
      CountIsSize(adj, s, t, dist[t]);
    }
  }

  // ---- the closed form of the accumulated dependency ----

  /** `sigma` counts the shortest routes. */
  ghost predicate Counts(adj: Adjacency, s: nat, dist: seq<int>, sigma: seq<real>) {
    && Levelled(adj, s, dist) && |sigma| == |dist| == |adj|
    && forall v | 0 <= v < |adj| && dist[v] >= 0 :: sigma[v] == Count(adj, s, v, dist[v]) && sigma[v] > 0.0
  }

  predicate TightEdge(dist: seq<int>, v: nat, w: nat) {
    v < |dist| && w < |dist| && dist[v] >= 0 && dist[w] == dist[v] + 1
  }

  ghost function Share(adj: Adjacency, dist: seq<int>, sigma: seq<real>, v: nat, t: nat): real {
    if v < |dist| && t < |dist| && |sigma| == |dist| && 0 <= dist[v] <= dist[t] && sigma[t] > 0.0 then
      sigma[v] * Count(adj, v, t, dist[t] - dist[v]) / sigma[t]
    else 0.0
  }

  ghost function Shares(adj: Adjacency, dist: seq<int>, sigma: seq<real>, v: nat): (r: seq<real>)
    ensures |r| == |adj| && forall t | 0 <= t < |adj| :: r[t] == Share(adj, dist, sigma, v, t)
  {
    seq(|adj|, t requires 0 <= t < |adj| => Share(adj, dist, sigma, v, t))
  }

  /** The dependency of `v` on all targets, itself included. */
  ghost function Full(adj: Adjacency, dist: seq<int>, sigma: seq<real>, v: nat): real {
    Sum(Shares(adj, dist, sigma, v))
  }

  lemma ShareIsDependency(adj: Adjacency, s: nat, dist: seq<int>, sigma: seq<real>, v: nat, t: nat)
    requires Counts(adj, s, dist, sigma) && v < |adj| && t < |adj| && dist[v] >= 0 && t != v
    ensures Share(adj, dist, sigma, v, t) == Dependency(adj, s, v, t)
  {
    hide Dependency, Through, Count, Levelled;
    DependencyValue(adj, s, dist, v, t);
    if dist[t] >= 0 {
      ThroughSize(adj, s, dist, t, v);
    }
  }

  lemma OwnShare(adj: Adjacency, s: nat, dist: seq<int>, sigma: seq<real>, v: nat)
    requires Counts(adj, s, dist, sigma) && v < |adj| && dist[v] >= 0
    ensures Share(adj, dist, sigma, v, v) == 1.0
  {
    assert Count(adj, v, v, 0) == 1.0;
    assert sigma[v] * 1.0 == sigma[v] && sigma[v] / sigma[v] == 1.0;
  }

  lemma UnreachedHasNone(adj: Adjacency, s: nat, dist: seq<int>, v: nat)
    requires Levelled(adj, s, dist) && v < |dist| == |adj| && dist[v] < 0
    ensures Sum(Dependencies(adj, s, v)) == 0.0
  {
    hide Dependency, Through, Count, Levelled;
    forall t | 0 <= t < |adj|
      ensures Dependencies(adj, s, v)[t] == 0.0
    {
      DependencyValue(adj, s, dist, v, t);
      if dist[t] >= 0 {
        ThroughSize(adj, s, dist, t, v);
      }
    }
    SumZero(Dependencies(adj, s, v));
  }

  lemma FullIsDependencies(adj: Adjacency, s: nat, dist: seq<int>, sigma: seq<real>, v: nat)
    requires Counts(adj, s, dist, sigma) && v < |adj| && dist[v] >= 0
    ensures Full(adj, dist, sigma, v) == 1.0 + Sum(Dependencies(adj, s, v))
  {
    hide Dependency, Share, Count, Levelled;
    forall t | 0 <= t < |adj|
      ensures Dependencies(adj, s, v)[t] == Shares(adj, dist, sigma, v)[v := 0.0][t]
    {
      DependencyValue(adj, s, dist, v, t);
      if t != v {
        ShareIsDependency(adj, s, dist, sigma, v, t);
      }
    }
    OwnShare(adj, s, dist, sigma, v);
    assert Dependencies(adj, s, v) == Shares(adj, dist, sigma, v)[v := 0.0];
    SumUpdate(Shares(adj, dist, sigma, v), v, 0.0);
  }

  // ---- the dependency recurrence ----

  /** What the edge `v -> w` contributes to the dependency of `v`. */
  ghost function Part(adj: Adjacency, dist: seq<int>, sigma: seq<real>, v: nat, w: nat): real {
    if TightEdge(dist, v, w) && |sigma| == |dist| && sigma[w] > 0.0 then
      sigma[v] / sigma[w] * Full(adj, dist, sigma, w)
    else 0.0
  }

  ghost function Parts(adj: Adjacency, dist: seq<int>, sigma: seq<real>, v: nat): (r: seq<real>)
    requires v < |adj|
    ensures |r| == |adj[v]| && forall j | 0 <= j < |r| :: r[j] == Part(adj, dist, sigma, v, adj[v][j])
  {
    seq(|adj[v]|, j requires 0 <= j < |adj[v]| => Part(adj, dist, sigma, v, adj[v][j]))
  }

  /** The share of target `t` carried by the edge `v -> w`. */
  ghost function PartShare(adj: Adjacency, dist: seq<int>, sigma: seq<real>, v: nat, w: nat, t: nat): real {
    if TightEdge(dist, v, w) && |sigma| == |dist| && sigma[w] > 0.0 then
      sigma[v] / sigma[w] * Share(adj, dist, sigma, w, t)
    else 0.0
  }

  ghost function PartRow(adj: Adjacency, dist: seq<int>, sigma: seq<real>, v: nat, w: nat): (r: seq<real>)
    ensures |r| == |adj| && forall t | 0 <= t < |adj| :: r[t] == PartShare(adj, dist, sigma, v, w, t)
  {
    seq(|adj|, t requires 0 <= t < |adj| => PartShare(adj, dist, sigma, v, w, t))
  }

  ghost function PartMatrix(adj: Adjacency, dist: seq<int>, sigma: seq<real>, v: nat): (m: seq<seq<real>>)
    requires v < |adj|
    ensures |m| == |adj[v]| && forall j | 0 <= j < |m| :: m[j] == PartRow(adj, dist, sigma, v, adj[v][j]) && |m[j]| == |adj|
  {
    seq(|adj[v]|, j requires 0 <= j < |adj[v]| => PartRow(adj, dist, sigma, v, adj[v][j]))
  }

  lemma PartRowSum(adj: Adjacency, dist: seq<int>, sigma: seq<real>, v: nat, w: nat)
    ensures Sum(PartRow(adj, dist, sigma, v, w)) == Part(adj, dist, sigma, v, w)
  {
    hide Share;
    if TightEdge(dist, v, w) && |sigma| == |dist| && sigma[w] > 0.0 {
      SumScale(sigma[v] / sigma[w], Shares(adj, dist, sigma, w), PartRow(adj, dist, sigma, v, w));
    } else {
      SumZero(PartRow(adj, dist, sigma, v, w));
    }
  }

  /** Beyond the level of `v`, the share of `t` is passed on through the edges of `v`, tight ones only. */
  lemma EdgeShare(adj: Adjacency, s: nat, dist: seq<int>, sigma: seq<real>, v: nat, t: nat, j: nat)
    requires Counts(adj, s, dist, sigma) && v < |adj| && t < |adj| && j < |adj[v]| && 0 <= dist[v] < dist[t]
    ensures PartShare(adj, dist, sigma, v, adj[v][j], t) == sigma[v] / sigma[t] * Count(adj, adj[v][j], t, dist[t] - dist[v] - 1)
  {
    hide Count;
    var w := adj[v][j];
    var k := dist[t] - dist[v] - 1;
    if TightEdge(dist, v, w) {
      assert dist[t] - dist[w] == k;
      hide Levelled;
      Rearrange(sigma[v], sigma[w], Count(adj, w, t, k), sigma[t]);
    } else {
      SlackEdge(adj, s, dist, v, t, j);
    }
  }

  /** No shortest route continues over an edge that is not tight. */
  lemma SlackEdge(adj: Adjacency, s: nat, dist: seq<int>, v: nat, t: nat, j: nat)
    requires Levelled(adj, s, dist) && v < |adj| && t < |adj| && j < |adj[v]| && 0 <= dist[v] < dist[t]
    requires !TightEdge(dist, v, adj[v][j])
    ensures Count(adj, adj[v][j], t, dist[t] - dist[v] - 1) == 0.0
  {
    hide Count;
    CountNonNegative(adj, adj[v][j], t, dist[t] - dist[v] - 1);
    if Count(adj, adj[v][j], t, dist[t] - dist[v] - 1) > 0.0 {
      Triangle(adj, s, dist, adj[v][j], t, dist[t] - dist[v] - 1);
    }
  }

  lemma Rearrange(a: real, b: real, c: real, d: real)
    requires b > 0.0 && d > 0.0
    ensures a / b * (b * c / d) == a / d * c
  {
    var x, y := a / b, c / d;
    assert b * c / d == b * y;
    assert x * (b * y) == (x * b) * y;
    assert x * b == a;
    assert a * y == a / d * c;
  }

  lemma PullOut(a: real, b: real, c: real)
    requires b > 0.0
    ensures a / b * c == a * c / b
  {
  }

  lemma ColumnFar(adj: Adjacency, s: nat, dist: seq<int>, sigma: seq<real>, v: nat, t: nat)
    requires Counts(adj, s, dist, sigma) && v < |adj| && t < |adj| && 0 <= dist[v] < dist[t]
    ensures Sum(Column(PartMatrix(adj, dist, sigma, v), t)) == Share(adj, dist, sigma, v, t)
  {
    hide Sum, Count, PartShare, Levelled;
    var k := dist[t] - dist[v];
    CountUnfolds(adj, v, t, k);
    forall j | 0 <= j < |adj[v]|
      ensures Column(PartMatrix(adj, dist, sigma, v), t)[j] == sigma[v] / sigma[t] * CountNext(adj, v, t, k)[j]
    {
      EdgeShare(adj, s, dist, sigma, v, t, j);
    }
    SumScale(sigma[v] / sigma[t], CountNext(adj, v, t, k), Column(PartMatrix(adj, dist, sigma, v), t));
    PullOut(sigma[v], sigma[t], Count(adj, v, t, k));
  }

  lemma ColumnNear(adj: Adjacency, s: nat, dist: seq<int>, sigma: seq<real>, v: nat, t: nat)
    requires Counts(adj, s, dist, sigma) && v < |adj| && t < |adj| && dist[t] <= dist[v] && dist[v] >= 0
    ensures Sum(Column(PartMatrix(adj, dist, sigma, v), t)) == 0.0
    ensures Share(adj, dist, sigma, v, t) == if t == v then 1.0 else 0.0
  {
    forall j | 0 <= j < |adj[v]|
      ensures Column(PartMatrix(adj, dist, sigma, v), t)[j] == 0.0
    {
      assert TightEdge(dist, v, adj[v][j]) ==> dist[t] < dist[adj[v][j]];
    }
    SumZero(Column(PartMatrix(adj, dist, sigma, v), t));
    if t == v {
      OwnShare(adj, s, dist, sigma, v);
    } else if dist[t] == dist[v] {
      assert Count(adj, v, t, 0) == 0.0;
    }
  }

  /** Brandes' recurrence: one for the node itself plus what each edge passes on. */
  lemma Recurrence(adj: Adjacency, s: nat, dist: seq<int>, sigma: seq<real>, v: nat)
    requires Counts(adj, s, dist, sigma) && v < |adj| && dist[v] >= 0
    ensures Full(adj, dist, sigma, v) == 1.0 + Sum(Parts(adj, dist, sigma, v))
  {
    hide Share, Part, PartShare, Count, Levelled;
    var m := PartMatrix(adj, dist, sigma, v);
    IsRectangular(m, |adj|);
    SumSwap(m, |adj|);
    forall j | 0 <= j < |m|
      ensures RowSums(m)[j] == Parts(adj, dist, sigma, v)[j]
    {
      PartRowSum(adj, dist, sigma, v, adj[v][j]);
    }
    assert RowSums(m) == Parts(adj, dist, sigma, v);
    forall t | 0 <= t < |adj|
      ensures ColumnSums(m, |adj|)[t] == Shares(adj, dist, sigma, v)[v := 0.0][t]
    {
      if dist[t] <= dist[v] {
        ColumnNear(adj, s, dist, sigma, v, t);
      } else {
        ColumnFar(adj, s, dist, sigma, v, t);
      }
    }
    assert ColumnSums(m, |adj|) == Shares(adj, dist, sigma, v)[v := 0.0];
    SumUpdate(Shares(adj, dist, sigma, v), v, 0.0);
    OwnShare(adj, s, dist, sigma, v);
  }
}
