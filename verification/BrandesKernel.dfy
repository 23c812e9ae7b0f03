/** The two loops of one Brandes source: a FIFO search that counts shortest routes and records
    predecessors, then the accumulation in reverse pop order. */
module BrandesKernel {
  import opened Basics
  import opened Sums
  import opened RouteCounts
  import opened Brandes

  // ---- forward pass: invariants ----

  /** `order` lists the discovered nodes as they entered the queue; the first `m` are expanded, and of
      node `order[m]` the first `k` edges are scanned. */
  ghost predicate Discovered(adj: Adjacency, s: nat, dist: seq<int>, order: seq<nat>) {
    && Closed(adj) && |dist| == |adj| && s < |adj| && dist[s] == 0 && |order| > 0 && order[0] == s
    && Distinct(order)
    && (forall i | 0 <= i < |order| :: order[i] < |adj|)
    && (forall v | 0 <= v < |adj| :: dist[v] >= -1 && (dist[v] >= 0 <==> v in order))
    && (forall i, j | 0 <= i < j < |order| :: dist[order[i]] <= dist[order[j]])
    && (forall v | 0 <= v < |adj| && dist[v] >= 0 :: Count(adj, s, v, dist[v]) > 0.0)
  }

  /** Nobody in the queue is more than one level past `order[m]`. */
  ghost predicate Narrow(dist: seq<int>, order: seq<nat>, m: nat) {
    && (forall i | 0 <= i < |order| :: order[i] < |dist|)
    && (m < |order| ==> forall i | 0 <= i < |order| :: dist[order[i]] <= dist[order[m]] + 1)
  }

  ghost predicate EdgesSeen(adj: Adjacency, dist: seq<int>, u: nat, k: nat) {
    && u < |adj| && u < |dist| && k <= |adj[u]|
    && forall j | 0 <= j < k :: adj[u][j] < |dist| && 0 <= dist[adj[u][j]] <= dist[u] + 1
  }

  /** How many of the scanned edges lead from `u` to `w`. */
  ghost function Scanned(adj: Adjacency, order: seq<nat>, m: nat, k: nat, u: nat, w: nat): nat {
    if u < |adj| && m <= |order| && u in order[..m] then multiset(adj[u])[w]
    else if m < |order| && u == order[m] && u < |adj| && k <= |adj[u]| then multiset(adj[u][..k])[w]
    else 0
  }

  /** `list` holds each tight predecessor of `w` once per scanned edge. */
  ghost predicate PredList(adj: Adjacency, dist: seq<int>, order: seq<nat>, m: nat, k: nat, w: nat, list: seq<nat>) {
    && (forall i | 0 <= i < |list| :: list[i] < |adj|)
    && forall u: nat | u < |adj| ::
        multiset(list)[u] == if TightEdge(dist, u, w) then Scanned(adj, order, m, k, u, w) else 0
  }

  /** The values of `sigma` at the entries of `list`. */
  function Picked(sigma: seq<real>, list: seq<nat>): (r: seq<real>)
    requires forall i | 0 <= i < |list| :: list[i] < |sigma|
    ensures |r| == |list| && forall i | 0 <= i < |r| :: r[i] == sigma[list[i]]
  {
    seq(|list|, i requires 0 <= i < |list| => sigma[list[i]])
  }

  ghost predicate SigmaFrom(s: nat, sigma: seq<real>, w: nat, list: seq<nat>) {
    && w < |sigma| && (forall i | 0 <= i < |list| :: list[i] < |sigma|)
    && sigma[w] == (if w == s then 1.0 else 0.0) + Sum(Picked(sigma, list))
  }

  ghost predicate Forward(adj: Adjacency, s: nat, dist: seq<int>, sigma: seq<real>, pred: seq<seq<nat>>,
                          order: seq<nat>, m: nat, k: nat)
  {
    && Discovered(adj, s, dist, order) && Narrow(dist, order, m) && m <= |order| && |sigma| == |pred| == |adj|
    && (forall i | 0 <= i < m :: EdgesSeen(adj, dist, order[i], |adj[order[i]]|))
    && (m < |order| ==> EdgesSeen(adj, dist, order[m], k))
    && (forall w | 0 <= w < |adj| :: PredList(adj, dist, order, m, k, w, pred[w]) && SigmaFrom(s, sigma, w, pred[w]))
  }

  // ---- forward pass: steps ----

  lemma OneEdgeFurther(adj: Adjacency, s: nat, u: nat, j: nat, d: nat)
    requires Closed(adj) && s < |adj| && u < |adj| && j < |adj[u]| && Count(adj, s, u, d) > 0.0
    ensures Count(adj, s, adj[u][j], d + 1) > 0.0
  {
    hide Count;
    var w := adj[u][j];
    CountByLast(adj, s, w, d);
    forall x | 0 <= x < |adj|
      ensures LastSteps(adj, s, w, d)[x] >= 0.0
    {
      CountNonNegative(adj, s, x, d);
    }
    assert multiset(adj[u])[w] >= 1;
    assert LastSteps(adj, s, w, d)[u] > 0.0;
    SumUpdate(LastSteps(adj, s, w, d), u, 0.0);
    SumNonNegative(LastSteps(adj, s, w, d)[u := 0.0]);
  }

  /** A neighbour met for the first time joins the queue one level down. */
  lemma Discover(adj: Adjacency, s: nat, dist: seq<int>, sigma: seq<real>, pred: seq<seq<nat>>, order: seq<nat>, m: nat, k: nat)
    requires Forward(adj, s, dist, sigma, pred, order, m, k) && m < |order| && k < |adj[order[m]]|
    requires dist[adj[order[m]][k]] == -1
    ensures var u, w := order[m], adj[order[m]][k];
            Forward(adj, s, dist[w := dist[u] + 1], sigma, pred, order + [w], m, k)
  {
    hide Count, PredList, SigmaFrom, EdgesSeen;
    var u, w := order[m], adj[order[m]][k];
    var dist', order' := dist[w := dist[u] + 1], order + [w];
    assert w !in order;
    OneEdgeFurther(adj, s, u, k, dist[u]);
    DiscoverOrder(adj, s, dist, order, m, w);
    forall i | 0 <= i < m
      ensures EdgesSeen(adj, dist', order'[i], |adj[order'[i]]|)
    {
      DiscoverKeepsSeen(adj, dist, order[i], |adj[order[i]]|, w, dist[u] + 1);
    }
    DiscoverKeepsSeen(adj, dist, u, k, w, dist[u] + 1);
    forall x | 0 <= x < |adj|
      ensures PredList(adj, dist', order', m, k, x, pred[x])
    {
      DiscoverKeepsPreds(adj, s, dist, sigma, pred, order, m, k, x);
    }
  }

  lemma DiscoverOrder(adj: Adjacency, s: nat, dist: seq<int>, order: seq<nat>, m: nat, w: nat)
    requires Discovered(adj, s, dist, order) && Narrow(dist, order, m) && m < |order|
    requires w < |adj| && dist[w] == -1 && Count(adj, s, w, dist[order[m]] + 1) > 0.0
    ensures Discovered(adj, s, dist[w := dist[order[m]] + 1], order + [w])
    ensures Narrow(dist[w := dist[order[m]] + 1], order + [w], m)
  {
    hide Count;
  }

  lemma DiscoverKeepsSeen(adj: Adjacency, dist: seq<int>, u: nat, k: nat, w: nat, d: int)
    requires EdgesSeen(adj, dist, u, k) && w < |dist| && dist[w] == -1 && w != u
    ensures EdgesSeen(adj, dist[w := d], u, k)
    ensures w !in adj[u][..k]
  {
  }

  lemma DiscoverKeepsPreds(adj: Adjacency, s: nat, dist: seq<int>, sigma: seq<real>, pred: seq<seq<nat>>,
                           order: seq<nat>, m: nat, k: nat, x: nat)
    requires Forward(adj, s, dist, sigma, pred, order, m, k) && m < |order| && k < |adj[order[m]]| && x < |adj|
    requires dist[adj[order[m]][k]] == -1
    ensures var u, w := order[m], adj[order[m]][k];
            PredList(adj, dist[w := dist[u] + 1], order + [w], m, k, x, pred[x])
  {
    hide Count, SigmaFrom;
    var u, w := order[m], adj[order[m]][k];
    var dist', order' := dist[w := dist[u] + 1], order + [w];
    assert PredList(adj, dist, order, m, k, x, pred[x]);
    assert order'[..m] == order[..m];
    forall y: nat | y < |adj|
      ensures multiset(pred[x])[y] == if TightEdge(dist', y, x) then Scanned(adj, order', m, k, y, x) else 0
    {
      if x == w {
        NoneScanned(adj, s, dist, sigma, pred, order, m, k, y, w);
      } else if y == w {
        assert w !in order[..m];
      }
    }
  }

  /** No scanned edge leads to an undiscovered node. */
  lemma NoneScanned(adj: Adjacency, s: nat, dist: seq<int>, sigma: seq<real>, pred: seq<seq<nat>>,
                    order: seq<nat>, m: nat, k: nat, y: nat, w: nat)
    requires Forward(adj, s, dist, sigma, pred, order, m, k) && m < |order| && y < |adj| && w < |adj| && dist[w] == -1
    ensures Scanned(adj, order + [w], m, k, y, w) == 0
  {
    hide Count, SigmaFrom, PredList, Discovered;
    assert (order + [w])[..m] == order[..m] && (order + [w])[m] == order[m];
    if y in order[..m] {
      var i :| 0 <= i < m && order[i] == y;
      assert EdgesSeen(adj, dist, order[i], |adj[order[i]]|);
      assert w !in adj[y];
    } else if y == order[m] {
      assert EdgesSeen(adj, dist, order[m], k);
      assert w !in adj[y][..k];
    }
  }

  /** Scanning a tight edge adds a predecessor and its count; any other edge only moves on. */
  lemma ScanTight(adj: Adjacency, s: nat, dist: seq<int>, sigma: seq<real>, pred: seq<seq<nat>>, order: seq<nat>, m: nat, k: nat)
    requires Forward(adj, s, dist, sigma, pred, order, m, k) && m < |order| && k < |adj[order[m]]|
    requires dist[adj[order[m]][k]] == dist[order[m]] + 1
    ensures var u, w := order[m], adj[order[m]][k];
            Forward(adj, s, dist, sigma[w := sigma[w] + sigma[u]], pred[w := pred[w] + [u]], order, m, k + 1)
  {
    hide Count, PredList, SigmaFrom;
    var u, w := order[m], adj[order[m]][k];
    var sigma', pred' := sigma[w := sigma[w] + sigma[u]], pred[w := pred[w] + [u]];
    ScanSeen(adj, s, dist, order, m, k);
    ScanKeepsPlace(adj, s, dist, order, m, w);
    forall x | 0 <= x < |adj|
      ensures PredList(adj, dist, order, m, k + 1, x, pred'[x]) && SigmaFrom(s, sigma', x, pred'[x])
    {
      ScanKeepsPreds(adj, dist, order, m, k, x, pred[x]);
      ScanKeepsSigma(adj, s, dist, sigma, order, m, k, x, pred[x]);
    }
  }

  lemma ScanSlack(adj: Adjacency, s: nat, dist: seq<int>, sigma: seq<real>, pred: seq<seq<nat>>, order: seq<nat>, m: nat, k: nat)
    requires Forward(adj, s, dist, sigma, pred, order, m, k) && m < |order| && k < |adj[order[m]]|
    requires 0 <= dist[adj[order[m]][k]] != dist[order[m]] + 1
    ensures Forward(adj, s, dist, sigma, pred, order, m, k + 1)
  {
    hide Count, PredList, SigmaFrom;
    var u, w := order[m], adj[order[m]][k];
    ScanSeen(adj, s, dist, order, m, k);
    ScanKeepsPlace(adj, s, dist, order, m, w);
    forall x | 0 <= x < |adj|
      ensures PredList(adj, dist, order, m, k + 1, x, pred[x])
    {
      ScanKeepsPreds(adj, dist, order, m, k, x, pred[x]);
    }
  }

  lemma ScanSeen(adj: Adjacency, s: nat, dist: seq<int>, order: seq<nat>, m: nat, k: nat)
    requires Discovered(adj, s, dist, order) && Narrow(dist, order, m) && m < |order|
    requires EdgesSeen(adj, dist, order[m], k) && k < |adj[order[m]]| && dist[adj[order[m]][k]] >= 0
    ensures EdgesSeen(adj, dist, order[m], k + 1)
  {
  }

  /** The current node is new to the expanded prefix, and so is anything a level below it. */
  lemma ScanKeepsPlace(adj: Adjacency, s: nat, dist: seq<int>, order: seq<nat>, m: nat, w: nat)
    requires Discovered(adj, s, dist, order) && m < |order| && w < |adj|
    ensures order[m] !in order[..m]
    ensures dist[w] == dist[order[m]] + 1 ==> w !in order[..m] && w != order[m]
    ensures dist[order[m]] >= 0
  {
  }

  lemma ScanKeepsPreds(adj: Adjacency, dist: seq<int>, order: seq<nat>, m: nat, k: nat, x: nat, list: seq<nat>)
    requires m < |order| && order[m] < |adj| && k < |adj[order[m]]| && order[m] !in order[..m] && |dist| == |adj|
    requires adj[order[m]][k] < |adj| && dist[order[m]] >= 0 && x < |adj|
    requires PredList(adj, dist, order, m, k, x, list)
    ensures var hit := x == adj[order[m]][k] && TightEdge(dist, order[m], x);
            PredList(adj, dist, order, m, k + 1, x, if hit then list + [order[m]] else list)
  {
    var u := order[m];
    assert adj[u][..k + 1] == adj[u][..k] + [adj[u][k]];
  }

  lemma ScanKeepsSigma(adj: Adjacency, s: nat, dist: seq<int>, sigma: seq<real>, order: seq<nat>, m: nat, k: nat, x: nat, list: seq<nat>)
    requires m < |order| && order[m] < |adj| && k < |adj[order[m]]| && |dist| == |adj| == |sigma| && adj[order[m]][k] < |adj|
    requires adj[order[m]][k] !in order[..m] && adj[order[m]][k] != order[m]
    requires PredList(adj, dist, order, m, k, x, list) && SigmaFrom(s, sigma, x, list)
    ensures var u, w := order[m], adj[order[m]][k];
            SigmaFrom(s, sigma[w := sigma[w] + sigma[u]], x, if x == w then list + [u] else list)
  {
    ScannedOnly(adj, dist, order, m, k, x, list, adj[order[m]][k]);
    hide PredList, Scanned;
    AddSigma(s, sigma, x, list, order[m], adj[order[m]][k]);
  }

  lemma AddSigma(s: nat, sigma: seq<real>, x: nat, list: seq<nat>, u: nat, w: nat)
    requires SigmaFrom(s, sigma, x, list) && w !in list && u != w && u < |sigma| && w < |sigma|
    ensures SigmaFrom(s, sigma[w := sigma[w] + sigma[u]], x, if x == w then list + [u] else list)
  {
    hide Sum;
    var sigma' := sigma[w := sigma[w] + sigma[u]];
    assert Picked(sigma', list) == Picked(sigma, list);
    if x == w {
      assert Picked(sigma', list + [u]) == Picked(sigma, list) + [sigma[u]];
      SumPush(Picked(sigma, list), sigma[u]);
    }
  }

  lemma ScannedOnly(adj: Adjacency, dist: seq<int>, order: seq<nat>, m: nat, k: nat, x: nat, list: seq<nat>, w: nat)
    requires PredList(adj, dist, order, m, k, x, list) && m < |order| && w !in order[..m] && w != order[m]
    ensures w !in list
  {
    assert w < |adj| ==> multiset(list)[w] == 0;
    assert w in list <==> w in multiset(list);
  }

  lemma Advance(adj: Adjacency, s: nat, dist: seq<int>, sigma: seq<real>, pred: seq<seq<nat>>, order: seq<nat>, m: nat)
    requires m < |order| && order[m] < |adj| && Forward(adj, s, dist, sigma, pred, order, m, |adj[order[m]]|)
    ensures Forward(adj, s, dist, sigma, pred, order, m + 1, 0)
  {
    hide Count, PredList, SigmaFrom;
    assert order[..m + 1] == order[..m] + [order[m]];
    forall x | 0 <= x < |adj|
      ensures PredList(adj, dist, order, m + 1, 0, x, pred[x])
    {
      AdvanceKeepsPreds(adj, dist, order, m, x, pred[x]);
    }
    if m + 1 < |order| {
      SeenNothing(adj, dist, order[m + 1]);
    }
  }

  lemma SeenNothing(adj: Adjacency, dist: seq<int>, u: nat)
    requires u < |adj| == |dist|
    ensures EdgesSeen(adj, dist, u, 0)
  {
  }

  lemma AdvanceKeepsPreds(adj: Adjacency, dist: seq<int>, order: seq<nat>, m: nat, x: nat, list: seq<nat>)
    requires m < |order| && order[m] < |adj| && PredList(adj, dist, order, m, |adj[order[m]]|, x, list)
    ensures PredList(adj, dist, order, m + 1, 0, x, list)
  {
    var u := order[m];
    assert adj[u][..|adj[u]|] == adj[u];
    assert order[..m + 1] == order[..m] + [u];
    forall y: nat | y < |adj|
      ensures multiset(list)[y] == if TightEdge(dist, y, x) then Scanned(adj, order, m + 1, 0, y, x) else 0
    {
      if m + 1 < |order| && y == order[m + 1] && y !in order[..m + 1] {
        assert multiset(adj[y][..0])[x] == 0;
      }
    }
  }

  // ---- forward pass: outcome ----

  lemma ForwardLevelled(adj: Adjacency, s: nat, dist: seq<int>, sigma: seq<real>, pred: seq<seq<nat>>, order: seq<nat>)
    requires Forward(adj, s, dist, sigma, pred, order, |order|, 0)
    ensures Levelled(adj, s, dist)
  {
    hide Count, PredList, SigmaFrom;
    forall u, j | 0 <= u < |adj| && dist[u] >= 0 && 0 <= j < |adj[u]|
      ensures 0 <= dist[adj[u][j]] <= dist[u] + 1
    {
      var i :| 0 <= i < |order| && order[i] == u;
      assert EdgesSeen(adj, dist, order[i], |adj[order[i]]|);
    }
  }

  /** The final predecessor lists: every tight predecessor, once per parallel edge. */
  ghost predicate AllPreds(adj: Adjacency, dist: seq<int>, w: nat, list: seq<nat>) {
    && (forall i | 0 <= i < |list| :: list[i] < |adj|)
    && forall u: nat | u < |adj| :: multiset(list)[u] == if TightEdge(dist, u, w) then multiset(adj[u])[w] else 0
  }

  lemma ForwardPreds(adj: Adjacency, s: nat, dist: seq<int>, sigma: seq<real>, pred: seq<seq<nat>>, order: seq<nat>, w: nat)
    requires Forward(adj, s, dist, sigma, pred, order, |order|, 0) && w < |adj|
    ensures AllPreds(adj, dist, w, pred[w])
  {
    hide Count, SigmaFrom, EdgesSeen;
    assert PredList(adj, dist, order, |order|, 0, w, pred[w]);
    assert order[..|order|] == order;
  }

  /** `sigma[u]` times the number of times `u` is listed. */
  function Weighted(sigma: seq<real>, list: seq<nat>): (r: seq<real>)
    ensures |r| == |sigma| && forall u | 0 <= u < |r| :: r[u] == sigma[u] * multiset(list)[u] as real
  {
    seq(|sigma|, u requires 0 <= u < |sigma| => sigma[u] * multiset(list)[u] as real)
  }

  /** A sum over a list, regrouped by value. */
  lemma {:induction false} SumByValue(sigma: seq<real>, list: seq<nat>)
    requires forall i | 0 <= i < |list| :: list[i] < |sigma|
    ensures Sum(Picked(sigma, list)) == Sum(Weighted(sigma, list))
  {
    if list == [] {
      SumZero(Weighted(sigma, list));
    } else {
      hide *;
      var n := |list| - 1;
      var front: seq<nat>, x: nat := list[..n], list[n];
      assert list == front + [x];
      SumByValue(sigma, front);
      PickedPush(sigma, front, x);
      WeightedPushSum(sigma, front, x);
    }
  }

  lemma PickedPush(sigma: seq<real>, front: seq<nat>, x: nat)
    requires x < |sigma| && forall i | 0 <= i < |front| :: front[i] < |sigma|
    ensures forall i | 0 <= i < |front + [x]| :: (front + [x])[i] < |sigma|
    ensures Sum(Picked(sigma, front + [x])) == Sum(Picked(sigma, front)) + sigma[x]
  {
    assert Picked(sigma, front + [x]) == Picked(sigma, front) + [sigma[x]];
    SumPush(Picked(sigma, front), sigma[x]);
  }

  lemma WeightedPushSum(sigma: seq<real>, front: seq<nat>, x: nat)
    requires x < |sigma|
    ensures Sum(Weighted(sigma, front + [x])) == Sum(Weighted(sigma, front)) + sigma[x]
  {
    hide Sum;
    WeightedPush(sigma, front, x);
    SumUpdate(Weighted(sigma, front), x, Weighted(sigma, front)[x] + sigma[x]);
  }

  lemma WeightedPush(sigma: seq<real>, front: seq<nat>, x: nat)
    requires x < |sigma|
    ensures Weighted(sigma, front + [x]) == Weighted(sigma, front)[x := Weighted(sigma, front)[x] + sigma[x]]
  {
    forall u: nat | u < |sigma|
      ensures Weighted(sigma, front + [x])[u] == Weighted(sigma, front)[x := Weighted(sigma, front)[x] + sigma[x]][u]
    {
      OneMore(sigma[u], front, x, u);
    }
  }

  lemma OneMore(c: real, front: seq<nat>, x: nat, u: nat)
    ensures c * multiset(front + [x])[u] as real == c * multiset(front)[u] as real + (if u == x then c else 0.0)
  {
    assert multiset(front + [x]) == multiset(front) + multiset{x};
    var n: nat := multiset(front)[u];
    assert c * (n + 1) as real == c * n as real + c;
  }

  /** The forward pass counts: `sigma` is the number of shortest routes. */
  lemma {:induction false} SigmaCounts(adj: Adjacency, s: nat, dist: seq<int>, sigma: seq<real>, pred: seq<seq<nat>>, d: nat, w: nat)
    requires Levelled(adj, s, dist) && |sigma| == |pred| == |adj|
    requires forall x | 0 <= x < |adj| :: AllPreds(adj, dist, x, pred[x]) && SigmaFrom(s, sigma, x, pred[x])
    requires w < |adj| && dist[w] == d
    ensures sigma[w] == Count(adj, s, w, d)
    decreases d
  {
    hide Count, Levelled, Sum;
    if d == 0 {
      LevelZero(adj, s, dist, pred[w], w);
      assert Picked(sigma, pred[w]) == [];
      NoSum();
    } else {
      LevelStart(adj, s, dist, w);
      SumByValue(sigma, pred[w]);
      CountByLast(adj, s, w, d - 1);
      forall u | 0 <= u < |adj|
        ensures Weighted(sigma, pred[w])[u] == LastSteps(adj, s, w, d - 1)[u]
      {
        if TightEdge(dist, u, w) {
          SigmaCounts(adj, s, dist, sigma, pred, d - 1, u);
        } else {
          NotLast(adj, s, dist, u, w, d - 1);
        }
      }
      assert Weighted(sigma, pred[w]) == LastSteps(adj, s, w, d - 1);
    }
  }

  lemma NoSum()
    ensures Sum([]) == 0.0
  {
  }

  lemma LevelZero(adj: Adjacency, s: nat, dist: seq<int>, list: seq<nat>, w: nat)
    requires Levelled(adj, s, dist) && w < |adj| && dist[w] == 0 && AllPreds(adj, dist, w, list)
    ensures w == s && list == [] && Count(adj, s, w, 0) == 1.0
  {
    assert Count(adj, s, w, 0) > 0.0;
    if list != [] {
      HeadCounted(list);
    }
  }

  lemma HeadCounted(list: seq<nat>)
    requires list != []
    ensures multiset(list)[list[0]] > 0
  {
  }

  lemma LevelStart(adj: Adjacency, s: nat, dist: seq<int>, w: nat)
    requires Levelled(adj, s, dist) && w < |adj| && dist[w] > 0
    ensures w != s && Closed(adj) && s < |adj| == |dist|
  {
  }

  lemma NotLast(adj: Adjacency, s: nat, dist: seq<int>, u: nat, w: nat, d: nat)
    requires Levelled(adj, s, dist) && u < |adj| && w < |adj| && dist[w] == d + 1 && !TightEdge(dist, u, w)
    ensures Count(adj, s, u, d) * Multiplicity(adj, u, w) == 0.0
  {
    hide Count;
    CountNonNegative(adj, s, u, d);
    if Count(adj, s, u, d) > 0.0 {
      Triangle(adj, s, dist, s, u, d);
      if w in adj[u] {
        EdgeLevel(adj, s, dist, u, w);
      }
      assert w in adj[u] <==> w in multiset(adj[u]);
    }
  }

  lemma EdgeLevel(adj: Adjacency, s: nat, dist: seq<int>, u: nat, w: nat)
    requires Levelled(adj, s, dist) && u < |adj| && dist[u] >= 0 && w in adj[u]
    ensures w < |adj| && 0 <= dist[w] <= dist[u] + 1
  {
    var j :| 0 <= j < |adj[u]| && adj[u][j] == w;
  }

  lemma ForwardCounts(adj: Adjacency, s: nat, dist: seq<int>, sigma: seq<real>, pred: seq<seq<nat>>, order: seq<nat>)
    requires Forward(adj, s, dist, sigma, pred, order, |order|, 0)
    ensures Counts(adj, s, dist, sigma)
    ensures forall w | 0 <= w < |adj| :: AllPreds(adj, dist, w, pred[w])
  {
    hide Count, PredList, SigmaFrom, EdgesSeen;
    ForwardLevelled(adj, s, dist, sigma, pred, order);
    forall w | 0 <= w < |adj|
      ensures AllPreds(adj, dist, w, pred[w])
    {
      ForwardPreds(adj, s, dist, sigma, pred, order, w);
    }
    forall v | 0 <= v < |adj| && dist[v] >= 0
      ensures sigma[v] == Count(adj, s, v, dist[v]) && sigma[v] > 0.0
    {
      SigmaCounts(adj, s, dist, sigma, pred, dist[v], v);
    }
  }

  // ---- backward pass ----

  const NO_NODES: seq<nat> := []

  /** What the edge `v -> x` has passed back once the stack holds `order[..m]`. */
  ghost function Passed(adj: Adjacency, dist: seq<int>, sigma: seq<real>, order: seq<nat>, m: nat, v: nat, x: nat): real {
    if m <= |order| && x in order[m..] then Part(adj, dist, sigma, v, x) else 0.0
  }

  ghost function PassedParts(adj: Adjacency, dist: seq<int>, sigma: seq<real>, order: seq<nat>, m: nat, v: nat): (r: seq<real>)
    requires v < |adj|
    ensures |r| == |adj[v]| && forall j | 0 <= j < |r| :: r[j] == Passed(adj, dist, sigma, order, m, v, adj[v][j])
  {
    seq(|adj[v]|, j requires 0 <= j < |adj[v]| => Passed(adj, dist, sigma, order, m, v, adj[v][j]))
  }

  ghost predicate Finished(adj: Adjacency, s: nat, dist: seq<int>, sigma: seq<real>, pred: seq<seq<nat>>, order: seq<nat>) {
    && Counts(adj, s, dist, sigma) && Discovered(adj, s, dist, order) && |pred| == |adj|
    && forall w | 0 <= w < |adj| :: AllPreds(adj, dist, w, pred[w])
  }

  /** The first `i` predecessors of `w` (the node popped last, none if there is no such node) have been served. */
  ghost predicate Served(adj: Adjacency, dist: seq<int>, sigma: seq<real>, order: seq<nat>, m: nat,
                         delta: seq<real>, w: nat, list: seq<nat>)
  {
    && |delta| == |adj|
    && forall v | 0 <= v < |adj| ::
        delta[v] == Sum(PassedParts(adj, dist, sigma, order, m, v)) + multiset(list)[v] as real * Part(adj, dist, sigma, v, w)
  }

  ghost predicate Scored(adj: Adjacency, s: nat, dist: seq<int>, sigma: seq<real>, order: seq<nat>, m: nat, scores: seq<real>) {
    && |scores| == |adj| && m <= |order|
    && forall v | 0 <= v < |adj| ::
        scores[v] == if v != s && v in order[m..] then Full(adj, dist, sigma, v) - 1.0 else 0.0
  }

  /** When `w` leaves the stack everything it depends on has been passed back to it. */
  lemma PoppedComplete(adj: Adjacency, s: nat, dist: seq<int>, sigma: seq<real>, pred: seq<seq<nat>>, order: seq<nat>,
                       m: nat, delta: seq<real>)
    requires Finished(adj, s, dist, sigma, pred, order) && m < |order|
    requires Served(adj, dist, sigma, order, m + 1, delta, order[m], NO_NODES)
    ensures order[m] < |adj| && delta[order[m]] == Full(adj, dist, sigma, order[m]) - 1.0
    ensures sigma[order[m]] > 0.0
  {
    hide Part, Counts, Count;
    var w := order[m];
    CountsBounds(adj, s, dist, sigma, w);
    forall j | 0 <= j < |adj[w]|
      ensures PassedParts(adj, dist, sigma, order, m + 1, w)[j] == Parts(adj, dist, sigma, w)[j]
    {
      if TightEdge(dist, w, adj[w][j]) {
        LaterInOrder(adj, s, dist, order, m, adj[w][j]);
      } else {
        NoPart(adj, dist, sigma, w, adj[w][j]);
      }
    }
    assert PassedParts(adj, dist, sigma, order, m + 1, w) == Parts(adj, dist, sigma, w);
    Recurrence(adj, s, dist, sigma, w);
    assert multiset(NO_NODES)[w] == 0;
  }

  lemma CountsBounds(adj: Adjacency, s: nat, dist: seq<int>, sigma: seq<real>, w: nat)
    requires Counts(adj, s, dist, sigma) && w < |adj|
    ensures |sigma| == |dist| == |adj|
    ensures dist[w] >= 0 ==> sigma[w] > 0.0
  {
  }

  lemma NoPart(adj: Adjacency, dist: seq<int>, sigma: seq<real>, v: nat, w: nat)
    requires !TightEdge(dist, v, w)
    ensures Part(adj, dist, sigma, v, w) == 0.0
  {
  }

  lemma PartValue(adj: Adjacency, dist: seq<int>, sigma: seq<real>, v: nat, w: nat)
    requires TightEdge(dist, v, w) && |sigma| == |dist| && sigma[w] > 0.0
    ensures Part(adj, dist, sigma, v, w) == sigma[v] / sigma[w] * Full(adj, dist, sigma, w)
  {
  }

  lemma LaterInOrder(adj: Adjacency, s: nat, dist: seq<int>, order: seq<nat>, m: nat, x: nat)
    requires Discovered(adj, s, dist, order) && m < |order| && x < |adj| && dist[x] > dist[order[m]]
    ensures x in order[m + 1..]
  {
    assert dist[order[m]] >= 0 && x in order;
    var i :| 0 <= i < |order| && order[i] == x;
    assert order[m + 1..][i - m - 1] == x;
  }

  lemma ServeOne(adj: Adjacency, dist: seq<int>, sigma: seq<real>, order: seq<nat>, m: nat, delta: seq<real>,
                 w: nat, list: seq<nat>, i: nat)
    requires i < |list| && list[i] < |adj| && Served(adj, dist, sigma, order, m, delta, w, list[..i])
    ensures Served(adj, dist, sigma, order, m,
                   delta[list[i] := delta[list[i]] + Part(adj, dist, sigma, list[i], w)], w, list[..i + 1])
  {
    hide Sum, Part;
    assert list[..i + 1] == list[..i] + [list[i]];
    forall v | 0 <= v < |adj|
      ensures multiset(list[..i + 1])[v] as real * Part(adj, dist, sigma, v, w) ==
              multiset(list[..i])[v] as real * Part(adj, dist, sigma, v, w) + (if v == list[i] then Part(adj, dist, sigma, v, w) else 0.0)
    {
      OneMore(Part(adj, dist, sigma, v, w), list[..i], list[i], v);
    }
  }

  lemma ServedAll(adj: Adjacency, s: nat, dist: seq<int>, sigma: seq<real>, pred: seq<seq<nat>>, order: seq<nat>,
                  m: nat, delta: seq<real>, next: nat)
    requires Finished(adj, s, dist, sigma, pred, order) && m < |order|
    requires order[m] < |adj| && Served(adj, dist, sigma, order, m + 1, delta, order[m], pred[order[m]])
    ensures |delta| == |adj| && Served(adj, dist, sigma, order, m, delta, next, NO_NODES)
  {
    assert |delta| == |adj|;
    hide *;
    forall v | 0 <= v < |adj|
      ensures delta[v] == Sum(PassedParts(adj, dist, sigma, order, m, v)) + multiset(NO_NODES)[v] as real * Part(adj, dist, sigma, v, next)
    {
      ServedNode(adj, s, dist, sigma, pred, order, m, delta, next, v);
    }
    ServedIntro(adj, dist, sigma, order, m, delta, next);
  }

  lemma ServedIntro(adj: Adjacency, dist: seq<int>, sigma: seq<real>, order: seq<nat>, m: nat, delta: seq<real>, next: nat)
    requires |delta| == |adj|
    requires forall v | 0 <= v < |adj| ::
        delta[v] == Sum(PassedParts(adj, dist, sigma, order, m, v)) + multiset(NO_NODES)[v] as real * Part(adj, dist, sigma, v, next)
    ensures Served(adj, dist, sigma, order, m, delta, next, NO_NODES)
  {
    hide Sum, PassedParts, Part;
  }

  lemma ServedNode(adj: Adjacency, s: nat, dist: seq<int>, sigma: seq<real>, pred: seq<seq<nat>>, order: seq<nat>,
                   m: nat, delta: seq<real>, next: nat, v: nat)
    requires Finished(adj, s, dist, sigma, pred, order) && m < |order| && v < |adj|
    requires order[m] < |adj| && Served(adj, dist, sigma, order, m + 1, delta, order[m], pred[order[m]])
    ensures delta[v] == Sum(PassedParts(adj, dist, sigma, order, m, v)) + multiset(NO_NODES)[v] as real * Part(adj, dist, sigma, v, next)
  {
    hide Sum, Part, Counts, Discovered, PassedParts;
    var w := order[m];
    PassOne(adj, s, dist, sigma, order, m, v);
    assert AllPreds(adj, dist, w, pred[w]);
    if !TightEdge(dist, v, w) {
      NoPart(adj, dist, sigma, v, w);
    }
    assert multiset(NO_NODES)[v] == 0;
  }

  /** Popping one more node adds its parts, one per parallel edge. */
  lemma PassOne(adj: Adjacency, s: nat, dist: seq<int>, sigma: seq<real>, order: seq<nat>, m: nat, v: nat)
    requires Discovered(adj, s, dist, order) && m < |order| && v < |adj|
    ensures Sum(PassedParts(adj, dist, sigma, order, m, v)) ==
            Sum(PassedParts(adj, dist, sigma, order, m + 1, v)) + multiset(adj[v])[order[m]] as real * Part(adj, dist, sigma, v, order[m])
  {
    hide Sum, Part, Count, Passed;
    var w := order[m];
    var part := Part(adj, dist, sigma, v, w);
    var extra := OncePerEdge(adj[v], w, part);
    OncePerEdgeSum(adj[v], w, part);
    forall j | 0 <= j < |adj[v]|
      ensures Passed(adj, dist, sigma, order, m, v, adj[v][j]) == Passed(adj, dist, sigma, order, m + 1, v, adj[v][j]) + extra[j]
    {
      PassedStep(adj, s, dist, sigma, order, m, v, adj[v][j]);
    }
    SumAdd(PassedParts(adj, dist, sigma, order, m + 1, v), extra, PassedParts(adj, dist, sigma, order, m, v));
  }

  /** `part` at every position of `list` that holds `w`. */
  function OncePerEdge(list: seq<nat>, w: nat, part: real): (r: seq<real>)
    ensures |r| == |list| && forall j | 0 <= j < |r| :: r[j] == if list[j] == w then part else 0.0
  {
    seq(|list|, j requires 0 <= j < |list| => if list[j] == w then part else 0.0)
  }

  lemma OncePerEdgeSum(list: seq<nat>, w: nat, part: real)
    ensures Sum(OncePerEdge(list, w, part)) == multiset(list)[w] as real * part
  {
    hide Sum;
    EdgeCount(list, w, OncePerEdge(list, w, 1.0));
    SumScale(part, OncePerEdge(list, w, 1.0), OncePerEdge(list, w, part));
  }

  lemma PassedStep(adj: Adjacency, s: nat, dist: seq<int>, sigma: seq<real>, order: seq<nat>, m: nat, v: nat, x: nat)
    requires Discovered(adj, s, dist, order) && m < |order|
    ensures Passed(adj, dist, sigma, order, m, v, x) ==
            Passed(adj, dist, sigma, order, m + 1, v, x) + if x == order[m] then Part(adj, dist, sigma, v, order[m]) else 0.0
  {
    hide Part, Count;
    assert order[m..] == [order[m]] + order[m + 1..];
    assert order[m] !in order[m + 1..];
  }

  lemma NothingPassed(adj: Adjacency, dist: seq<int>, sigma: seq<real>, order: seq<nat>, delta: seq<real>, w: nat)
    requires delta == Constant(|adj|, 0.0)
    ensures Served(adj, dist, sigma, order, |order|, delta, w, NO_NODES)
  {
    hide Part;
    forall v | 0 <= v < |adj|
      ensures Sum(PassedParts(adj, dist, sigma, order, |order|, v)) == 0.0 && multiset(NO_NODES)[v] == 0
    {
      SumZero(PassedParts(adj, dist, sigma, order, |order|, v));
    }
  }

  lemma NothingScored(adj: Adjacency, s: nat, dist: seq<int>, sigma: seq<real>, order: seq<nat>, scores: seq<real>)
    requires scores == Constant(|adj|, 0.0)
    ensures Scored(adj, s, dist, sigma, order, |order|, scores)
  {
    hide Full;
  }

  lemma ScoreOne(adj: Adjacency, s: nat, dist: seq<int>, sigma: seq<real>, order: seq<nat>, m: nat, scores: seq<real>, delta: real)
    requires Discovered(adj, s, dist, order) && m < |order| && Scored(adj, s, dist, sigma, order, m + 1, scores)
    requires order[m] < |adj| && delta == Full(adj, dist, sigma, order[m]) - 1.0
    ensures var w := order[m];
            Scored(adj, s, dist, sigma, order, m, if w != s then scores[w := scores[w] + delta] else scores)
  {
    hide Full, Count;
    assert order[m..] == [order[m]] + order[m + 1..];
    assert order[m] !in order[m + 1..];
  }

  lemma FinalScores(adj: Adjacency, s: nat, dist: seq<int>, sigma: seq<real>, pred: seq<seq<nat>>, order: seq<nat>, scores: seq<real>)
    requires Finished(adj, s, dist, sigma, pred, order) && Scored(adj, s, dist, sigma, order, 0, scores)
    ensures forall v | 0 <= v < |adj| :: scores[v] == if v == s then 0.0 else Sum(Dependencies(adj, s, v))
  {
    hide Full, Count, Sum, Dependencies, Levelled, AllPreds;
    assert order[0..] == order;
    forall v | 0 <= v < |adj|
      ensures scores[v] == if v == s then 0.0 else Sum(Dependencies(adj, s, v))
    {
      if v in order {
        FullIsDependencies(adj, s, dist, sigma, v);
      } else {
        UnreachedHasNone(adj, s, dist, v);
      }
    }
  }

  // ---- the kernel ----

  lemma Begin(adj: Adjacency, s: nat, dist: seq<int>, sigma: seq<real>, pred: seq<seq<nat>>)
    requires Closed(adj) && s < |adj|
    requires dist == seq(|adj|, _ => -1)[s := 0] && sigma == Constant(|adj|, 0.0)[s := 1.0] && pred == seq(|adj|, _ => NO_NODES)
    ensures Forward(adj, s, dist, sigma, pred, [s], 0, 0)
  {
    assert Count(adj, s, s, 0) == 1.0;
    hide Count;
    forall w | 0 <= w < |adj|
      ensures PredList(adj, dist, [s], 0, 0, w, pred[w]) && SigmaFrom(s, sigma, w, pred[w])
    {
      assert adj[s][..0] == NO_NODES;
      assert Picked(sigma, NO_NODES) == [];
      assert Sum([]) == 0.0;
    }
  }

  lemma ForwardBounds(adj: Adjacency, s: nat, dist: seq<int>, sigma: seq<real>, pred: seq<seq<nat>>, order: seq<nat>, m: nat, k: nat)
    requires Forward(adj, s, dist, sigma, pred, order, m, k)
    ensures |dist| == |sigma| == |pred| == |adj| && m <= |order|
    ensures forall i | 0 <= i < |order| :: order[i] < |adj| && dist[order[i]] >= 0
    ensures m < |order| ==> k <= |adj[order[m]]| && forall j | 0 <= j < |adj[order[m]]| :: adj[order[m]][j] < |adj|
    ensures forall v | 0 <= v < |adj| :: dist[v] >= -1
    ensures |order| <= |adj|
  {
    hide Count, PredList, SigmaFrom;
    DistinctBounded(order, |adj|);
  }

  /** Scans the edges of the node just popped from the queue (`order[m]`). */
  method ScanNode(adj: Adjacency, ghost s: nat, dist: array<int>, sigma: array<real>, pred: array<seq<nat>>,
                  v: nat, stack: seq<nat>, queue: seq<nat>) returns (rest: seq<nat>)
    requires dist as object != sigma && dist as object != pred && sigma as object != pred
    requires Forward(adj, s, dist[..], sigma[..], pred[..], stack + [v] + queue, |stack|, 0)
    modifies dist, sigma, pred
    ensures Forward(adj, s, dist[..], sigma[..], pred[..], stack + [v] + rest, |stack| + 1, 0)
  {
    hide *;
    rest := queue;
    ghost var m := |stack|;
    ghost var d, g, p := dist[..], sigma[..], pred[..];
    ghost var order := stack + [v] + queue;
    ForwardBounds(adj, s, d, g, p, order, m, 0);
    var dv := dist[v];
    var k := 0;
    while k < |adj[v]|
      invariant 0 <= k <= |adj[v]| && order == stack + [v] + rest
      invariant dist[..] == d && sigma[..] == g && pred[..] == p && |d| == |adj| && d[v] == dv
      invariant Forward(adj, s, d, g, p, order, m, k)
    {
      ForwardBounds(adj, s, d, g, p, order, m, k);
      var w := adj[v][k];
      if dist[w] == -1 {
        Discover(adj, s, d, g, p, order, m, k);
        rest := rest + [w];
        order := order + [w];
        dist[w] := dv + 1;
        d := d[w := dv + 1];
        ForwardBounds(adj, s, d, g, p, order, m, k);
      }
      if dist[w] == dv + 1 {
        ScanTight(adj, s, d, g, p, order, m, k);
        g := g[w := g[w] + g[v]];
        p := p[w := p[w] + [v]];
        sigma[w] := sigma[w] + sigma[v];
        pred[w] := pred[w] + [v];
      } else {
        ScanSlack(adj, s, d, g, p, order, m, k);
      }
      k := k + 1;
    }
    Advance(adj, s, d, g, p, order, m);
  }

  /** Serves every predecessor of the node popped from the stack. */
  method PassBack(adj: Adjacency, ghost s: nat, ghost dist: seq<int>, sigma: seq<real>, pred: seq<seq<nat>>,
                  ghost order: seq<nat>, ghost m: nat, delta: array<real>, w: nat)
    requires Finished(adj, s, dist, sigma, pred, order) && m < |order| && order[m] == w
    requires Served(adj, dist, sigma, order, m + 1, delta[..], w, NO_NODES)
    modifies delta
    ensures Served(adj, dist, sigma, order, m, delta[..], if m > 0 then order[m - 1] else w, NO_NODES)
    ensures w < |adj| && w < delta.Length && delta[w] == Full(adj, dist, sigma, w) - 1.0
  {
    hide *;
    FinishedBounds(adj, s, dist, sigma, pred, order, m);
    PoppedComplete(adj, s, dist, sigma, pred, order, m, delta[..]);
    ServedBounds(adj, dist, sigma, order, m + 1, delta[..], w, NO_NODES);
    ghost var g := delta[..];
    ghost var full := Full(adj, dist, sigma, w);
    var i := 0;
    TakeNone(pred[w]);
    while i < |pred[w]|
      invariant 0 <= i <= |pred[w]| && delta[..] == g && |g| == |adj|
      invariant Served(adj, dist, sigma, order, m + 1, g, w, pred[w][..i])
      invariant g[w] == full - 1.0
    {
      var v := pred[w][i];
      PredIsTight(adj, s, dist, sigma, pred, order, w, i);
      PartValue(adj, dist, sigma, v, w);
      ServeOne(adj, dist, sigma, order, m + 1, g, w, pred[w], i);
      var sw := sigma[w];
      if sw > 0.0 {
        delta[v] := delta[v] + sigma[v] / sw * (1.0 + delta[w]);
      }
      g := g[v := g[v] + Part(adj, dist, sigma, v, w)];
      i := i + 1;
    }
    assert pred[w][..|pred[w]|] == pred[w];
    ServedAll(adj, s, dist, sigma, pred, order, m, g, if m > 0 then order[m - 1] else w);
  }

  lemma TakeNone(list: seq<nat>)
    ensures list[..0] == NO_NODES
  {
  }

  lemma FinishedBounds(adj: Adjacency, s: nat, dist: seq<int>, sigma: seq<real>, pred: seq<seq<nat>>, order: seq<nat>, m: nat)
    requires Finished(adj, s, dist, sigma, pred, order) && m < |order|
    ensures Discovered(adj, s, dist, order)
    ensures order[m] < |adj| == |dist| == |sigma| == |pred| && s < |adj|
    ensures forall i | 0 <= i < |pred[order[m]]| :: pred[order[m]][i] < |adj|
  {
    hide Count;
    assert AllPreds(adj, dist, order[m], pred[order[m]]);
  }

  lemma ServedBounds(adj: Adjacency, dist: seq<int>, sigma: seq<real>, order: seq<nat>, m: nat, delta: seq<real>, w: nat, list: seq<nat>)
    requires Served(adj, dist, sigma, order, m, delta, w, list)
    ensures |delta| == |adj|
  {
    hide Part, PassedParts, Sum;
  }

  lemma PredIsTight(adj: Adjacency, s: nat, dist: seq<int>, sigma: seq<real>, pred: seq<seq<nat>>, order: seq<nat>, w: nat, i: nat)
    requires Finished(adj, s, dist, sigma, pred, order) && w < |pred| && w < |adj| && i < |pred[w]|
    requires w < |sigma| && sigma[w] > 0.0
    ensures TightEdge(dist, pred[w][i], w) && pred[w][i] < |adj| && |sigma| == |dist| && pred[w][i] != w
  {
    hide Count, Discovered, Levelled;
    assert AllPreds(adj, dist, w, pred[w]);
    assert multiset(pred[w])[pred[w][i]] > 0;
  }

  /** The backward loop: unwinds the stack, accumulating dependencies and scores. */
  method Accumulate(adj: Adjacency, source: nat, ghost dist: seq<int>, sigma: seq<real>, pred: seq<seq<nat>>, order: seq<nat>)
    returns (localScores: seq<real>)
    requires Finished(adj, source, dist, sigma, pred, order)
    ensures |localScores| == |adj|
    ensures forall v | 0 <= v < |adj| ::
              localScores[v] == if v == source then 0.0 else Sum(Dependencies(adj, source, v))
  {
    hide *;
    var scores := new real[|adj|](_ => 0.0);
    var delta := new real[|adj|](_ => 0.0);
    assert scores[..] == Constant(|adj|, 0.0) && delta[..] == Constant(|adj|, 0.0);
    NothingPassed(adj, dist, sigma, order, delta[..], 0);
    NothingScored(adj, source, dist, sigma, order, scores[..]);
    var stack := order;
    ghost var next: nat := 0;
    while stack != []
      invariant delta != scores
      invariant stack == order[..|stack|] && |stack| <= |order|
      invariant Served(adj, dist, sigma, order, |stack|, delta[..], next, NO_NODES)
      invariant Scored(adj, source, dist, sigma, order, |stack|, scores[..])
      decreases |stack|
    {
      var m := |stack| - 1;
      var w := stack[m];
      stack := stack[..m];
      FinishedBounds(adj, source, dist, sigma, pred, order, m);
      ScoredBounds(adj, source, dist, sigma, order, m + 1, scores[..]);
      ServedNext(adj, dist, sigma, order, m + 1, delta[..], next, w);
      ghost var before := scores[..];
      PassBack(adj, source, dist, sigma, pred, order, m, delta, w);
      next := if m > 0 then order[m - 1] else w;
      ScoreOne(adj, source, dist, sigma, order, m, before, delta[w]);
      if w != source {
        scores[w] := scores[w] + delta[w];
      }
      assert scores[..] == if w != source then before[w := before[w] + delta[w]] else before;
    }
    FinalScores(adj, source, dist, sigma, pred, order, scores[..]);
    ScoredBounds(adj, source, dist, sigma, order, 0, scores[..]);
    localScores := scores[..];
  }

  /** Every score is the sum, over all targets, of the fraction of shortest routes that pass through
      the node; the source scores nothing. */
  method UnweightedBrandesFromSource(adj: Adjacency, source: nat) returns (localScores: seq<real>)
    requires Closed(adj) && source < |adj|
    ensures |localScores| == |adj|
    ensures forall v | 0 <= v < |adj| ::
              localScores[v] == if v == source then 0.0 else Sum(Dependencies(adj, source, v))
  {
    var pred: array<seq<nat>> := new seq<nat>[|adj|](_ => NO_NODES);
    assert pred[..] == seq(|adj|, _ => NO_NODES);
    hide *;
    var n := |adj|;
    var sigma := new real[n](_ => 0.0);
    var dist := new int[n](_ => -1);
    sigma[source] := 1.0;
    dist[source] := 0;
    var stack: seq<nat>, queue: seq<nat> := [], [source];
    assert dist[..] == seq(n, _ => -1)[source := 0];
    assert sigma[..] == Constant(n, 0.0)[source := 1.0];
    Begin(adj, source, dist[..], sigma[..], pred[..]);
    assert stack + queue == [source];

    while queue != []
      invariant dist as object != sigma && dist as object != pred && sigma as object != pred
      invariant Forward(adj, source, dist[..], sigma[..], pred[..], stack + queue, |stack|, 0)
      decreases n - |stack|
    {
      ForwardBounds(adj, source, dist[..], sigma[..], pred[..], stack + queue, |stack|, 0);
      var v := queue[0];
      assert stack + queue == stack + [v] + queue[1..];
      var rest := ScanNode(adj, source, dist, sigma, pred, v, stack, queue[1..]);
      stack := stack + [v];
      queue := rest;
    }
    assert stack + queue == stack;
    ForwardFinished(adj, source, dist[..], sigma[..], pred[..], stack);
    localScores := Accumulate(adj, source, dist[..], sigma[..], pred[..], stack);
  }

  lemma ServedNext(adj: Adjacency, dist: seq<int>, sigma: seq<real>, order: seq<nat>, m: nat, delta: seq<real>, a: nat, b: nat)
    requires Served(adj, dist, sigma, order, m, delta, a, NO_NODES)
    ensures Served(adj, dist, sigma, order, m, delta, b, NO_NODES)
  {
    hide Part, PassedParts, Sum;
  }

  lemma ScoredBounds(adj: Adjacency, s: nat, dist: seq<int>, sigma: seq<real>, order: seq<nat>, m: nat, scores: seq<real>)
    requires Scored(adj, s, dist, sigma, order, m, scores)
    ensures |scores| == |adj| && m <= |order|
  {
  }

  lemma ForwardFinished(adj: Adjacency, s: nat, dist: seq<int>, sigma: seq<real>, pred: seq<seq<nat>>, order: seq<nat>)
    requires Forward(adj, s, dist, sigma, pred, order, |order|, 0)
    ensures Finished(adj, s, dist, sigma, pred, order)
  {
    hide Count, PredList, SigmaFrom, Counts;
    ForwardCounts(adj, s, dist, sigma, pred, order);
  }
}
