/** PageRank by power iteration, over the reals. */
module PageRank {
  import opened Basics
  import opened Rows
  import opened Sums
  import Nodes = NodeFrames
  import Graphs = GraphFrames

  /** One incoming edge of a node: the row of its source and the raw weight. */
  datatype InEdge = InEdge(src: nat, weight: real)

  /** What one edge row contributes: endpoint ids and weight. */
  datatype WeightedEdge = WeightedEdge(src: string, dst: string, weight: real)

  datatype Links = Links(inEdges: seq<seq<InEdge>>, outWeight: seq<real>)

  // ---- the link structure ----

  /** The total weight that `list` receives from `u`. */
  function WeightFrom(list: seq<InEdge>, u: nat): real {
    if list == [] then 0.0
    else WeightFrom(list[..|list| - 1], u) + (if list[|list| - 1].src == u then list[|list| - 1].weight else 0.0)
  }

  function Received(inEdges: seq<seq<InEdge>>, u: nat): (r: seq<real>)
    ensures |r| == |inEdges| && forall v | 0 <= v < |r| :: r[v] == WeightFrom(inEdges[v], u)
  {
    seq(|inEdges|, v requires 0 <= v < |inEdges| => WeightFrom(inEdges[v], u))
  }

  /** What a node sends is what the nodes receive from it, and nothing is negative. */
  ghost predicate Balanced(l: Links) {
    && |l.inEdges| == |l.outWeight|
    && (forall v, i | 0 <= v < |l.inEdges| && 0 <= i < |l.inEdges[v]| ::
          l.inEdges[v][i].src < |l.outWeight| && l.inEdges[v][i].weight >= 0.0)
    && forall u | 0 <= u < |l.outWeight| :: l.outWeight[u] == Sum(Received(l.inEdges, u))
  }

  lemma {:induction false} WeightFromNonNegative(list: seq<InEdge>, u: nat)
    requires forall i | 0 <= i < |list| :: list[i].weight >= 0.0
    ensures WeightFrom(list, u) >= 0.0
  {
    if list != [] {
      WeightFromNonNegative(list[..|list| - 1], u);
    }
  }

  lemma OutWeightNonNegative(l: Links, u: nat)
    requires Balanced(l) && u < |l.outWeight|
    ensures l.outWeight[u] >= 0.0
  {
    forall v | 0 <= v < |l.inEdges|
      ensures Received(l.inEdges, u)[v] >= 0.0
    {
      WeightFromNonNegative(l.inEdges[v], u);
    }
    SumNonNegative(Received(l.inEdges, u));
  }

  // ---- one round ----

  /** The part of `x[u]` that one unit of outgoing weight carries; nothing for a dangling node. */
  function Rate(l: Links, x: seq<real>, u: nat): real
    requires |x| == |l.outWeight|
  {
    if u < |x| && l.outWeight[u] > 0.0 then x[u] / l.outWeight[u] else 0.0
  }

  /** The mass one incoming edge carries. */
  function Carried(l: Links, x: seq<real>, e: InEdge): real
    requires |x| == |l.outWeight|
  {
    Rate(l, x, e.src) * e.weight
  }

  /** The mass reaching one node over its incoming edges. */
  function Inflow(l: Links, x: seq<real>, list: seq<InEdge>): real
    requires |x| == |l.outWeight|
  {
    if list == [] then 0.0
    else Inflow(l, x, list[..|list| - 1]) + Carried(l, x, list[|list| - 1])
  }

  function Flow(l: Links, x: seq<real>): (r: seq<real>)
    requires |x| == |l.outWeight| == |l.inEdges|
    ensures |r| == |x| && forall v | 0 <= v < |r| :: r[v] == Inflow(l, x, l.inEdges[v])
  {
    seq(|x|, v requires 0 <= v < |x| => Inflow(l, x, l.inEdges[v]))
  }

  function DanglingParts(l: Links, x: seq<real>): (r: seq<real>)
    requires |x| == |l.outWeight|
    ensures |r| == |x| && forall u | 0 <= u < |r| :: r[u] == if l.outWeight[u] == 0.0 then x[u] else 0.0
  {
    seq(|x|, u requires 0 <= u < |x| => if l.outWeight[u] == 0.0 then x[u] else 0.0)
  }

  /** What every node of an `n`-node graph gets: teleport share plus dangling share. */
  function BaseRank(d: real, n: real, dangling: real): real
    requires n > 0.0
  {
    (1.0 - d) / n + d * dangling / n
  }

  function NewRank(d: real, n: real, dangling: real, inflow: real): real
    requires n > 0.0
  {
    BaseRank(d, n, dangling) + d * inflow
  }

  /** One power-iteration round. */
  function Round(l: Links, d: real, x: seq<real>): (r: seq<real>)
    requires |x| == |l.outWeight| == |l.inEdges| && |x| > 0
    ensures |r| == |x|
    ensures forall v | 0 <= v < |r| :: r[v] == NewRank(d, |x| as real, Sum(DanglingParts(l, x)), Flow(l, x)[v])
  {
    seq(|x|, v requires 0 <= v < |x| => NewRank(d, |x| as real, Sum(DanglingParts(l, x)), Flow(l, x)[v]))
  }

  ghost predicate Distribution(x: seq<real>) {
    (forall i | 0 <= i < |x| :: x[i] >= 0.0) && Sum(x) == 1.0
  }

  function Abs(x: real): real {
    if x < 0.0 then -x else x
  }

  function Gaps(x: seq<real>, y: seq<real>): (r: seq<real>)
    requires |x| == |y|
    ensures |r| == |x| && forall i | 0 <= i < |r| :: r[i] == Abs(x[i] - y[i])
    ensures forall i | 0 <= i < |r| :: r[i] >= 0.0 && (r[i] == x[i] - y[i] || r[i] == y[i] - x[i])
  {
    seq(|x|, i requires 0 <= i < |x| => Abs(x[i] - y[i]))
  }

  /** The L1 distance of two rank vectors. */
  function L1(x: seq<real>, y: seq<real>): real
    requires |x| == |y|
  {
    Sum(Gaps(x, y))
  }

  // ---- conservation: dangling mass plus flow is all the mass ----

  /** Inflow regrouped by source. */
  ghost function BySource(l: Links, x: seq<real>, list: seq<InEdge>): (r: seq<real>)
    requires |x| == |l.outWeight|
    ensures |r| == |x| && forall u | 0 <= u < |r| :: r[u] == Rate(l, x, u) * WeightFrom(list, u)
  {
    seq(|x|, u requires 0 <= u < |x| => Rate(l, x, u) * WeightFrom(list, u))
  }

  lemma {:induction false} InflowBySource(l: Links, x: seq<real>, list: seq<InEdge>)
    requires |x| == |l.outWeight| && forall i | 0 <= i < |list| :: list[i].src < |x|
    ensures Inflow(l, x, list) == Sum(BySource(l, x, list))
  {
    hide Rate, Sum;
    if list == [] {
      SumZero(BySource(l, x, list));
    } else {
      var n := |list| - 1;
      var e := list[n];
      InflowBySource(l, x, list[..n]);
      var before := BySource(l, x, list[..n]);
      forall u | 0 <= u < |x|
        ensures BySource(l, x, list)[u] == before[e.src := before[e.src] + Rate(l, x, e.src) * e.weight][u]
      {
        Distribute(Rate(l, x, u), WeightFrom(list[..n], u), e.weight);
      }
      assert BySource(l, x, list) == before[e.src := before[e.src] + Rate(l, x, e.src) * e.weight];
      SumUpdate(before, e.src, before[e.src] + Rate(l, x, e.src) * e.weight);
    }
  }

  lemma Distribute(a: real, b: real, c: real)
    ensures a * (b + c) == a * b + a * c
    ensures a * (b + 0.0) == a * b
  {
  }

  ghost function FlowMatrix(l: Links, x: seq<real>): (m: seq<seq<real>>)
    requires |x| == |l.outWeight| == |l.inEdges|
    ensures |m| == |x| && forall v | 0 <= v < |m| :: m[v] == BySource(l, x, l.inEdges[v]) && |m[v]| == |x|
  {
    seq(|x|, v requires 0 <= v < |x| => BySource(l, x, l.inEdges[v]))
  }

  lemma FlowColumn(l: Links, x: seq<real>, u: nat)
    requires Balanced(l) && |x| == |l.outWeight| && u < |x|
    ensures Sum(Column(FlowMatrix(l, x), u)) == x[u] - DanglingParts(l, x)[u]
  {
    hide Sum, WeightFrom;
    SumScale(Rate(l, x, u), Received(l.inEdges, u), Column(FlowMatrix(l, x), u));
    OutWeightNonNegative(l, u);
    if l.outWeight[u] > 0.0 {
      assert x[u] / l.outWeight[u] * l.outWeight[u] == x[u];
    }
  }

  /** A round moves mass but neither creates nor destroys any, for vectors of either sign. */
  lemma FlowConserves(l: Links, x: seq<real>)
    requires Balanced(l) && |x| == |l.outWeight|
    ensures Sum(Flow(l, x)) + Sum(DanglingParts(l, x)) == Sum(x)
  {
    hide Sum, WeightFrom, Rate, Inflow;
    var m := FlowMatrix(l, x);
    assert Rectangular(m, |x|);
    SumSwap(m, |x|);
    forall v | 0 <= v < |x|
      ensures RowSums(m)[v] == Flow(l, x)[v]
    {
      InflowBySource(l, x, l.inEdges[v]);
    }
    assert RowSums(m) == Flow(l, x);
    forall u | 0 <= u < |x|
      ensures x[u] == ColumnSums(m, |x|)[u] + DanglingParts(l, x)[u]
    {
      FlowColumn(l, x, u);
    }
    SumAdd(ColumnSums(m, |x|), DanglingParts(l, x), x);
  }

  /** Ranks built from given shares sum to the shares. */
  lemma NewRankSum(d: real, dangling: real, flow: seq<real>, ranks: seq<real>)
    requires |ranks| == |flow| > 0
    requires forall v | 0 <= v < |ranks| :: ranks[v] == NewRank(d, |ranks| as real, dangling, flow[v])
    ensures Sum(ranks) == 1.0 - d + d * dangling + d * Sum(flow)
  {
    hide Sum, BaseRank;
    var n := |ranks| as real;
    BaseTimesCount(d, dangling, n);
    ShiftedSum(BaseRank(d, n, dangling), d, flow, ranks);
  }

  lemma ShiftedSum(base: real, d: real, flow: seq<real>, ranks: seq<real>)
    requires |ranks| == |flow| && forall v | 0 <= v < |ranks| :: ranks[v] == base + d * flow[v]
    ensures Sum(ranks) == |ranks| as real * base + d * Sum(flow)
  {
    hide Sum;
    var n := |ranks|;
    var moved := seq(n, v requires 0 <= v < n => d * flow[v]);
    SumScale(d, flow, moved);
    SumConstant(n, base);
    SumAdd(Constant(n, base), moved, ranks);
  }

  lemma BaseTimesCount(d: real, dangling: real, n: real)
    requires n > 0.0
    ensures n * BaseRank(d, n, dangling) == 1.0 - d + d * dangling
  {
    var a, b := (1.0 - d) / n, d * dangling / n;
    assert n * a == 1.0 - d;
    assert n * b == d * dangling;
    assert n * (a + b) == n * a + n * b;
  }

  lemma {:induction false} InflowNonNegative(l: Links, x: seq<real>, list: seq<InEdge>)
    requires |x| == |l.outWeight| && forall i | 0 <= i < |x| :: x[i] >= 0.0
    requires forall i | 0 <= i < |list| :: list[i].weight >= 0.0
    ensures Inflow(l, x, list) >= 0.0
  {
    hide Carried;
    if list != [] {
      InflowNonNegative(l, x, list[..|list| - 1]);
      CarriedNonNegative(l, x, list[|list| - 1]);
    }
  }

  lemma CarriedNonNegative(l: Links, x: seq<real>, e: InEdge)
    requires |x| == |l.outWeight| && (forall i | 0 <= i < |x| :: x[i] >= 0.0) && e.weight >= 0.0
    ensures Carried(l, x, e) >= 0.0
  {
    assert Rate(l, x, e.src) >= 0.0;
  }

  /** Every round turns a distribution into a distribution. */
  lemma RoundKeepsDistribution(l: Links, d: real, x: seq<real>)
    requires Balanced(l) && |x| == |l.outWeight| && |x| > 0 && 0.0 < d < 1.0 && Distribution(x)
    ensures Distribution(Round(l, d, x))
  {
    hide Sum, WeightFrom, Inflow, Rate, NewRank;
    var dangling := Sum(DanglingParts(l, x));
    NewRankSum(d, dangling, Flow(l, x), Round(l, d, x));
    FlowConserves(l, x);
    SumsToOne(d, dangling, Sum(Flow(l, x)));
    SumNonNegative(DanglingParts(l, x));
    forall v | 0 <= v < |x|
      ensures Round(l, d, x)[v] >= 0.0
    {
      InflowNonNegative(l, x, l.inEdges[v]);
      NonNegativeRank(d, dangling, |x| as real, Flow(l, x)[v]);
    }
  }

  lemma SumsToOne(d: real, dangling: real, flow: real)
    requires flow + dangling == 1.0
    ensures 1.0 - d + d * dangling + d * flow == 1.0
  {
    Distribute(d, dangling, flow);
  }

  lemma NonNegativeRank(d: real, dangling: real, n: real, flow: real)
    requires 0.0 < d < 1.0 && dangling >= 0.0 && n > 0.0 && flow >= 0.0
    ensures NewRank(d, n, dangling, flow) >= 0.0
  {
    assert (1.0 - d) / n >= 0.0;
    assert d * dangling >= 0.0;
    assert d * dangling / n >= 0.0;
    assert d * flow >= 0.0;
  }

  // ---- contraction ----

  lemma {:induction false} SumGap(a: seq<real>, b: seq<real>)
    requires |a| == |b|
    ensures Abs(Sum(a) - Sum(b)) <= Sum(Gaps(a, b))
  {
    if a != [] {
      var n := |a| - 1;
      SumGap(a[..n], b[..n]);
      assert Gaps(a, b)[..n] == Gaps(a[..n], b[..n]);
    }
  }

  lemma RateGap(l: Links, x: seq<real>, y: seq<real>, u: nat)
    requires |x| == |y| == |l.outWeight|
    ensures Abs(Rate(l, x, u) - Rate(l, y, u)) == Rate(l, Gaps(x, y), u)
  {
    if u < |x| && l.outWeight[u] > 0.0 {
      QuotientGap(x[u], y[u], l.outWeight[u]);
    }
  }

  lemma QuotientGap(a: real, b: real, w: real)
    requires w > 0.0
    ensures Abs(a / w - b / w) == Abs(a - b) / w
  {
    var k := 1.0 / w;
    assert a / w == a * k && b / w == b * k && Abs(a - b) / w == Abs(a - b) * k;
    ScaledGap(a, b, k);
  }

  lemma CarriedGap(l: Links, x: seq<real>, y: seq<real>, e: InEdge)
    requires |x| == |y| == |l.outWeight| && e.weight >= 0.0
    ensures Abs(Carried(l, x, e) - Carried(l, y, e)) == Carried(l, Gaps(x, y), e)
  {
    hide Rate;
    RateGap(l, x, y, e.src);
    ScaledGap(Rate(l, x, e.src), Rate(l, y, e.src), e.weight);
  }

  lemma {:induction false} InflowGap(l: Links, x: seq<real>, y: seq<real>, list: seq<InEdge>)
    requires |x| == |y| == |l.outWeight| && forall i | 0 <= i < |list| :: list[i].weight >= 0.0
    ensures Abs(Inflow(l, x, list) - Inflow(l, y, list)) <= Inflow(l, Gaps(x, y), list)
  {
    hide Carried;
    if list != [] {
      var n := |list| - 1;
      InflowGap(l, x, y, list[..n]);
      CarriedGap(l, x, y, list[n]);
    }
  }

  lemma ScaledGap(a: real, b: real, w: real)
    requires w >= 0.0
    ensures Abs(a * w - b * w) == Abs(a - b) * w
  {
    assert a * w - b * w == (a - b) * w;
    if a - b < 0.0 {
      assert -(a - b) * w == -((a - b) * w) >= 0.0;
    } else {
      assert (a - b) * w >= 0.0;
    }
  }

  /** How far one round can carry one rank, given the gaps before it: a rank without teleport. */
  function RankBound(d: real, n: real, dangling: real, inflow: real): real
    requires n > 0.0
  {
    d * dangling / n + d * inflow
  }

  ghost function RankBounds(l: Links, d: real, gaps: seq<real>): (r: seq<real>)
    requires |gaps| == |l.outWeight| == |l.inEdges| && |gaps| > 0
    ensures |r| == |gaps|
    ensures forall v | 0 <= v < |r| :: r[v] == RankBound(d, |gaps| as real, Sum(DanglingParts(l, gaps)), Flow(l, gaps)[v])
  {
    seq(|gaps|, v requires 0 <= v < |gaps| => RankBound(d, |gaps| as real, Sum(DanglingParts(l, gaps)), Flow(l, gaps)[v]))
  }

  lemma RankGap(l: Links, d: real, x: seq<real>, y: seq<real>, v: nat)
    requires Balanced(l) && |x| == |y| == |l.outWeight| && v < |x| && 0.0 < d < 1.0
    ensures Gaps(Round(l, d, x), Round(l, d, y))[v] <= RankBounds(l, d, Gaps(x, y))[v]
  {
    hide Sum, WeightFrom, Inflow, Rate, NewRank, RankBound;
    var g := Gaps(x, y);
    InflowGap(l, x, y, l.inEdges[v]);
    SumGap(DanglingParts(l, x), DanglingParts(l, y));
    assert Gaps(DanglingParts(l, x), DanglingParts(l, y)) == DanglingParts(l, g);
    AffineGap(d, |x| as real, Sum(DanglingParts(l, x)), Sum(DanglingParts(l, y)), Sum(DanglingParts(l, g)),
              Flow(l, x)[v], Flow(l, y)[v], Flow(l, g)[v]);
  }

  lemma AffineGap(d: real, n: real, dx: real, dy: real, dg: real, fx: real, fy: real, fg: real)
    requires 0.0 < d < 1.0 && n > 0.0 && Abs(dx - dy) <= dg && Abs(fx - fy) <= fg
    ensures Abs(NewRank(d, n, dx, fx) - NewRank(d, n, dy, fy)) <= RankBound(d, n, dg, fg)
  {
    hide NewRank, RankBound;
    var k := d / n;
    RankForm(d, n, dx, fx);
    RankForm(d, n, dy, fy);
    RankForm(d, n, dg, fg);
    ScaledDifference(k, dx, dy, dg);
    ScaledDifference(d, fx, fy, fg);
  }

  lemma RankForm(d: real, n: real, x: real, f: real)
    requires n > 0.0 && d > 0.0
    ensures NewRank(d, n, x, f) == (1.0 - d) / n + d / n * x + d * f
    ensures RankBound(d, n, x, f) == d / n * x + d * f
    ensures d / n > 0.0
  {
    QuotientForm(d, n, x);
  }

  lemma QuotientForm(d: real, n: real, x: real)
    requires n > 0.0
    ensures d * x / n == d / n * x
  {
  }

  lemma ScaledDifference(k: real, a: real, b: real, c: real)
    requires k >= 0.0 && Abs(a - b) <= c
    ensures Abs(k * a - k * b) <= k * c
  {
    ScaledLe(k, a - b, c);
    assert k * (a - b) == k * a - k * b;
  }

  lemma ScaledLe(k: real, a: real, b: real)
    requires k >= 0.0 && Abs(a) <= b
    ensures Abs(k * a) <= k * b
  {
    assert k * (b - a) >= 0.0 && k * (b + a) >= 0.0;
    assert k * (b - a) == k * b - k * a && k * (b + a) == k * b + k * a;
  }

  lemma RankBoundsSum(l: Links, d: real, gaps: seq<real>)
    requires Balanced(l) && |gaps| == |l.outWeight| && |gaps| > 0
    ensures Sum(RankBounds(l, d, gaps)) == d * Sum(gaps)
  {
    hide Sum, WeightFrom, Inflow, Rate, RankBound;
    FlowConserves(l, gaps);
    BoundSum(d, Sum(DanglingParts(l, gaps)), Flow(l, gaps), RankBounds(l, d, gaps), Sum(gaps));
  }

  lemma BoundSum(d: real, dangling: real, flow: seq<real>, bounds: seq<real>, total: real)
    requires |bounds| == |flow| > 0 && Sum(flow) + dangling == total
    requires forall v | 0 <= v < |bounds| :: bounds[v] == RankBound(d, |bounds| as real, dangling, flow[v])
    ensures Sum(bounds) == d * total
  {
    hide Sum;
    var n := |bounds|;
    var share := d * dangling / n as real;
    var moved := seq(n, v requires 0 <= v < n => d * flow[v]);
    SumScale(d, flow, moved);
    SumConstant(n, share);
    SumAdd(Constant(n, share), moved, bounds);
    CountTimesShare(n as real, d * dangling);
    Distribute(d, dangling, Sum(flow));
  }

  lemma CountTimesShare(n: real, x: real)
    requires n > 0.0
    ensures n * (x / n) == x
  {
  }

  /** One round shrinks the L1 distance of any two rank vectors by at least the damping factor. */
  lemma Contraction(l: Links, d: real, x: seq<real>, y: seq<real>)
    requires Balanced(l) && |x| == |y| == |l.outWeight| && |x| > 0 && 0.0 < d < 1.0
    ensures L1(Round(l, d, x), Round(l, d, y)) <= d * L1(x, y)
  {
    hide Sum, Round, RankBounds;
    forall v | 0 <= v < |x|
      ensures Gaps(Round(l, d, x), Round(l, d, y))[v] <= RankBounds(l, d, Gaps(x, y))[v]
    {
      RankGap(l, d, x, y, v);
    }
    SumLe(Gaps(Round(l, d, x), Round(l, d, y)), RankBounds(l, d, Gaps(x, y)));
    RankBoundsSum(l, d, Gaps(x, y));
  }

  // ---- a round as a step of the random surfer ----

  /** The chance to go from `u` to `v`: teleport, or follow an edge in proportion to its weight; from a node
      without outgoing weight to any node alike. */
  ghost function Chance(l: Links, d: real, u: nat, v: nat): real
    requires |l.inEdges| == |l.outWeight| && u < |l.outWeight| && v < |l.inEdges|
  {
    (1.0 - d) / |l.outWeight| as real + d * (if l.outWeight[u] > 0.0 then WeightFrom(l.inEdges[v], u) / l.outWeight[u] else 1.0 / |l.outWeight| as real)
  }

  /** What arrives at `v` from each node. */
  ghost function Arrivals(l: Links, d: real, x: seq<real>, v: nat): (r: seq<real>)
    requires |x| == |l.outWeight| == |l.inEdges| && v < |x|
    ensures |r| == |x| && forall u | 0 <= u < |r| :: r[u] == x[u] * Chance(l, d, u, v)
  {
    seq(|x|, u requires 0 <= u < |x| => x[u] * Chance(l, d, u, v))
  }

  /** One arrival splits into teleport, dangling and edge shares. */
  lemma ArrivalParts(l: Links, d: real, x: seq<real>, u: nat, v: nat)
    requires Balanced(l) && |x| == |l.outWeight| && u < |x| && v < |x|
    ensures x[u] * Chance(l, d, u, v) ==
            (1.0 - d) / |x| as real * x[u] + d / |x| as real * DanglingParts(l, x)[u] + d * (Rate(l, x, u) * WeightFrom(l.inEdges[v], u))
  {
    hide WeightFrom;
    OutWeightNonNegative(l, u);
    ChanceAlgebra(d, |x| as real, x[u], WeightFrom(l.inEdges[v], u), l.outWeight[u]);
  }

  lemma ChanceAlgebra(d: real, n: real, x: real, w: real, ow: real)
    requires n > 0.0 && ow >= 0.0
    ensures ow > 0.0 ==> x * ((1.0 - d) / n + d * (w / ow)) == (1.0 - d) / n * x + d * (x / ow * w)
    ensures x * ((1.0 - d) / n + d * (1.0 / n)) == (1.0 - d) / n * x + d / n * x
  {
    var t := (1.0 - d) / n;
    if ow > 0.0 {
      var k := 1.0 / ow;
      assert w / ow == w * k && x / ow == x * k;
      assert x * (t + d * (w * k)) == t * x + d * (x * k * w);
    }
    var m := 1.0 / n;
    assert d / n == d * m;
    assert x * (t + d * m) == t * x + d * m * x;
  }

  /** A round moves a distribution as one step of the surfer does. */
  lemma RoundIsSurfer(l: Links, d: real, x: seq<real>, v: nat)
    requires Balanced(l) && |x| == |l.outWeight| && v < |x| && Distribution(x)
    ensures Round(l, d, x)[v] == Sum(Arrivals(l, d, x, v))
  {
    hide Sum, Rate, WeightFrom, Inflow, Chance;
    var n, dangling, bySource := |x| as real, DanglingParts(l, x), BySource(l, x, l.inEdges[v]);
    forall u | 0 <= u < |x|
      ensures Arrivals(l, d, x, v)[u] == Mixed((1.0 - d) / n, x[u], d / n, dangling[u], d, bySource[u])
    {
      ArrivalParts(l, d, x, u, v);
    }
    SumMixed((1.0 - d) / n, x, d / n, dangling, d, bySource, Arrivals(l, d, x, v));
    InflowBySource(l, x, l.inEdges[v]);
    DanglingShare(d, Sum(dangling), n);
  }

  function Mixed(p: real, x: real, q: real, y: real, r: real, z: real): real {
    p * x + q * y + r * z
  }

  lemma MixedAdd(p: real, a: real, x: real, q: real, b: real, y: real, r: real, c: real, z: real)
    ensures Mixed(p, a + x, q, b + y, r, c + z) == Mixed(p, a, q, b, r, c) + Mixed(p, x, q, y, r, z)
    ensures Mixed(p, 0.0, q, 0.0, r, 0.0) == 0.0
  {
  }

  lemma {:induction false} SumMixed(p: real, x: seq<real>, q: real, y: seq<real>, r: real, z: seq<real>, mixed: seq<real>)
    requires |x| == |y| == |z| == |mixed| && forall i | 0 <= i < |x| :: mixed[i] == Mixed(p, x[i], q, y[i], r, z[i])
    ensures Sum(mixed) == Mixed(p, Sum(x), q, Sum(y), r, Sum(z))
  {
    hide Mixed;
    if x == [] {
      MixedAdd(p, 0.0, 0.0, q, 0.0, 0.0, r, 0.0, 0.0);
    } else {
      var n := |x| - 1;
      SumMixed(p, x[..n], q, y[..n], r, z[..n], mixed[..n]);
      MixedAdd(p, Sum(x[..n]), x[n], q, Sum(y[..n]), y[n], r, Sum(z[..n]), z[n]);
    }
  }

  lemma DanglingShare(d: real, s: real, n: real)
    requires n > 0.0
    ensures d * s / n == d / n * s
  {
    var m := 1.0 / n;
    assert d * s / n == d * s * m && d / n == d * m;
  }

  /** The chances of leaving a node add up to 1. */
  lemma ChancesSum(l: Links, d: real, u: nat, row: seq<real>)
    requires Balanced(l) && u < |l.outWeight| && |row| == |l.outWeight|
    requires forall v | 0 <= v < |row| :: row[v] == Chance(l, d, u, v)
    ensures Sum(row) == 1.0
  {
    hide Sum, WeightFrom;
    var n := |row|;
    var shares := Shares(l, u);
    SharesSum(l, u);
    var moved := seq(n, v requires 0 <= v < n => d * shares[v]);
    SumScale(d, shares, moved);
    SumConstant(n, (1.0 - d) / n as real);
    SumAdd(Constant(n, (1.0 - d) / n as real), moved, row);
    TeleportTotal(d, n as real);
  }

  /** How a node's mass is shared out when the surfer follows it. */
  ghost function Shares(l: Links, u: nat): (r: seq<real>)
    requires |l.inEdges| == |l.outWeight| && u < |l.outWeight|
    ensures |r| == |l.outWeight|
    ensures forall v | 0 <= v < |r| :: r[v] == if l.outWeight[u] > 0.0 then WeightFrom(l.inEdges[v], u) / l.outWeight[u] else 1.0 / |r| as real
  {
    seq(|l.outWeight|, v requires 0 <= v < |l.outWeight| =>
      if l.outWeight[u] > 0.0 then WeightFrom(l.inEdges[v], u) / l.outWeight[u] else 1.0 / |l.outWeight| as real)
  }

  lemma SharesSum(l: Links, u: nat)
    requires Balanced(l) && u < |l.outWeight|
    ensures Sum(Shares(l, u)) == 1.0
  {
    hide Sum, WeightFrom;
    var n, ow := |l.outWeight|, l.outWeight[u];
    if ow > 0.0 {
      forall v | 0 <= v < n
        ensures Shares(l, u)[v] == 1.0 / ow * Received(l.inEdges, u)[v]
      {
        DivideScaled(1.0, WeightFrom(l.inEdges[v], u), ow);
      }
      SumScale(1.0 / ow, Received(l.inEdges, u), Shares(l, u));
      UniformShare(ow);
    } else {
      assert Shares(l, u) == Constant(n, 1.0 / n as real);
      SumConstant(n, 1.0 / n as real);
      UniformShare(n as real);
    }
  }

  lemma DivideScaled(d: real, w: real, ow: real)
    requires ow > 0.0
    ensures d * (w / ow) == d / ow * w
    ensures d * (ow / ow) == d
  {
    var k := 1.0 / ow;
    assert w / ow == w * k && d / ow == d * k;
  }

  lemma TeleportTotal(d: real, n: real)
    requires n > 0.0
    ensures n * ((1.0 - d) / n) == 1.0 - d
  {
  }

  // ---- whole runs ----

  /** The start: all nodes hold the same share of 1. */
  function Uniform(n: nat): (r: seq<real>)
    requires n > 0
    ensures |r| == n && forall i | 0 <= i < n :: n as real * r[i] == 1.0
  {
    UniformShare(n as real);
    Constant(n, 1.0 / n as real)
  }

  lemma UniformShare(n: real)
    requires n > 0.0
    ensures n * (1.0 / n) == 1.0
  {
  }

  lemma UniformIsDistribution(n: nat)
    requires n > 0
    ensures Distribution(Uniform(n))
  {
    SumConstant(n, 1.0 / n as real);
    assert n as real * (1.0 / n as real) == 1.0;
  }

  /** The rank vector after `k` rounds. */
  function Iterate(l: Links, d: real, k: nat): (r: seq<real>)
    requires |l.outWeight| == |l.inEdges| && |l.outWeight| > 0
    ensures |r| == |l.outWeight|
  {
    if k == 0 then Uniform(|l.outWeight|) else Round(l, d, Iterate(l, d, k - 1))
  }

  /** Every round of every run is a distribution. */
  lemma {:induction false} RunKeepsDistribution(l: Links, d: real, k: nat)
    requires Balanced(l) && |l.outWeight| > 0 && 0.0 < d < 1.0
    ensures Distribution(Iterate(l, d, k))
  {
    if k == 0 {
      UniformIsDistribution(|l.outWeight|);
    } else {
      RunKeepsDistribution(l, d, k - 1);
      RoundKeepsDistribution(l, d, Iterate(l, d, k - 1));
    }
  }

  function Power(d: real, k: nat): real {
    if k == 0 then 1.0 else d * Power(d, k - 1)
  }

  /** Powers of one base add their exponents, which leaves `Power` no other reading. */
  lemma {:induction false} PowerAdds(d: real, j: nat, k: nat)
    ensures Power(d, j + k) == Power(d, j) * Power(d, k) && Power(d, 1) == d && Power(d, 0) == 1.0
  {
    if j > 0 {
      PowerAdds(d, j - 1, k);
      Regroup(d, Power(d, j - 1), Power(d, k));
    }
  }

  lemma Regroup(a: real, b: real, c: real)
    ensures a * (b * c) == (a * b) * c
  {
  }

  /** The change of round `j + k + 1` is at most `d^k` times the change of round `j + 1`. */
  lemma {:induction false} ChangeDecays(l: Links, d: real, j: nat, k: nat)
    requires Balanced(l) && |l.outWeight| > 0 && 0.0 < d < 1.0
    ensures L1(Iterate(l, d, j + k + 1), Iterate(l, d, j + k)) <= Power(d, k) * L1(Iterate(l, d, j + 1), Iterate(l, d, j))
  {
    hide L1, Round, Iterate;
    if k > 0 {
      ChangeDecays(l, d, j, k - 1);
      IterateStep(l, d, j + k);
      IterateStep(l, d, j + k - 1);
      Contraction(l, d, Iterate(l, d, j + k), Iterate(l, d, j + k - 1));
      PowerStep(d, k, L1(Iterate(l, d, j + k + 1), Iterate(l, d, j + k)), L1(Iterate(l, d, j + k), Iterate(l, d, j + k - 1)),
                L1(Iterate(l, d, j + 1), Iterate(l, d, j)));
    }
  }

  lemma IterateStep(l: Links, d: real, k: nat)
    requires |l.outWeight| == |l.inEdges| && |l.outWeight| > 0
    ensures Iterate(l, d, k + 1) == Round(l, d, Iterate(l, d, k))
  {
  }

  lemma PowerStep(d: real, k: nat, after: real, before: real, first: real)
    requires k > 0 && 0.0 < d < 1.0 && before <= Power(d, k - 1) * first && after <= d * before
    ensures after <= Power(d, k) * first
  {
    var p := Power(d, k - 1);
    MonotoneTimes(d, before, p * first);
    assert d * (p * first) == (d * p) * first;
  }

  lemma MonotoneTimes(d: real, a: real, b: real)
    requires d > 0.0 && a <= b
    ensures d * a <= d * b
  {
  }

  lemma {:induction false} L1Triangle(x: seq<real>, y: seq<real>, z: seq<real>)
    requires |x| == |y| == |z|
    ensures L1(x, z) <= L1(x, y) + L1(y, z)
    ensures L1(x, y) == L1(y, x) && L1(x, y) >= 0.0
  {
    var bound := seq(|x|, i requires 0 <= i < |x| => Gaps(x, y)[i] + Gaps(y, z)[i]);
    SumAdd(Gaps(x, y), Gaps(y, z), bound);
    SumLe(Gaps(x, z), bound);
    assert Gaps(x, y) == Gaps(y, x);
    SumNonNegative(Gaps(x, y));
  }

  lemma {:induction false} ZeroDistance(x: seq<real>, y: seq<real>)
    requires |x| == |y| && L1(x, y) <= 0.0
    ensures x == y
  {
    forall i | 0 <= i < |x|
      ensures x[i] == y[i]
    {
      SumUpdate(Gaps(x, y), i, 0.0);
      SumNonNegative(Gaps(x, y)[i := 0.0]);
    }
  }

  /** There is at most one stationary rank vector. */
  lemma StationaryUnique(l: Links, d: real, p: seq<real>, q: seq<real>)
    requires Balanced(l) && |p| == |q| == |l.outWeight| && |p| > 0 && 0.0 < d < 1.0
    requires Round(l, d, p) == p && Round(l, d, q) == q
    ensures p == q
  {
    hide L1, Round;
    Contraction(l, d, p, q);
    L1Triangle(p, q, p);
    var gap, next := L1(p, q), L1(Round(l, d, p), Round(l, d, q));
    assert next == gap;
    assert next <= d * gap;
    ShrinksToNothing(d, gap);
    ZeroDistance(p, q);
  }

  lemma ShrinksToNothing(d: real, a: real)
    requires 0.0 < d < 1.0 && a <= d * a
    ensures a <= 0.0
  {
    assert (1.0 - d) * a == a - d * a;
    if a > 0.0 {
      PositiveProduct(1.0 - d, a);
    }
  }

  lemma PositiveProduct(a: real, b: real)
    requires a > 0.0 && b > 0.0
    ensures a * b > 0.0
  {
  }

  /** Stopping on a small change is sound: the result is within `d / (1 - d)` times the last change of
      the stationary vector. */
  lemma StopIsClose(l: Links, d: real, x: seq<real>, p: seq<real>)
    requires Balanced(l) && |x| == |p| == |l.outWeight| && |p| > 0 && 0.0 < d < 1.0 && Round(l, d, p) == p
    ensures (1.0 - d) * L1(Round(l, d, x), p) <= d * L1(Round(l, d, x), x)
  {
    hide L1, Round;
    Contraction(l, d, x, p);
    L1Triangle(x, Round(l, d, x), p);
    L1Triangle(Round(l, d, x), x, p);
    CloseArithmetic(d, L1(Round(l, d, x), p), L1(x, p), L1(Round(l, d, x), x));
  }

  lemma CloseArithmetic(d: real, after: real, before: real, change: real)
    requires 0.0 < d < 1.0 && after <= d * before && before <= change + after
    ensures (1.0 - d) * after <= d * change
  {
    assert d * before <= d * (change + after);
    assert d * (change + after) == d * change + d * after;
    assert (1.0 - d) * after == after - d * after;
  }

  // ---- building the links ----

  /** The total weight of the edge rows from node row `u` to node row `v`; rows with an unknown end are skipped. */
  function EdgeTotal(edges: seq<WeightedEdge>, index: map<string, nat>, u: nat, v: nat): real {
    if edges == [] then 0.0 else
      var e := edges[|edges| - 1];
      EdgeTotal(edges[..|edges| - 1], index, u, v) +
      if e.src in index && e.dst in index && index[e.src] == u && index[e.dst] == v then e.weight else 0.0
  }

  ghost predicate Reflects(l: Links, edges: seq<WeightedEdge>, index: map<string, nat>) {
    forall u, v | 0 <= u < |l.inEdges| && 0 <= v < |l.inEdges| :: WeightFrom(l.inEdges[v], u) == EdgeTotal(edges, index, u, v)
  }

  function WithEdge(l: Links, u: nat, v: nat, w: real): Links
    requires u < |l.outWeight| && v < |l.inEdges|
  {
    Links(l.inEdges[v := l.inEdges[v] + [InEdge(u, w)]], l.outWeight[u := l.outWeight[u] + w])
  }

  lemma WithEdgeBalanced(l: Links, u: nat, v: nat, w: real)
    requires Balanced(l) && u < |l.outWeight| && v < |l.inEdges| && w >= 0.0
    ensures Balanced(WithEdge(l, u, v, w))
  {
    var l' := WithEdge(l, u, v, w);
    hide Sum, WeightFrom;
    forall x | 0 <= x < |l'.outWeight|
      ensures l'.outWeight[x] == Sum(Received(l'.inEdges, x))
    {
      ReceivedWith(l, u, v, w, x);
    }
  }

  lemma ReceivedWith(l: Links, u: nat, v: nat, w: real, x: nat)
    requires u < |l.outWeight| && v < |l.inEdges|
    ensures Sum(Received(WithEdge(l, u, v, w).inEdges, x)) == Sum(Received(l.inEdges, x)) + if x == u then w else 0.0
  {
    hide Sum, WeightFrom;
    var before := Received(l.inEdges, x);
    var after := before[v] + if x == u then w else 0.0;
    ReceiveOne(l.inEdges[v], u, w, x);
    assert Received(WithEdge(l, u, v, w).inEdges, x) == before[v := after];
    SumUpdate(before, v, after);
  }

  lemma ReceiveOne(list: seq<InEdge>, u: nat, w: real, x: nat)
    ensures WeightFrom(list + [InEdge(u, w)], x) == WeightFrom(list, x) + if x == u then w else 0.0
  {
    assert (list + [InEdge(u, w)])[..|list|] == list;
  }

  lemma NextEdge(edges: seq<WeightedEdge>, k: nat, index: map<string, nat>, u: nat, v: nat)
    requires k < |edges|
    ensures EdgeTotal(edges[..k + 1], index, u, v) == EdgeTotal(edges[..k], index, u, v) +
            if edges[k].src in index && edges[k].dst in index && index[edges[k].src] == u && index[edges[k].dst] == v
            then edges[k].weight else 0.0
  {
    assert edges[..k + 1][..k] == edges[..k];
  }

  lemma WithEdgeReflects(l: Links, edges: seq<WeightedEdge>, k: nat, index: map<string, nat>)
    requires k < |edges| && Reflects(l, edges[..k], index)
    requires edges[k].src in index && edges[k].dst in index
    requires index[edges[k].src] < |l.outWeight| && index[edges[k].dst] < |l.inEdges|
    ensures Reflects(WithEdge(l, index[edges[k].src], index[edges[k].dst], edges[k].weight), edges[..k + 1], index)
  {
    hide WeightFrom, EdgeTotal;
    var a, b, w := index[edges[k].src], index[edges[k].dst], edges[k].weight;
    forall u, v | 0 <= u < |l.inEdges| && 0 <= v < |l.inEdges|
      ensures WeightFrom(WithEdge(l, a, b, w).inEdges[v], u) == EdgeTotal(edges[..k + 1], index, u, v)
    {
      NextEdge(edges, k, index, u, v);
      ReceiveOne(l.inEdges[b], a, w, u);
    }
  }

  /** Some edge row between known nodes has a negative weight. */
  ghost predicate HasNegative(edges: seq<WeightedEdge>, index: map<string, nat>) {
    exists k :: 0 <= k < |edges| && NegativeRow(edges[k], index)
  }

  predicate NegativeRow(e: WeightedEdge, index: map<string, nat>) {
    e.src in index && e.dst in index && e.weight < 0.0
  }

  /** In-adjacency and outgoing totals of the known edge rows; an error for a negative weight. */
  method BuildInAdjacency(edges: seq<WeightedEdge>, index: map<string, nat>, n: nat) returns (r: Result<Links>)
    requires forall id | id in index :: index[id] < n
    ensures r.Failure? <==> r == Failure(NegativeWeight)
    ensures r.Failure? <==> HasNegative(edges, index)
    ensures r.Success? ==> |r.value.inEdges| == n && Balanced(r.value) && Reflects(r.value, edges, index)
  {
    hide WeightFrom, EdgeTotal, Balanced, Reflects;
    var inEdges: array<seq<InEdge>> := new seq<InEdge>[n](_ => []);
    var outWeight := new real[n](_ => 0.0);
    ghost var l := Links(inEdges[..], outWeight[..]);
    NoLinks(l, edges[..0], index);
    var k := 0;
    while k < |edges|
      invariant 0 <= k <= |edges| && l == Links(inEdges[..], outWeight[..])
      invariant |l.inEdges| == |l.outWeight| == n && Balanced(l) && Reflects(l, edges[..k], index)
      invariant forall j | 0 <= j < k :: !NegativeRow(edges[j], index)
    {
      var e := edges[k];
      if e.src in index && e.dst in index {
        if e.weight < 0.0 {
          return Failure(NegativeWeight);
        }
        var u, v := index[e.src], index[e.dst];
        WithEdgeBalanced(l, u, v, e.weight);
        WithEdgeReflects(l, edges, k, index);
        inEdges[v] := inEdges[v] + [InEdge(u, e.weight)];
        outWeight[u] := outWeight[u] + e.weight;
        l := WithEdge(l, u, v, e.weight);
      } else {
        UnknownEdge(l, edges, k, index);
      }
      k := k + 1;
    }
    assert edges[..|edges|] == edges;
    r := Success(Links(inEdges[..], outWeight[..]));
  }

  lemma NoLinks(l: Links, none: seq<WeightedEdge>, index: map<string, nat>)
    requires |l.inEdges| == |l.outWeight| && none == []
    requires forall v | 0 <= v < |l.inEdges| :: l.inEdges[v] == [] && l.outWeight[v] == 0.0
    ensures Balanced(l) && Reflects(l, none, index)
  {
    forall u | 0 <= u < |l.outWeight|
      ensures Sum(Received(l.inEdges, u)) == 0.0
    {
      SumZero(Received(l.inEdges, u));
    }
  }

  lemma UnknownEdge(l: Links, edges: seq<WeightedEdge>, k: nat, index: map<string, nat>)
    requires k < |edges| && Reflects(l, edges[..k], index) && !(edges[k].src in index && edges[k].dst in index)
    ensures Reflects(l, edges[..k + 1], index)
  {
    hide WeightFrom, EdgeTotal;
    forall u, v | 0 <= u < |l.inEdges| && 0 <= v < |l.inEdges|
      ensures WeightFrom(l.inEdges[v], u) == EdgeTotal(edges[..k + 1], index, u, v)
    {
      NextEdge(edges, k, index, u, v);
    }
  }

  // ---- the iteration ----

  /** What the loop adds to a rank for one incoming edge of a source that is not dangling. */
  function Contribution(d: real, rank: real, w: real, ow: real): real
    requires ow > 0.0
  {
    d * rank * w / ow
  }

  /** A rank after the first incoming edges have been added. */
  function Partial(l: Links, d: real, x: seq<real>, base: real, list: seq<InEdge>): real
    requires |x| == |l.outWeight|
  {
    base + d * Inflow(l, x, list)
  }

  /** One round, as the loop computes it: base share first, then edge by edge. */
  method NextRanks(l: Links, d: real, ranks: seq<real>) returns (r: seq<real>)
    requires Balanced(l) && |ranks| == |l.outWeight| && |ranks| > 0
    ensures r == Round(l, d, ranks)
  {
    hide *;
    BalancedBounds(l);
    var n := |ranks|;
    var dangling := DanglingSum(l, ranks);
    var base := BaseRank(d, n as real, dangling);
    var newRanks := new real[n](_ => base);
    var v := 0;
    while v < n
      invariant 0 <= v <= n && newRanks.Length == n
      invariant forall x | 0 <= x < v :: newRanks[x] == Round(l, d, ranks)[x]
      invariant forall x | v <= x < n :: newRanks[x] == base
    {
      var list := l.inEdges[v];
      var i := 0;
      PartialNone(l, d, ranks, base, list);
      while i < |list|
        invariant 0 <= i <= |list|
        invariant forall x | 0 <= x < v :: newRanks[x] == Round(l, d, ranks)[x]
        invariant forall x | v < x < n :: newRanks[x] == base
        invariant newRanks[v] == Partial(l, d, ranks, base, list[..i])
      {
        var u, w := list[i].src, list[i].weight;
        var ow := l.outWeight[u];
        PartialNext(l, d, ranks, base, list, i);
        if ow > 0.0 {
          newRanks[v] := newRanks[v] + Contribution(d, ranks[u], w, ow);
        }
        i := i + 1;
      }
      assert list[..|list|] == list;
      PartialAll(l, d, ranks, dangling, v);
      v := v + 1;
    }
    r := newRanks[..];
  }

  lemma PartialNone(l: Links, d: real, x: seq<real>, base: real, list: seq<InEdge>)
    requires |x| == |l.outWeight|
    ensures Partial(l, d, x, base, list[..0]) == base
  {
  }

  lemma PartialNext(l: Links, d: real, x: seq<real>, base: real, list: seq<InEdge>, i: nat)
    requires |x| == |l.outWeight| && i < |list| && list[i].src < |x|
    ensures Partial(l, d, x, base, list[..i + 1]) == Partial(l, d, x, base, list[..i]) +
            if l.outWeight[list[i].src] > 0.0 then Contribution(d, x[list[i].src], list[i].weight, l.outWeight[list[i].src]) else 0.0
  {
    assert list[..i + 1][..i] == list[..i];
    Distribute(d, Inflow(l, x, list[..i]), Carried(l, x, list[i]));
    if l.outWeight[list[i].src] > 0.0 {
      RateProduct(d, x[list[i].src], list[i].weight, l.outWeight[list[i].src]);
    }
  }

  lemma PartialAll(l: Links, d: real, x: seq<real>, dangling: real, v: nat)
    requires |x| == |l.outWeight| == |l.inEdges| && v < |x| && dangling == Sum(DanglingParts(l, x))
    ensures Partial(l, d, x, BaseRank(d, |x| as real, dangling), l.inEdges[v]) == Round(l, d, x)[v]
  {
    hide Inflow, Sum, BaseRank;
  }

  lemma BalancedBounds(l: Links)
    requires Balanced(l)
    ensures |l.inEdges| == |l.outWeight|
    ensures forall v, i | 0 <= v < |l.inEdges| && 0 <= i < |l.inEdges[v]| :: l.inEdges[v][i].src < |l.outWeight|
  {
  }

  lemma RateProduct(d: real, x: real, w: real, ow: real)
    requires ow > 0.0
    ensures d * (x / ow * w) == d * x * w / ow
  {
    var k := 1.0 / ow;
    assert x / ow == x * k;
    assert d * x * w / ow == d * x * w * k;
    assert d * (x * k * w) == d * x * w * k;
  }

  method DanglingSum(l: Links, ranks: seq<real>) returns (total: real)
    requires |ranks| == |l.outWeight|
    ensures total == Sum(DanglingParts(l, ranks))
  {
    total := 0.0;
    var i := 0;
    var parts := DanglingParts(l, ranks);
    while i < |ranks|
      invariant 0 <= i <= |ranks| && total == Sum(parts[..i])
    {
      assert parts[..i + 1] == parts[..i] + [parts[i]];
      SumPush(parts[..i], parts[i]);
      if l.outWeight[i] == 0.0 {
        total := total + ranks[i];
      }
      i := i + 1;
    }
    assert parts[..|ranks|] == parts;
  }

  method ChangeOf(a: seq<real>, b: seq<real>) returns (total: real)
    requires |a| == |b|
    ensures total == L1(a, b)
  {
    total := 0.0;
    var i := 0;
    var gaps := Gaps(a, b);
    while i < |a|
      invariant 0 <= i <= |a| && total == Sum(gaps[..i])
    {
      assert gaps[..i + 1] == gaps[..i] + [gaps[i]];
      SumPush(gaps[..i], gaps[i]);
      total := total + Abs(a[i] - b[i]);
      i := i + 1;
    }
    assert gaps[..|a|] == gaps;
  }

  /** Power iteration from the uniform vector: stops after the first round whose change falls below
      `epsilon`, or after `maxIter` rounds. */
  method PowerIteration(l: Links, d: real, maxIter: nat, epsilon: real) returns (ranks: seq<real>, rounds: nat)
    requires Balanced(l) && |l.outWeight| > 0 && maxIter > 0
    ensures 1 <= rounds <= maxIter && ranks == Iterate(l, d, rounds)
    ensures rounds < maxIter ==> L1(Iterate(l, d, rounds), Iterate(l, d, rounds - 1)) < epsilon
    ensures forall k | 1 <= k < rounds :: L1(Iterate(l, d, k), Iterate(l, d, k - 1)) >= epsilon
  {
    hide L1, Round, Balanced;
    BalancedBounds(l);
    ranks := Uniform(|l.outWeight|);
    rounds := 0;
    while rounds < maxIter
      invariant 0 <= rounds <= maxIter && ranks == Iterate(l, d, rounds)
      invariant forall k | 1 <= k <= rounds :: L1(Iterate(l, d, k), Iterate(l, d, k - 1)) >= epsilon
    {
      var newRanks := NextRanks(l, d, ranks);
      var change := ChangeOf(newRanks, ranks);
      ranks := newRanks;
      rounds := rounds + 1;
      if change < epsilon {
        break;
      }
    }
  }

  /** Damping factor, round limit, threshold, and the weight of each edge row unless all weigh 1. */
  datatype Config = Config(damping: real, maxIter: nat, epsilon: real, weights: Option<seq<real>>) {

    predicate Good() {
      0.0 < damping < 1.0 && maxIter > 0 && epsilon > 0.0
    }
  }

  /** What a successful run with some nodes promises: the ranks after `rounds` rounds over links that reflect
      the edge rows are a distribution, within `damping / (1 - damping)` times `epsilon` of any stationary one
      when the loop stopped early. */
  ghost predicate Ranked(edges: seq<WeightedEdge>, index: map<string, nat>, n: nat, config: Config, l: Links, rounds: nat, ranks: seq<real>) {
    && n > 0 && |ranks| == n == |l.inEdges| == |l.outWeight| && Balanced(l) && Reflects(l, edges, index) && Distribution(ranks)
    && 1 <= rounds <= config.maxIter && ranks == Iterate(l, config.damping, rounds)
    && (rounds < config.maxIter ==> NearStationary(l, config.damping, config.epsilon, ranks))
  }

  /** The whole kernel: exactly bad settings and a negative weight are refused, an empty graph has no ranks. */
  method PageRankKernel(edges: seq<WeightedEdge>, index: map<string, nat>, n: nat, config: Config)
    returns (r: Result<seq<real>>, ghost l: Links, ghost rounds: nat)
    requires forall id | id in index :: index[id] < n
    ensures r == Failure(InvalidConfig) <==> !config.Good()
    ensures r == Failure(InvalidConfig) <==> config.damping <= 0.0 || config.damping >= 1.0 || config.maxIter == 0 || config.epsilon <= 0.0
    ensures r == Failure(NegativeWeight) <==> config.Good() && HasNegative(edges, index)
    ensures r.Success? <==> config.Good() && !HasNegative(edges, index)
    ensures r.Success? ==> |r.value| == n
    ensures r.Success? && n > 0 ==> Ranked(edges, index, n, config, l, rounds, r.value)
  {
    l, rounds := Links([], []), 0;
    if !config.Good() {
      return Failure(InvalidConfig), l, rounds;
    }
    if n == 0 {
      return Success([]), l, rounds;
    }
    var links := BuildInAdjacency(edges, index, n);
    if links.Failure? {
      return Failure(links.error), l, rounds;
    }
    hide Balanced, Reflects, Distribution, Iterate, L1, NearStationary, HasNegative;
    l := links.value;
    BalancedBounds(l);
    var ranks, k := PowerIteration(links.value, config.damping, config.maxIter, config.epsilon);
    rounds := k;
    RunKeepsDistribution(l, config.damping, rounds);
    if rounds < config.maxIter {
      EarlyStopIsClose(l, config.damping, config.epsilon, rounds);
    }
    r := Success(ranks);
  }

  // ---- over a graph ----

  /** The edge table with the weight column, or with weight 1 everywhere. */
  function WeightedRows(rows: seq<EdgeRow>, weights: Option<seq<real>>): (r: seq<WeightedEdge>)
    requires weights.Some? ==> |weights.value| == |rows|
    ensures |r| == |rows|
    ensures forall e | 0 <= e < |r| :: r[e].src == rows[e].src && r[e].dst == rows[e].dst
    ensures forall e | 0 <= e < |r| :: r[e].weight == if weights.Some? then weights.value[e] else 1.0
  {
    seq(|rows|, e requires 0 <= e < |rows| => WeightedEdge(rows[e].src, rows[e].dst, if weights.Some? then weights.value[e] else 1.0))
  }

  /** The total weight of the edge rows from `a` to `b`. */
  function IdTotal(edges: seq<WeightedEdge>, a: string, b: string): real {
    if edges == [] then 0.0 else
      var e := edges[|edges| - 1];
      IdTotal(edges[..|edges| - 1], a, b) + if e.src == a && e.dst == b then e.weight else 0.0
  }

  lemma {:induction false} TotalById(edges: seq<WeightedEdge>, index: map<string, nat>, ids: seq<string>, u: nat, v: nat)
    requires Numbers(index, ids) && u < |ids| && v < |ids|
    ensures EdgeTotal(edges, index, u, v) == IdTotal(edges, ids[u], ids[v])
  {
    if edges != [] {
      var e := edges[|edges| - 1];
      TotalById(edges[..|edges| - 1], index, ids, u, v);
      NumberIs(index, ids, e.src, u);
      NumberIs(index, ids, e.dst, v);
    }
  }

  lemma NumberIs(index: map<string, nat>, ids: seq<string>, id: string, u: nat)
    requires Numbers(index, ids) && u < |ids|
    ensures (id in index && index[id] == u) <==> id == ids[u]
  {
    if id in index {
      var i :| 0 <= i < |ids| && ids[i] == id;
    }
  }

  /** PageRank of a graph, by node row: the links carry, between any two nodes, the total weight of the edge
      rows between their ids. */
  method Pagerank(g: Graphs.GraphFrame, config: Config) returns (r: Result<seq<real>>, ghost l: Links, ghost rounds: nat)
    requires Graphs.Valid(g) && (config.weights.Some? ==> |config.weights.value| == |g.edges.rows|)
    ensures r == Failure(InvalidConfig) <==> !config.Good()
    ensures r == Failure(InvalidConfig) <==> config.damping <= 0.0 || config.damping >= 1.0 || config.maxIter == 0 || config.epsilon <= 0.0
    ensures r == Failure(NegativeWeight) <==> config.Good() && HasNegative(WeightedRows(g.edges.rows, config.weights), g.nodes.idIndex)
    ensures r.Success? ==> |r.value| == |g.nodes.rows|
    ensures r.Success? && r.value != [] ==>
              Ranked(WeightedRows(g.edges.rows, config.weights), g.nodes.idIndex, |g.nodes.rows|, config, l, rounds, r.value)
    ensures r.Success? && r.value != [] ==> forall u, v | 0 <= u < |l.inEdges| && 0 <= v < |l.inEdges| ::
              WeightFrom(l.inEdges[v], u) == IdTotal(WeightedRows(g.edges.rows, config.weights), g.nodeIdxToId[u], g.nodeIdxToId[v])
  {
    hide Ranked, HasNegative, IdTotal, WeightFrom;
    GraphIndex(g);
    var edges := WeightedRows(g.edges.rows, config.weights);
    r, l, rounds := PageRankKernel(edges, g.nodes.idIndex, |g.nodes.rows|, config);
    if r.Success? && r.value != [] {
      LinksById(g, edges, config, l, rounds, r.value);
    }
  }

  lemma GraphIndex(g: Graphs.GraphFrame)
    requires Graphs.Valid(g)
    ensures Numbers(g.nodes.idIndex, g.nodeIdxToId) && |g.nodeIdxToId| == |g.nodes.rows|
    ensures forall id | id in g.nodes.idIndex :: g.nodes.idIndex[id] < |g.nodes.rows|
  {
    forall id | id in g.nodes.idIndex
      ensures g.nodes.idIndex[id] < |g.nodes.rows|
    {
      var i :| 0 <= i < |g.nodes.rows| && Nodes.Ids(g.nodes.rows)[i] == id;
    }
  }

  lemma LinksById(g: Graphs.GraphFrame, edges: seq<WeightedEdge>, config: Config, l: Links, rounds: nat, ranks: seq<real>)
    requires Graphs.Valid(g) && Ranked(edges, g.nodes.idIndex, |g.nodes.rows|, config, l, rounds, ranks)
    ensures |l.inEdges| == |g.nodeIdxToId|
    ensures forall u, v | 0 <= u < |l.inEdges| && 0 <= v < |l.inEdges| ::
              WeightFrom(l.inEdges[v], u) == IdTotal(edges, g.nodeIdxToId[u], g.nodeIdxToId[v])
  {
    hide WeightFrom, EdgeTotal, IdTotal, Numbers, Graphs.Valid, Balanced, Distribution, NearStationary, Iterate;
    GraphIndex(g);
    forall u, v | 0 <= u < |l.inEdges| && 0 <= v < |l.inEdges|
      ensures WeightFrom(l.inEdges[v], u) == IdTotal(edges, g.nodeIdxToId[u], g.nodeIdxToId[v])
    {
      TotalById(edges, g.nodes.idIndex, g.nodeIdxToId, u, v);
    }
  }

  /** `x` is close to every stationary vector. */
  ghost predicate NearStationary(l: Links, d: real, epsilon: real, x: seq<real>) {
    && |x| == |l.outWeight| == |l.inEdges| && |x| > 0
    && forall p | |p| == |x| && Round(l, d, p) == p :: Within(d, L1(x, p), epsilon)
  }

  /** `gap` is at most `d / (1 - d)` times `epsilon`. */
  predicate Within(d: real, gap: real, epsilon: real) {
    (1.0 - d) * gap <= d * epsilon
  }

  lemma EarlyStopIsClose(l: Links, d: real, epsilon: real, rounds: nat)
    requires Balanced(l) && |l.outWeight| > 0 && 0.0 < d < 1.0 && rounds > 0
    requires L1(Iterate(l, d, rounds), Iterate(l, d, rounds - 1)) < epsilon
    ensures NearStationary(l, d, epsilon, Iterate(l, d, rounds))
  {
    hide L1, Round, Iterate, Within;
    IterateStep(l, d, rounds - 1);
    var x, before := Iterate(l, d, rounds), Iterate(l, d, rounds - 1);
    forall p | |p| == |x| && Round(l, d, p) == p
      ensures Within(d, L1(x, p), epsilon)
    {
      StopIsWithin(l, d, before, p, epsilon);
    }
  }

  lemma StopIsWithin(l: Links, d: real, x: seq<real>, p: seq<real>, epsilon: real)
    requires Balanced(l) && |x| == |p| == |l.outWeight| && |p| > 0 && 0.0 < d < 1.0 && Round(l, d, p) == p
    requires L1(Round(l, d, x), x) < epsilon
    ensures Within(d, L1(Round(l, d, x), p), epsilon)
  {
    hide L1, Round;
    StopIsClose(l, d, x, p);
    MonotoneTimes(d, L1(Round(l, d, x), x), epsilon);
  }
}
