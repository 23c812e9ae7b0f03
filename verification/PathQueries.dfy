/** The public path queries, by node id, over a whole graph frame. */
module PathQueries {
  import opened Basics
  import opened Rows
  import opened Adjacency
  import Csr
  import Nodes = NodeFrames
  import Edges = EdgeFrames
  import Graphs = GraphFrames
  import Networks
  import Searches
  import ShortestPath
  import AllPaths
  import AStar
  import HopSearch
  import Deviations
  import YenRuns
  import YenInvariants
  import Yen

  /** Direction, edge types and one weight per edge row; no weights means every edge weighs 1. */
  datatype Config = Config(d: Direction, spec: EdgeTypeSpec, weight: seq<nat>)

  predicate PositiveWeights(c: Config) {
    forall e | 0 <= e < |c.weight| :: c.weight[e] > 0
  }

  // ---- trips: walks read off the edge rows, by id ----

  datatype Trip = Trip(ids: seq<string>, rows: seq<nat>)

  /** Row `r` has a type the configuration asks for and leads from `a` to `b` in the direction it asks for. */
  ghost predicate Leg(c: Config, r: EdgeRow, a: string, b: string) {
    && (c.spec.Any? || (c.spec.Single? && r.etype == c.spec.etype) || (c.spec.Multiple? && r.etype in c.spec.etypes))
    && ((!c.d.In? && r.src == a && r.dst == b) || (!c.d.Out? && r.dst == a && r.src == b))
  }

  lemma LegMeans(c: Config, r: EdgeRow, a: string, b: string)
    ensures Leg(c, r, a, b) <==> Eligible(r, c.spec, c.d, a, b)
  {
    hide Eligible;
    EligibleMeans(r, c.spec, c.d, a, b);
  }

  ghost predicate IsTrip(g: Graphs.GraphFrame, c: Config, src: string, dst: string, t: Trip) {
    && |t.ids| == |t.rows| + 1 && t.ids[0] == src && t.ids[|t.rows|] == dst
    && forall i | 0 <= i < |t.rows| :: t.rows[i] < |g.edges.rows| && Leg(c, g.edges.rows[t.rows[i]], t.ids[i], t.ids[i + 1])
  }

  function TripCost(c: Config, rows: seq<nat>): nat {
    Networks.Cost(Networks.Network([], c.weight), rows)
  }

  /** A trip costs the sum of its weights: the column's entry for each row, or one per row without a column. */
  lemma TripCostMeans(c: Config, a: seq<nat>, b: seq<nat>, e: nat)
    ensures TripCost(c, []) == 0 && TripCost(c, a + b) == TripCost(c, a) + TripCost(c, b)
    ensures e < |c.weight| ==> TripCost(c, [e]) == c.weight[e]
    ensures c.weight == [] ==> TripCost(c, a) == |a|
  {
    var net := Networks.Network([], c.weight);
    Networks.CostConcat(net, a, b);
    Networks.CostPrefix(net, [e], 0);
    assert [e][..1] == [e];
    if c.weight == [] {
      UnitCost(c, a);
    }
  }

  lemma {:induction false} UnitCost(c: Config, rows: seq<nat>)
    requires c.weight == []
    ensures TripCost(c, rows) == |rows|
  {
    if rows != [] {
      UnitCost(c, rows[..|rows| - 1]);
    }
  }

  /** `t` is a cheapest trip. */
  ghost predicate Cheapest(g: Graphs.GraphFrame, c: Config, src: string, dst: string, t: Trip) {
    IsTrip(g, c, src, dst, t) && forall x | IsTrip(g, c, src, dst, x) :: TripCost(c, t.rows) <= TripCost(c, x.rows)
  }

  /** Some cheapest trip visits exactly these ids. */
  ghost predicate CheapestIds(g: Graphs.GraphFrame, c: Config, src: string, dst: string, ids: seq<string>) {
    exists rows :: Cheapest(g, c, src, dst, Trip(ids, rows))
  }

  // ---- trips are walks of the network ----

  lemma {:induction false} SameCost(c: Config, g: Networks.Network, rows: seq<nat>)
    requires g.weight == c.weight
    ensures Networks.Cost(g, rows) == TripCost(c, rows)
  {
    if rows != [] {
      SameCost(c, g, rows[..|rows| - 1]);
    }
  }

  function NamesOf(g: Graphs.GraphFrame, ns: seq<nat>): (ids: seq<string>)
    ensures |ids| == |ns| && forall i | 0 <= i < |ns| :: ids[i] == if ns[i] < |g.edgeNodeIdxToId| then g.edgeNodeIdxToId[ns[i]] else ""
  {
    seq(|ns|, i requires 0 <= i < |ns| => if ns[i] < |g.edgeNodeIdxToId| then g.edgeNodeIdxToId[ns[i]] else "")
  }

  /** The network of a graph under a configuration, with what it stands for. */
  ghost predicate Models(g: Graphs.GraphFrame, c: Config, net: Networks.Network) {
    && Graphs.Valid(g) && net.Valid() && net.weight == c.weight && |net.adj| == |Edges.IdsOf(g.edges.rows)|
    && forall u: nat, v: nat, e: nat :: net.HasArc(u, v, e) <==>
         && u < |net.adj| && v < |net.adj| && e < |g.edges.rows|
         && Eligible(g.edges.rows[e], c.spec, c.d, Edges.IdsOf(g.edges.rows)[u], Edges.IdsOf(g.edges.rows)[v])
  }

  lemma ModelledRows(g: Graphs.GraphFrame, c: Config, net: Networks.Network)
    requires Models(g, c, net)
    ensures g.edgeNodeIdxToId == Edges.IdsOf(g.edges.rows) && Distinct(Edges.IdsOf(g.edges.rows)) && |net.adj| == |g.edgeNodeIdxToId|
  {
    hide Edges.IdsOf, Edges.Valid;
    Edges.IdsOfDistinct(g.edges.rows);
  }

  lemma WalkIsTrip(g: Graphs.GraphFrame, c: Config, net: Networks.Network, s: nat, w: Networks.Walk, t: nat)
    requires Models(g, c, net) && Networks.Joins(net, s, w, t)
    ensures s < |g.edgeNodeIdxToId| && t < |g.edgeNodeIdxToId|
    ensures IsTrip(g, c, g.edgeNodeIdxToId[s], g.edgeNodeIdxToId[t], Trip(NamesOf(g, w.nodes), w.rows))
    ensures Networks.Cost(net, w.rows) == TripCost(c, w.rows)
  {
    hide Edges.IdsOf, Graphs.Valid, Eligible;
    ModelledRows(g, c, net);
    SameCost(c, net, w.rows);
    forall i | 0 <= i < |w.rows|
      ensures w.rows[i] < |g.edges.rows|
      ensures Leg(c, g.edges.rows[w.rows[i]], NamesOf(g, w.nodes)[i], NamesOf(g, w.nodes)[i + 1])
    {
      assert net.HasArc(w.nodes[i], w.nodes[i + 1], w.rows[i]);
      LegMeans(c, g.edges.rows[w.rows[i]], NamesOf(g, w.nodes)[i], NamesOf(g, w.nodes)[i + 1]);
    }
  }

  lemma StopIndexed(g: Graphs.GraphFrame, c: Config, src: string, dst: string, t: Trip, i: nat)
    requires IsTrip(g, c, src, dst, t) && i < |t.ids| && src in Edges.IdsOf(g.edges.rows)
    ensures t.ids[i] in Edges.IdsOf(g.edges.rows)
  {
    hide Edges.IdsOf, MatchesEdgeType;
    if i > 0 {
      Edges.EndsIn(g.edges.rows, t.rows[i - 1]);
    }
  }

  function IndicesOf(ids: seq<string>, all: seq<string>): (ns: seq<nat>)
    requires forall i | 0 <= i < |ids| :: ids[i] in all
    ensures |ns| == |ids| && forall i | 0 <= i < |ids| :: ns[i] < |all| && all[ns[i]] == ids[i]
  {
    seq(|ids|, i requires 0 <= i < |ids| => Position(all, ids[i]))
  }

  lemma TripIsWalk(g: Graphs.GraphFrame, c: Config, net: Networks.Network, s: nat, t: nat, trip: Trip) returns (w: Networks.Walk)
    requires Models(g, c, net) && s < |g.edgeNodeIdxToId| && t < |g.edgeNodeIdxToId|
    requires IsTrip(g, c, g.edgeNodeIdxToId[s], g.edgeNodeIdxToId[t], trip)
    ensures Networks.Joins(net, s, w, t) && w.rows == trip.rows && NamesOf(g, w.nodes) == trip.ids
    ensures Networks.Cost(net, w.rows) == TripCost(c, trip.rows)
  {
    hide Edges.IdsOf, Graphs.Valid, Eligible;
    ModelledRows(g, c, net);
    SameCost(c, net, trip.rows);
    var all := Edges.IdsOf(g.edges.rows);
    forall i | 0 <= i < |trip.ids|
      ensures trip.ids[i] in all
    {
      StopIndexed(g, c, all[s], all[t], trip, i);
    }
    w := Networks.Walk(IndicesOf(trip.ids, all), trip.rows);
    assert w.nodes[0] == s && w.nodes[|w.rows|] == t;
    forall i | 0 <= i < |w.rows|
      ensures net.HasArc(w.nodes[i], w.nodes[i + 1], w.rows[i])
    {
      LegMeans(c, g.edges.rows[w.rows[i]], trip.ids[i], trip.ids[i + 1]);
    }
    assert NamesOf(g, w.nodes) == trip.ids;
  }

  lemma ReachableIsTrip(g: Graphs.GraphFrame, c: Config, net: Networks.Network, s: nat, t: nat)
    requires Models(g, c, net) && s < |g.edgeNodeIdxToId| && t < |g.edgeNodeIdxToId|
    ensures Networks.Reachable(net, s, t) <==> exists x :: IsTrip(g, c, g.edgeNodeIdxToId[s], g.edgeNodeIdxToId[t], x)
  {
    hide Models, IsTrip, Networks.Joins;
    if w :| Networks.Joins(net, s, w, t) {
      WalkIsTrip(g, c, net, s, w, t);
    }
    if x :| IsTrip(g, c, g.edgeNodeIdxToId[s], g.edgeNodeIdxToId[t], x) {
      var w := TripIsWalk(g, c, net, s, t, x);
    }
  }

  lemma DistanceIsCheapest(g: Graphs.GraphFrame, c: Config, net: Networks.Network, s: nat, t: nat, w: Networks.Walk)
    requires Models(g, c, net) && Networks.Joins(net, s, w, t) && Networks.IsDistance(net, s, t, Networks.Cost(net, w.rows))
    ensures s < |g.edgeNodeIdxToId| && t < |g.edgeNodeIdxToId|
    ensures Cheapest(g, c, g.edgeNodeIdxToId[s], g.edgeNodeIdxToId[t], Trip(NamesOf(g, w.nodes), w.rows))
  {
    hide Models, IsTrip, Networks.Joins;
    WalkIsTrip(g, c, net, s, w, t);
    forall x | IsTrip(g, c, g.edgeNodeIdxToId[s], g.edgeNodeIdxToId[t], x)
      ensures TripCost(c, w.rows) <= TripCost(c, x.rows)
    {
      var y := TripIsWalk(g, c, net, s, t, x);
    }
  }

  lemma CheapestIsDistance(g: Graphs.GraphFrame, c: Config, net: Networks.Network, s: nat, t: nat, trip: Trip) returns (w: Networks.Walk)
    requires Models(g, c, net) && s < |g.edgeNodeIdxToId| && t < |g.edgeNodeIdxToId|
    requires Cheapest(g, c, g.edgeNodeIdxToId[s], g.edgeNodeIdxToId[t], trip)
    ensures Networks.Joins(net, s, w, t) && Networks.IsDistance(net, s, t, Networks.Cost(net, w.rows)) && NamesOf(g, w.nodes) == trip.ids
  {
    hide Models, IsTrip, Networks.Joins;
    w := TripIsWalk(g, c, net, s, t, trip);
    assert Networks.Reach(net, s, t, Networks.Cost(net, w.rows));
    forall x | Networks.Joins(net, s, x, t)
      ensures Networks.Cost(net, w.rows) <= Networks.Cost(net, x.rows)
    {
      WalkIsTrip(g, c, net, s, x, t);
    }
  }

  // ---- endpoints ----

  /** A node without edges is on no trip to or from another node. */
  lemma NoTrip(g: Graphs.GraphFrame, c: Config, src: string, dst: string)
    requires src != dst && (src !in Edges.IdsOf(g.edges.rows) || dst !in Edges.IdsOf(g.edges.rows))
    ensures forall x :: !IsTrip(g, c, src, dst, x)
  {
    hide Edges.IdsOf, IsTrip;
    forall x
      ensures !IsTrip(g, c, src, dst, x)
    {
      if IsTrip(g, c, src, dst, x) {
        TripEnds(g, c, src, dst, x);
      }
    }
  }

  lemma TripEnds(g: Graphs.GraphFrame, c: Config, src: string, dst: string, x: Trip)
    requires IsTrip(g, c, src, dst, x) && src != dst
    ensures src in Edges.IdsOf(g.edges.rows) && dst in Edges.IdsOf(g.edges.rows)
  {
    hide Edges.IdsOf, MatchesEdgeType;
    var n := |x.rows|;
    assert n > 0;
    Edges.EndsIn(g.edges.rows, x.rows[0]);
    Edges.EndsIn(g.edges.rows, x.rows[n - 1]);
    assert Leg(c, g.edges.rows[x.rows[0]], x.ids[0], x.ids[1]);
    assert Leg(c, g.edges.rows[x.rows[n - 1]], x.ids[n - 1], x.ids[n]);
  }

  /** Staying put is the cheapest trip from a node to itself, and with positive weights the only one. */
  lemma StayHome(g: Graphs.GraphFrame, c: Config, src: string)
    ensures Cheapest(g, c, src, src, Trip([src], []))
    ensures PositiveWeights(c) ==> forall ids | CheapestIds(g, c, src, src, ids) :: ids == [src]
  {
    assert IsTrip(g, c, src, src, Trip([src], []));
    assert TripCost(c, []) == 0;
    forall ids | PositiveWeights(c) && CheapestIds(g, c, src, src, ids)
      ensures ids == [src]
    {
      var rows :| Cheapest(g, c, src, src, Trip(ids, rows));
      PositiveCost(c, rows);
    }
  }

  lemma PositiveCost(c: Config, rows: seq<nat>)
    requires PositiveWeights(c)
    ensures rows != [] ==> TripCost(c, rows) > 0
  {
  }

  ghost predicate Endpoints(g: Graphs.GraphFrame, src: string, dst: string) {
    src in Nodes.Ids(g.nodes.rows) && dst in Nodes.Ids(g.nodes.rows)
  }

  method ValidateEndpoints(g: Graphs.GraphFrame, src: string, dst: string) returns (r: Result<()>)
    requires Graphs.Valid(g)
    ensures r.Success? <==> Endpoints(g, src, dst)
    ensures r.Failure? ==> r.error == NodeNotFound(if src !in Nodes.Ids(g.nodes.rows) then src else dst)
  {
    hide Graphs.Valid;
    Searches.GraphIndexes(g, src);
    Searches.GraphIndexes(g, dst);
    if src !in g.nodes.idIndex {
      return Failure(NodeNotFound(src));
    }
    if dst !in g.nodes.idIndex {
      return Failure(NodeNotFound(dst));
    }
    return Success(());
  }

  method BuildNetwork(g: Graphs.GraphFrame, c: Config) returns (net: Networks.Network)
    requires Graphs.Valid(g)
    ensures Models(g, c, net) && Deviations.RowsJoinPairs(net)
    ensures forall u: nat, v: nat, e: nat :: net.HasArc(u, v, e) <==>
      && u < |net.adj| && v < |net.adj| && e < |g.edges.rows| && Leg(c, g.edges.rows[e], g.edgeNodeIdxToId[u], g.edgeNodeIdxToId[v])
  {
    hide Leg, Networks.Network.HasArc, Edges.IdsOf, NetworkOf, Indexed, Edges.Valid, Eligible, Deviations.RowsJoinPairs;
    var inCsr := Edges.InCsr(g.edges);
    NowIndexed(g.edges, inCsr);
    net := NetworkOf(g.edges, inCsr, c.d, c.spec, c.weight);
    NetworkFaithful(g.edges, inCsr, c.d, c.spec, c.weight);
    OnePair(g, c, net);
    ArcsAreLegs(g, c, net);
  }

  lemma ArcsAreLegs(g: Graphs.GraphFrame, c: Config, net: Networks.Network)
    requires Models(g, c, net)
    ensures |net.adj| == |g.edgeNodeIdxToId|
    ensures forall u: nat, v: nat, e: nat :: net.HasArc(u, v, e) <==>
      && u < |net.adj| && v < |net.adj| && e < |g.edges.rows| && Leg(c, g.edges.rows[e], g.edgeNodeIdxToId[u], g.edgeNodeIdxToId[v])
  {
    hide Leg, Eligible, Networks.Network.HasArc, Graphs.Valid, Edges.IdsOf;
    ModelledRows(g, c, net);
    forall u: nat, v: nat, e: nat | u < |net.adj| && v < |net.adj| && e < |g.edges.rows|
      ensures net.HasArc(u, v, e) <==> Leg(c, g.edges.rows[e], g.edgeNodeIdxToId[u], g.edgeNodeIdxToId[v])
    {
      LegMeans(c, g.edges.rows[e], g.edgeNodeIdxToId[u], g.edgeNodeIdxToId[v]);
    }
  }

  lemma OnePair(g: Graphs.GraphFrame, c: Config, net: Networks.Network)
    requires Models(g, c, net)
    ensures Deviations.RowsJoinPairs(net)
  {
    hide Edges.IdsOf, Graphs.Valid, MatchesEdgeType, Networks.Network.HasArc;
    ModelledRows(g, c, net);
    forall u: nat, v: nat, x: nat, y: nat, e: nat | net.HasArc(u, v, e) && net.HasArc(x, y, e)
      ensures (x == u && y == v) || (x == v && y == u)
    {
      var ids, r := Edges.IdsOf(g.edges.rows), g.edges.rows[e];
      assert Links(r, c.d, ids[u], ids[v]) && Links(r, c.d, ids[x], ids[y]);
    }
  }

  lemma PositiveNet(g: Graphs.GraphFrame, c: Config, net: Networks.Network)
    requires Models(g, c, net) && PositiveWeights(c)
    ensures net.Valid() && net.Positive() && |net.adj| == |g.edgeNodeIdxToId|
  {
    hide Edges.IdsOf, Graphs.Valid, Eligible;
    ModelledRows(g, c, net);
  }

  // ---- the queries ----

  /** One cheapest trip, or none exactly when there is no trip at all. */
  method FindShortestPath(g: Graphs.GraphFrame, src: string, dst: string, c: Config) returns (r: Result<Option<seq<string>>>)
    requires Graphs.Valid(g) && PositiveWeights(c)
    ensures r.Success? <==> Endpoints(g, src, dst)
    ensures r.Failure? ==> r.error == NodeNotFound(if src !in Nodes.Ids(g.nodes.rows) then src else dst)
    ensures r.Success? ==> (r.value.None? <==> !exists t :: IsTrip(g, c, src, dst, t))
    ensures r.Success? && r.value.Some? ==> CheapestIds(g, c, src, dst, r.value.value)
    ensures r.Success? && r.value.Some? ==> AllLegs(g, c, r.value.value)
  {
    hide Leg, AllLegs, Graphs.Valid, Edges.IdsOf, IsTrip, Cheapest, Endpoints, Models, Networks.Reachable, Networks.IsDistance, Networks.Along, ShortestPath.Canonical,
         PositiveWeights;
    var checked := ValidateEndpoints(g, src, dst);
    if checked.Failure? {
      return Failure(checked.error);
    }
    if src == dst {
      StayHome(g, c, src);
      HasTrip(g, c, src, dst, [src]);
      CheapestLegs(g, c, src, dst, [src]);
      return Success(Some([src]));
    }
    Searches.GraphIndexes(g, src);
    Searches.GraphIndexes(g, dst);
    if src !in g.edges.nodeIndex || dst !in g.edges.nodeIndex {
      NoTrip(g, c, src, dst);
      return Success(None);
    }
    var s, t := g.edges.nodeIndex[src], g.edges.nodeIndex[dst];
    var net := BuildNetwork(g, c);
    PositiveNet(g, c, net);
    EndNames(g, c, net, s, t, src, dst);
    var path := ShortestPath.DijkstraSingle(net, s, t);
    ReachableIsTrip(g, c, net, s, t);
    if path.None? {
      return Success(None);
    }
    PathIsCheapest(g, c, net, s, t, path.value);
    CheapestLegs(g, c, src, dst, NamesOf(g, path.value));
    return Success(Some(NamesOf(g, path.value)));
  }

  /** Some edge row of a type asked for joins `a` to `b` in the direction asked for. */
  ghost predicate SomeLeg(rows: seq<EdgeRow>, c: Config, a: string, b: string) {
    exists r :: (r in rows
                 && (c.spec.Any? || (c.spec.Single? && r.etype == c.spec.etype) || (c.spec.Multiple? && r.etype in c.spec.etypes))
                 && ((!c.d.In? && r.src == a && r.dst == b) || (!c.d.Out? && r.dst == a && r.src == b)))
  }

  /** Between any two neighbouring stops runs such an edge. */
  ghost predicate AllLegs(g: Graphs.GraphFrame, c: Config, ids: seq<string>) {
    forall i | 0 <= i < |ids| - 1 :: SomeLeg(g.edges.rows, c, ids[i], ids[i + 1])
  }

  lemma TripLegs(g: Graphs.GraphFrame, c: Config, src: string, dst: string, t: Trip)
    requires IsTrip(g, c, src, dst, t)
    ensures AllLegs(g, c, t.ids)
  {
    forall i | 0 <= i < |t.ids| - 1
      ensures SomeLeg(g.edges.rows, c, t.ids[i], t.ids[i + 1])
    {
      assert g.edges.rows[t.rows[i]] in g.edges.rows;
    }
  }

  lemma CheapestLegs(g: Graphs.GraphFrame, c: Config, src: string, dst: string, ids: seq<string>)
    requires CheapestIds(g, c, src, dst, ids)
    ensures AllLegs(g, c, ids)
  {
    hide AllLegs, IsTrip;
    var rows :| Cheapest(g, c, src, dst, Trip(ids, rows));
    TripLegs(g, c, src, dst, Trip(ids, rows));
  }

  lemma HasTrip(g: Graphs.GraphFrame, c: Config, src: string, dst: string, ids: seq<string>)
    requires CheapestIds(g, c, src, dst, ids)
    ensures exists t :: IsTrip(g, c, src, dst, t)
  {
    hide IsTrip;
    var rows :| Cheapest(g, c, src, dst, Trip(ids, rows));
    assert IsTrip(g, c, src, dst, Trip(ids, rows));
  }

  lemma EndNames(g: Graphs.GraphFrame, c: Config, net: Networks.Network, s: nat, t: nat, src: string, dst: string)
    requires Models(g, c, net) && s < |Edges.IdsOf(g.edges.rows)| && t < |Edges.IdsOf(g.edges.rows)|
    requires Edges.IdsOf(g.edges.rows)[s] == src && Edges.IdsOf(g.edges.rows)[t] == dst
    ensures s < |g.edgeNodeIdxToId| && t < |g.edgeNodeIdxToId| && g.edgeNodeIdxToId[s] == src && g.edgeNodeIdxToId[t] == dst
  {
    hide Edges.IdsOf, Models;
    ModelledRows(g, c, net);
  }

  lemma PathIsCheapest(g: Graphs.GraphFrame, c: Config, net: Networks.Network, s: nat, t: nat, ns: seq<nat>)
    requires Models(g, c, net) && s < |g.edgeNodeIdxToId| && t < |g.edgeNodeIdxToId|
    requires exists d :: Networks.IsDistance(net, s, t, d) && Networks.Along(net, s, t, ns, d)
    ensures CheapestIds(g, c, g.edgeNodeIdxToId[s], g.edgeNodeIdxToId[t], NamesOf(g, ns))
  {
    hide Models, Cheapest, Networks.Joins, Networks.IsDistance;
    var d :| Networks.IsDistance(net, s, t, d) && Networks.Along(net, s, t, ns, d);
    var rows :| Networks.Joins(net, s, Networks.Walk(ns, rows), t) && Networks.Cost(net, rows) == d;
    DistanceIsCheapest(g, c, net, s, t, Networks.Walk(ns, rows));
  }

  /** The ids of each path. */
  function AllNames(g: Graphs.GraphFrame, paths: seq<seq<nat>>): (r: seq<seq<string>>)
    ensures |r| == |paths| && forall i | 0 <= i < |paths| :: r[i] == NamesOf(g, paths[i])
  {
    seq(|paths|, i requires 0 <= i < |paths| => NamesOf(g, paths[i]))
  }

  /** Every cheapest id sequence, each once, and nothing else. */
  method FindAllShortestPaths(g: Graphs.GraphFrame, src: string, dst: string, c: Config) returns (r: Result<seq<seq<string>>>)
    requires Graphs.Valid(g) && PositiveWeights(c)
    ensures r.Success? <==> Endpoints(g, src, dst)
    ensures r.Failure? ==> r.error == NodeNotFound(if src !in Nodes.Ids(g.nodes.rows) then src else dst)
    ensures r.Success? ==> Distinct(r.value) && forall ids :: ids in r.value <==> CheapestIds(g, c, src, dst, ids)
    ensures r.Success? ==> forall ids | ids in r.value :: AllLegs(g, c, ids)
  {
    hide AllLegs, Graphs.Valid, Edges.IdsOf, CheapestIds, Endpoints, Models, AllPaths.MinCostPath, Distinct, PositiveWeights;
    var checked := ValidateEndpoints(g, src, dst);
    if checked.Failure? {
      return Failure(checked.error);
    }
    if src == dst {
      StayHome(g, c, src);
      OnlyHome(g, c, src);
      CheapestLegs(g, c, src, dst, [src]);
      return Success([[src]]);
    }
    Searches.GraphIndexes(g, src);
    Searches.GraphIndexes(g, dst);
    if src !in g.edges.nodeIndex || dst !in g.edges.nodeIndex {
      NoTrip(g, c, src, dst);
      NoCheapest(g, c, src, dst);
      return Success([]);
    }
    var s, t := g.edges.nodeIndex[src], g.edges.nodeIndex[dst];
    var net := BuildNetwork(g, c);
    PositiveNet(g, c, net);
    EndNames(g, c, net, s, t, src, dst);
    var paths := AllPaths.DijkstraAll(net, s, t);
    PathsAreCheapest(g, c, net, s, t, paths);
    forall ids | CheapestIds(g, c, src, dst, ids)
      ensures AllLegs(g, c, ids)
    {
      CheapestLegs(g, c, src, dst, ids);
    }
    return Success(AllNames(g, paths));
  }

  lemma OnlyHome(g: Graphs.GraphFrame, c: Config, src: string)
    requires Cheapest(g, c, src, src, Trip([src], [])) && forall ids | CheapestIds(g, c, src, src, ids) :: ids == [src]
    ensures Distinct([[src]]) && forall ids :: ids in [[src]] <==> CheapestIds(g, c, src, src, ids)
  {
    hide Cheapest;
  }

  lemma NoCheapest(g: Graphs.GraphFrame, c: Config, src: string, dst: string)
    requires forall x :: !IsTrip(g, c, src, dst, x)
    ensures Distinct<seq<string>>([]) && forall ids :: !CheapestIds(g, c, src, dst, ids)
  {
  }

  lemma PathsAreCheapest(g: Graphs.GraphFrame, c: Config, net: Networks.Network, s: nat, t: nat, paths: seq<seq<nat>>)
    requires Models(g, c, net) && s < |g.edgeNodeIdxToId| && t < |g.edgeNodeIdxToId| && Distinct(paths)
    requires forall ns :: ns in paths <==> AllPaths.MinCostPath(net, s, t, ns)
    ensures Distinct(AllNames(g, paths))
    ensures forall ids :: ids in AllNames(g, paths) <==> CheapestIds(g, c, g.edgeNodeIdxToId[s], g.edgeNodeIdxToId[t], ids)
  {
    hide Models, Cheapest, Networks.Joins, Networks.IsDistance;
    var names := AllNames(g, paths);
    forall i, j | 0 <= i < j < |names|
      ensures names[i] != names[j]
    {
      assert paths[i] in paths && paths[j] in paths && paths[i] != paths[j];
      NamesTell(g, c, net, s, t, paths[i], paths[j]);
    }
    forall ids
      ensures ids in names <==> CheapestIds(g, c, g.edgeNodeIdxToId[s], g.edgeNodeIdxToId[t], ids)
    {
      if ids in names {
        var i :| 0 <= i < |names| && names[i] == ids;
        assert paths[i] in paths;
        var rows :| Networks.Joins(net, s, Networks.Walk(paths[i], rows), t) && Networks.IsDistance(net, s, t, Networks.Cost(net, rows));
        DistanceIsCheapest(g, c, net, s, t, Networks.Walk(paths[i], rows));
      }
      if CheapestIds(g, c, g.edgeNodeIdxToId[s], g.edgeNodeIdxToId[t], ids) {
        var rows :| Cheapest(g, c, g.edgeNodeIdxToId[s], g.edgeNodeIdxToId[t], Trip(ids, rows));
        var w := CheapestIsDistance(g, c, net, s, t, Trip(ids, rows));
        assert w == Networks.Walk(w.nodes, w.rows);
        assert AllPaths.MinCostPath(net, s, t, w.nodes);
        var i :| 0 <= i < |paths| && paths[i] == w.nodes;
        assert names[i] == ids;
      }
    }
  }

  /** Different index paths have different ids. */
  lemma NamesTell(g: Graphs.GraphFrame, c: Config, net: Networks.Network, s: nat, t: nat, a: seq<nat>, b: seq<nat>)
    requires Models(g, c, net) && AllPaths.MinCostPath(net, s, t, a) && AllPaths.MinCostPath(net, s, t, b) && a != b
    ensures NamesOf(g, a) != NamesOf(g, b)
  {
    hide Edges.IdsOf, Eligible, Graphs.Valid, Networks.IsDistance;
    var x :| Networks.Joins(net, s, Networks.Walk(a, x), t);
    var y :| Networks.Joins(net, s, Networks.Walk(b, y), t);
    SameNamesSameNodes(g, c, net, a, b);
  }

  lemma SameNamesSameNodes(g: Graphs.GraphFrame, c: Config, net: Networks.Network, a: seq<nat>, b: seq<nat>)
    requires Models(g, c, net) && (forall i | 0 <= i < |a| :: a[i] < |net.adj|) && (forall i | 0 <= i < |b| :: b[i] < |net.adj|)
    ensures NamesOf(g, a) == NamesOf(g, b) <==> a == b
  {
    hide Edges.IdsOf, Models;
    ModelledRows(g, c, net);
    if NamesOf(g, a) == NamesOf(g, b) {
      assert |a| == |NamesOf(g, a)| == |b|;
      forall i | 0 <= i < |a|
        ensures a[i] == b[i]
      {
        assert NamesOf(g, a)[i] == NamesOf(g, b)[i];
      }
    }
  }

  // ---- A* ----

  /** The heuristic never overestimates a trip's cost. */
  ghost predicate AdmissibleFor(g: Graphs.GraphFrame, c: Config, dst: string, h: (string, string) -> real) {
    forall x, t | IsTrip(g, c, x, dst, t) :: h(x, dst) <= TripCost(c, t.rows) as real
  }

  function Estimates(g: Graphs.GraphFrame, dst: string, h: (string, string) -> real): (r: seq<real>)
    ensures |r| == |g.edgeNodeIdxToId| && forall v | 0 <= v < |r| :: r[v] == h(g.edgeNodeIdxToId[v], dst)
  {
    seq(|g.edgeNodeIdxToId|, v requires 0 <= v < |g.edgeNodeIdxToId| => h(g.edgeNodeIdxToId[v], dst))
  }

  lemma AdmissibleEstimates(g: Graphs.GraphFrame, c: Config, net: Networks.Network, dst: string, h: (string, string) -> real, t: nat)
    requires Models(g, c, net) && AdmissibleFor(g, c, dst, h) && t < |g.edgeNodeIdxToId| && g.edgeNodeIdxToId[t] == dst
    ensures AStar.Admissible(net, Estimates(g, dst, h), t)
  {
    hide Edges.IdsOf, IsTrip, Networks.Joins, Models;
    ModelledRows(g, c, net);
    forall v: nat, w | v < |g.edgeNodeIdxToId| && Networks.Joins(net, v, w, t)
      ensures Estimates(g, dst, h)[v] <= Networks.Cost(net, w.rows) as real
    {
      WalkIsTrip(g, c, net, v, w, t);
    }
  }

  /** A* by id: fails only on a negative estimate, finds a trip whenever there is one, and a cheapest one
      whenever the heuristic is admissible. */
  method FindAStarPath(g: Graphs.GraphFrame, src: string, dst: string, c: Config, heuristic: Option<(string, string) -> real>)
    returns (r: Result<Option<seq<string>>>)
    requires Graphs.Valid(g) && PositiveWeights(c)
    ensures !Endpoints(g, src, dst) ==> r == Failure(NodeNotFound(if src !in Nodes.Ids(g.nodes.rows) then src else dst))
    ensures Endpoints(g, src, dst) && r.Failure? ==> r.error == InvalidConfig && heuristic.Some? && exists x :: heuristic.value(x, dst) < 0.0
    ensures r.Success? ==> (r.value.None? <==> !exists t :: IsTrip(g, c, src, dst, t))
    ensures r.Success? && r.value.Some? && (heuristic.Some? ==> AdmissibleFor(g, c, dst, heuristic.value)) ==>
      CheapestIds(g, c, src, dst, r.value.value)
    ensures r.Success? && r.value.Some? ==> exists rows :: IsTrip(g, c, src, dst, Trip(r.value.value, rows))
    ensures r.Success? && r.value.Some? ==> AllLegs(g, c, r.value.value)
  {
    hide AllLegs, Graphs.Valid, Edges.IdsOf, IsTrip, Cheapest, Endpoints, Models, Networks.Reachable, Networks.IsDistance, Networks.Along, AdmissibleFor,
         AStar.Admissible, PositiveWeights;
    if heuristic.None? {
      r := FindShortestPath(g, src, dst, c);
      if r.Success? && r.value.Some? {
        CheapestTrip(g, c, src, dst, r.value.value);
      }
      return;
    }
    var checked := ValidateEndpoints(g, src, dst);
    if checked.Failure? {
      return Failure(checked.error);
    }
    if src == dst {
      StayHome(g, c, src);
      CheapestLegs(g, c, src, dst, [src]);
      CheapestTrip(g, c, src, dst, [src]);
      HasTrip(g, c, src, dst, [src]);
      return Success(Some([src]));
    }
    Searches.GraphIndexes(g, src);
    Searches.GraphIndexes(g, dst);
    if src !in g.edges.nodeIndex || dst !in g.edges.nodeIndex {
      NoTrip(g, c, src, dst);
      return Success(None);
    }
    var s, t := g.edges.nodeIndex[src], g.edges.nodeIndex[dst];
    var net := BuildNetwork(g, c);
    PositiveNet(g, c, net);
    EndNames(g, c, net, s, t, src, dst);
    var h := Estimates(g, dst, heuristic.value);
    var found := AStar.AStarSingle(net, s, t, h);
    if found.Failure? {
      return Failure(found.error);
    }
    ReachableIsTrip(g, c, net, s, t);
    if found.value.None? {
      return Success(None);
    }
    AlongTrip(g, c, net, s, t, found.value.value);
    ghost var rows :| IsTrip(g, c, src, dst, Trip(NamesOf(g, found.value.value), rows));
    TripLegs(g, c, src, dst, Trip(NamesOf(g, found.value.value), rows));
    if AdmissibleFor(g, c, dst, heuristic.value) {
      AdmissibleEstimates(g, c, net, dst, heuristic.value, t);
      PathIsCheapest(g, c, net, s, t, found.value.value);
    }
    return Success(Some(NamesOf(g, found.value.value)));
  }

  lemma CheapestTrip(g: Graphs.GraphFrame, c: Config, src: string, dst: string, ids: seq<string>)
    requires CheapestIds(g, c, src, dst, ids)
    ensures exists rows :: IsTrip(g, c, src, dst, Trip(ids, rows))
  {
    hide IsTrip;
    var rows :| Cheapest(g, c, src, dst, Trip(ids, rows));
    assert IsTrip(g, c, src, dst, Trip(ids, rows));
  }

  lemma AlongTrip(g: Graphs.GraphFrame, c: Config, net: Networks.Network, s: nat, t: nat, ns: seq<nat>)
    requires Models(g, c, net) && s < |g.edgeNodeIdxToId| && t < |g.edgeNodeIdxToId| && exists d :: Networks.Along(net, s, t, ns, d)
    ensures exists rows :: IsTrip(g, c, g.edgeNodeIdxToId[s], g.edgeNodeIdxToId[t], Trip(NamesOf(g, ns), rows))
  {
    hide Models, IsTrip, Networks.Joins;
    var d :| Networks.Along(net, s, t, ns, d);
    var rows :| Networks.Joins(net, s, Networks.Walk(ns, rows), t) && Networks.Cost(net, rows) == d;
    WalkIsTrip(g, c, net, s, Networks.Walk(ns, rows), t);
  }

  // ---- k shortest paths ----

  /** A simple trip within the hop limit. */
  ghost predicate SimpleTrip(g: Graphs.GraphFrame, c: Config, src: string, dst: string, maxHops: Option<nat>, t: Trip) {
    IsTrip(g, c, src, dst, t) && Distinct(t.ids) && (maxHops.Some? ==> |t.rows| <= maxHops.value)
  }

  /** Two simple trips part after stop `i`, and a second eligible edge runs beside the step the first one takes there. */
  ghost predicate HiddenTrip(g: Graphs.GraphFrame, c: Config, src: string, dst: string, maxHops: Option<nat>, t1: Trip, t2: Trip, i: nat, f: nat) {
    && SimpleTrip(g, c, src, dst, maxHops, t1) && SimpleTrip(g, c, src, dst, maxHops, t2) && i < |t1.rows| && i < |t2.rows|
    && t1.ids[..i + 1] == t2.ids[..i + 1] && t1.ids[i + 1] != t2.ids[i + 1]
    && f < |g.edges.rows| && f != t1.rows[i] && Leg(c, g.edges.rows[f], t1.ids[i], t1.ids[i + 1])
  }

  ghost predicate NoHiddenTrip(g: Graphs.GraphFrame, c: Config, src: string, dst: string, maxHops: Option<nat>) {
    forall t1, t2, i, f :: !HiddenTrip(g, c, src, dst, maxHops, t1, t2, i, f)
  }

  /** Some simple trip along `a` costs no more than any along `b`. */
  ghost predicate NoDearer(g: Graphs.GraphFrame, c: Config, src: string, dst: string, maxHops: Option<nat>, a: seq<string>, b: seq<string>) {
    exists rows :: SimpleTrip(g, c, src, dst, maxHops, Trip(a, rows)) &&
      forall t | SimpleTrip(g, c, src, dst, maxHops, t) && t.ids == b :: TripCost(c, rows) <= TripCost(c, t.rows)
  }

  /** `ids` is a simple trip no dearer than any simple trip outside `before`. */
  ghost predicate LeastOutside(g: Graphs.GraphFrame, c: Config, src: string, dst: string, maxHops: Option<nat>, before: seq<seq<string>>, ids: seq<string>) {
    exists rows :: SimpleTrip(g, c, src, dst, maxHops, Trip(ids, rows)) &&
      forall t | SimpleTrip(g, c, src, dst, maxHops, t) && t.ids !in before :: TripCost(c, rows) <= TripCost(c, t.rows)
  }

  /** Some simple trip visits exactly these ids. */
  ghost predicate SimpleIds(g: Graphs.GraphFrame, c: Config, src: string, dst: string, maxHops: Option<nat>, ids: seq<string>) {
    exists rows :: SimpleTrip(g, c, src, dst, maxHops, Trip(ids, rows))
  }

  ghost predicate AllSimple(g: Graphs.GraphFrame, c: Config, src: string, dst: string, maxHops: Option<nat>, paths: seq<seq<string>>) {
    Distinct(paths) && forall i | 0 <= i < |paths| :: SimpleIds(g, c, src, dst, maxHops, paths[i])
  }

  function NodesOf(paths: seq<HopSearch.PathCandidate>): (r: seq<seq<nat>>)
    ensures |r| == |paths| && forall i | 0 <= i < |paths| :: r[i] == paths[i].nodes
  {
    seq(|paths|, i requires 0 <= i < |paths| => paths[i].nodes)
  }

  lemma WantedIsSimple(g: Graphs.GraphFrame, c: Config, net: Networks.Network, s: nat, t: nat, maxHops: Option<nat>, w: Networks.Walk)
    requires Models(g, c, net) && Deviations.Wanted(Deviations.Request(net, s, t, maxHops), w)
    ensures s < |g.edgeNodeIdxToId| && t < |g.edgeNodeIdxToId|
    ensures SimpleTrip(g, c, g.edgeNodeIdxToId[s], g.edgeNodeIdxToId[t], maxHops, Trip(NamesOf(g, w.nodes), w.rows))
    ensures Networks.Cost(net, w.rows) == TripCost(c, w.rows)
  {
    hide Edges.IdsOf, IsTrip, Models;
    WalkIsTrip(g, c, net, s, w, t);
    ModelledRows(g, c, net);
  }

  lemma SimpleIsWanted(g: Graphs.GraphFrame, c: Config, net: Networks.Network, s: nat, t: nat, maxHops: Option<nat>, trip: Trip) returns (w: Networks.Walk)
    requires Models(g, c, net) && s < |g.edgeNodeIdxToId| && t < |g.edgeNodeIdxToId|
    requires SimpleTrip(g, c, g.edgeNodeIdxToId[s], g.edgeNodeIdxToId[t], maxHops, trip)
    ensures Deviations.Wanted(Deviations.Request(net, s, t, maxHops), w) && w.rows == trip.rows && NamesOf(g, w.nodes) == trip.ids
    ensures Networks.Cost(net, w.rows) == TripCost(c, trip.rows)
  {
    hide Edges.IdsOf, IsTrip, Models, Networks.Joins;
    w := TripIsWalk(g, c, net, s, t, trip);
    assert |w.nodes| == |NamesOf(g, w.nodes)|;
    forall i, j | 0 <= i < j < |w.nodes|
      ensures w.nodes[i] != w.nodes[j]
    {
      assert NamesOf(g, w.nodes)[i] != NamesOf(g, w.nodes)[j];
    }
  }

  lemma PathInRange(net: Networks.Network, s: nat, t: nat, maxHops: Option<nat>, pc: HopSearch.PathCandidate)
    requires Deviations.Path(Deviations.Request(net, s, t, maxHops), pc)
    ensures Deviations.Wanted(Deviations.Request(net, s, t, maxHops), Networks.Walk(pc.nodes, pc.rows)) && pc.cost == Networks.Cost(net, pc.rows)
    ensures forall i | 0 <= i < |pc.nodes| :: pc.nodes[i] < |net.adj|
  {
  }

  lemma NamesListed(g: Graphs.GraphFrame, c: Config, net: Networks.Network, s: nat, t: nat, maxHops: Option<nat>, paths: seq<HopSearch.PathCandidate>, ns: seq<nat>)
    requires Models(g, c, net) && Deviations.Paths(Deviations.Request(net, s, t, maxHops), paths) && forall i | 0 <= i < |ns| :: ns[i] < |net.adj|
    ensures NamesOf(g, ns) in AllNames(g, NodesOf(paths)) <==> Deviations.Listed(paths, ns)
  {
    hide Models, Deviations.Path;
    forall i | 0 <= i < |paths|
      ensures NamesOf(g, paths[i].nodes) == NamesOf(g, ns) <==> paths[i].nodes == ns
    {
      assert Deviations.Path(Deviations.Request(net, s, t, maxHops), paths[i]);
      PathInRange(net, s, t, maxHops, paths[i]);
      SameNamesSameNodes(g, c, net, paths[i].nodes, ns);
    }
    var names := AllNames(g, NodesOf(paths));
    if NamesOf(g, ns) in names {
      var i :| 0 <= i < |names| && names[i] == NamesOf(g, ns);
      assert paths[i].nodes == ns;
    }
    if Deviations.Listed(paths, ns) {
      var i :| 0 <= i < |paths| && paths[i].nodes == ns;
      assert names[i] == NamesOf(g, ns);
    }
  }

  lemma PathsSimple(g: Graphs.GraphFrame, c: Config, net: Networks.Network, s: nat, t: nat, maxHops: Option<nat>, paths: seq<HopSearch.PathCandidate>)
    requires Models(g, c, net) && Deviations.Paths(Deviations.Request(net, s, t, maxHops), paths) && s < |g.edgeNodeIdxToId| && t < |g.edgeNodeIdxToId|
    ensures AllSimple(g, c, g.edgeNodeIdxToId[s], g.edgeNodeIdxToId[t], maxHops, AllNames(g, NodesOf(paths)))
  {
    hide Models, Deviations.Path, SimpleTrip, Deviations.Wanted;
    var names := AllNames(g, NodesOf(paths));
    forall i | 0 <= i < |names|
      ensures SimpleIds(g, c, g.edgeNodeIdxToId[s], g.edgeNodeIdxToId[t], maxHops, names[i])
    {
      PathInRange(net, s, t, maxHops, paths[i]);
      WantedIsSimple(g, c, net, s, t, maxHops, Networks.Walk(paths[i].nodes, paths[i].rows));
      assert SimpleTrip(g, c, g.edgeNodeIdxToId[s], g.edgeNodeIdxToId[t], maxHops, Trip(names[i], paths[i].rows));
    }
    forall i, j | 0 <= i < j < |names|
      ensures names[i] != names[j]
    {
      PathInRange(net, s, t, maxHops, paths[i]);
      PathInRange(net, s, t, maxHops, paths[j]);
      SameNamesSameNodes(g, c, net, paths[i].nodes, paths[j].nodes);
    }
  }

  lemma PathLeast(g: Graphs.GraphFrame, c: Config, net: Networks.Network, s: nat, t: nat, maxHops: Option<nat>, paths: seq<HopSearch.PathCandidate>, i: nat)
    requires Models(g, c, net) && Deviations.Paths(Deviations.Request(net, s, t, maxHops), paths) && i < |paths|
    requires YenInvariants.Cheapest(Deviations.Request(net, s, t, maxHops), paths[..i], paths[i])
    requires s < |g.edgeNodeIdxToId| && t < |g.edgeNodeIdxToId|
    ensures LeastOutside(g, c, g.edgeNodeIdxToId[s], g.edgeNodeIdxToId[t], maxHops, AllNames(g, NodesOf(paths))[..i], NamesOf(g, paths[i].nodes))
  {
    hide Models, Deviations.Path, SimpleTrip, Deviations.Wanted, Deviations.Listed;
    var src, dst, best := g.edgeNodeIdxToId[s], g.edgeNodeIdxToId[t], paths[i];
    PathInRange(net, s, t, maxHops, best);
    WantedIsSimple(g, c, net, s, t, maxHops, Networks.Walk(best.nodes, best.rows));
    assert SimpleTrip(g, c, src, dst, maxHops, Trip(NamesOf(g, best.nodes), best.rows));
    assert AllNames(g, NodesOf(paths))[..i] == AllNames(g, NodesOf(paths[..i]));
    forall x | SimpleTrip(g, c, src, dst, maxHops, x) && x.ids !in AllNames(g, NodesOf(paths))[..i]
      ensures TripCost(c, best.rows) <= TripCost(c, x.rows)
    {
      var w := SimpleIsWanted(g, c, net, s, t, maxHops, x);
      WantedInRange(net, s, t, maxHops, w);
      NamesListed(g, c, net, s, t, maxHops, paths[..i], w.nodes);
    }
  }

  lemma WantedInRange(net: Networks.Network, s: nat, t: nat, maxHops: Option<nat>, w: Networks.Walk)
    requires Deviations.Wanted(Deviations.Request(net, s, t, maxHops), w)
    ensures forall i | 0 <= i < |w.nodes| :: w.nodes[i] < |net.adj|
    ensures |w.nodes| == |w.rows| + 1
  {
  }

  lemma PathsComplete(g: Graphs.GraphFrame, c: Config, net: Networks.Network, s: nat, t: nat, maxHops: Option<nat>, paths: seq<HopSearch.PathCandidate>, x: Trip)
    requires Models(g, c, net) && Deviations.Paths(Deviations.Request(net, s, t, maxHops), paths) && s < |g.edgeNodeIdxToId| && t < |g.edgeNodeIdxToId|
    requires forall w | Deviations.Wanted(Deviations.Request(net, s, t, maxHops), w) :: Deviations.Listed(paths, w.nodes)
    requires SimpleTrip(g, c, g.edgeNodeIdxToId[s], g.edgeNodeIdxToId[t], maxHops, x)
    ensures x.ids in AllNames(g, NodesOf(paths))
  {
    hide Models, Deviations.Path, Deviations.Wanted, Deviations.Listed;
    var w := SimpleIsWanted(g, c, net, s, t, maxHops, x);
    WantedInRange(net, s, t, maxHops, w);
    NamesListed(g, c, net, s, t, maxHops, paths, w.nodes);
  }

  /** The conditions by id and by index are the same. */
  lemma HiddenAlike(g: Graphs.GraphFrame, c: Config, net: Networks.Network, s: nat, t: nat, maxHops: Option<nat>)
    requires Models(g, c, net) && s < |g.edgeNodeIdxToId| && t < |g.edgeNodeIdxToId|
    ensures NoHiddenTrip(g, c, g.edgeNodeIdxToId[s], g.edgeNodeIdxToId[t], maxHops)
      <==> YenInvariants.NoHiddenBranch(Deviations.Request(net, s, t, maxHops))
  {
    hide Models, HiddenTrip, YenInvariants.HiddenBranch;
    var src, dst, r := g.edgeNodeIdxToId[s], g.edgeNodeIdxToId[t], Deviations.Request(net, s, t, maxHops);
    if w1, w2, i, f :| YenInvariants.HiddenBranch(r, w1, w2, i, f) {
      BranchIsTrip(g, c, net, s, t, maxHops, w1, w2, i, f);
    }
    if t1, t2, i, f :| HiddenTrip(g, c, src, dst, maxHops, t1, t2, i, f) {
      TripIsBranch(g, c, net, s, t, maxHops, t1, t2, i, f);
    }
  }

  lemma BranchIsTrip(g: Graphs.GraphFrame, c: Config, net: Networks.Network, s: nat, t: nat, maxHops: Option<nat>,
                     w1: Networks.Walk, w2: Networks.Walk, i: nat, f: nat)
    requires Models(g, c, net) && s < |g.edgeNodeIdxToId| && t < |g.edgeNodeIdxToId|
    requires YenInvariants.HiddenBranch(Deviations.Request(net, s, t, maxHops), w1, w2, i, f)
    ensures HiddenTrip(g, c, g.edgeNodeIdxToId[s], g.edgeNodeIdxToId[t], maxHops,
                       Trip(NamesOf(g, w1.nodes), w1.rows), Trip(NamesOf(g, w2.nodes), w2.rows), i, f)
  {
    hide Edges.IdsOf, SimpleTrip, Deviations.Wanted, Eligible, Graphs.Valid, Networks.Network.HasArc;
    ModelledRows(g, c, net);
    WantedIsSimple(g, c, net, s, t, maxHops, w1);
    WantedIsSimple(g, c, net, s, t, maxHops, w2);
    WantedInRange(net, s, t, maxHops, w1);
    WantedInRange(net, s, t, maxHops, w2);
    SamePrefix(w1.nodes, w2.nodes, NamesOf(g, w1.nodes), NamesOf(g, w2.nodes), i + 1);
    LegMeans(c, g.edges.rows[f], NamesOf(g, w1.nodes)[i], NamesOf(g, w1.nodes)[i + 1]);
  }

  lemma SamePrefix(a: seq<nat>, b: seq<nat>, x: seq<string>, y: seq<string>, n: nat)
    requires n <= |a| == |x| && n <= |b| == |y| && a[..n] == b[..n]
    requires forall k | 0 <= k < n && a[k] == b[k] :: x[k] == y[k]
    ensures x[..n] == y[..n]
  {
    forall k | 0 <= k < n
      ensures x[k] == y[k]
    {
      assert a[..n][k] == b[..n][k];
    }
  }

  lemma TripIsBranch(g: Graphs.GraphFrame, c: Config, net: Networks.Network, s: nat, t: nat, maxHops: Option<nat>, t1: Trip, t2: Trip, i: nat, f: nat)
    requires Models(g, c, net) && s < |g.edgeNodeIdxToId| && t < |g.edgeNodeIdxToId|
    requires HiddenTrip(g, c, g.edgeNodeIdxToId[s], g.edgeNodeIdxToId[t], maxHops, t1, t2, i, f)
    ensures exists w1, w2 :: YenInvariants.HiddenBranch(Deviations.Request(net, s, t, maxHops), w1, w2, i, f)
  {
    hide Edges.IdsOf, SimpleTrip, Deviations.Wanted, Eligible, Graphs.Valid, Networks.Network.HasArc;
    ModelledRows(g, c, net);
    var w1 := SimpleIsWanted(g, c, net, s, t, maxHops, t1);
    var w2 := SimpleIsWanted(g, c, net, s, t, maxHops, t2);
    WantedInRange(net, s, t, maxHops, w1);
    WantedInRange(net, s, t, maxHops, w2);
    forall k | 0 <= k < i + 1
      ensures w1.nodes[k] == w2.nodes[k]
    {
      assert t1.ids[..i + 1][k] == t2.ids[..i + 1][k];
    }
    assert w1.nodes[..i + 1] == w2.nodes[..i + 1];
    LegMeans(c, g.edges.rows[f], t1.ids[i], t1.ids[i + 1]);
    assert YenInvariants.HiddenBranch(Deviations.Request(net, s, t, maxHops), w1, w2, i, f);
  }

  /** Costs come out in order: each name list has a trip no dearer than any along a later one. */
  lemma PathsInOrder(g: Graphs.GraphFrame, c: Config, net: Networks.Network, s: nat, t: nat, maxHops: Option<nat>,
                     paths: seq<HopSearch.PathCandidate>, i: nat, j: nat)
    requires Models(g, c, net) && s < |g.edgeNodeIdxToId| && t < |g.edgeNodeIdxToId|
    requires Deviations.Paths(Deviations.Request(net, s, t, maxHops), paths) && i <= j < |paths| && paths[i].cost <= paths[j].cost
    requires CheapRows(net, s, t, maxHops, paths[j])
    ensures NoDearer(g, c, g.edgeNodeIdxToId[s], g.edgeNodeIdxToId[t], maxHops, NamesOf(g, paths[i].nodes), NamesOf(g, paths[j].nodes))
  {
    hide Models, Deviations.Path, SimpleTrip, Deviations.Wanted;
    var src, dst, p := g.edgeNodeIdxToId[s], g.edgeNodeIdxToId[t], paths[i];
    PathInRange(net, s, t, maxHops, p);
    PathInRange(net, s, t, maxHops, paths[j]);
    WantedIsSimple(g, c, net, s, t, maxHops, Networks.Walk(p.nodes, p.rows));
    assert SimpleTrip(g, c, src, dst, maxHops, Trip(NamesOf(g, p.nodes), p.rows));
    forall x | SimpleTrip(g, c, src, dst, maxHops, x) && x.ids == NamesOf(g, paths[j].nodes)
      ensures TripCost(c, p.rows) <= TripCost(c, x.rows)
    {
      var w := SimpleIsWanted(g, c, net, s, t, maxHops, x);
      WantedInRange(net, s, t, maxHops, w);
      SameNamesSameNodes(g, c, net, w.nodes, paths[j].nodes);
    }
  }

  /** The path costs no more than any other walk over its nodes. */
  ghost predicate CheapRows(net: Networks.Network, s: nat, t: nat, maxHops: Option<nat>, pc: HopSearch.PathCandidate) {
    forall w | Deviations.Wanted(Deviations.Request(net, s, t, maxHops), w) && w.nodes == pc.nodes :: pc.cost <= Networks.Cost(net, w.rows)
  }

  /** What the answer promises for different endpoints, whatever the edges. */
  ghost predicate KSound(g: Graphs.GraphFrame, c: Config, src: string, dst: string, maxHops: Option<nat>, k: nat, paths: seq<seq<string>>) {
    && |paths| <= k && AllSimple(g, c, src, dst, maxHops, paths)
    && (paths == [] <==> !exists t :: SimpleTrip(g, c, src, dst, maxHops, t))
    && (paths != [] ==> LeastOutside(g, c, src, dst, maxHops, [], paths[0]))
    && forall i, j | 0 <= i <= j < |paths| :: NoDearer(g, c, src, dst, maxHops, paths[i], paths[j])
  }

  /** What it promises besides when no parallel edge hides a branch. */
  ghost predicate KExact(g: Graphs.GraphFrame, c: Config, src: string, dst: string, maxHops: Option<nat>, k: nat, paths: seq<seq<string>>) {
    && (forall i | 0 <= i < |paths| :: LeastOutside(g, c, src, dst, maxHops, paths[..i], paths[i]))
    && (|paths| < k ==> forall x | SimpleTrip(g, c, src, dst, maxHops, x) :: x.ids in paths)
  }

  ghost predicate KBest(g: Graphs.GraphFrame, c: Config, src: string, dst: string, maxHops: Option<nat>, k: nat, paths: seq<seq<string>>) {
    KSound(g, c, src, dst, maxHops, k, paths) && (NoHiddenTrip(g, c, src, dst, maxHops) ==> KExact(g, c, src, dst, maxHops, k, paths))
  }

  lemma NothingBest(g: Graphs.GraphFrame, c: Config, src: string, dst: string, maxHops: Option<nat>, k: nat)
    requires forall x :: !IsTrip(g, c, src, dst, x)
    ensures KBest(g, c, src, dst, maxHops, k, [])
  {
    hide IsTrip, LeastOutside, NoHiddenTrip, NoDearer;
    var none: seq<seq<string>> := [];
    assert Distinct(none);
    forall x
      ensures !SimpleTrip(g, c, src, dst, maxHops, x)
    {
    }
  }

  lemma YenIsSound(g: Graphs.GraphFrame, c: Config, net: Networks.Network, s: nat, t: nat, maxHops: Option<nat>, k: nat, paths: seq<HopSearch.PathCandidate>)
    requires Models(g, c, net) && Deviations.RowsJoinPairs(net) && s < |g.edgeNodeIdxToId| && t < |g.edgeNodeIdxToId| && net.Valid()
    requires k > 0 && YenRuns.Yields(Deviations.Request(net, s, t, maxHops), k, paths)
    ensures KSound(g, c, g.edgeNodeIdxToId[s], g.edgeNodeIdxToId[t], maxHops, k, AllNames(g, NodesOf(paths)))
  {
    hide Models, Deviations.Paths, YenRuns.Yields, LeastOutside, SimpleTrip, AllSimple, Deviations.RowsJoinPairs, Deviations.Wanted,
         YenInvariants.Cheapest, NoDearer;
    var r, names := Deviations.Request(net, s, t, maxHops), AllNames(g, NodesOf(paths));
    YenInvariants.YieldsPaths(r, k, paths);
    YenInvariants.YieldsInOrder(r, k, paths);
    PathsSimple(g, c, net, s, t, maxHops, paths);
    EmptyAlike(g, c, net, s, t, maxHops);
    if paths != [] {
      PathLeast(g, c, net, s, t, maxHops, paths, 0);
      assert names[..0] == [];
    }
    forall i, j | 0 <= i <= j < |names|
      ensures NoDearer(g, c, g.edgeNodeIdxToId[s], g.edgeNodeIdxToId[t], maxHops, names[i], names[j])
    {
      PathsInOrder(g, c, net, s, t, maxHops, paths, i, j);
    }
  }

  lemma EmptyAlike(g: Graphs.GraphFrame, c: Config, net: Networks.Network, s: nat, t: nat, maxHops: Option<nat>)
    requires Models(g, c, net) && s < |g.edgeNodeIdxToId| && t < |g.edgeNodeIdxToId|
    ensures (exists x :: SimpleTrip(g, c, g.edgeNodeIdxToId[s], g.edgeNodeIdxToId[t], maxHops, x))
      <==> exists w :: Deviations.Wanted(Deviations.Request(net, s, t, maxHops), w)
  {
    hide Models, SimpleTrip, Deviations.Wanted;
    if x :| SimpleTrip(g, c, g.edgeNodeIdxToId[s], g.edgeNodeIdxToId[t], maxHops, x) {
      var w := SimpleIsWanted(g, c, net, s, t, maxHops, x);
    }
    if w :| Deviations.Wanted(Deviations.Request(net, s, t, maxHops), w) {
      WantedIsSimple(g, c, net, s, t, maxHops, w);
    }
  }

  lemma YenIsExact(g: Graphs.GraphFrame, c: Config, net: Networks.Network, s: nat, t: nat, maxHops: Option<nat>, k: nat, paths: seq<HopSearch.PathCandidate>)
    requires Models(g, c, net) && Deviations.RowsJoinPairs(net) && s < |g.edgeNodeIdxToId| && t < |g.edgeNodeIdxToId| && net.Valid()
    requires YenRuns.Yields(Deviations.Request(net, s, t, maxHops), k, paths)
    requires NoHiddenTrip(g, c, g.edgeNodeIdxToId[s], g.edgeNodeIdxToId[t], maxHops)
    ensures KExact(g, c, g.edgeNodeIdxToId[s], g.edgeNodeIdxToId[t], maxHops, k, AllNames(g, NodesOf(paths)))
  {
    hide Models, Deviations.Paths, YenInvariants.Ordered, YenRuns.Yields, NoHiddenTrip, LeastOutside, SimpleTrip, Deviations.RowsJoinPairs,
         Deviations.Wanted, Deviations.Listed, YenInvariants.Cheapest;
    var src, dst, r, names := g.edgeNodeIdxToId[s], g.edgeNodeIdxToId[t], Deviations.Request(net, s, t, maxHops), AllNames(g, NodesOf(paths));
    HiddenAlike(g, c, net, s, t, maxHops);
    YenInvariants.YieldsPaths(r, k, paths);
    YenInvariants.YieldsExact(r, k, paths);
    forall i | 0 <= i < |names|
      ensures LeastOutside(g, c, src, dst, maxHops, names[..i], names[i])
    {
      OrderedAt(r, paths, i);
      PathLeast(g, c, net, s, t, maxHops, paths, i);
    }
    if |paths| < k {
      forall x | SimpleTrip(g, c, src, dst, maxHops, x)
        ensures x.ids in names
      {
        PathsComplete(g, c, net, s, t, maxHops, paths, x);
      }
    }
  }

  lemma OrderedAt(r: Deviations.Request, paths: seq<HopSearch.PathCandidate>, i: nat)
    requires YenInvariants.Ordered(r, paths) && i < |paths|
    ensures YenInvariants.Cheapest(r, paths[..i], paths[i])
  {
    hide YenInvariants.Cheapest;
  }

  /** Up to `k` simple trips by id; asking for none succeeds without looking at the endpoints. */
  method FindKShortestPaths(g: Graphs.GraphFrame, src: string, dst: string, k: nat, maxHops: Option<nat>, c: Config)
    returns (r: Result<seq<seq<string>>>)
    requires Graphs.Valid(g)
    ensures k == 0 ==> r == Success([])
    ensures k > 0 && !Endpoints(g, src, dst) ==> r == Failure(NodeNotFound(if src !in Nodes.Ids(g.nodes.rows) then src else dst))
    ensures k > 0 && Endpoints(g, src, dst) && src == dst ==> r == Success([[src]])
    ensures k > 0 && Endpoints(g, src, dst) && src != dst ==> r.Success? && KBest(g, c, src, dst, maxHops, k, r.value)
    ensures r.Success? ==> forall ids | ids in r.value :: AllLegs(g, c, ids)
  {
    hide AllLegs, Graphs.Valid, Edges.IdsOf, Endpoints, Models, KBest, KSound, KExact, NoHiddenTrip, IsTrip, Deviations.Paths, YenInvariants.Ordered,
         YenInvariants.NonDecreasing, YenInvariants.NoHiddenBranch, YenInvariants.Complete, YenInvariants.Cheapest, YenRuns.Yields,
         Deviations.RowsJoinPairs, Deviations.Wanted;
    if k == 0 {
      return Success([]);
    }
    var checked := ValidateEndpoints(g, src, dst);
    if checked.Failure? {
      return Failure(checked.error);
    }
    if src == dst {
      OneStop(g, c, src);
      return Success([[src]]);
    }
    Searches.GraphIndexes(g, src);
    Searches.GraphIndexes(g, dst);
    if src !in g.edges.nodeIndex || dst !in g.edges.nodeIndex {
      NoTrip(g, c, src, dst);
      NothingBest(g, c, src, dst, maxHops, k);
      return Success([]);
    }
    var s, t := g.edges.nodeIndex[src], g.edges.nodeIndex[dst];
    var net := BuildNetwork(g, c);
    ModelledNet(g, c, net);
    EndNames(g, c, net, s, t, src, dst);
    var paths := Yen.KShortestPaths(net, s, t, k, maxHops);
    YenIsSound(g, c, net, s, t, maxHops, k, paths);
    if NoHiddenTrip(g, c, src, dst, maxHops) {
      YenIsExact(g, c, net, s, t, maxHops, k, paths);
    }
    SoundLegs(g, c, src, dst, maxHops, k, AllNames(g, NodesOf(paths)));
    BothBest(g, c, src, dst, maxHops, k, AllNames(g, NodesOf(paths)));
    return Success(AllNames(g, NodesOf(paths)));
  }

  lemma OneStop(g: Graphs.GraphFrame, c: Config, src: string)
    ensures AllLegs(g, c, [src])
  {
  }

  lemma SoundLegs(g: Graphs.GraphFrame, c: Config, src: string, dst: string, maxHops: Option<nat>, k: nat, paths: seq<seq<string>>)
    requires KSound(g, c, src, dst, maxHops, k, paths)
    ensures forall ids | ids in paths :: AllLegs(g, c, ids)
  {
    hide IsTrip, AllLegs, NoDearer, LeastOutside;
    forall ids | ids in paths
      ensures AllLegs(g, c, ids)
    {
      var i :| 0 <= i < |paths| && paths[i] == ids;
      var rows :| SimpleTrip(g, c, src, dst, maxHops, Trip(ids, rows));
      TripLegs(g, c, src, dst, Trip(ids, rows));
    }
  }

  lemma BothBest(g: Graphs.GraphFrame, c: Config, src: string, dst: string, maxHops: Option<nat>, k: nat, paths: seq<seq<string>>)
    requires KSound(g, c, src, dst, maxHops, k, paths)
    requires NoHiddenTrip(g, c, src, dst, maxHops) ==> KExact(g, c, src, dst, maxHops, k, paths)
    ensures KBest(g, c, src, dst, maxHops, k, paths)
  {
  }

  lemma ModelledNet(g: Graphs.GraphFrame, c: Config, net: Networks.Network)
    requires Models(g, c, net)
    ensures net.Valid() && |net.adj| == |g.edgeNodeIdxToId|
  {
    hide Edges.IdsOf, Graphs.Valid, Eligible;
    ModelledRows(g, c, net);
  }
}
