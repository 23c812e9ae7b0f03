/** Breadth-first expansion over a partitioned graph. */
module DistributedSearch {
  import opened Basics
  import opened Rows
  import opened Adjacency
  import opened Balls
  import opened Partition
  import Nodes = NodeFrames
  import Edges = EdgeFrames
  import Graphs = GraphFrames
  import Searches
  import Traversal

  // ---- steps by membership ----

  /** Some row of `rows` leads from `a` to `b`. */
  ghost predicate StepsIn(rows: seq<EdgeRow>, spec: EdgeTypeSpec, d: Direction, a: string, b: string) {
    exists r :: r in rows && Eligible(r, spec, d, a, b)
  }

  lemma LeadsIsStep(q: Query, a: string, b: string)
    ensures Leads(q, a, b) <==> StepsIn(q.rows, q.spec, q.d, a, b)
  {
    hide Eligible;
    if StepsIn(q.rows, q.spec, q.d, a, b) {
      var r :| r in q.rows && Eligible(r, q.spec, q.d, a, b);
      var e :| 0 <= e < |q.rows| && q.rows[e] == r;
      assert Eligible(q.rows[e], q.spec, q.d, a, b);
    }
    if Leads(q, a, b) {
      var e :| 0 <= e < |q.rows| && Eligible(q.rows[e], q.spec, q.d, a, b);
      assert q.rows[e] in q.rows;
    }
  }

  ghost function Whole(g: Graphs.GraphFrame, spec: EdgeTypeSpec, d: Direction): Query {
    Query(g.edges.rows, d, spec, Searches.EdgeIds(g.edges.rows))
  }

  /** The ends reached from `seeds` through row `r`. */
  function EndsFrom(r: EdgeRow, seeds: set<string>, d: Direction): set<string> {
    match d
    case Out => if r.src in seeds then {r.dst} else {}
    case In => if r.dst in seeds then {r.src} else {}
    case Both => (if r.src in seeds then {r.dst} else {}) + (if r.dst in seeds then {r.src} else {})
    case Undirected => (if r.src in seeds then {r.dst} else {}) + (if r.dst in seeds then {r.src} else {})
  }

  lemma EndsFromMeans(r: EdgeRow, seeds: set<string>, d: Direction, spec: EdgeTypeSpec, b: string)
    requires MatchesEdgeType(r, spec)
    ensures b in EndsFrom(r, seeds, d) <==> exists a :: a in seeds && Eligible(r, spec, d, a, b)
  {
    hide MatchesEdgeType;
    if b in EndsFrom(r, seeds, d) {
      assert (r.src in seeds && Eligible(r, spec, d, r.src, b)) || (r.dst in seeds && Eligible(r, spec, d, r.dst, b));
    }
  }

  /** What one hop from `seeds` over `rows` reaches. */
  ghost predicate Found(rows: seq<EdgeRow>, spec: EdgeTypeSpec, d: Direction, seeds: set<string>, found: set<string>) {
    forall b :: b in found <==> exists a :: a in seeds && StepsIn(rows, spec, d, a, b)
  }

  lemma FoundMore(rows: seq<EdgeRow>, k: nat, spec: EdgeTypeSpec, d: Direction, seeds: set<string>, found: set<string>)
    requires k < |rows| && Found(rows[..k], spec, d, seeds, found)
    ensures Found(rows[..k + 1], spec, d, seeds, if MatchesEdgeType(rows[k], spec) then found + EndsFrom(rows[k], seeds, d) else found)
  {
    hide EndsFrom, Links;
    var r := rows[k];
    assert rows[..k + 1] == rows[..k] + [r];
    var found' := if MatchesEdgeType(r, spec) then found + EndsFrom(r, seeds, d) else found;
    forall b
      ensures b in found' <==> exists a :: a in seeds && StepsIn(rows[..k + 1], spec, d, a, b)
    {
      if MatchesEdgeType(r, spec) {
        EndsFromMeans(r, seeds, d, spec, b);
      }
      forall a
        ensures StepsIn(rows[..k + 1], spec, d, a, b) <==> StepsIn(rows[..k], spec, d, a, b) || Eligible(r, spec, d, a, b)
      {
        StepsMore(rows, k, spec, d, a, b);
      }
    }
  }

  lemma StepsMore(rows: seq<EdgeRow>, k: nat, spec: EdgeTypeSpec, d: Direction, a: string, b: string)
    requires k < |rows|
    ensures StepsIn(rows[..k + 1], spec, d, a, b) <==> StepsIn(rows[..k], spec, d, a, b) || Eligible(rows[k], spec, d, a, b)
  {
    hide Eligible;
    assert rows[..k + 1] == rows[..k] + [rows[k]];
    assert forall r :: r in rows[..k + 1] <==> r in rows[..k] || r == rows[k];
  }

  /** Some row of an admitted type leads from a seed to `b` in the direction asked for. */
  ghost predicate OneHop(rows: seq<EdgeRow>, spec: EdgeTypeSpec, d: Direction, seeds: set<string>, b: string) {
    exists r :: (r in rows
                 && (spec.Any? || (spec.Single? && r.etype == spec.etype) || (spec.Multiple? && r.etype in spec.etypes))
                 && ((!d.In? && r.src in seeds && r.dst == b) || (!d.Out? && r.dst in seeds && r.src == b)))
  }

  lemma FoundMeans(rows: seq<EdgeRow>, spec: EdgeTypeSpec, d: Direction, seeds: set<string>, found: set<string>)
    requires Found(rows, spec, d, seeds, found)
    ensures forall b :: b in found <==> OneHop(rows, spec, d, seeds, b)
  {
    hide Eligible;
    forall b
      ensures b in found <==> OneHop(rows, spec, d, seeds, b)
    {
      if a :| a in seeds && StepsIn(rows, spec, d, a, b) {
        var r :| r in rows && Eligible(r, spec, d, a, b);
        EligibleMeans(r, spec, d, a, b);
      }
      if OneHop(rows, spec, d, seeds, b) {
        HopFound(rows, spec, d, seeds, b);
      }
    }
  }

  lemma HopFound(rows: seq<EdgeRow>, spec: EdgeTypeSpec, d: Direction, seeds: set<string>, b: string)
    requires OneHop(rows, spec, d, seeds, b)
    ensures exists a :: a in seeds && StepsIn(rows, spec, d, a, b)
  {
    hide Eligible;
    var r :| (r in rows
              && (spec.Any? || (spec.Single? && r.etype == spec.etype) || (spec.Multiple? && r.etype in spec.etypes))
              && ((!d.In? && r.src in seeds && r.dst == b) || (!d.Out? && r.dst in seeds && r.src == b)));
    EligibleMeans(r, spec, d, r.src, r.dst);
    EligibleMeans(r, spec, d, r.dst, r.src);
    assert StepsIn(rows, spec, d, r.src, b) || StepsIn(rows, spec, d, r.dst, b);
  }

  /** One-hop expansion by scanning a shard's edge rows. */
  method DirectExpand(shard: Graphs.GraphFrame, seeds: set<string>, spec: EdgeTypeSpec, d: Direction) returns (found: set<string>)
    ensures Found(shard.edges.rows, spec, d, seeds, found)
    ensures forall b :: b in found <==> OneHop(shard.edges.rows, spec, d, seeds, b)
  {
    hide Found, OneHop, EndsFrom, MatchesEdgeType;
    var rows := shard.edges.rows;
    found := {};
    var row := 0;
    FoundNothing(rows, spec, d, seeds);
    while row < |rows|
      invariant 0 <= row <= |rows| && Found(rows[..row], spec, d, seeds, found)
    {
      FoundMore(rows, row, spec, d, seeds, found);
      if MatchesEdgeType(rows[row], spec) {
        found := found + EndsFrom(rows[row], seeds, d);
      }
      row := row + 1;
    }
    assert rows[..row] == rows;
    FoundMeans(rows, spec, d, seeds, found);
  }

  lemma FoundNothing(rows: seq<EdgeRow>, spec: EdgeTypeSpec, d: Direction, seeds: set<string>)
    ensures Found(rows[..0], spec, d, seeds, {})
  {
    hide Eligible;
  }

  /** A boundary row through which the scan discovers something new. */
  ghost predicate Discovers(r: EdgeRow, spec: EdgeTypeSpec, d: Direction, frontier: set<string>, visited: set<string>) {
    exists a, b :: a in frontier && b !in visited && Eligible(r, spec, d, a, b)
  }

  lemma DiscoversMeans(r: EdgeRow, spec: EdgeTypeSpec, d: Direction, frontier: set<string>, visited: set<string>)
    ensures Discovers(r, spec, d, frontier, visited) <==> MatchesEdgeType(r, spec) && EndsFrom(r, frontier, d) - visited != {}
  {
    hide MatchesEdgeType;
    if MatchesEdgeType(r, spec) && EndsFrom(r, frontier, d) - visited != {} {
      var b :| b in EndsFrom(r, frontier, d) - visited;
      EndsFromMeans(r, frontier, d, spec, b);
    }
    if Discovers(r, spec, d, frontier, visited) {
      var a, b :| a in frontier && b !in visited && Eligible(r, spec, d, a, b);
      EndsFromMeans(r, frontier, d, spec, b);
      assert b in EndsFrom(r, frontier, d) - visited;
    }
  }

  /** The row has an admitted type and leads from the frontier to an end not visited yet. */
  ghost predicate Leaves(r: EdgeRow, spec: EdgeTypeSpec, d: Direction, frontier: set<string>, visited: set<string>) {
    && (spec.Any? || (spec.Single? && r.etype == spec.etype) || (spec.Multiple? && r.etype in spec.etypes))
    && ((!d.In? && r.src in frontier && r.dst !in visited) || (!d.Out? && r.dst in frontier && r.src !in visited))
  }

  lemma DiscoversLeaves(r: EdgeRow, spec: EdgeTypeSpec, d: Direction, frontier: set<string>, visited: set<string>)
    ensures Discovers(r, spec, d, frontier, visited) <==> Leaves(r, spec, d, frontier, visited)
  {
    hide Eligible;
    EligibleMeans(r, spec, d, r.src, r.dst);
    EligibleMeans(r, spec, d, r.dst, r.src);
    if Discovers(r, spec, d, frontier, visited) {
      var a, b :| a in frontier && b !in visited && Eligible(r, spec, d, a, b);
      EligibleMeans(r, spec, d, a, b);
    }
  }

  /** Scans the boundary for edges that leave the frontier and end outside the visited set. */
  method ExpandViaBoundary(boundary: Edges.EdgeFrame, frontier: set<string>, spec: EdgeTypeSpec, d: Direction, visited: set<string>)
    returns (newNodes: set<string>, newRows: set<nat>)
    ensures exists found :: Found(boundary.rows, spec, d, frontier, found) && newNodes == found - visited
    ensures forall e: nat :: e in newRows <==> e < |boundary.rows| && Discovers(boundary.rows[e], spec, d, frontier, visited)
    ensures forall b :: b in newNodes <==> b !in visited && OneHop(boundary.rows, spec, d, frontier, b)
    ensures forall e: nat :: e in newRows <==> e < |boundary.rows| && Leaves(boundary.rows[e], spec, d, frontier, visited)
  {
    hide OneHop, Leaves, Found, EndsFrom, MatchesEdgeType, Discovers;
    var rows := boundary.rows;
    newNodes, newRows := {}, {};
    ghost var found: set<string> := {};
    var row := 0;
    FoundNothing(rows, spec, d, frontier);
    while row < |rows|
      invariant 0 <= row <= |rows| && Found(rows[..row], spec, d, frontier, found) && newNodes == found - visited
      invariant forall e: nat :: e in newRows <==> e < row && Discovers(rows[e], spec, d, frontier, visited)
    {
      FoundMore(rows, row, spec, d, frontier, found);
      DiscoversMeans(rows[row], spec, d, frontier, visited);
      if MatchesEdgeType(rows[row], spec) {
        var unseen := EndsFrom(rows[row], frontier, d) - visited;
        if unseen != {} {
          newNodes := newNodes + unseen;
          newRows := newRows + {row};
        }
        assert (found + EndsFrom(rows[row], frontier, d)) - visited == (found - visited) + unseen;
        found := found + EndsFrom(rows[row], frontier, d);
      }
      row := row + 1;
    }
    assert rows[..row] == rows;
    FoundMeans(rows, spec, d, frontier, found);
    forall e: nat | e < |rows|
      ensures Discovers(rows[e], spec, d, frontier, visited) <==> Leaves(rows[e], spec, d, frontier, visited)
    {
      DiscoversLeaves(rows[e], spec, d, frontier, visited);
    }
  }

  // ---- rounds ----

  /** `x` is `k` steps away and no fewer. */
  ghost predicate OnFrontier(q: Query, roots: set<string>, k: nat, x: string) {
    Within(q, roots, k, x) && (k > 0 ==> !Within(q, roots, k - 1, x))
  }

  /** The visited ids are the ball of radius `k` and the frontier its rim; those off it have been expanded. */
  ghost predicate Layer(q: Query, roots: set<string>, k: nat, visited: set<string>, frontier: set<string>) {
    && (forall x :: x in visited <==> Within(q, roots, k, x)) && (forall x :: x in frontier <==> OnFrontier(q, roots, k, x))
    && forall a, b | a in visited && a !in frontier && Leads(q, a, b) :: b in visited
  }

  /** One round's discoveries: everything one step beyond the frontier that is not visited yet. */
  ghost predicate Fresh(q: Query, visited: set<string>, frontier: set<string>, next: set<string>) {
    forall b :: b in next <==> b !in visited && exists a :: a in frontier && Leads(q, a, b)
  }

  lemma NextRound(g: Graphs.GraphFrame, spec: EdgeTypeSpec, d: Direction, roots: set<string>, k: nat, visited: set<string>, frontier: set<string>, next: set<string>)
    requires Layer(Whole(g, spec, d), roots, k, visited, frontier) && Fresh(Whole(g, spec, d), visited, frontier, next)
    ensures Layer(Whole(g, spec, d), roots, k + 1, visited + next, next)
  {
    hide Edges.IdsOf, Leads, Searches.EdgeIds;
    var q := Whole(g, spec, d);
    forall x
      ensures x in visited + next <==> Within(q, roots, k + 1, x)
    {
      if x in next {
        var a :| a in frontier && Leads(q, a, x);
        StepOpen(g, spec, d, a, x);
      }
      if Within(q, roots, k + 1, x) && x !in visited && x !in roots {
        var a :| Within(q, roots, k, a) && Leads(q, a, x);
      }
      RootIn(q, roots, k, x);
    }
    forall x
      ensures x in next <==> OnFrontier(q, roots, k + 1, x)
    {
      assert x in visited + next <==> Within(q, roots, k + 1, x);
    }
  }

  lemma RootIn(q: Query, roots: set<string>, k: nat, x: string)
    ensures x in roots ==> Within(q, roots, k, x)
  {
  }

  lemma StepOpen(g: Graphs.GraphFrame, spec: EdgeTypeSpec, d: Direction, a: string, b: string)
    requires Leads(Whole(g, spec, d), a, b)
    ensures b in Whole(g, spec, d).open
  {
    hide Edges.IdsOf, Leads;
    LeadsIndexed(Whole(g, spec, d), a, b);
    var i :| 0 <= i < |Edges.IdsOf(g.edges.rows)| && Edges.IdsOf(g.edges.rows)[i] == b;
  }

  /** When a round finds nothing, every later ball is the same. */
  lemma NothingFound(q: Query, roots: set<string>, k: nat, hops: nat, visited: set<string>)
    requires Layer(q, roots, k, visited, {}) && k <= hops
    ensures Layer(q, roots, hops, visited, {})
  {
    hide Leads;
    forall x | Within(q, roots, k + 1, x)
      ensures Within(q, roots, k, x)
    {
      if x in q.open && exists a :: Within(q, roots, k, a) && Leads(q, a, x) {
        var a :| Within(q, roots, k, a) && Leads(q, a, x);
        assert a in visited;
      }
    }
    forall x
      ensures x in visited <==> Within(q, roots, hops, x)
      ensures !OnFrontier(q, roots, hops, x)
    {
      ClosedStays(q, roots, k, hops, x);
      if k < hops {
        ClosedStays(q, roots, k, hops - 1, x);
      }
    }
  }

  // ---- shards and their seeds ----

  /** The seeds that live in shard `t`. */
  function ShardSeeds(pg: PartitionedGraph, frontier: set<string>, t: nat): set<string> {
    set id | id in frontier && pg.ShardOf(id) == Some(t)
  }

  /** Found in one of the first `t` shards. */
  ghost predicate FoundInside(pg: PartitionedGraph, spec: EdgeTypeSpec, d: Direction, frontier: set<string>, t: nat, b: string)
    requires t <= |pg.shards|
  {
    exists s, x :: 0 <= s < t && x in ShardSeeds(pg, frontier, s) && StepsIn(pg.shards[s].edges.rows, spec, d, x, b)
  }

  /** Shard scans and boundary scan together see every step from the frontier, and no other. */
  lemma StepPlaced(g: Graphs.GraphFrame, a: seq<nat>, pg: PartitionedGraph, spec: EdgeTypeSpec, d: Direction, frontier: set<string>, b: string)
    requires Partitioned(g, a, pg)
    ensures (exists x :: x in frontier && Leads(Whole(g, spec, d), x, b)) <==>
            FoundInside(pg, spec, d, frontier, pg.nShards, b) || exists x :: x in frontier && StepsIn(pg.boundaryEdges.rows, spec, d, x, b)
  {
    hide Kept, Graphs.Valid, Graphs.Closed, Edges.Valid, Shard, Eligible, Leads;
    var q := Whole(g, spec, d);
    if x :| x in frontier && Leads(q, x, b) {
      LeadsIsStep(q, x, b);
      var r :| r in g.edges.rows && Eligible(r, spec, d, x, b);
      RowPlace(g, a, pg, r);
      StepSource(g, a, pg, spec, d, r, x, b);
      var s := EdgePart(r, pg.nodeToShard, pg.nShards);
      if s < pg.nShards {
        assert x in ShardSeeds(pg, frontier, s) && StepsIn(pg.shards[s].edges.rows, spec, d, x, b);
      } else {
        assert StepsIn(pg.boundaryEdges.rows, spec, d, x, b);
      }
    }
    if FoundInside(pg, spec, d, frontier, pg.nShards, b) {
      var s, x :| 0 <= s < pg.nShards && x in ShardSeeds(pg, frontier, s) && StepsIn(pg.shards[s].edges.rows, spec, d, x, b);
      var r :| r in pg.shards[s].edges.rows && Eligible(r, spec, d, x, b);
      RowPlace(g, a, pg, r);
      LeadsIsStep(q, x, b);
    }
    if x :| x in frontier && StepsIn(pg.boundaryEdges.rows, spec, d, x, b) {
      var r :| r in pg.boundaryEdges.rows && Eligible(r, spec, d, x, b);
      RowPlace(g, a, pg, r);
      LeadsIsStep(q, x, b);
    }
  }

  /** An edge inside a shard is stepped along from a node of that shard. */
  lemma StepSource(g: Graphs.GraphFrame, a: seq<nat>, pg: PartitionedGraph, spec: EdgeTypeSpec, d: Direction, r: EdgeRow, x: string, b: string)
    requires Partitioned(g, a, pg) && Eligible(r, spec, d, x, b)
    ensures EdgePart(r, pg.nodeToShard, pg.nShards) <= pg.nShards
    ensures EdgePart(r, pg.nodeToShard, pg.nShards) < pg.nShards ==> pg.ShardOf(x) == Some(EdgePart(r, pg.nodeToShard, pg.nShards))
  {
    hide Kept, Graphs.Valid, Graphs.Closed, Edges.Valid, Shard, MatchesEdgeType;
    ShardBounds(pg.nodeToShard, g.nodes.rows, a, pg.nShards);
  }

  // ---- one round ----

  lemma InsideMore(pg: PartitionedGraph, spec: EdgeTypeSpec, d: Direction, frontier: set<string>, t: nat, found: set<string>, b: string)
    requires t < |pg.shards| && Found(pg.shards[t].edges.rows, spec, d, ShardSeeds(pg, frontier, t), found)
    ensures FoundInside(pg, spec, d, frontier, t + 1, b) <==> FoundInside(pg, spec, d, frontier, t, b) || b in found
  {
    hide StepsIn, ShardSeeds;
  }

  lemma NoSeeds(pg: PartitionedGraph, spec: EdgeTypeSpec, d: Direction, frontier: set<string>, t: nat, b: string)
    requires t < |pg.shards| && ShardSeeds(pg, frontier, t) == {}
    ensures FoundInside(pg, spec, d, frontier, t + 1, b) <==> FoundInside(pg, spec, d, frontier, t, b)
  {
    hide StepsIn;
  }

  /** The visited set after scanning the first `t` shards. */
  ghost predicate Scanned(pg: PartitionedGraph, spec: EdgeTypeSpec, d: Direction, frontier: set<string>, t: nat, visited0: set<string>, visited: set<string>)
    requires t <= |pg.shards|
  {
    forall b :: b in visited <==> b in visited0 || FoundInside(pg, spec, d, frontier, t, b)
  }

  lemma ScannedMore(pg: PartitionedGraph, spec: EdgeTypeSpec, d: Direction, frontier: set<string>, t: nat, visited0: set<string>, visited: set<string>, found: set<string>)
    requires t < |pg.shards| && Scanned(pg, spec, d, frontier, t, visited0, visited)
    requires if ShardSeeds(pg, frontier, t) == {} then found == {} else Found(pg.shards[t].edges.rows, spec, d, ShardSeeds(pg, frontier, t), found)
    ensures Scanned(pg, spec, d, frontier, t + 1, visited0, visited + found)
  {
    hide FoundInside, Found, ShardSeeds;
    forall b
      ensures b in visited + found <==> b in visited0 || FoundInside(pg, spec, d, frontier, t + 1, b)
    {
      if ShardSeeds(pg, frontier, t) == {} {
        NoSeeds(pg, spec, d, frontier, t, b);
      } else {
        InsideMore(pg, spec, d, frontier, t, found, b);
      }
    }
  }

  lemma ScanStart(pg: PartitionedGraph, spec: EdgeTypeSpec, d: Direction, frontier: set<string>, visited: set<string>)
    ensures Scanned(pg, spec, d, frontier, 0, visited, visited)
  {
  }

  /** Intra-shard scans followed by the boundary scan discover exactly the next layer. */
  lemma RoundIsFresh(g: Graphs.GraphFrame, a: seq<nat>, pg: PartitionedGraph, spec: EdgeTypeSpec, d: Direction, frontier: set<string>,
                     visited0: set<string>, visited: set<string>, found: set<string>, next: set<string>)
    requires Partitioned(g, a, pg) && Scanned(pg, spec, d, frontier, |pg.shards|, visited0, visited)
    requires Found(pg.boundaryEdges.rows, spec, d, frontier, found) && next == (visited + found) - visited0
    ensures Fresh(Whole(g, spec, d), visited0, frontier, next)
  {
    hide Partitioned, Leads, StepsIn, FoundInside, Whole;
    ShardTotal(g, a, pg);
    forall b
      ensures b in next <==> b !in visited0 && exists x :: x in frontier && Leads(Whole(g, spec, d), x, b)
    {
      StepPlaced(g, a, pg, spec, d, frontier, b);
    }
  }

  lemma ShardTotal(g: Graphs.GraphFrame, a: seq<nat>, pg: PartitionedGraph)
    requires Partitioned(g, a, pg)
    ensures |pg.shards| == pg.nShards > 0
  {
  }

  // ---- which boundary rows a round records ----

  /** In round `j` some edge inside a shard leads from the frontier to `b`. */
  ghost predicate InsideStep(q: Query, pg: PartitionedGraph, roots: set<string>, j: nat, b: string) {
    exists y, r :: OnFrontier(q, roots, j, y) && r in q.rows && EdgePart(r, pg.nodeToShard, pg.nShards) < pg.nShards
                   && Eligible(r, q.spec, q.d, y, b)
  }

  /** In round `j` row `r` leads from the frontier to a node not visited before and not met inside a shard. */
  ghost predicate MetIn(q: Query, pg: PartitionedGraph, roots: set<string>, j: nat, r: EdgeRow) {
    exists x, b :: OnFrontier(q, roots, j, x) && Eligible(r, q.spec, q.d, x, b) && !Within(q, roots, j, b) && !InsideStep(q, pg, roots, j, b)
  }

  /** ... in some round before `k`. */
  ghost predicate MetBefore(q: Query, pg: PartitionedGraph, roots: set<string>, k: nat, r: EdgeRow) {
    exists j: nat :: j < k && MetIn(q, pg, roots, j, r)
  }

  ghost predicate HitsExact(q: Query, pg: PartitionedGraph, roots: set<string>, k: nat, hits: set<nat>) {
    forall e: nat :: e in hits <==> e < |pg.boundaryEdges.rows| && MetBefore(q, pg, roots, k, pg.boundaryEdges.rows[e])
  }

  lemma InsideIsStep(g: Graphs.GraphFrame, a: seq<nat>, pg: PartitionedGraph, spec: EdgeTypeSpec, d: Direction, roots: set<string>, k: nat,
                     frontier: set<string>, b: string)
    requires Partitioned(g, a, pg) && forall x :: x in frontier <==> OnFrontier(Whole(g, spec, d), roots, k, x)
    ensures |pg.shards| == pg.nShards
    ensures FoundInside(pg, spec, d, frontier, pg.nShards, b) <==> InsideStep(Whole(g, spec, d), pg, roots, k, b)
  {
    hide Partitioned, OnFrontier, Eligible, EdgePart;
    ShardTotal(g, a, pg);
    var q := Whole(g, spec, d);
    if FoundInside(pg, spec, d, frontier, pg.nShards, b) {
      var s, x :| 0 <= s < pg.nShards && x in ShardSeeds(pg, frontier, s) && StepsIn(pg.shards[s].edges.rows, spec, d, x, b);
      var r :| r in pg.shards[s].edges.rows && Eligible(r, spec, d, x, b);
      RowPlace(g, a, pg, r);
      assert OnFrontier(q, roots, k, x) && r in q.rows && Eligible(r, q.spec, q.d, x, b);
    }
    if InsideStep(q, pg, roots, k, b) {
      var y, r :| OnFrontier(q, roots, k, y) && r in q.rows && EdgePart(r, pg.nodeToShard, pg.nShards) < pg.nShards && Eligible(r, q.spec, q.d, y, b);
      RowPlace(g, a, pg, r);
      StepSource(g, a, pg, spec, d, r, y, b);
      var s := EdgePart(r, pg.nodeToShard, pg.nShards);
      assert y in ShardSeeds(pg, frontier, s) && StepsIn(pg.shards[s].edges.rows, spec, d, y, b);
    }
  }

  lemma RoundMeets(g: Graphs.GraphFrame, a: seq<nat>, pg: PartitionedGraph, spec: EdgeTypeSpec, d: Direction, roots: set<string>, k: nat,
                   visited0: set<string>, frontier: set<string>, between: set<string>, r: EdgeRow)
    requires Partitioned(g, a, pg) && Layer(Whole(g, spec, d), roots, k, visited0, frontier)
    requires Scanned(pg, spec, d, frontier, |pg.shards|, visited0, between)
    ensures Discovers(r, spec, d, frontier, between) <==> MetIn(Whole(g, spec, d), pg, roots, k, r)
  {
    hide Partitioned, OnFrontier, Eligible, EdgePart, FoundInside, InsideStep, Within, Leads;
    ShardTotal(g, a, pg);
    var q := Whole(g, spec, d);
    forall b
      ensures b in between <==> Within(q, roots, k, b) || InsideStep(q, pg, roots, k, b)
    {
      InsideIsStep(g, a, pg, spec, d, roots, k, frontier, b);
    }
    if Discovers(r, spec, d, frontier, between) {
      var x, b :| x in frontier && b !in between && Eligible(r, spec, d, x, b);
      assert OnFrontier(q, roots, k, x) && Eligible(r, q.spec, q.d, x, b);
    }
    if MetIn(q, pg, roots, k, r) {
      var x, b :| OnFrontier(q, roots, k, x) && Eligible(r, q.spec, q.d, x, b) && !Within(q, roots, k, b) && !InsideStep(q, pg, roots, k, b);
      assert x in frontier && b !in between;
    }
  }

  lemma HitsMore(g: Graphs.GraphFrame, a: seq<nat>, pg: PartitionedGraph, spec: EdgeTypeSpec, d: Direction, roots: set<string>, k: nat,
                 visited0: set<string>, frontier: set<string>, between: set<string>, hits: set<nat>, rows: set<nat>)
    requires Partitioned(g, a, pg) && Layer(Whole(g, spec, d), roots, k, visited0, frontier)
    requires Scanned(pg, spec, d, frontier, |pg.shards|, visited0, between)
    requires HitsExact(Whole(g, spec, d), pg, roots, k, hits)
    requires forall e: nat :: e in rows <==> e < |pg.boundaryEdges.rows| && Discovers(pg.boundaryEdges.rows[e], spec, d, frontier, between)
    ensures HitsExact(Whole(g, spec, d), pg, roots, k + 1, hits + rows)
  {
    hide Partitioned, Layer, Scanned, Discovers, MetIn, Whole;
    var q := Whole(g, spec, d);
    forall e: nat | e < |pg.boundaryEdges.rows|
      ensures e in hits + rows <==> MetBefore(q, pg, roots, k + 1, pg.boundaryEdges.rows[e])
    {
      RoundMeets(g, a, pg, spec, d, roots, k, visited0, frontier, between, pg.boundaryEdges.rows[e]);
    }
  }

  /** Once the frontier is empty no later round records anything. */
  lemma NoMoreHits(q: Query, pg: PartitionedGraph, roots: set<string>, k: nat, hops: nat, visited: set<string>, hits: set<nat>)
    requires Layer(q, roots, k, visited, {}) && k <= hops && HitsExact(q, pg, roots, k, hits)
    ensures HitsExact(q, pg, roots, hops, hits)
  {
    hide Within, Leads, Eligible, InsideStep;
    forall j: nat, r | k <= j
      ensures !MetIn(q, pg, roots, j, r)
    {
      NothingFound(q, roots, k, j, visited);
    }
    forall r | MetBefore(q, pg, roots, hops, r)
      ensures MetBefore(q, pg, roots, k, r)
    {
      var j: nat :| j < hops && MetIn(q, pg, roots, j, r);
    }
  }

  /** One round over all shards and the boundary. */
  method ExpandRound(ghost g: Graphs.GraphFrame, ghost a: seq<nat>, pg: PartitionedGraph, spec: EdgeTypeSpec, d: Direction,
                     frontier: set<string>, visited0: set<string>)
    returns (visited: set<string>, next: set<string>, boundaryRows: set<nat>, ghost between: set<string>)
    requires Partitioned(g, a, pg)
    ensures Scanned(pg, spec, d, frontier, |pg.shards|, visited0, between)
    ensures forall e: nat :: e in boundaryRows <==> e < |pg.boundaryEdges.rows| && Discovers(pg.boundaryEdges.rows[e], spec, d, frontier, between)
    ensures Fresh(Whole(g, spec, d), visited0, frontier, next) && visited == visited0 + next
    ensures forall e | e in boundaryRows :: e < |pg.boundaryEdges.rows| && exists x, b ::
              x in frontier && b in next && Eligible(pg.boundaryEdges.rows[e], spec, d, x, b)
  {
    hide Partitioned, Found, Scanned, ShardSeeds, Fresh, Whole, Eligible;
    visited, next := visited0, {};
    var t := 0;
    ScanStart(pg, spec, d, frontier, visited0);
    while t < |pg.shards|
      invariant 0 <= t <= |pg.shards| && Scanned(pg, spec, d, frontier, t, visited0, visited)
      invariant visited0 <= visited && next == visited - visited0
    {
      var seeds := ShardSeeds(pg, frontier, t);
      var found: set<string> := {};
      if seeds != {} {
        found := DirectExpand(pg.shards[t], seeds, spec, d);
      }
      ScannedMore(pg, spec, d, frontier, t, visited0, visited, found);
      next := next + (found - visited);
      visited := visited + found;
      t := t + 1;
    }
    var newNodes;
    newNodes, boundaryRows := ExpandViaBoundary(pg.boundaryEdges, frontier, spec, d, visited);
    ghost var found :| Found(pg.boundaryEdges.rows, spec, d, frontier, found) && newNodes == found - visited;
    between := visited;
    next := next + newNodes;
    visited := visited + newNodes;
    assert next == (between + found) - visited0;
    RoundIsFresh(g, a, pg, spec, d, frontier, visited0, between, found, next);
    forall e | e in boundaryRows
      ensures e < |pg.boundaryEdges.rows| && exists x, b :: x in frontier && b in next && Eligible(pg.boundaryEdges.rows[e], spec, d, x, b)
    {
      DiscoveredRow(pg.boundaryEdges.rows, e, spec, d, frontier, between, found);
    }
  }

  lemma DiscoveredRow(rows: seq<EdgeRow>, e: nat, spec: EdgeTypeSpec, d: Direction, frontier: set<string>, visited: set<string>, found: set<string>)
    requires e < |rows| && Discovers(rows[e], spec, d, frontier, visited) && Found(rows, spec, d, frontier, found)
    ensures exists x, b :: x in frontier && b in found && b !in visited && Eligible(rows[e], spec, d, x, b)
  {
    hide Eligible;
    var x, b :| x in frontier && b !in visited && Eligible(rows[e], spec, d, x, b);
    assert rows[e] in rows;
    assert StepsIn(rows, spec, d, x, b);
  }

  // ---- the whole expansion ----

  /** Row `r` leads from a node expanded before the hop limit to one within it. */
  ghost predicate Crosses(q: Query, roots: set<string>, hops: nat, r: EdgeRow) {
    hops > 0 && exists x, b :: Within(q, roots, hops - 1, x) && Within(q, roots, hops, b) && Eligible(r, q.spec, q.d, x, b)
  }

  ghost predicate AllCross(q: Query, roots: set<string>, hops: nat, rows: seq<EdgeRow>, hits: set<nat>) {
    forall e | e in hits :: e < |rows| && Crosses(q, roots, hops, rows[e])
  }

  lemma CrossesLater(q: Query, roots: set<string>, j: nat, k: nat, rows: seq<EdgeRow>, hits: set<nat>)
    requires AllCross(q, roots, j, rows, hits) && j <= k
    ensures AllCross(q, roots, k, rows, hits)
  {
    hide Within, Eligible;
    forall e | e in hits
      ensures e < |rows| && Crosses(q, roots, k, rows[e])
    {
      var x, b :| Within(q, roots, j - 1, x) && Within(q, roots, j, b) && Eligible(rows[e], q.spec, q.d, x, b);
      WithinGrows(q, roots, j - 1, k - 1, x);
      WithinGrows(q, roots, j, k, b);
    }
  }

  lemma HitsCross(g: Graphs.GraphFrame, spec: EdgeTypeSpec, d: Direction, roots: set<string>, k: nat, visited: set<string>, frontier: set<string>,
                  next: set<string>, rows: seq<EdgeRow>, hits: set<nat>)
    requires Layer(Whole(g, spec, d), roots, k, visited, frontier) && Layer(Whole(g, spec, d), roots, k + 1, visited + next, next)
    requires forall e | e in hits :: e < |rows| && exists x, b :: x in frontier && b in next && Eligible(rows[e], spec, d, x, b)
    ensures AllCross(Whole(g, spec, d), roots, k + 1, rows, hits)
  {
    hide Within, Eligible, Leads;
    forall e | e in hits
      ensures Crosses(Whole(g, spec, d), roots, k + 1, rows[e])
    {
      var x, b :| x in frontier && b in next && Eligible(rows[e], spec, d, x, b);
      assert x in visited && b in visited + next;
    }
  }

  lemma FirstLayer(q: Query, roots: set<string>)
    ensures Layer(q, roots, 0, roots, roots)
  {
  }

  method Expand(ghost g: Graphs.GraphFrame, ghost a: seq<nat>, pg: PartitionedGraph, seeds: set<string>, spec: EdgeTypeSpec, hops: nat, d: Direction)
    returns (visited: set<string>, hits: set<nat>)
    requires Partitioned(g, a, pg)
    ensures forall x :: x in visited <==> Within(Whole(g, spec, d), seeds, hops, x)
    ensures AllCross(Whole(g, spec, d), seeds, hops, pg.boundaryEdges.rows, hits)
    ensures HitsExact(Whole(g, spec, d), pg, seeds, hops, hits)
  {
    hide Partitioned, Layer, Whole, Fresh, AllCross, HitsExact, Scanned, Discovers, Eligible, Within;
    ghost var q := Whole(g, spec, d);
    var frontier := seeds;
    visited, hits := seeds, {};
    var round := 0;
    ghost var level: nat := 0;
    FirstLayer(q, seeds);
    NoHits(q, pg, seeds);
    while round < hops
      invariant 0 <= round <= hops && level == round
      invariant Layer(q, seeds, level, visited, frontier) && AllCross(q, seeds, level, pg.boundaryEdges.rows, hits)
      invariant HitsExact(q, pg, seeds, level, hits)
    {
      var visited', next, rows, between := ExpandRound(g, a, pg, spec, d, frontier, visited);
      NextRound(g, spec, d, seeds, round, visited, frontier, next);
      HitsCross(g, spec, d, seeds, round, visited, frontier, next, pg.boundaryEdges.rows, rows);
      CrossesLater(q, seeds, round, round + 1, pg.boundaryEdges.rows, hits);
      MoreHits(q, seeds, round + 1, pg.boundaryEdges.rows, hits, rows);
      HitsMore(g, a, pg, spec, d, seeds, round, visited, frontier, between, hits, rows);
      visited := visited';
      hits := hits + rows;
      frontier := next;
      round, level := round + 1, round + 1;
      if next == {} {
        NothingFound(q, seeds, round, hops, visited);
        CrossesLater(q, seeds, round, hops, pg.boundaryEdges.rows, hits);
        NoMoreHits(q, pg, seeds, round, hops, visited, hits);
        level := hops;
        break;
      }
    }
    LayerIsBall(q, seeds, hops, visited, frontier);
  }

  lemma NoHits(q: Query, pg: PartitionedGraph, roots: set<string>)
    ensures AllCross(q, roots, 0, pg.boundaryEdges.rows, {}) && HitsExact(q, pg, roots, 0, {})
  {
  }

  lemma MoreHits(q: Query, roots: set<string>, k: nat, rows: seq<EdgeRow>, a: set<nat>, b: set<nat>)
    requires AllCross(q, roots, k, rows, a) && AllCross(q, roots, k, rows, b)
    ensures AllCross(q, roots, k, rows, a + b)
  {
    hide Crosses;
  }

  lemma LayerIsBall(q: Query, roots: set<string>, k: nat, visited: set<string>, frontier: set<string>)
    requires Layer(q, roots, k, visited, frontier)
    ensures forall x :: x in visited <==> Within(q, roots, k, x)
  {
    hide Within, Leads;
  }

  // ---- the answer ----

  /** The ids of the visited nodes a shard holds. */
  function ShardIds(pg: PartitionedGraph, shard: Graphs.GraphFrame, visited: set<string>): set<string> {
    set id | id in visited && pg.ShardOf(id).Some? && shard.nodes.RowIndex(id).Some?
  }

  lemma {:induction false} KeptTwice(rows: seq<NodeRow>, m1: seq<bool>, m: seq<bool>, ids: set<string>)
    requires |rows| == |m1| == |m| && forall i | 0 <= i < |rows| :: m[i] <==> m1[i] && rows[i].id in ids
    ensures Kept(Kept(rows, m1), Graphs.NodeMask(Kept(rows, m1), ids)) == Kept(rows, m)
    decreases |rows|
  {
    if rows != [] {
      var n := |rows| - 1;
      KeptTwice(rows[..n], m1[..n], m[..n], ids);
      var before := Kept(rows[..n], m1[..n]);
      if m1[n] {
        KeptSplit(before, [rows[n]], Graphs.NodeMask(before, ids), Graphs.NodeMask([rows[n]], ids));
        assert Graphs.NodeMask(before + [rows[n]], ids) == Graphs.NodeMask(before, ids) + Graphs.NodeMask([rows[n]], ids);
        assert [rows[n]][..0] == [];
      } else {
        assert Kept(rows, m1) == before;
      }
    }
  }

  /** The part of the answer that comes from shard `t`. */
  lemma ShardNodes(g: Graphs.GraphFrame, a: seq<nat>, pg: PartitionedGraph, visited: set<string>, w: seq<bool>, t: nat)
    requires Partitioned(g, a, pg) && t < pg.nShards && |w| == |a| && forall i | 0 <= i < |w| :: w[i] <==> g.nodes.rows[i].id in visited
    ensures Graphs.InducedNodes(pg.shards[t].nodes.rows, ShardIds(pg, pg.shards[t], visited)) == Kept(g.nodes.rows, PartMask(a, t, w))
  {
    hide Kept, Edges.Valid, Graphs.Closed;
    var shard, mask := pg.shards[t], PartMask(a, t, All(|a|));
    assert Shard(g, a, pg.nodeToShard, pg.nShards, t, shard);
    forall i | 0 <= i < |shard.nodes.rows|
      ensures shard.nodes.rows[i].id in ShardIds(pg, shard, visited) <==> shard.nodes.rows[i].id in visited
    {
      assert Nodes.Ids(shard.nodes.rows)[i] == shard.nodes.rows[i].id;
      assert shard.nodes.rows[i].id in Nodes.Ids(shard.nodes.rows);
      NodeInShard(g.nodes.rows, a, pg.nodeToShard, t, shard.nodes.rows[i].id);
    }
    assert Graphs.NodeMask(shard.nodes.rows, ShardIds(pg, shard, visited)) == Graphs.NodeMask(shard.nodes.rows, visited);
    KeptTwice(g.nodes.rows, mask, PartMask(a, t, w), visited);
  }

  lemma {:induction false} KeptWithin<T(!new)>(s: seq<T>, mask: seq<bool>)
    requires |s| == |mask|
    ensures multiset(Kept(s, mask)) <= multiset(s)
  {
    if s != [] {
      var n := |s| - 1;
      KeptWithin(s[..n], mask[..n]);
      assert s == s[..n] + [s[n]];
    }
  }

  lemma {:induction false} JoinedWithin<T(!new)>(a: seq<seq<T>>, b: seq<seq<T>>)
    requires |a| == |b| && forall i | 0 <= i < |a| :: multiset(a[i]) <= multiset(b[i])
    ensures multiset(Joined(a)) <= multiset(Joined(b))
    decreases |a|
  {
    if a != [] {
      JoinedWithin(a[..|a| - 1], b[..|b| - 1]);
    }
  }

  lemma {:induction false} JoinedMember<T>(ss: seq<seq<T>>, x: T)
    ensures x in Joined(ss) <==> exists i :: 0 <= i < |ss| && x in ss[i]
  {
    if ss != [] {
      JoinedMember(ss[..|ss| - 1], x);
    }
  }

  /** The subgraph of shard `t` on the visited nodes. */
  ghost predicate Carved(pg: PartitionedGraph, visited: set<string>, t: nat, sub: Graphs.GraphFrame)
    requires t < |pg.shards|
  {
    && Graphs.Valid(sub)
    && sub.nodes.rows == Graphs.InducedNodes(pg.shards[t].nodes.rows, ShardIds(pg, pg.shards[t], visited))
    && sub.edges.rows == Graphs.InducedEdges(pg.shards[t].nodes.rows, pg.shards[t].edges.rows, ShardIds(pg, pg.shards[t], visited))
  }

  ghost predicate CarvedAll(pg: PartitionedGraph, visited: set<string>, subs: seq<Graphs.GraphFrame>) {
    |subs| <= |pg.shards| && forall t | 0 <= t < |subs| :: Carved(pg, visited, t, subs[t])
  }

  lemma ShardValid(g: Graphs.GraphFrame, a: seq<nat>, pg: PartitionedGraph, t: nat)
    requires Partitioned(g, a, pg) && t < |pg.shards|
    ensures Graphs.Valid(pg.shards[t])
  {
    assert Shard(g, a, pg.nodeToShard, pg.nShards, t, pg.shards[t]);
  }

  lemma CarvedNodes(g: Graphs.GraphFrame, a: seq<nat>, pg: PartitionedGraph, q: Query, roots: set<string>, hops: nat, visited: set<string>, subs: seq<Graphs.GraphFrame>)
    requires Partitioned(g, a, pg) && CarvedAll(pg, visited, subs) && |subs| == |pg.shards|
    requires forall x :: x in visited <==> Within(q, roots, hops, x)
    ensures multiset(Joined(Nodes.RowsOf(NodeFramesOf(subs)))) == multiset(Traversal.NodesWithin(g.nodes.rows, q, roots, hops))
    ensures Distinct(Nodes.Ids(Joined(Nodes.RowsOf(NodeFramesOf(subs))))) && |subs| > 0
  {
    hide Within, Kept, Edges.Valid, Graphs.Closed, Graphs.Valid, Assigns, Shard, ShardIds, Graphs.InducedNodes, Graphs.InducedEdges, Joined;
    var w := Traversal.WithinMask(g.nodes.rows, q, roots, hops);
    var parts := Parts(g.nodes.rows, a, w, pg.nShards);
    forall t | 0 <= t < pg.nShards
      ensures Nodes.RowsOf(NodeFramesOf(subs))[t] == parts[t]
    {
      assert Carved(pg, visited, t, subs[t]);
      ShardNodes(g, a, pg, visited, w, t);
    }
    assert Nodes.RowsOf(NodeFramesOf(subs)) == parts;
    PartsConserve(g.nodes.rows, a, w, pg.nShards);
    assert BelowMask(a, pg.nShards, w) == w;
    KeptWithin(g.nodes.rows, w);
    GraphFacts(g);
    SameIds(Joined(parts), g.nodes.rows);
  }

  /** Both ends of `r` lie within the hop limit. */
  ghost predicate Inside(q: Query, roots: set<string>, hops: nat, r: EdgeRow) {
    Within(q, roots, hops, r.src) && Within(q, roots, hops, r.dst)
  }

  lemma CarvedEdge(g: Graphs.GraphFrame, a: seq<nat>, pg: PartitionedGraph, q: Query, roots: set<string>, hops: nat, visited: set<string>,
                   t: nat, sub: Graphs.GraphFrame, r: EdgeRow)
    requires Partitioned(g, a, pg) && t < |pg.shards| && Carved(pg, visited, t, sub)
    requires forall x :: x in visited <==> Within(q, roots, hops, x)
    ensures r in sub.edges.rows <==> r in pg.shards[t].edges.rows && Inside(q, roots, hops, r)
  {
    hide Within, Kept, Graphs.InducedNodes, PartMask, EdgeParts, Assigns, ShardIds, Nodes.IdSet, Edges.Valid, Nodes.Valid;
    var shard := pg.shards[t];
    var ids := ShardIds(pg, shard, visited);
    assert Shard(g, a, pg.nodeToShard, pg.nShards, t, shard);
    KeptMember(shard.edges.rows, Graphs.EndpointMask(shard.edges.rows, ids * Nodes.IdSet(shard.nodes.rows)), r);
    Nodes.IdSetMeans(shard.nodes.rows);
    if r in shard.edges.rows {
      var e :| 0 <= e < |shard.edges.rows| && shard.edges.rows[e] == r;
      assert Graphs.EndsKnown(shard.nodes.rows, shard.edges.rows[e]);
      HeldId(g, a, pg, visited, t, r.src);
      HeldId(g, a, pg, visited, t, r.dst);
    }
  }

  lemma HeldId(g: Graphs.GraphFrame, a: seq<nat>, pg: PartitionedGraph, visited: set<string>, t: nat, id: string)
    requires Partitioned(g, a, pg) && t < |pg.shards| && id in Nodes.Ids(pg.shards[t].nodes.rows)
    ensures id in ShardIds(pg, pg.shards[t], visited) <==> id in visited
  {
    hide Kept, PartMask, EdgeParts, Edges.Valid, Graphs.Closed;
    assert Shard(g, a, pg.nodeToShard, pg.nShards, t, pg.shards[t]);
    NodeInShard(g.nodes.rows, a, pg.nodeToShard, t, id);
  }

  lemma CarvedSubset(pg: PartitionedGraph, visited: set<string>, t: nat, sub: Graphs.GraphFrame)
    requires t < |pg.shards| && Carved(pg, visited, t, sub)
    ensures multiset(sub.edges.rows) <= multiset(pg.shards[t].edges.rows)
  {
    hide Kept, Graphs.InducedNodes, Graphs.Valid, ShardIds;
    var rows := pg.shards[t].edges.rows;
    KeptWithin(rows, Graphs.EndpointMask(rows, ShardIds(pg, pg.shards[t], visited) * Nodes.IdSet(pg.shards[t].nodes.rows)));
  }

  /** Every edge returned is an original one and none is returned more often than it occurs. */
  lemma EdgesOnce(g: Graphs.GraphFrame, a: seq<nat>, pg: PartitionedGraph, visited: set<string>, subs: seq<Graphs.GraphFrame>,
                  boundary: Edges.EdgeFrame, hits: set<nat>)
    requires Partitioned(g, a, pg) && CarvedAll(pg, visited, subs) && |subs| == |pg.shards|
    requires boundary.rows == Kept(pg.boundaryEdges.rows, Traversal.RowMask(|pg.boundaryEdges.rows|, hits))
    ensures multiset(Joined(Edges.RowsOf(EdgeFramesOf(subs) + [boundary]))) <= multiset(g.edges.rows)
  {
    hide Kept, Partitioned, Carved, Joined;
    EdgesConserved(g, a, pg);
    var mine, all := Edges.RowsOf(EdgeFramesOf(subs) + [boundary]), Edges.RowsOf(EdgeFramesOf(pg.shards) + [pg.boundaryEdges]);
    KeptWithin(pg.boundaryEdges.rows, Traversal.RowMask(|pg.boundaryEdges.rows|, hits));
    forall t | 0 <= t < |mine|
      ensures multiset(mine[t]) <= multiset(all[t])
    {
      if t < |subs| {
        CarvedSubset(pg, visited, t, subs[t]);
      }
    }
    JoinedWithin(mine, all);
  }

  /** Which edges come back: inside a shard, exactly those with both ends within the hop limit; across shards,
      exactly those that in some round lead from the frontier to a node the shard scans have not met. */
  ghost predicate EdgesReturned(g: Graphs.GraphFrame, pg: PartitionedGraph, q: Query, roots: set<string>, hops: nat, rows: seq<EdgeRow>) {
    && (forall r | r in g.edges.rows && EdgePart(r, pg.nodeToShard, pg.nShards) < pg.nShards :: r in rows <==> Inside(q, roots, hops, r))
    && (forall r | r in g.edges.rows && EdgePart(r, pg.nodeToShard, pg.nShards) == pg.nShards :: r in rows <==> MetBefore(q, pg, roots, hops, r))
    && (forall r | r in rows && EdgePart(r, pg.nodeToShard, pg.nShards) == pg.nShards :: Crosses(q, roots, hops, r))
    && forall r | r in rows :: r in g.edges.rows && Inside(q, roots, hops, r)
  }

  lemma CrossesInside(q: Query, roots: set<string>, hops: nat, r: EdgeRow)
    requires Crosses(q, roots, hops, r)
    ensures Inside(q, roots, hops, r)
  {
    hide Within;
    var x, b :| Within(q, roots, hops - 1, x) && Within(q, roots, hops, b) && Eligible(r, q.spec, q.d, x, b);
    WithinGrows(q, roots, hops - 1, hops, x);
  }

  lemma ReturnedRow(g: Graphs.GraphFrame, a: seq<nat>, pg: PartitionedGraph, q: Query, roots: set<string>, hops: nat, visited: set<string>,
                    subs: seq<Graphs.GraphFrame>, boundary: Edges.EdgeFrame, hits: set<nat>, r: EdgeRow)
    requires Partitioned(g, a, pg) && CarvedAll(pg, visited, subs) && |subs| == |pg.shards|
    requires forall x :: x in visited <==> Within(q, roots, hops, x)
    requires AllCross(q, roots, hops, pg.boundaryEdges.rows, hits) && HitsExact(q, pg, roots, hops, hits)
    requires boundary.rows == Kept(pg.boundaryEdges.rows, Traversal.RowMask(|pg.boundaryEdges.rows|, hits))
    ensures r in Joined(Edges.RowsOf(EdgeFramesOf(subs) + [boundary])) ==>
      r in g.edges.rows && Inside(q, roots, hops, r) && (EdgePart(r, pg.nodeToShard, pg.nShards) == pg.nShards ==> Crosses(q, roots, hops, r))
    ensures r in g.edges.rows && EdgePart(r, pg.nodeToShard, pg.nShards) < pg.nShards && Inside(q, roots, hops, r) ==>
      r in Joined(Edges.RowsOf(EdgeFramesOf(subs) + [boundary]))
    ensures r in g.edges.rows && EdgePart(r, pg.nodeToShard, pg.nShards) == pg.nShards ==>
      (r in Joined(Edges.RowsOf(EdgeFramesOf(subs) + [boundary])) <==> MetBefore(q, pg, roots, hops, r))
  {
    hide Within, Kept, Partitioned, Carved, Joined, EdgePart, Crosses, Inside, MetBefore;
    ShardTotal(g, a, pg);
    RowPlace(g, a, pg, r);
    var all := Edges.RowsOf(EdgeFramesOf(subs) + [boundary]);
    JoinedMember(all, r);
    KeptMember(pg.boundaryEdges.rows, Traversal.RowMask(|pg.boundaryEdges.rows|, hits), r);
    if r in Joined(all) {
      var t :| 0 <= t < |all| && r in all[t];
      if t < |subs| {
        CarvedEdge(g, a, pg, q, roots, hops, visited, t, subs[t], r);
      } else {
        var e :| 0 <= e < |pg.boundaryEdges.rows| && e in hits && pg.boundaryEdges.rows[e] == r;
        CrossesInside(q, roots, hops, r);
      }
    }
    if r in g.edges.rows && EdgePart(r, pg.nodeToShard, pg.nShards) < pg.nShards && Inside(q, roots, hops, r) {
      var t := EdgePart(r, pg.nodeToShard, pg.nShards);
      CarvedEdge(g, a, pg, q, roots, hops, visited, t, subs[t], r);
      assert r in all[t];
    }
    if r in pg.boundaryEdges.rows && MetBefore(q, pg, roots, hops, r) {
      var e :| 0 <= e < |pg.boundaryEdges.rows| && pg.boundaryEdges.rows[e] == r;
      assert Traversal.RowMask(|pg.boundaryEdges.rows|, hits)[e];
      assert r in all[|subs|];
    }
  }

  lemma AllReturned(g: Graphs.GraphFrame, a: seq<nat>, pg: PartitionedGraph, q: Query, roots: set<string>, hops: nat, visited: set<string>,
                    subs: seq<Graphs.GraphFrame>, boundary: Edges.EdgeFrame, hits: set<nat>)
    requires Partitioned(g, a, pg) && CarvedAll(pg, visited, subs) && |subs| == |pg.shards|
    requires forall x :: x in visited <==> Within(q, roots, hops, x)
    requires AllCross(q, roots, hops, pg.boundaryEdges.rows, hits) && HitsExact(q, pg, roots, hops, hits)
    requires boundary.rows == Kept(pg.boundaryEdges.rows, Traversal.RowMask(|pg.boundaryEdges.rows|, hits))
    ensures EdgesReturned(g, pg, q, roots, hops, Joined(Edges.RowsOf(EdgeFramesOf(subs) + [boundary])))
  {
    hide Within, Kept, Partitioned, Carved, Joined, EdgePart, Crosses, Inside, AllCross, HitsExact, MetBefore;
    forall r: EdgeRow
      ensures r in Joined(Edges.RowsOf(EdgeFramesOf(subs) + [boundary])) ==>
        r in g.edges.rows && Inside(q, roots, hops, r) && (EdgePart(r, pg.nodeToShard, pg.nShards) == pg.nShards ==> Crosses(q, roots, hops, r))
      ensures r in g.edges.rows && EdgePart(r, pg.nodeToShard, pg.nShards) < pg.nShards && Inside(q, roots, hops, r) ==>
        r in Joined(Edges.RowsOf(EdgeFramesOf(subs) + [boundary]))
      ensures r in g.edges.rows && EdgePart(r, pg.nodeToShard, pg.nShards) == pg.nShards ==>
        (r in Joined(Edges.RowsOf(EdgeFramesOf(subs) + [boundary])) <==> MetBefore(q, pg, roots, hops, r))
    {
      ReturnedRow(g, a, pg, q, roots, hops, visited, subs, boundary, hits, r);
    }
  }

  lemma CarvedFrames(pg: PartitionedGraph, visited: set<string>, subs: seq<Graphs.GraphFrame>, boundary: Edges.EdgeFrame)
    requires CarvedAll(pg, visited, subs) && Edges.Valid(boundary)
    ensures forall t | 0 <= t < |subs| :: Nodes.Valid(NodeFramesOf(subs)[t])
    ensures forall t | 0 <= t < |subs| + 1 :: Edges.Valid((EdgeFramesOf(subs) + [boundary])[t])
  {
    hide Edges.Valid;
    forall t | 0 <= t < |subs|
      ensures Nodes.Valid(subs[t].nodes) && Edges.Valid(subs[t].edges)
    {
      assert Carved(pg, visited, t, subs[t]);
    }
  }

  /** Expansion over shards visits exactly the nodes of the whole-graph ball, whatever the assignment. */
  method DistributedExpand(ghost g: Graphs.GraphFrame, ghost a: seq<nat>, pg: PartitionedGraph, seeds: set<string>, spec: EdgeTypeSpec,
                           hops: nat, d: Direction)
    returns (r: Result<(Nodes.NodeFrame, Edges.EdgeFrame)>)
    requires Partitioned(g, a, pg)
    ensures r.Success? && Nodes.Valid(r.value.0) && Edges.Valid(r.value.1)
    ensures multiset(r.value.0.rows) == multiset(Traversal.NodesWithin(g.nodes.rows, Whole(g, spec, d), seeds, hops))
    ensures multiset(r.value.1.rows) <= multiset(g.edges.rows)
    ensures EdgesReturned(g, pg, Whole(g, spec, d), seeds, hops, r.value.1.rows)
    ensures forall x | x in r.value.1.rows && !(x.src in pg.nodeToShard && x.dst in pg.nodeToShard && pg.nodeToShard[x.src] == pg.nodeToShard[x.dst]) ::
      spec.Any? || (spec.Single? && x.etype == spec.etype) || (spec.Multiple? && x.etype in spec.etypes)
  {
    hide Partitioned, Whole, Within, AllCross, HitsExact, CarvedAll, Graphs.Valid, Edges.Valid, Nodes.Valid, Graphs.InducedNodes, Graphs.InducedEdges, ShardIds, Kept,
         Graphs.Closed, Joined, EdgesReturned, Traversal.NodesWithin;
    ghost var q := Whole(g, spec, d);
    var visited, hits := Expand(g, a, pg, seeds, spec, hops, d);
    var subs: seq<Graphs.GraphFrame> := [];
    var t := 0;
    CarveNothing(pg, visited);
    while t < |pg.shards|
      invariant 0 <= t <= |pg.shards| && |subs| == t && CarvedAll(pg, visited, subs)
    {
      ShardValid(g, a, pg, t);
      var sub := Graphs.Subgraph(pg.shards[t], ShardIds(pg, pg.shards[t], visited));
      CarveMore(pg, visited, subs, sub.value);
      subs := subs + [sub.value];
      t := t + 1;
    }
    CarvedNodes(g, a, pg, q, seeds, hops, visited, subs);
    var boundarySub := Edges.Filter(pg.boundaryEdges, Traversal.RowMask(|pg.boundaryEdges.rows|, hits));
    var boundary := boundarySub.value;
    CarvedFrames(pg, visited, subs, boundary);
    EdgesOnce(g, a, pg, visited, subs, boundary, hits);
    AllReturned(g, a, pg, q, seeds, hops, visited, subs, boundary, hits);
    BoundaryTypes(g, a, pg, seeds, hops, spec, d, Joined(Edges.RowsOf(EdgeFramesOf(subs) + [boundary])));
    var nodes := Nodes.Concat(NodeFramesOf(subs));
    var edges := Edges.Concat(EdgeFramesOf(subs) + [boundary]);
    return Success((nodes.value, edges.value));
  }

  lemma BoundaryTypes(g: Graphs.GraphFrame, a: seq<nat>, pg: PartitionedGraph, roots: set<string>, hops: nat, spec: EdgeTypeSpec, d: Direction, rows: seq<EdgeRow>)
    requires Partitioned(g, a, pg) && EdgesReturned(g, pg, Whole(g, spec, d), roots, hops, rows)
    ensures forall x | x in rows && !(x.src in pg.nodeToShard && x.dst in pg.nodeToShard && pg.nodeToShard[x.src] == pg.nodeToShard[x.dst]) ::
      spec.Any? || (spec.Single? && x.etype == spec.etype) || (spec.Multiple? && x.etype in spec.etypes)
  {
    hide Partitioned, Within, Eligible, MetBefore;
    var q := Whole(g, spec, d);
    forall x | x in rows && !(x.src in pg.nodeToShard && x.dst in pg.nodeToShard && pg.nodeToShard[x.src] == pg.nodeToShard[x.dst])
      ensures spec.Any? || (spec.Single? && x.etype == spec.etype) || (spec.Multiple? && x.etype in spec.etypes)
    {
      assert Crosses(q, roots, hops, x);
      var u, v :| Within(q, roots, hops - 1, u) && Within(q, roots, hops, v) && Eligible(x, q.spec, q.d, u, v);
      EligibleMeans(x, q.spec, q.d, u, v);
    }
  }

  lemma CarveNothing(pg: PartitionedGraph, visited: set<string>)
    ensures CarvedAll(pg, visited, [])
  {
  }

  lemma CarveMore(pg: PartitionedGraph, visited: set<string>, subs: seq<Graphs.GraphFrame>, sub: Graphs.GraphFrame)
    requires CarvedAll(pg, visited, subs) && |subs| < |pg.shards| && Carved(pg, visited, |subs|, sub)
    ensures CarvedAll(pg, visited, subs + [sub])
  {
    hide Carved;
  }

  /** On a closed graph these are the nodes an unfiltered traversal of the whole graph returns. */
  lemma ShardingTransparent(g: Graphs.GraphFrame, spec: EdgeTypeSpec, d: Direction, seeds: set<string>, hops: nat, passes: seq<bool>)
    requires Graphs.Closed(g.nodes.rows, g.edges.rows) && |passes| == |g.nodes.rows| && forall r | 0 <= r < |passes| :: passes[r]
    ensures Traversal.NodesWithin(g.nodes.rows, Whole(g, spec, d), seeds, hops)
         == Traversal.NodesWithin(g.nodes.rows, Query(g.edges.rows, d, spec, Traversal.OpenIds(g.nodes.rows, passes)), seeds, hops)
  {
    hide Traversal.NodesWithin, Graphs.Closed, Searches.EdgeIds;
    Searches.OpenTable(g, d, spec, seeds, hops, passes);
  }

  /** On a closed graph the answer is closed too: both ends of every returned edge are among the returned nodes. */
  lemma AnswerClosed(g: Graphs.GraphFrame, pg: PartitionedGraph, q: Query, roots: set<string>, hops: nat, nodes: seq<NodeRow>, edges: seq<EdgeRow>)
    requires Graphs.Closed(g.nodes.rows, g.edges.rows) && EdgesReturned(g, pg, q, roots, hops, edges)
    requires multiset(nodes) == multiset(Traversal.NodesWithin(g.nodes.rows, q, roots, hops))
    ensures Graphs.Closed(nodes, edges)
  {
    hide Within, EdgePart, MetBefore, Crosses, Traversal.NodesWithin;
    forall e | 0 <= e < |edges|
      ensures Graphs.EndsKnown(nodes, edges[e])
    {
      var r := edges[e];
      assert r in edges;
      var i :| 0 <= i < |g.edges.rows| && g.edges.rows[i] == r;
      assert Graphs.EndsKnown(g.nodes.rows, g.edges.rows[i]);
      EndReturned(g, q, roots, hops, nodes, r.src);
      EndReturned(g, q, roots, hops, nodes, r.dst);
    }
  }

  lemma EndReturned(g: Graphs.GraphFrame, q: Query, roots: set<string>, hops: nat, nodes: seq<NodeRow>, id: string)
    requires id in Nodes.Ids(g.nodes.rows) && Within(q, roots, hops, id)
    requires multiset(nodes) == multiset(Traversal.NodesWithin(g.nodes.rows, q, roots, hops))
    ensures id in Nodes.Ids(nodes)
  {
    hide Within, Kept;
    var rows := g.nodes.rows;
    var i :| 0 <= i < |rows| && Nodes.Ids(rows)[i] == id;
    KeptMember(rows, Traversal.WithinMask(rows, q, roots, hops), rows[i]);
    assert rows[i] in multiset(nodes);
    var j :| 0 <= j < |nodes| && nodes[j] == rows[i];
    assert Nodes.Ids(nodes)[j] == id;
  }
}
