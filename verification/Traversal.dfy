/** Multi-source breadth-first traversal with hop limit, direction, type and node filters. */
module Traversal {
  import opened Basics
  import opened Rows
  import opened Adjacency
  import opened Balls
  import Csr
  import Networks
  import Nodes = NodeFrames
  import Edges = EdgeFrames
  import Graphs = GraphFrames

  /** One traversal: the graph, its lazily built reverse index, and the configuration. `passes` holds the
      verdict of the node filter for every node row. */
  datatype Search = Search(g: Graphs.GraphFrame, inCsr: Csr.CsrIndex, d: Direction, spec: EdgeTypeSpec, passes: seq<bool>) {

    ghost predicate Valid() {
      Graphs.Valid(g) && Indexed(g.edges, inCsr) && |passes| == |g.nodes.rows|
    }

    ghost function N(): nat {
      |Edges.IdsOf(g.edges.rows)|
    }

    function Pairs(u: nat): seq<Networks.Arc>
      requires Valid()
    {
      NeighborPairs(g.edges, inCsr, u, d, spec)
    }

    /** The node row of an edge-local index, if the node table has it. */
    function Row(v: nat): (r: Option<nat>)
      requires Valid()
    {
      if v < |g.edgeNodeIdxToId| && g.edgeNodeIdxToId[v] in g.nodeIdToIdx then Some(g.nodeIdToIdx[g.edgeNodeIdxToId[v]]) else None
    }

    predicate Admits(v: nat)
      requires Valid()
    {
      Row(v).Some? && Row(v).value < |passes| && passes[Row(v).value]
    }
  }

  /** The ids whose node row passes the filter. */
  ghost function OpenIds(rows: seq<NodeRow>, passes: seq<bool>): set<string> {
    set r | 0 <= r < |rows| && r < |passes| && passes[r] :: rows[r].id
  }

  ghost function QueryOf(s: Search): Query {
    Query(s.g.edges.rows, s.d, s.spec, OpenIds(s.g.nodes.rows, s.passes))
  }

  // ---- index-level facts about one search ----

  lemma PairsLead(s: Search, u: nat, v: nat)
    requires s.Valid() && u < s.N()
    ensures (exists e: nat :: Networks.Arc(v, e) in s.Pairs(u)) <==> LeadsIdx(QueryOf(s), u, v)
  {
    hide Edges.IdsOf, NeighborPairs, Eligible, Graphs.Valid, Indexed;
    if e: nat :| Networks.Arc(v, e) in s.Pairs(u) {
      PairsExact(s.g.edges, s.inCsr, s.d, s.spec, u, v, e);
    }
    if LeadsIdx(QueryOf(s), u, v) {
      var ids := Edges.IdsOf(s.g.edges.rows);
      var e: nat :| e < |s.g.edges.rows| && Eligible(s.g.edges.rows[e], s.spec, s.d, ids[u], ids[v]);
      PairsExact(s.g.edges, s.inCsr, s.d, s.spec, u, v, e);
    }
  }

  lemma RowMeans(s: Search, v: nat)
    requires s.Valid() && v < s.N()
    ensures s.Row(v).Some? ==> s.Row(v).value < |s.g.nodes.rows| && s.g.nodes.rows[s.Row(v).value].id == Edges.IdsOf(s.g.edges.rows)[v]
    ensures s.Row(v).None? ==> Edges.IdsOf(s.g.edges.rows)[v] !in Nodes.Ids(s.g.nodes.rows)
  {
    hide Edges.IdsOf, Edges.Valid, Indexed;
    var id, rows := Edges.IdsOf(s.g.edges.rows)[v], Nodes.Ids(s.g.nodes.rows);
    if id in s.g.nodeIdToIdx {
      var i :| 0 <= i < |rows| && rows[i] == id;
    }
  }

  lemma AdmitsMeans(s: Search, v: nat)
    requires s.Valid() && v < s.N()
    ensures s.Admits(v) <==> OpenIdx(QueryOf(s), v)
  {
    hide Edges.IdsOf, Edges.Valid, Indexed;
    RowMeans(s, v);
    var id, rows := Edges.IdsOf(s.g.edges.rows)[v], s.g.nodes.rows;
    if OpenIdx(QueryOf(s), v) {
      var r :| 0 <= r < |rows| && s.passes[r] && rows[r].id == id;
      assert Nodes.Ids(rows)[r] == id;
    }
  }

  // ---- the state of the expansion ----

  /** An arc whose expansion is over: its edge is recorded if the other end was ever visited; otherwise that end is refused. */
  ghost predicate Handled(s: Search, visited: set<nat>, edgeRows: set<nat>, arc: Networks.Arc)
    requires s.Valid()
  {
    if arc.to in visited then arc.row in edgeRows else !s.Admits(arc.to)
  }

  /** The first `p` arcs of `u` are over. */
  ghost predicate HandledUpTo(s: Search, visited: set<nat>, edgeRows: set<nat>, u: nat, p: nat)
    requires s.Valid()
  {
    forall k | 0 <= k < p && k < |s.Pairs(u)| :: Handled(s, visited, edgeRows, s.Pairs(u)[k])
  }

  ghost predicate HandledAll(s: Search, visited: set<nat>, edgeRows: set<nat>, done: set<nat>)
    requires s.Valid()
  {
    forall u | u in done :: HandledUpTo(s, visited, edgeRows, u, |s.Pairs(u)|)
  }

  ghost predicate Traced(s: Search, visited: set<nat>, e: nat, u: nat)
    requires s.Valid()
  {
    exists v: nat :: v in visited && Networks.Arc(v, e) in s.Pairs(u)
  }

  /** Every recorded edge leaves an expanded node and ends in a visited one. */
  ghost predicate TracedAll(s: Search, visited: set<nat>, edgeRows: set<nat>, done: set<nat>)
    requires s.Valid()
  {
    forall e | e in edgeRows :: exists u :: u in done && Traced(s, visited, e, u)
  }

  /** Every visited index is in range; beyond `now`, it was admitted through an arc from `now`. */
  ghost predicate Reached(s: Search, now: set<nat>, visited: set<nat>)
    requires s.Valid()
  {
    && now <= visited && (forall v | v in visited :: v < s.N())
    && forall v | v in visited && v !in now :: s.Admits(v) && exists u :: u in now && LeadsIdx(QueryOf(s), u, v)
  }

  /** The node rows of the roots and of the visited indices. */
  ghost predicate RowsOf(s: Search, roots: set<string>, visited: set<nat>, nodeRows: set<nat>)
    requires s.Valid()
  {
    && (forall r | r in nodeRows :: r < |s.g.nodes.rows| && (s.g.nodes.rows[r].id in roots || exists v :: v in visited && s.Row(v) == Some(r)))
    && (forall v | v in visited && s.Row(v).Some? :: s.Row(v).value in nodeRows)
    && forall r | 0 <= r < |s.g.nodes.rows| && s.g.nodes.rows[r].id in roots :: r in nodeRows
  }

  /** Mid-round: `now` is the ball being expanded, `done` its fully expanded part, `frontier` the newcomers. */
  ghost predicate Expanding(s: Search, roots: set<string>, now: set<nat>, done: set<nat>, visited: set<nat>, nodeRows: set<nat>,
                            edgeRows: set<nat>, frontier: seq<nat>)
  {
    && s.Valid() && done <= now && Reached(s, now, visited) && RowsOf(s, roots, visited, nodeRows)
    && HandledAll(s, visited, edgeRows, done)
    && (forall v :: v in frontier <==> v in visited && v !in now)
    && forall e | e in edgeRows :: exists u :: u in now && Traced(s, visited, e, u)
  }

  lemma PairsInRange(s: Search, u: nat, k: nat)
    requires s.Valid() && u < s.N() && k < |s.Pairs(u)|
    ensures s.Pairs(u)[k].to < s.N() && s.Pairs(u)[k].row < |s.g.edges.rows| && LeadsIdx(QueryOf(s), u, s.Pairs(u)[k].to)
  {
    hide Edges.IdsOf, NeighborPairs, Eligible, Graphs.Valid, Indexed;
    var arc := s.Pairs(u)[k];
    assert arc in s.Pairs(u);
    PairsExact(s.g.edges, s.inCsr, s.d, s.spec, u, arc.to, arc.row);
  }

  /** The three outcomes of one arc. */
  lemma SeenArc(s: Search, roots: set<string>, now: set<nat>, done: set<nat>, visited: set<nat>, nodeRows: set<nat>,
                edgeRows: set<nat>, frontier: seq<nat>, u: nat, k: nat)
    requires Expanding(s, roots, now, done, visited, nodeRows, edgeRows, frontier) && HandledUpTo(s, visited, edgeRows, u, k)
    requires u in now && k < |s.Pairs(u)| && s.Pairs(u)[k].to in visited
    ensures Expanding(s, roots, now, done, visited, nodeRows, edgeRows + {s.Pairs(u)[k].row}, frontier)
    ensures HandledUpTo(s, visited, edgeRows + {s.Pairs(u)[k].row}, u, k + 1)
  {
    hide Search.Valid, Search.Pairs, Search.Admits, Reached, RowsOf;
    var arc := s.Pairs(u)[k];
    assert arc == Networks.Arc(arc.to, arc.row) && arc in s.Pairs(u);
    assert Traced(s, visited, arc.row, u);
  }

  lemma RefusedArc(s: Search, roots: set<string>, now: set<nat>, done: set<nat>, visited: set<nat>, nodeRows: set<nat>,
                   edgeRows: set<nat>, frontier: seq<nat>, u: nat, k: nat)
    requires Expanding(s, roots, now, done, visited, nodeRows, edgeRows, frontier) && HandledUpTo(s, visited, edgeRows, u, k)
    requires k < |s.Pairs(u)| && s.Pairs(u)[k].to !in visited && !s.Admits(s.Pairs(u)[k].to)
    ensures HandledUpTo(s, visited, edgeRows, u, k + 1)
  {
    hide Search.Valid, Search.Pairs, Search.Admits, Reached, RowsOf;
  }

  lemma AdmitArc(s: Search, roots: set<string>, now: set<nat>, done: set<nat>, visited: set<nat>, nodeRows: set<nat>,
                 edgeRows: set<nat>, frontier: seq<nat>, u: nat, k: nat)
    requires Expanding(s, roots, now, done, visited, nodeRows, edgeRows, frontier) && HandledUpTo(s, visited, edgeRows, u, k)
    requires u in now && k < |s.Pairs(u)| && s.Pairs(u)[k].to !in visited && s.Admits(s.Pairs(u)[k].to)
    ensures Expanding(s, roots, now, done, visited + {s.Pairs(u)[k].to}, nodeRows + {s.Row(s.Pairs(u)[k].to).value},
                      edgeRows + {s.Pairs(u)[k].row}, frontier + [s.Pairs(u)[k].to])
    ensures HandledUpTo(s, visited + {s.Pairs(u)[k].to}, edgeRows + {s.Pairs(u)[k].row}, u, k + 1)
  {
    hide Graphs.Valid, Indexed, NeighborPairs;
    var arc := s.Pairs(u)[k];
    var visited', nodeRows', edgeRows' := visited + {arc.to}, nodeRows + {s.Row(arc.to).value}, edgeRows + {arc.row};
    PairsInRange(s, u, k);
    RowMeans(s, arc.to);
    AdmitKeepsHandled(s, visited, edgeRows, done, arc);
    AdmitKeepsRows(s, roots, visited, nodeRows, arc.to);
    AdmitKeepsUpTo(s, visited, edgeRows, u, k, arc);
    AdmitKeepsTraced(s, visited, edgeRows, now, u, k);
    assert Reached(s, now, visited');
  }

  lemma AdmitKeepsHandled(s: Search, visited: set<nat>, edgeRows: set<nat>, done: set<nat>, arc: Networks.Arc)
    requires s.Valid() && HandledAll(s, visited, edgeRows, done) && s.Admits(arc.to) && arc.to !in visited
    ensures HandledAll(s, visited + {arc.to}, edgeRows + {arc.row}, done)
  {
    hide Search.Valid, Search.Pairs, Search.Admits;
  }

  lemma AdmitKeepsUpTo(s: Search, visited: set<nat>, edgeRows: set<nat>, u: nat, k: nat, arc: Networks.Arc)
    requires s.Valid() && HandledUpTo(s, visited, edgeRows, u, k) && s.Admits(arc.to) && arc.to !in visited && k < |s.Pairs(u)| && s.Pairs(u)[k] == arc
    ensures HandledUpTo(s, visited + {arc.to}, edgeRows + {arc.row}, u, k + 1)
  {
    hide Search.Valid, Search.Pairs, Search.Admits;
  }

  lemma AdmitKeepsRows(s: Search, roots: set<string>, visited: set<nat>, nodeRows: set<nat>, v: nat)
    requires s.Valid() && RowsOf(s, roots, visited, nodeRows) && v < s.N() && s.Row(v).Some?
    ensures RowsOf(s, roots, visited + {v}, nodeRows + {s.Row(v).value})
  {
    RowMeans(s, v);
    hide Search.Valid, Search.Row;
  }

  lemma AdmitKeepsTraced(s: Search, visited: set<nat>, edgeRows: set<nat>, now: set<nat>, u: nat, k: nat)
    requires s.Valid() && u in now && k < |s.Pairs(u)|
    requires forall e | e in edgeRows :: exists x :: x in now && Traced(s, visited, e, x)
    ensures forall e | e in edgeRows + {s.Pairs(u)[k].row} :: exists x :: x in now && Traced(s, visited + {s.Pairs(u)[k].to}, e, x)
  {
    hide Search.Valid, Search.Pairs;
    var arc := s.Pairs(u)[k];
    assert arc == Networks.Arc(arc.to, arc.row) && arc in s.Pairs(u);
    assert Traced(s, visited + {arc.to}, arc.row, u);
    forall e | e in edgeRows
      ensures exists x :: x in now && Traced(s, visited + {arc.to}, e, x)
    {
      var x :| x in now && Traced(s, visited, e, x);
      var v: nat :| v in visited && Networks.Arc(v, e) in s.Pairs(x);
      assert Traced(s, visited + {arc.to}, e, x);
    }
  }

  lemma FinishNode(s: Search, roots: set<string>, now: set<nat>, done: set<nat>, visited: set<nat>, nodeRows: set<nat>,
                   edgeRows: set<nat>, frontier: seq<nat>, u: nat)
    requires Expanding(s, roots, now, done, visited, nodeRows, edgeRows, frontier) && u in now
    requires HandledUpTo(s, visited, edgeRows, u, |s.Pairs(u)|)
    ensures Expanding(s, roots, now, done + {u}, visited, nodeRows, edgeRows, frontier)
  {
    hide Search.Valid, Search.Pairs, Reached, RowsOf, Traced, HandledUpTo;
  }

  lemma ExpandingValid(s: Search, roots: set<string>, now: set<nat>, done: set<nat>, visited: set<nat>, nodeRows: set<nat>,
                       edgeRows: set<nat>, frontier: seq<nat>)
    requires Expanding(s, roots, now, done, visited, nodeRows, edgeRows, frontier)
    ensures s.Valid() && forall u | u in now :: u < s.N() && HandledUpTo(s, visited, edgeRows, u, 0)
  {
    hide Search.Valid, Search.Pairs;
  }

  /** Expands `u` and admits its neighbours into the frontier. */
  method ExpandNode(s: Search, ghost roots: set<string>, ghost now: set<nat>, ghost done: set<nat>, u: nat,
                    visited0: set<nat>, nodeRows0: set<nat>, edgeRows0: set<nat>, frontier0: seq<nat>)
    returns (visited: set<nat>, nodeRows: set<nat>, edgeRows: set<nat>, frontier: seq<nat>)
    requires Expanding(s, roots, now, done, visited0, nodeRows0, edgeRows0, frontier0) && u in now
    ensures Expanding(s, roots, now, done + {u}, visited, nodeRows, edgeRows, frontier)
  {
    hide Expanding, HandledUpTo, Search.Valid, Search.Pairs;
    visited, nodeRows, edgeRows, frontier := visited0, nodeRows0, edgeRows0, frontier0;
    ExpandingValid(s, roots, now, done, visited, nodeRows, edgeRows, frontier);
    var pairs := s.Pairs(u);
    var k := 0;
    while k < |pairs|
      invariant 0 <= k <= |pairs|
      invariant Expanding(s, roots, now, done, visited, nodeRows, edgeRows, frontier) && HandledUpTo(s, visited, edgeRows, u, k)
    {
      var arc := pairs[k];
      if arc.to in visited {
        SeenArc(s, roots, now, done, visited, nodeRows, edgeRows, frontier, u, k);
        edgeRows := edgeRows + {arc.row};
      } else {
        var row := s.Row(arc.to);
        if row.None? || row.value >= |s.passes| || !s.passes[row.value] {
          RefusedArc(s, roots, now, done, visited, nodeRows, edgeRows, frontier, u, k);
        } else {
          AdmitArc(s, roots, now, done, visited, nodeRows, edgeRows, frontier, u, k);
          visited := visited + {arc.to};
          nodeRows := nodeRows + {row.value};
          edgeRows := edgeRows + {arc.row};
          frontier := frontier + [arc.to];
        }
      }
      k := k + 1;
    }
    FinishNode(s, roots, now, done, visited, nodeRows, edgeRows, frontier, u);
  }

  // ---- rounds ----

  /** After `k` rounds the visited indices are the ball of radius `k`, and those expanded the ball before. */
  ghost predicate Between(s: Search, roots: set<string>, k: nat, done: set<nat>, visited: set<nat>, nodeRows: set<nat>,
                          edgeRows: set<nat>, frontier: seq<nat>)
  {
    && s.Valid() && visited == Ball(QueryOf(s), roots, k) && RowsOf(s, roots, visited, nodeRows)
    && (forall v :: v in frontier <==> v in visited && v !in done) && done <= visited
    && done == (if k == 0 then {} else Ball(QueryOf(s), roots, k - 1))
    && HandledAll(s, visited, edgeRows, done) && TracedAll(s, visited, edgeRows, done)
  }

  lemma BeginRound(s: Search, roots: set<string>, k: nat, done: set<nat>, visited: set<nat>, nodeRows: set<nat>,
                   edgeRows: set<nat>, frontier: seq<nat>)
    requires Between(s, roots, k, done, visited, nodeRows, edgeRows, frontier)
    ensures Expanding(s, roots, visited, done, visited, nodeRows, edgeRows, []) && forall v | v in frontier :: v in visited
  {
    hide Search.Valid, Search.Pairs, RowsOf, Traced, HandledAll;
  }

  /** All open neighbours of expanded nodes are visited. */
  lemma HandledLeads(s: Search, visited: set<nat>, edgeRows: set<nat>, done: set<nat>, u: nat, v: nat)
    requires s.Valid() && HandledAll(s, visited, edgeRows, done) && u in done && LeadsIdx(QueryOf(s), u, v) && OpenIdx(QueryOf(s), v)
    ensures v in visited
  {
    hide Search.Valid, Search.Pairs, Search.Admits, Leads, Edges.IdsOf;
    PairsLead(s, u, v);
    AdmitsMeans(s, v);
    var e: nat :| Networks.Arc(v, e) in s.Pairs(u);
    var k :| 0 <= k < |s.Pairs(u)| && s.Pairs(u)[k] == Networks.Arc(v, e);
    assert Handled(s, visited, edgeRows, s.Pairs(u)[k]);
  }

  lemma EndRound(s: Search, roots: set<string>, k: nat, now: set<nat>, visited: set<nat>, nodeRows: set<nat>,
                 edgeRows: set<nat>, frontier: seq<nat>)
    requires now == Ball(QueryOf(s), roots, k) && Expanding(s, roots, now, now, visited, nodeRows, edgeRows, frontier)
    ensures Between(s, roots, k + 1, now, visited, nodeRows, edgeRows, frontier)
  {
    hide Search.Valid, Search.Pairs, Search.Admits, RowsOf, Traced, HandledAll, LeadsIdx, OpenIdx, Ball, QueryOf;
    var q := QueryOf(s);
    forall v | v in visited && v !in now
      ensures OpenIdx(q, v) && exists u :: u in now && LeadsIdx(q, u, v)
    {
      AdmitsMeans(s, v);
    }
    forall u, v | u in now && LeadsIdx(q, u, v) && OpenIdx(q, v)
      ensures v in visited
    {
      HandledLeads(s, visited, edgeRows, now, u, v);
    }
    NextBall(q, roots, k, now, visited);
  }

  /** An empty frontier means every later ball is the same. */
  lemma Exhausted(s: Search, roots: set<string>, k: nat, hops: nat, done: set<nat>, visited: set<nat>, nodeRows: set<nat>, edgeRows: set<nat>)
    requires Between(s, roots, k, done, visited, nodeRows, edgeRows, []) && k < hops
    ensures Between(s, roots, hops, done, visited, nodeRows, edgeRows, [])
  {
    hide Search.Valid, Search.Pairs, Search.Admits, RowsOf, TracedAll, HandledAll, LeadsIdx, OpenIdx, QueryOf;
    var q := QueryOf(s);
    assert done == visited;
    forall u, v | u in Ball(q, roots, k) && LeadsIdx(q, u, v) && OpenIdx(q, v)
      ensures v in Ball(q, roots, k)
    {
      HandledLeads(s, visited, edgeRows, done, u, v);
    }
    BallCloses(q, roots, k);
    SameBall(q, roots, k, hops);
    SameBall(q, roots, k, hops - 1);
  }

  lemma SameBall(q: Query, roots: set<string>, k: nat, m: nat)
    requires Closes(q, roots, k) && k <= m
    ensures Ball(q, roots, m) == Ball(q, roots, k)
  {
    hide Within, Closes;
    forall i: nat
      ensures i in Ball(q, roots, m) <==> i in Ball(q, roots, k)
    {
      if i < |Edges.IdsOf(q.rows)| {
        ClosedStays(q, roots, k, m, Edges.IdsOf(q.rows)[i]);
      }
    }
  }

  // ---- seeding ----

  ghost function RootSet(roots: seq<string>): set<string> {
    set i | 0 <= i < |roots| :: roots[i]
  }

  /** After seeding the roots in `roots`: their indices are visited and queued, their rows recorded. */
  ghost predicate Seeded(s: Search, roots: set<string>, visited: set<nat>, nodeRows: set<nat>, frontier: seq<nat>) {
    && s.Valid()
    && (forall v: nat :: v in visited <==> v < s.N() && Edges.IdsOf(s.g.edges.rows)[v] in roots)
    && (forall v :: v in frontier <==> v in visited)
    && (forall r: nat :: r in nodeRows <==> r < |s.g.nodes.rows| && s.g.nodes.rows[r].id in roots)
  }

  lemma SeedRoot(s: Search, roots: set<string>, visited: set<nat>, nodeRows: set<nat>, frontier: seq<nat>, id: string)
    requires Seeded(s, roots, visited, nodeRows, frontier) && id in s.g.nodes.idIndex
    ensures id !in s.g.edges.nodeIndex ==> Seeded(s, roots + {id}, visited, nodeRows + {s.g.nodes.idIndex[id]}, frontier)
    ensures id in s.g.edges.nodeIndex ==>
      var v := s.g.edges.nodeIndex[id];
      Seeded(s, roots + {id}, visited + {v}, nodeRows + {s.g.nodes.idIndex[id]}, if v in visited then frontier else frontier + [v])
  {
    hide Edges.IdsOf, Edges.TypesOf, Edges.OutOf, Indexed;
    var ids, rows := Edges.IdsOf(s.g.edges.rows), Nodes.Ids(s.g.nodes.rows);
    var i :| 0 <= i < |rows| && rows[i] == id;
    forall v: nat | v < |ids|
      ensures ids[v] == id <==> id in s.g.edges.nodeIndex && v == s.g.edges.nodeIndex[id]
    {
      if id in s.g.edges.nodeIndex {
        var j :| 0 <= j < |ids| && ids[j] == id;
      }
    }
    if id in s.g.edges.nodeIndex {
      var j :| 0 <= j < |ids| && ids[j] == id;
      assert s.g.edges.nodeIndex[id] < |ids|;
    }
    forall r: nat | r < |s.g.nodes.rows|
      ensures s.g.nodes.rows[r].id == id <==> r == s.g.nodes.idIndex[id]
    {
      assert rows[r] == s.g.nodes.rows[r].id;
    }
  }

  lemma FirstBetween(s: Search, roots: set<string>, visited: set<nat>, nodeRows: set<nat>, frontier: seq<nat>)
    requires Seeded(s, roots, visited, nodeRows, frontier)
    ensures Between(s, roots, 0, {}, visited, nodeRows, {}, frontier)
  {
    hide Edges.IdsOf, Indexed, Edges.Valid;
    var q := QueryOf(s);
    assert visited == Ball(q, roots, 0);
    forall v | v in visited && s.Row(v).Some?
      ensures s.Row(v).value in nodeRows
    {
      RowMeans(s, v);
    }
  }

  // ---- the answer ----

  ghost function WithinMask(rows: seq<NodeRow>, q: Query, roots: set<string>, hops: nat): (mask: seq<bool>)
    ensures |mask| == |rows| && forall r | 0 <= r < |rows| :: mask[r] <==> Within(q, roots, hops, rows[r].id)
  {
    seq(|rows|, r requires 0 <= r < |rows| => Within(q, roots, hops, rows[r].id))
  }

  /** The nodes within `hops`, in table order. */
  ghost function NodesWithin(rows: seq<NodeRow>, q: Query, roots: set<string>, hops: nat): seq<NodeRow> {
    Kept(rows, WithinMask(rows, q, roots, hops))
  }

  /** Edge row `e` leaves a node expanded before the hop limit and ends in a visited one. */
  ghost predicate Crossed(q: Query, roots: set<string>, hops: nat, e: nat) {
    hops > 0 && e < |q.rows| && exists a, b :: Eligible(q.rows[e], q.spec, q.d, a, b) && Within(q, roots, hops - 1, a) && Within(q, roots, hops, b)
  }

  ghost function EdgesCrossed(q: Query, roots: set<string>, hops: nat): seq<EdgeRow> {
    Kept(q.rows, seq(|q.rows|, e requires 0 <= e < |q.rows| => Crossed(q, roots, hops, e)))
  }

  lemma NodeAnswer(s: Search, roots: set<string>, hops: nat, visited: set<nat>, nodeRows: set<nat>, r: nat)
    requires s.Valid() && visited == Ball(QueryOf(s), roots, hops) && RowsOf(s, roots, visited, nodeRows) && r < |s.g.nodes.rows|
    ensures r in nodeRows <==> Within(QueryOf(s), roots, hops, s.g.nodes.rows[r].id)
  {
    hide Edges.IdsOf, Edges.Valid, Indexed, Within, Leads;
    var q, ids, id := QueryOf(s), Edges.IdsOf(s.g.edges.rows), s.g.nodes.rows[r].id;
    if r in nodeRows && id !in roots {
      var v :| v in visited && s.Row(v) == Some(r);
      RowMeans(s, v);
    }
    RootWithin(q, roots, hops, id);
    if Within(q, roots, hops, id) && id !in roots {
      WithinIndexed(q, roots, hops, id);
      var v :| 0 <= v < |ids| && ids[v] == id;
      BallHas(q, roots, hops, v);
      RowMeans(s, v);
      assert Nodes.Ids(s.g.nodes.rows)[r] == id;
      assert s.Row(v) == Some(r);
    }
  }

  lemma RootWithin(q: Query, roots: set<string>, k: nat, x: string)
    ensures x in roots ==> Within(q, roots, k, x)
  {
  }

  lemma {:induction false} WithinIndexed(q: Query, roots: set<string>, k: nat, x: string)
    requires Within(q, roots, k, x) && x !in roots
    ensures x in Edges.IdsOf(q.rows)
    decreases k
  {
    if Within(q, roots, k - 1, x) {
      WithinIndexed(q, roots, k - 1, x);
    } else {
      var a :| Within(q, roots, k - 1, a) && Leads(q, a, x);
      LeadsIndexed(q, a, x);
    }
  }

  lemma EdgeAnswer(s: Search, roots: set<string>, hops: nat, done: set<nat>, visited: set<nat>, nodeRows: set<nat>, edgeRows: set<nat>,
                   frontier: seq<nat>, e: nat)
    requires Between(s, roots, hops, done, visited, nodeRows, edgeRows, frontier) && e < |s.g.edges.rows|
    ensures e in edgeRows <==> Crossed(QueryOf(s), roots, hops, e)
  {
    hide Edges.IdsOf, Edges.Valid, Indexed, Within, Leads, NeighborPairs, Eligible, RowsOf, Search.Admits;
    var q, ids := QueryOf(s), Edges.IdsOf(s.g.edges.rows);
    if e in edgeRows {
      var u :| u in done && Traced(s, visited, e, u);
      var v: nat :| v in visited && Networks.Arc(v, e) in s.Pairs(u);
      PairsExact(s.g.edges, s.inCsr, s.d, s.spec, u, v, e);
      assert Eligible(q.rows[e], q.spec, q.d, ids[u], ids[v]);
    }
    if Crossed(q, roots, hops, e) {
      var a, b :| Eligible(q.rows[e], q.spec, q.d, a, b) && Within(q, roots, hops - 1, a) && Within(q, roots, hops, b);
      EligibleEnds(q, e, a, b);
      var u :| 0 <= u < |ids| && ids[u] == a;
      var v :| 0 <= v < |ids| && ids[v] == b;
      PairsExact(s.g.edges, s.inCsr, s.d, s.spec, u, v, e);
      var k :| 0 <= k < |s.Pairs(u)| && s.Pairs(u)[k] == Networks.Arc(v, e);
      assert Handled(s, visited, edgeRows, s.Pairs(u)[k]);
    }
  }

  lemma EligibleEnds(q: Query, e: nat, a: string, b: string)
    requires e < |q.rows| && Eligible(q.rows[e], q.spec, q.d, a, b)
    ensures a in Edges.IdsOf(q.rows) && b in Edges.IdsOf(q.rows)
  {
    hide Edges.IdsOf;
    assert Leads(q, a, b);
    LeadsIndexed(q, a, b);
  }

  function RowMask(n: nat, rows: set<nat>): (mask: seq<bool>)
    ensures |mask| == n && forall r | 0 <= r < n :: mask[r] <==> r in rows
  {
    seq(n, r => r in rows)
  }

  lemma Answers(s: Search, roots: set<string>, hops: nat, done: set<nat>, visited: set<nat>, nodeRows: set<nat>, edgeRows: set<nat>, frontier: seq<nat>)
    requires Between(s, roots, hops, done, visited, nodeRows, edgeRows, frontier)
    ensures Kept(s.g.nodes.rows, RowMask(|s.g.nodes.rows|, nodeRows)) == NodesWithin(s.g.nodes.rows, QueryOf(s), roots, hops)
    ensures Kept(s.g.edges.rows, RowMask(|s.g.edges.rows|, edgeRows)) == EdgesCrossed(QueryOf(s), roots, hops)
  {
    hide Kept, Within, Crossed, RowsOf, HandledAll, TracedAll, Ball, Search.Valid;
    var q, rows := QueryOf(s), s.g.nodes.rows;
    var wanted := WithinMask(rows, q, roots, hops);
    forall r | 0 <= r < |rows|
      ensures RowMask(|rows|, nodeRows)[r] == wanted[r]
    {
      NodeAnswer(s, roots, hops, visited, nodeRows, r);
    }
    assert RowMask(|rows|, nodeRows) == wanted;
    var crossed := seq(|q.rows|, e requires 0 <= e < |q.rows| => Crossed(q, roots, hops, e));
    forall e | 0 <= e < |q.rows|
      ensures RowMask(|q.rows|, edgeRows)[e] == crossed[e]
    {
      EdgeAnswer(s, roots, hops, done, visited, nodeRows, edgeRows, frontier, e);
    }
    assert RowMask(|q.rows|, edgeRows) == crossed;
  }

  /** `k` is the first root missing from the node table. */
  ghost predicate FirstMissing(g: Graphs.GraphFrame, roots: seq<string>, k: nat) {
    k < |roots| && roots[k] !in Nodes.Ids(g.nodes.rows) && forall i | 0 <= i < k :: roots[i] in Nodes.Ids(g.nodes.rows)
  }

  lemma KnownId(g: Graphs.GraphFrame, id: string)
    requires Graphs.Valid(g)
    ensures id in g.nodes.idIndex <==> id in Nodes.Ids(g.nodes.rows)
  {
    hide Edges.Valid;
  }

  lemma SeedNothing(s: Search)
    requires s.Valid()
    ensures Seeded(s, {}, {}, {}, [])
  {
  }

  method SeedRoots(s: Search, roots: seq<string>) returns (r: Result<(set<nat>, set<nat>, seq<nat>)>)
    requires s.Valid()
    ensures r.Failure? ==> exists k: nat :: FirstMissing(s.g, roots, k) && r.error == NodeNotFound(roots[k])
    ensures r.Success? ==> (forall i | 0 <= i < |roots| :: roots[i] in Nodes.Ids(s.g.nodes.rows))
    ensures r.Success? ==> Seeded(s, RootSet(roots), r.value.0, r.value.1, r.value.2)
  {
    hide Search.Valid, Seeded, Graphs.Valid;
    var visited: set<nat>, nodeRows: set<nat>, frontier: seq<nat> := {}, {}, [];
    var i := 0;
    SeedNothing(s);
    assert RootSet(roots[..0]) == {};
    while i < |roots|
      invariant 0 <= i <= |roots| && Seeded(s, RootSet(roots[..i]), visited, nodeRows, frontier)
      invariant forall k | 0 <= k < i :: roots[k] in Nodes.Ids(s.g.nodes.rows)
    {
      var root := roots[i];
      SearchGraph(s);
      KnownId(s.g, root);
      if root !in s.g.nodes.idIndex {
        assert FirstMissing(s.g, roots, i);
        return Failure(NodeNotFound(root));
      }
      SeedRoot(s, RootSet(roots[..i]), visited, nodeRows, frontier, root);
      assert RootSet(roots[..i + 1]) == RootSet(roots[..i]) + {root};
      nodeRows := nodeRows + {s.g.nodes.idIndex[root]};
      if root in s.g.edges.nodeIndex {
        var v := s.g.edges.nodeIndex[root];
        if v !in visited {
          frontier := frontier + [v];
        }
        visited := visited + {v};
      }
      i := i + 1;
    }
    assert roots[..i] == roots;
    return Success((visited, nodeRows, frontier));
  }

  lemma SearchGraph(s: Search)
    requires s.Valid()
    ensures Graphs.Valid(s.g) && Nodes.Valid(s.g.nodes)
  {
  }

  method Run(s: Search, roots: seq<string>, hops: nat, visited0: set<nat>, nodeRows0: set<nat>, frontier0: seq<nat>)
    returns (nodeRows: set<nat>, edgeRows: set<nat>)
    requires Seeded(s, RootSet(roots), visited0, nodeRows0, frontier0)
    ensures s.Valid() && Kept(s.g.nodes.rows, RowMask(|s.g.nodes.rows|, nodeRows)) == NodesWithin(s.g.nodes.rows, QueryOf(s), RootSet(roots), hops)
    ensures Kept(s.g.edges.rows, RowMask(|s.g.edges.rows|, edgeRows)) == EdgesCrossed(QueryOf(s), RootSet(roots), hops)
  {
    hide Search.Valid, Seeded, Between, Expanding, Kept, NodesWithin, EdgesCrossed, RootSet, RowMask, Ball;
    var visited, frontier := visited0, frontier0;
    nodeRows, edgeRows := nodeRows0, {};
    ghost var rootSet, done: set<nat> := RootSet(roots), {};
    FirstBetween(s, rootSet, visited, nodeRows, frontier);
    var round := 0;
    while round < hops
      invariant 0 <= round <= hops && Between(s, rootSet, round, done, visited, nodeRows, edgeRows, frontier)
    {
      if |frontier| == 0 {
        assert frontier == [];
        Exhausted(s, rootSet, round, hops, done, visited, nodeRows, edgeRows);
        break;
      }
      BeginRound(s, rootSet, round, done, visited, nodeRows, edgeRows, frontier);
      RoundBall(s, rootSet, round, done, visited, nodeRows, edgeRows, frontier);
      var current := frontier;
      ghost var now, before := visited, done;
      frontier := [];
      var j := 0;
      while j < |current|
        invariant 0 <= j <= |current| && done == before + SetOf(current[..j])
        invariant Expanding(s, rootSet, now, done, visited, nodeRows, edgeRows, frontier)
      {
        assert current[j] in current;
        visited, nodeRows, edgeRows, frontier := ExpandNode(s, rootSet, now, done, current[j], visited, nodeRows, edgeRows, frontier);
        done := done + {current[j]};
        SetOfMore(current, j);
        j := j + 1;
      }
      assert current[..j] == current;
      assert done == now;
      EndRound(s, rootSet, round, now, visited, nodeRows, edgeRows, frontier);
      round := round + 1;
    }
    if round == hops {
      AnswerValid(s, rootSet, hops, done, visited, nodeRows, edgeRows, frontier);
    }
    Answers(s, rootSet, hops, done, visited, nodeRows, edgeRows, frontier);
    AnswerValid(s, rootSet, hops, done, visited, nodeRows, edgeRows, frontier);
  }

  ghost function SetOf(s: seq<nat>): (r: set<nat>)
    ensures forall x :: x in r <==> x in s
  {
    set x | x in s
  }

  lemma SetOfMore(s: seq<nat>, j: nat)
    requires j < |s|
    ensures SetOf(s[..j + 1]) == SetOf(s[..j]) + {s[j]}
  {
  }

  lemma RoundBall(s: Search, roots: set<string>, k: nat, done: set<nat>, visited: set<nat>, nodeRows: set<nat>, edgeRows: set<nat>, frontier: seq<nat>)
    requires Between(s, roots, k, done, visited, nodeRows, edgeRows, frontier)
    ensures s.Valid() && visited == Ball(QueryOf(s), roots, k) && done + SetOf(frontier) == visited
  {
    hide Search.Valid, RowsOf, HandledAll, TracedAll, Ball;
  }

  lemma AnswerValid(s: Search, roots: set<string>, k: nat, done: set<nat>, visited: set<nat>, nodeRows: set<nat>, edgeRows: set<nat>, frontier: seq<nat>)
    requires Between(s, roots, k, done, visited, nodeRows, edgeRows, frontier)
    ensures s.Valid()
  {
  }

  /** `id` is a root or passes the filter. */
  ghost predicate Welcome(nodes: seq<NodeRow>, passes: seq<bool>, roots: seq<string>, id: string) {
    id in roots || exists r :: 0 <= r < |nodes| && r < |passes| && passes[r] && nodes[r].id == id
  }

  lemma WelcomeMeans(nodes: seq<NodeRow>, passes: seq<bool>, roots: seq<string>, id: string)
    ensures Welcome(nodes, passes, roots, id) <==> id in RootSet(roots) || id in OpenIds(nodes, passes)
  {
  }

  /** The edge rows of the answer, spelled out: the types the filter admits, leaving a node expanded before the
      hop limit in the direction asked for, towards a root or a node that passes. */
  lemma CrossedMeans(nodes: seq<NodeRow>, passes: seq<bool>, roots: seq<string>, q: Query, hops: nat, r: EdgeRow)
    requires q.open == OpenIds(nodes, passes)
    ensures r in EdgesCrossed(q, RootSet(roots), hops) <==>
      && hops > 0 && r in q.rows
      && (q.spec.Any? || (q.spec.Single? && r.etype == q.spec.etype) || (q.spec.Multiple? && r.etype in q.spec.etypes))
      && ((!q.d.In? && Within(q, RootSet(roots), hops - 1, r.src) && Welcome(nodes, passes, roots, r.dst))
          || (!q.d.Out? && Within(q, RootSet(roots), hops - 1, r.dst) && Welcome(nodes, passes, roots, r.src)))
  {
    hide Within, Kept, Welcome, OpenIds, RootSet, Eligible;
    var rs := RootSet(roots);
    KeptMember(q.rows, seq(|q.rows|, e requires 0 <= e < |q.rows| => Crossed(q, rs, hops, e)), r);
    WelcomeMeans(nodes, passes, roots, r.src);
    WelcomeMeans(nodes, passes, roots, r.dst);
    EligibleMeans(r, q.spec, q.d, r.src, r.dst);
    EligibleMeans(r, q.spec, q.d, r.dst, r.src);
    if r in EdgesCrossed(q, rs, hops) {
      var e :| 0 <= e < |q.rows| && Crossed(q, rs, hops, e) && q.rows[e] == r;
      var a, b :| Eligible(r, q.spec, q.d, a, b) && Within(q, rs, hops - 1, a) && Within(q, rs, hops, b);
      EligibleMeans(r, q.spec, q.d, a, b);
      StepReaches(q, rs, hops, e, a, b);
    }
    if r in q.rows && hops > 0 {
      var e :| 0 <= e < |q.rows| && q.rows[e] == r;
      StepReaches(q, rs, hops, e, r.src, r.dst);
      StepReaches(q, rs, hops, e, r.dst, r.src);
      assert Crossed(q, rs, hops, e) <== Eligible(r, q.spec, q.d, r.src, r.dst) && Within(q, rs, hops - 1, r.src) && Within(q, rs, hops, r.dst);
      assert Crossed(q, rs, hops, e) <== Eligible(r, q.spec, q.d, r.dst, r.src) && Within(q, rs, hops - 1, r.dst) && Within(q, rs, hops, r.src);
    }
  }

  lemma StepReaches(q: Query, roots: set<string>, hops: nat, e: nat, a: string, b: string)
    requires hops > 0 && e < |q.rows|
    ensures Eligible(q.rows[e], q.spec, q.d, a, b) && Within(q, roots, hops - 1, a) ==>
      (Within(q, roots, hops, b) <==> b in roots || b in q.open)
  {
    hide Eligible;
    if Eligible(q.rows[e], q.spec, q.d, a, b) {
      assert Leads(q, a, b);
    }
    if Within(q, roots, hops, b) {
      WithinWelcome(q, roots, hops, b);
    }
  }

  lemma {:induction false} WithinWelcome(q: Query, roots: set<string>, k: nat, x: string)
    requires Within(q, roots, k, x)
    ensures x in roots || x in q.open
    decreases k
  {
    if x !in roots && Within(q, roots, k - 1, x) {
      WithinWelcome(q, roots, k - 1, x);
    }
  }

  /** Breadth-first traversal. The nodes returned are the roots and everything within `hops` eligible
      steps through admitted nodes; the edges are the eligible ones that leave a node expanded before the
      hop limit and end in a returned node. */
  method Bfs(g: Graphs.GraphFrame, roots: seq<string>, hops: nat, d: Direction, spec: EdgeTypeSpec, passes: seq<bool>)
    returns (r: Result<(Nodes.NodeFrame, Edges.EdgeFrame)>)
    requires Graphs.Valid(g) && |passes| == |g.nodes.rows|
    ensures r.Success? <==> forall i | 0 <= i < |roots| :: roots[i] in Nodes.Ids(g.nodes.rows)
    ensures r.Failure? ==> exists k: nat :: FirstMissing(g, roots, k) && r.error == NodeNotFound(roots[k])
    ensures r.Success? ==>
      var q := Query(g.edges.rows, d, spec, OpenIds(g.nodes.rows, passes));
      && Nodes.Valid(r.value.0) && Edges.Valid(r.value.1)
      && r.value.0.rows == NodesWithin(g.nodes.rows, q, RootSet(roots), hops)
      && r.value.1.rows == EdgesCrossed(q, RootSet(roots), hops)
    ensures r.Success? ==> forall x | x in r.value.1.rows ::
      spec.Any? || (spec.Single? && x.etype == spec.etype) || (spec.Multiple? && x.etype in spec.etypes)
    ensures r.Success? ==>
      var q := Query(g.edges.rows, d, spec, OpenIds(g.nodes.rows, passes));
      forall x :: x in r.value.1.rows <==>
        && hops > 0 && x in g.edges.rows
        && (spec.Any? || (spec.Single? && x.etype == spec.etype) || (spec.Multiple? && x.etype in spec.etypes))
        && ((!d.In? && Within(q, RootSet(roots), hops - 1, x.src) && Welcome(g.nodes.rows, passes, roots, x.dst))
            || (!d.Out? && Within(q, RootSet(roots), hops - 1, x.dst) && Welcome(g.nodes.rows, passes, roots, x.src)))
  {
    hide Within, Welcome, Graphs.Valid, Edges.Valid, Nodes.Valid, Indexed, Seeded, Kept, NodesWithin, EdgesCrossed, RootSet, OpenIds;
    GraphParts(g);
    var inCsr := Edges.InCsr(g.edges);
    NowIndexed(g.edges, inCsr);
    var s := Search(g, inCsr, d, spec, passes);
    var seeds :- SeedRoots(s, roots);
    var nodeRows, edgeRows := Run(s, roots, hops, seeds.0, seeds.1, seeds.2);
    var nodes := Nodes.Filter(g.nodes, RowMask(|g.nodes.rows|, nodeRows));
    var edges := Edges.Filter(g.edges, RowMask(|g.edges.rows|, edgeRows));
    ghost var q := QueryOf(s);
    forall x
      ensures x in EdgesCrossed(q, RootSet(roots), hops) <==>
        && hops > 0 && x in g.edges.rows
        && (spec.Any? || (spec.Single? && x.etype == spec.etype) || (spec.Multiple? && x.etype in spec.etypes))
        && ((!d.In? && Within(q, RootSet(roots), hops - 1, x.src) && Welcome(g.nodes.rows, passes, roots, x.dst))
            || (!d.Out? && Within(q, RootSet(roots), hops - 1, x.dst) && Welcome(g.nodes.rows, passes, roots, x.src)))
    {
      CrossedMeans(g.nodes.rows, passes, roots, q, hops, x);
    }
    return Success((nodes.value, edges.value));
  }

  lemma GraphParts(g: Graphs.GraphFrame)
    requires Graphs.Valid(g)
    ensures Edges.Valid(g.edges) && Nodes.Valid(g.nodes)
  {
  }
}
