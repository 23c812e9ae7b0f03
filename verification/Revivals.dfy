/** A run on which a re-added id brings frozen edges back: the mutable graph then parts from the plain one. */
module Revivals {
  import opened Basics
  import opened Rows
  import opened PlainGraphs
  import opened MutableStores
  import Nodes = NodeFrames
  import Edges = EdgeFrames
  import Graphs = GraphFrames
  import Steps = MutableSteps
  import Merges = MutableMerges
  import opened MutableGraphs

  function NodeA(): NodeRow {
    NodeRow("a", [], map[])
  }

  function NodeB(): NodeRow {
    NodeRow("b", [], map[])
  }

  /** Two nodes and no edges. */
  function Pair(): Plain {
    Plain([NodeA(), NodeB()], [], 0)
  }

  function Parallel(n: nat): seq<Op> {
    seq(n, _ => Op.AddEdge("a", "b"))
  }

  function Added(n: nat): seq<PlainEdge> {
    seq(n, _ => PlainEdge(None, DefaultRow("a", "b")))
  }

  lemma {:induction false} ParallelAdds(n: nat)
    ensures ApplyAll(Pair(), Parallel(n)) == Pair().(edges := Added(n))
  {
    if n > 0 {
      ParallelAdds(n - 1);
      assert Parallel(n)[..n - 1] == Parallel(n - 1);
      PairHas(Pair().(edges := Added(n - 1)));
      assert Added(n) == Added(n - 1) + [PlainEdge(None, DefaultRow("a", "b"))];
    } else {
      assert Added(0) == [];
    }
  }

  lemma PairHas(p: Plain)
    requires p.nodes == Pair().nodes
    ensures Has(p, "a") && Has(p, "b") && CanLink(p, [DefaultRow("a", "b")])
  {
    assert Nodes.Ids(p.nodes)[0] == "a" && Nodes.Ids(p.nodes)[1] == "b";
  }

  lemma {:induction false} DeltaMember(rows: seq<EdgeRow>, live: set<string>, e: PlainEdge)
    requires e in LiveDelta(rows, live)
    ensures e.row in rows && EndsLive(e.row, live)
  {
    if rows != [] {
      var n := |rows| - 1;
      if e in LiveDelta(rows[..n], live) {
        DeltaMember(rows[..n], live, e);
      }
    }
  }

  lemma {:induction false} BaseMember(rows: seq<EdgeRow>, tomb: seq<bool>, live: set<string>, e: PlainEdge)
    requires |rows| == |tomb| && e in LiveBase(rows, tomb, live)
    ensures e.base.Some?
  {
    if rows != [] {
      var n := |rows| - 1;
      if e in LiveBase(rows[..n], tomb[..n], live) {
        BaseMember(rows[..n], tomb[..n], live, e);
      }
    }
  }

  /** With nothing pending, a visible added edge sits in a frozen chunk. */
  lemma AddedIsFrozen(s: Store, e: PlainEdge)
    requires Sized(s) && s.pending == [] && e in View(s).edges && e.base == None
    ensures e.row in Joined(ChunkRows(s.frozen)) && EndsLive(e.row, LiveIds(s))
  {
    assert PendingFrames(s.pending) == [];
    assert DeltaRows(s) == Joined(ChunkRows(s.frozen));
    if e in LiveBase(s.edgeData.rows, s.edgeTombstones, LiveIds(s)) {
      BaseMember(s.edgeData.rows, s.edgeTombstones, LiveIds(s), e);
    }
    DeltaMember(Joined(ChunkRows(s.frozen)), LiveIds(s), e);
  }

  method PairGraph() returns (g: Graphs.GraphFrame)
    ensures Graphs.Valid(g) && Graphs.Closed(g.nodes.rows, g.edges.rows) && g.nodes.rows == Pair().nodes && g.edges.rows == []
  {
    hide Graphs.Valid, Edges.Valid, Nodes.Valid;
    assert Nodes.Ids(Pair().nodes) == ["a", "b"];
    var nodes := Nodes.FromValidBatch([NodeA(), NodeB()]);
    var edges := Edges.FromValidBatch([]);
    g := Graphs.NewUnchecked(nodes, edges);
  }

  /** One edge more than the buffer holds: all of them end up in one frozen chunk. */
  method FlushedPair() returns (m: MutableGraphFrame)
    ensures fresh(m) && m.Valid() && m.Graph() == ApplyAll(Pair(), Parallel(FLUSH_THRESHOLD + 1)) && m.pending == []
  {
    hide MutableStores.Valid, View, Graphs.Valid, Has, CanLink, NeverReadded;
    var g := PairGraph();
    m := new MutableGraphFrame.FromGraphFrame(g);
    assert Merges.Loaded([]) == [];
    var k := 0;
    ParallelAdds(0);
    while k < FLUSH_THRESHOLD + 1
      invariant 0 <= k <= FLUSH_THRESHOLD + 1 && fresh(m) && m.Valid()
      invariant m.Graph() == ApplyAll(Pair(), Parallel(k))
      invariant |m.pending| == if k <= FLUSH_THRESHOLD then k else 0
    {
      ParallelAdds(k);
      ParallelAdds(k + 1);
      PairHas(m.Graph());
      assert Parallel(k + 1)[..k] == Parallel(k);
      var r := m.AddEdge("a", "b");
      k := k + 1;
    }
  }

  /** What the run leaves in the plain graph: both nodes and no edge. */
  lemma PlainAfter(p: Plain)
    requires p == ApplyAll(Pair(), Parallel(FLUSH_THRESHOLD + 1))
    ensures PlainEdge(None, DefaultRow("a", "b")) in p.edges && Has(p, "b")
    ensures Remove(p, "b") == Plain([NodeA()], [], 0) && CanAppend(Remove(p, "b"), [NodeB()])
    ensures Append(Remove(p, "b"), [NodeB()]) == Pair()
  {
    hide Has, WithoutNode, WithoutEnds, ApplyAll, Parallel;
    ParallelAdds(FLUSH_THRESHOLD + 1);
    PairHas(p);
    AllTouch(FLUSH_THRESHOLD + 1);
    JustA();
    assert p.edges[0] == PlainEdge(None, DefaultRow("a", "b"));
    assert Nodes.Ids([NodeA()] + [NodeB()]) == ["a", "b"];
  }

  lemma JustA()
    ensures WithoutNode(Pair().nodes, "b") == [NodeA()] && [NodeA()] + [NodeB()] == Pair().nodes
  {
    var nodes := Pair().nodes;
    assert nodes[..1] == [NodeA()] && nodes[..1][..0] == [];
    assert WithoutNode(nodes[..1], "b") == [NodeA()];
  }

  lemma {:induction false} AllTouch(n: nat)
    ensures WithoutEnds(Added(n), "b") == []
  {
    if n > 0 {
      assert Added(n)[..n - 1] == Added(n - 1);
      AllTouch(n - 1);
    }
  }

  /** Deleting an endpoint and adding it again brings frozen edges back that the plain graph has lost. */
  method ReAddedNode() returns (m: MutableGraphFrame)
    ensures fresh(m) && m.Valid()
    ensures var p := ApplyAll(Pair(), Parallel(FLUSH_THRESHOLD + 1) + [Op.DeleteNode("b"), Op.AddNode([NodeB()])]);
            p.edges == [] && m.Graph().nodes == p.nodes && m.Graph() != p
  {
    hide MutableStores.Valid, View, NeverReadded, LiveIds, ApplyAll, Remove, Append, CanAppend, Has, Steps.Revives, EndsLive, Nodes.Valid;
    m := FlushedPair();
    ghost var s := m.Now();
    PlainAfter(m.Graph());
    SizedNow(m);
    AddedIsFrozen(s, PlainEdge(None, DefaultRow("a", "b")));
    var gone := m.DeleteNode("b");
    assert Nodes.Ids([NodeB()]) == ["b"];
    var node := Nodes.FromValidBatch([NodeB()]);
    IdsOfB();
    DropRevives(s, m.Now());
    var back := m.AddNode(node);
    LastTwo(Parallel(FLUSH_THRESHOLD + 1));
  }

  lemma SizedNow(m: MutableGraphFrame)
    requires m.Valid()
    ensures Sized(m.Now()) && m.Graph() == View(m.Now())
  {
    ReadySized(m.Now(), m.trace);
  }

  lemma IdsOfB()
    ensures Nodes.IdSet([NodeB()]) == {"b"}
  {
    var rows := [NodeB()];
    assert rows[0].id == "b";
    assert forall id :: id in Nodes.IdSet(rows) <==> id == rows[0].id;
  }

  lemma DropRevives(s: Store, s': Store)
    requires DefaultRow("a", "b") in Joined(ChunkRows(s.frozen)) && EndsLive(DefaultRow("a", "b"), LiveIds(s))
    requires s'.frozen == s.frozen && LiveIds(s') == LiveIds(s) - {"b"}
    ensures Steps.Revives(s', {"b"})
  {
    hide LiveIds;
    var r := DefaultRow("a", "b");
    assert !EndsLive(r, LiveIds(s')) && EndsLive(r, LiveIds(s') + {"b"});
  }

  lemma ApplyTwo(p: Plain, ops: seq<Op>, a: Op, b: Op)
    ensures ApplyAll(p, ops + [a, b]) == Apply(Apply(ApplyAll(p, ops), a), b)
  {
    hide Apply;
    assert (ops + [a, b])[..|ops| + 1] == ops + [a];
    assert (ops + [a])[..|ops|] == ops;
  }

  lemma LastTwo(ops: seq<Op>)
    requires ops == Parallel(FLUSH_THRESHOLD + 1)
    ensures ApplyAll(Pair(), ops + [Op.DeleteNode("b"), Op.AddNode([NodeB()])]) ==
            Append(Remove(ApplyAll(Pair(), ops), "b"), [NodeB()])
  {
    hide Parallel, ApplyAll, Remove, CanAppend, Has;
    var p := ApplyAll(Pair(), ops);
    ApplyTwo(Pair(), ops, Op.DeleteNode("b"), Op.AddNode([NodeB()]));
    PlainAfter(p);
  }

  /** Updating an endpoint under its own id keeps its frozen edges, which the plain graph drops. */
  method UpdatedInPlace() returns (m: MutableGraphFrame)
    ensures fresh(m) && m.Valid()
    ensures var p := ApplyAll(Pair(), Parallel(FLUSH_THRESHOLD + 1) + [Op.UpdateNode("b", [NodeB()])]);
            p.edges == [] && m.Graph().nodes == p.nodes && m.Graph() != p
  {
    hide MutableStores.Valid, View, NeverReadded, LiveIds, ApplyAll, Remove, Append, CanAppend, Has, RevivesAfter, EndsLive, Nodes.Valid;
    m := FlushedPair();
    ghost var s := m.Now();
    PlainAfter(m.Graph());
    SizedNow(m);
    AddedIsFrozen(s, PlainEdge(None, DefaultRow("a", "b")));
    assert Nodes.Ids([NodeB()]) == ["b"];
    var node := Nodes.FromValidBatch([NodeB()]);
    IdsOfB();
    KeepRevives(s);
    var done := m.UpdateNode("b", node);
    LastUpdate(Parallel(FLUSH_THRESHOLD + 1));
  }

  lemma KeepRevives(s: Store)
    requires DefaultRow("a", "b") in Joined(ChunkRows(s.frozen)) && EndsLive(DefaultRow("a", "b"), LiveIds(s))
    ensures RevivesAfter(s, "b", {"b"})
  {
    hide LiveIds;
    var r := DefaultRow("a", "b");
    assert EndsLive(r, LiveIds(s)) && Touches(r, "b");
    KeepingIdRevives(s, "b");
  }

  lemma LastUpdate(ops: seq<Op>)
    requires ops == Parallel(FLUSH_THRESHOLD + 1)
    ensures ApplyAll(Pair(), ops + [Op.UpdateNode("b", [NodeB()])]) == Append(Remove(ApplyAll(Pair(), ops), "b"), [NodeB()])
  {
    var all := ops + [Op.UpdateNode("b", [NodeB()])];
    var p := ApplyAll(Pair(), ops);
    PlainAfter(p);
    hide Remove, CanAppend, Has, Parallel;
    assert all[..|all| - 1] == ops;
  }
}
