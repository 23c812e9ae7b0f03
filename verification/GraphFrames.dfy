/** A node table and an edge table joined into one graph. */
module GraphFrames {
  import opened Basics
  import opened Rows
  import Nodes = NodeFrames
  import Edges = EdgeFrames

  datatype GraphFrame = GraphFrame(nodes: Nodes.NodeFrame, edges: Edges.EdgeFrame,
                                   nodeIdToIdx: map<string, nat>, nodeIdxToId: seq<string>,
                                   edgeNodeIdToIdx: map<string, nat>, edgeNodeIdxToId: seq<string>)

  /** Both frames are valid and the lookup tables agree with them. */
  ghost predicate Valid(g: GraphFrame) {
    && Nodes.Valid(g.nodes) && Edges.Valid(g.edges)
    && Numbers(g.nodeIdToIdx, Nodes.Ids(g.nodes.rows)) && g.nodeIdxToId == Nodes.Ids(g.nodes.rows)
    && Numbers(g.edgeNodeIdToIdx, Edges.IdsOf(g.edges.rows)) && g.edgeNodeIdxToId == Edges.IdsOf(g.edges.rows)
  }

  ghost predicate EndsKnown(nodes: seq<NodeRow>, r: EdgeRow) {
    r.src in Nodes.Ids(nodes) && r.dst in Nodes.Ids(nodes)
  }

  /** Every edge joins two nodes of the table. */
  ghost predicate Closed(nodes: seq<NodeRow>, edges: seq<EdgeRow>) {
    forall e | 0 <= e < |edges| :: EndsKnown(nodes, edges[e])
  }

  /** `e` is the first edge with an endpoint outside the node table. */
  ghost predicate FirstDangling(nodes: seq<NodeRow>, edges: seq<EdgeRow>, e: nat) {
    e < |edges| && !EndsKnown(nodes, edges[e]) && Closed(nodes, edges[..e])
  }

  // ---- the edge-local lookup tables ----

  /** The tables hold exactly the ids seen in the first `row` rows, each under its edge-frame index. */
  ghost predicate Mapped(f: Edges.EdgeFrame, seen: seq<string>, index: map<string, nat>, ids: seq<string>) {
    && |ids| == |Edges.IdsOf(f.rows)|
    && (forall id :: id in index <==> id in seen)
    && forall id | id in index :: id in f.nodeIndex && index[id] == f.nodeIndex[id] < |ids| && ids[index[id]] == id
  }

  lemma MapOne(f: Edges.EdgeFrame, seen: seq<string>, index: map<string, nat>, ids: seq<string>, id: string)
    requires Edges.Valid(f) && Mapped(f, seen, index, ids) && id in Edges.IdsOf(f.rows)
    ensures id in f.nodeIndex && f.nodeIndex[id] < |ids|
    ensures id in index ==> Mapped(f, Edges.Enter(seen, id), index, ids)
    ensures id !in index ==> Mapped(f, Edges.Enter(seen, id), index[id := f.nodeIndex[id]], ids[f.nodeIndex[id] := id])
  {
    hide Edges.IdsOf, Edges.TypesOf, Edges.OutOf;
    var all := Edges.IdsOf(f.rows);
    var k :| 0 <= k < |all| && all[k] == id;
    if id !in index {
      forall x | x in index
        ensures index[x] != f.nodeIndex[id]
      {
        assert ids[index[x]] == x;
        assert all[f.nodeIndex[x]] == x by {
          var j :| 0 <= j < |all| && all[j] == x;
        }
      }
    }
  }

  method BuildEdgeNodeMapping(f: Edges.EdgeFrame) returns (index: map<string, nat>, ids: seq<string>)
    requires Edges.Valid(f)
    ensures Numbers(index, Edges.IdsOf(f.rows)) && ids == Edges.IdsOf(f.rows)
  {
    hide Edges.Valid, Edges.IdsOf, Edges.Enter, Mapped, Numbers;
    Edges.FrameNumbers(f);
    ids := seq(|f.nodeIndex|, i => "");
    index := map[];
    var row := 0;
    MapStart(f, ids);
    while row < |f.rows|
      invariant 0 <= row <= |f.rows| && |ids| == |f.nodeIndex| && Mapped(f, Edges.IdsOf(f.rows[..row]), index, ids)
    {
      Edges.Extend(f.rows, row);
      Edges.EndsIn(f.rows, row);
      ghost var seen := Edges.IdsOf(f.rows[..row]);
      var src, dst := f.rows[row].src, f.rows[row].dst;
      MapOne(f, seen, index, ids, src);
      if src !in index {
        ids := ids[f.nodeIndex[src] := src];
        index := index[src := f.nodeIndex[src]];
      }
      MapOne(f, Edges.Enter(seen, src), index, ids, dst);
      if dst !in index {
        ids := ids[f.nodeIndex[dst] := dst];
        index := index[dst := f.nodeIndex[dst]];
      }
      row := row + 1;
    }
    assert f.rows[..row] == f.rows;
    MapDone(f, index, ids);
  }

  lemma MapStart(f: Edges.EdgeFrame, ids: seq<string>)
    requires |ids| == |Edges.IdsOf(f.rows)|
    ensures Mapped(f, Edges.IdsOf(f.rows[..0]), map[], ids)
  {
  }

  lemma MapDone(f: Edges.EdgeFrame, index: map<string, nat>, ids: seq<string>)
    requires Edges.Valid(f) && Mapped(f, Edges.IdsOf(f.rows), index, ids)
    ensures Numbers(index, Edges.IdsOf(f.rows)) && ids == Edges.IdsOf(f.rows)
  {
    hide Edges.IdsOf, Edges.TypesOf, Edges.OutOf;
    var all := Edges.IdsOf(f.rows);
    forall i | 0 <= i < |all|
      ensures all[i] in index && index[all[i]] == i && ids[i] == all[i]
    {
      assert all[i] in all;
    }
  }

  // ---- construction ----

  method NewUnchecked(nodes: Nodes.NodeFrame, edges: Edges.EdgeFrame) returns (g: GraphFrame)
    requires Nodes.Valid(nodes) && Edges.Valid(edges)
    ensures Valid(g) && g.nodes == nodes && g.edges == edges
  {
    var index: map<string, nat> := map[];
    var row := 0;
    while row < |nodes.rows|
      invariant 0 <= row <= |nodes.rows| && Numbers(index, Nodes.Ids(nodes.rows)[..row])
    {
      var id := nodes.rows[row].id;
      NumbersMore(index, Nodes.Ids(nodes.rows)[..row], id);
      assert Nodes.Ids(nodes.rows)[..row + 1] == Nodes.Ids(nodes.rows)[..row] + [id];
      assert Nodes.Ids(nodes.rows)[row] == id && id !in Nodes.Ids(nodes.rows)[..row];
      index := index[id := row];
      row := row + 1;
    }
    assert Nodes.Ids(nodes.rows)[..row] == Nodes.Ids(nodes.rows);
    var edgeIndex, edgeIds := BuildEdgeNodeMapping(edges);
    g := GraphFrame(nodes, edges, index, Nodes.Ids(nodes.rows), edgeIndex, edgeIds);
  }

  /** Endpoint validation: the first dangling edge is reported. */
  method ValidateEdgeEndpoints(g: GraphFrame) returns (r: Result<()>)
    requires Valid(g)
    ensures r.Success? <==> Closed(g.nodes.rows, g.edges.rows)
    ensures r.Failure? ==> exists e: nat :: FirstDangling(g.nodes.rows, g.edges.rows, e)
                                       && r.error == DanglingEdge(g.edges.rows[e].src, g.edges.rows[e].dst)
  {
    hide Edges.Valid;
    var row := 0;
    while row < |g.edges.rows|
      invariant 0 <= row <= |g.edges.rows| && Closed(g.nodes.rows, g.edges.rows[..row])
    {
      var r := g.edges.rows[row];
      if r.src !in g.nodeIdToIdx || r.dst !in g.nodeIdToIdx {
        assert FirstDangling(g.nodes.rows, g.edges.rows, row);
        return Failure(DanglingEdge(r.src, r.dst));
      }
      row := row + 1;
    }
    assert g.edges.rows[..row] == g.edges.rows;
    return Success(());
  }

  method New(nodes: Nodes.NodeFrame, edges: Edges.EdgeFrame) returns (r: Result<GraphFrame>)
    requires Nodes.Valid(nodes) && Edges.Valid(edges)
    ensures r.Success? <==> Closed(nodes.rows, edges.rows)
    ensures r.Success? ==> Valid(r.value) && r.value.nodes == nodes && r.value.edges == edges
    ensures r.Failure? ==> exists e: nat :: FirstDangling(nodes.rows, edges.rows, e)
                                       && r.error == DanglingEdge(edges.rows[e].src, edges.rows[e].dst)
  {
    hide *;
    var g := NewUnchecked(nodes, edges);
    var checked := ValidateEdgeEndpoints(g);
    if checked.Failure? {
      return Failure(checked.error);
    }
    return Success(g);
  }

  // ---- induced subgraphs ----

  function NodeMask(rows: seq<NodeRow>, ids: set<string>): (mask: seq<bool>)
    ensures |mask| == |rows|
  {
    seq(|rows|, i requires 0 <= i < |rows| => rows[i].id in ids)
  }

  function EndpointMask(rows: seq<EdgeRow>, ids: set<string>): (mask: seq<bool>)
    ensures |mask| == |rows|
  {
    seq(|rows|, e requires 0 <= e < |rows| => rows[e].src in ids && rows[e].dst in ids)
  }

  /** The nodes of `rows` named in `ids`. */
  function InducedNodes(rows: seq<NodeRow>, ids: set<string>): seq<NodeRow> {
    Kept(rows, NodeMask(rows, ids))
  }

  /** The edges whose both ends are named in `ids` and exist. */
  function InducedEdges(nodes: seq<NodeRow>, edges: seq<EdgeRow>, ids: set<string>): seq<EdgeRow> {
    Kept(edges, EndpointMask(edges, ids * Nodes.IdSet(nodes)))
  }

  lemma InducedIds(rows: seq<NodeRow>, ids: set<string>)
    ensures Nodes.IdSet(InducedNodes(rows, ids)) == ids * Nodes.IdSet(rows)
  {
    var kept := InducedNodes(rows, ids);
    forall id
      ensures id in Nodes.IdSet(kept) <==> id in ids && id in Nodes.IdSet(rows)
    {
      if id in Nodes.IdSet(kept) {
        var i :| 0 <= i < |kept| && kept[i].id == id;
        KeptMember(rows, NodeMask(rows, ids), kept[i]);
      }
      if id in ids && id in Nodes.IdSet(rows) {
        var i :| 0 <= i < |rows| && rows[i].id == id;
        KeptMember(rows, NodeMask(rows, ids), rows[i]);
        var k :| 0 <= k < |kept| && kept[k] == rows[i];
      }
    }
  }

  lemma InducedClosed(nodes: seq<NodeRow>, edges: seq<EdgeRow>, ids: set<string>)
    ensures Closed(InducedNodes(nodes, ids), InducedEdges(nodes, edges, ids))
  {
    var kept := InducedEdges(nodes, edges, ids);
    InducedIds(nodes, ids);
    forall e | 0 <= e < |kept|
      ensures EndsKnown(InducedNodes(nodes, ids), kept[e])
    {
      KeptMember(edges, EndpointMask(edges, ids * Nodes.IdSet(nodes)), kept[e]);
      Nodes.IdSetMeans(InducedNodes(nodes, ids));
    }
  }

  lemma InducedPicks(nodes: seq<NodeRow>, edges: seq<EdgeRow>, ids: set<string>) returns (ns: seq<nat>, es: seq<nat>)
    ensures Picks(ns, nodes, InducedNodes(nodes, ids)) && forall k: nat :: k in ns <==> k < |nodes| && nodes[k].id in ids
    ensures Picks(es, edges, InducedEdges(nodes, edges, ids))
    ensures forall k: nat :: k in es <==> k < |edges| && edges[k].src in ids && edges[k].dst in ids && EndsKnown(nodes, edges[k])
  {
    hide Kept;
    ns := KeptPicks(nodes, NodeMask(nodes, ids));
    es := KeptPicks(edges, EndpointMask(edges, ids * Nodes.IdSet(nodes)));
    Nodes.IdSetMeans(nodes);
  }

  /** The subgraph induced by `ids`; unknown ids are ignored. */
  method Subgraph(g: GraphFrame, ids: set<string>) returns (r: Result<GraphFrame>)
    requires Valid(g)
    ensures r.Success? && Valid(r.value) && Closed(r.value.nodes.rows, r.value.edges.rows)
    ensures r.value.nodes.rows == InducedNodes(g.nodes.rows, ids)
    ensures r.value.edges.rows == InducedEdges(g.nodes.rows, g.edges.rows, ids)
    ensures exists ks :: Picks(ks, g.nodes.rows, r.value.nodes.rows) && forall k: nat :: k in ks <==> k < |g.nodes.rows| && g.nodes.rows[k].id in ids
    ensures exists ks :: Picks(ks, g.edges.rows, r.value.edges.rows) && forall k: nat :: k in ks <==>
      && k < |g.edges.rows| && g.edges.rows[k].src in ids && g.edges.rows[k].dst in ids && EndsKnown(g.nodes.rows, g.edges.rows[k])
  {
    var ns, es := InducedPicks(g.nodes.rows, g.edges.rows, ids);
    hide Edges.Valid, Nodes.Valid, Numbers, Closed, Kept;
    var kept := Nodes.Filter(g.nodes, NodeMask(g.nodes.rows, ids));
    var nodes := kept.value;
    var retained := Nodes.IdSet(nodes.rows);
    InducedIds(g.nodes.rows, ids);
    var joining := Edges.Filter(g.edges, EndpointMask(g.edges.rows, retained));
    InducedClosed(g.nodes.rows, g.edges.rows, ids);
    r := New(nodes, joining.value);
  }
}
