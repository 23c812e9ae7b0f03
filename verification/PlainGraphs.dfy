/** The reference model of a mutable graph: a plain list of nodes and a plain list of edges. */
module PlainGraphs {
  import opened Basics
  import opened Rows
  import Nodes = NodeFrames

  /** An edge with the stable row id it was loaded under, if it was loaded rather than added. */
  datatype PlainEdge = PlainEdge(base: Option<nat>, row: EdgeRow)

  datatype Plain = Plain(nodes: seq<NodeRow>, edges: seq<PlainEdge>, baseRows: nat)

  datatype Op =
    | AddNode(nodes: seq<NodeRow>)
    | AddNodesBatch(nodes: seq<NodeRow>)
    | UpdateNode(oldId: string, nodes: seq<NodeRow>)
    | DeleteNode(id: string)
    | AddEdge(src: string, dst: string)
    | AddEdgeRow(edge: seq<EdgeRow>)
    | DeleteEdge(row: nat)
    | UpdateEdge(row: nat, src: string, dst: string)
    | UpdateEdgeRow(row: nat, edge: seq<EdgeRow>)

  predicate Has(p: Plain, id: string) {
    id in Nodes.Ids(p.nodes)
  }

  predicate HasBase(p: Plain, row: nat) {
    exists e :: e in p.edges && e.base == Some(row)
  }

  function WithoutNode(nodes: seq<NodeRow>, id: string): seq<NodeRow> {
    if nodes == [] then []
    else
      var n := |nodes| - 1;
      WithoutNode(nodes[..n], id) + if nodes[n].id == id then [] else [nodes[n]]
  }

  function WithoutEnds(edges: seq<PlainEdge>, id: string): seq<PlainEdge> {
    if edges == [] then []
    else
      var n := |edges| - 1;
      WithoutEnds(edges[..n], id) + if Touches(edges[n].row, id) then [] else [edges[n]]
  }

  function WithoutBase(edges: seq<PlainEdge>, row: nat): seq<PlainEdge> {
    if edges == [] then []
    else
      var n := |edges| - 1;
      WithoutBase(edges[..n], row) + if edges[n].base == Some(row) then [] else [edges[n]]
  }

  /** The targets of the edges leaving `id`, in edge order. */
  function Successors(edges: seq<PlainEdge>, id: string): seq<string> {
    if edges == [] then []
    else
      var n := |edges| - 1;
      Successors(edges[..n], id) + if edges[n].row.src == id then [edges[n].row.dst] else []
  }

  /** One successor per edge that leaves the node, in edge order: its target. */
  lemma {:induction false} SuccessorsPick(edges: seq<PlainEdge>, id: string) returns (ks: seq<nat>)
    ensures |ks| == |Successors(edges, id)| && (forall i, j | 0 <= i < j < |ks| :: ks[i] < ks[j])
    ensures forall i | 0 <= i < |ks| :: ks[i] < |edges| && Successors(edges, id)[i] == edges[ks[i]].row.dst
    ensures forall k: nat :: k in ks <==> k < |edges| && edges[k].row.src == id
  {
    if edges == [] {
      ks := [];
    } else {
      var n := |edges| - 1;
      ks := SuccessorsPick(edges[..n], id);
      if edges[n].row.src == id {
        ks := ks + [n];
      }
    }
  }

  const DELTA_TYPE := "__delta__"

  /** The row `add_edge` synthesises: fixed type, null user columns. */
  function DefaultRow(src: string, dst: string): EdgeRow {
    EdgeRow(src, dst, DELTA_TYPE, map[])
  }

  // ---- what each operation means; a failing one changes nothing unless said otherwise ----

  function Append(p: Plain, nodes: seq<NodeRow>): Plain {
    p.(nodes := p.nodes + nodes)
  }

  predicate CanAppend(p: Plain, nodes: seq<NodeRow>) {
    var ids := Nodes.Ids(p.nodes + nodes);
    forall i, j | 0 <= i < j < |ids| :: ids[i] != ids[j]
  }

  function Remove(p: Plain, id: string): Plain {
    p.(nodes := WithoutNode(p.nodes, id), edges := WithoutEnds(p.edges, id))
  }

  predicate CanLink(p: Plain, edge: seq<EdgeRow>) {
    |edge| == 1 && Has(p, edge[0].src) && Has(p, edge[0].dst)
  }

  function Link(p: Plain, row: EdgeRow): Plain {
    p.(edges := p.edges + [PlainEdge(None, row)])
  }

  function Unlink(p: Plain, row: nat): Plain {
    p.(edges := WithoutBase(p.edges, row))
  }

  /** The row loaded under a stable id that is still present. */
  ghost function BaseRow(p: Plain, row: nat): EdgeRow
    requires HasBase(p, row)
  {
    var e :| e in p.edges && e.base == Some(row);
    e.row
  }

  ghost function Apply(p: Plain, op: Op): Plain {
    match op
    case AddNode(nodes) => if |nodes| == 1 && CanAppend(p, nodes) then Append(p, nodes) else p
    case AddNodesBatch(nodes) => if CanAppend(p, nodes) then Append(p, nodes) else p
    case UpdateNode(oldId, nodes) =>
      if |nodes| == 1 && Has(p, oldId) && CanAppend(Remove(p, oldId), nodes) then Append(Remove(p, oldId), nodes) else p
    case DeleteNode(id) => if Has(p, id) then Remove(p, id) else p
    case AddEdge(src, dst) => if CanLink(p, [DefaultRow(src, dst)]) then Link(p, DefaultRow(src, dst)) else p
    case AddEdgeRow(edge) => if CanLink(p, edge) then Link(p, edge[0]) else p
    case DeleteEdge(row) => Unlink(p, row)
    case UpdateEdge(row, src, dst) =>
      if Has(p, src) && Has(p, dst) && HasBase(p, row)
      then Link(Unlink(p, row), BaseRow(p, row).(src := src, dst := dst))
      else p
    case UpdateEdgeRow(row, edge) =>
      // a replacement that cannot be linked still loses the old edge
      if !HasBase(p, row) then p
      else if CanLink(p, edge) then Link(Unlink(p, row), edge[0])
      else Unlink(p, row)
  }

  ghost function ApplyAll(p: Plain, ops: seq<Op>): Plain {
    if ops == [] then p else Apply(ApplyAll(p, ops[..|ops| - 1]), ops[|ops| - 1])
  }

  // ---- the same meanings, spelled out ----

  /** All edges but the one loaded under `row` remain, in order. */
  ghost predicate LosesRow(before: seq<PlainEdge>, after: seq<PlainEdge>, row: nat) {
    exists ks :: Picks(ks, before, after) && forall k: nat :: k in ks <==> k < |before| && before[k].base != Some(row)
  }

  /** All edges but those that start or end at `id` remain, in order. */
  ghost predicate LosesEnds(before: seq<PlainEdge>, after: seq<PlainEdge>, id: string) {
    exists ks :: Picks(ks, before, after) && forall k: nat :: k in ks <==> k < |before| && before[k].row.src != id && before[k].row.dst != id
  }

  /** All nodes but `id` remain, in order. */
  ghost predicate LosesNode(before: seq<NodeRow>, after: seq<NodeRow>, id: string) {
    exists ks :: Picks(ks, before, after) && forall k: nat :: k in ks <==> k < |before| && before[k].id != id
  }

  lemma {:induction false} WithoutBaseKept(edges: seq<PlainEdge>, row: nat, mask: seq<bool>)
    requires |mask| == |edges| && forall k | 0 <= k < |mask| :: mask[k] <==> edges[k].base != Some(row)
    ensures WithoutBase(edges, row) == Kept(edges, mask)
  {
    if edges != [] {
      WithoutBaseKept(edges[..|edges| - 1], row, mask[..|edges| - 1]);
    }
  }

  lemma WithoutBasePicks(edges: seq<PlainEdge>, row: nat) returns (ks: seq<nat>)
    ensures Picks(ks, edges, WithoutBase(edges, row))
    ensures forall k: nat :: k in ks <==> k < |edges| && edges[k].base != Some(row)
  {
    hide Picks, Kept, WithoutBase;
    var mask := seq(|edges|, k requires 0 <= k < |edges| => edges[k].base != Some(row));
    WithoutBaseKept(edges, row, mask);
    ks := KeptPicks(edges, mask);
  }

  lemma {:induction false} WithoutEndsKept(edges: seq<PlainEdge>, id: string, mask: seq<bool>)
    requires |mask| == |edges| && forall k | 0 <= k < |mask| :: mask[k] <==> edges[k].row.src != id && edges[k].row.dst != id
    ensures WithoutEnds(edges, id) == Kept(edges, mask)
  {
    if edges != [] {
      WithoutEndsKept(edges[..|edges| - 1], id, mask[..|edges| - 1]);
    }
  }

  lemma WithoutEndsPicks(edges: seq<PlainEdge>, id: string) returns (ks: seq<nat>)
    ensures Picks(ks, edges, WithoutEnds(edges, id))
    ensures forall k: nat :: k in ks <==> k < |edges| && edges[k].row.src != id && edges[k].row.dst != id
  {
    hide Picks, Kept, WithoutEnds;
    var mask := seq(|edges|, k requires 0 <= k < |edges| => edges[k].row.src != id && edges[k].row.dst != id);
    WithoutEndsKept(edges, id, mask);
    ks := KeptPicks(edges, mask);
  }

  lemma {:induction false} WithoutNodeKept(nodes: seq<NodeRow>, id: string, mask: seq<bool>)
    requires |mask| == |nodes| && forall k | 0 <= k < |mask| :: mask[k] <==> nodes[k].id != id
    ensures WithoutNode(nodes, id) == Kept(nodes, mask)
  {
    if nodes != [] {
      WithoutNodeKept(nodes[..|nodes| - 1], id, mask[..|nodes| - 1]);
    }
  }

  lemma WithoutNodePicks(nodes: seq<NodeRow>, id: string) returns (ks: seq<nat>)
    ensures Picks(ks, nodes, WithoutNode(nodes, id))
    ensures forall k: nat :: k in ks <==> k < |nodes| && nodes[k].id != id
  {
    hide Picks, Kept, WithoutNode;
    var mask := seq(|nodes|, k requires 0 <= k < |nodes| => nodes[k].id != id);
    WithoutNodeKept(nodes, id, mask);
    ks := KeptPicks(nodes, mask);
  }

  lemma UnlinkEffect(p: Plain, row: nat)
    ensures var q := Unlink(p, row); LosesRow(p.edges, q.edges, row) && q.nodes == p.nodes && q.baseRows == p.baseRows
  {
    var ks := WithoutBasePicks(p.edges, row);
  }

  lemma RemoveEffect(p: Plain, id: string)
    ensures var q := Remove(p, id); LosesEnds(p.edges, q.edges, id) && LosesNode(p.nodes, q.nodes, id) && q.baseRows == p.baseRows
  {
    var es := WithoutEndsPicks(p.edges, id);
    var ns := WithoutNodePicks(p.nodes, id);
  }

  /** `after` is `before` with one added edge `row` behind it. */
  ghost predicate Gains(before: seq<PlainEdge>, after: seq<PlainEdge>, row: EdgeRow) {
    |after| == |before| + 1 && after[..|before|] == before && after[|before|] == PlainEdge(None, row)
  }

  /** The edge loaded under `row` is gone and a new edge stands at the end: from `src` to `dst`, with the type
      and the user columns of the old one. */
  ghost predicate Rewired(before: seq<PlainEdge>, after: seq<PlainEdge>, row: nat, src: string, dst: string) {
    && |after| > 0 && LosesRow(before, after[..|after| - 1], row) && after[|after| - 1].base.None?
    && after[|after| - 1].row.src == src && after[|after| - 1].row.dst == dst
    && exists k :: 0 <= k < |before| && before[k].base == Some(row)
                   && after[|after| - 1].row.etype == before[k].row.etype && after[|after| - 1].row.payload == before[k].row.payload
  }

  /** What an operation that succeeds on `p` leaves, without reference to the functions above. */
  ghost predicate Effect(p: Plain, op: Op, q: Plain) {
    && q.baseRows == p.baseRows
    && match op
       case AddNode(nodes) => q.nodes == p.nodes + nodes && q.edges == p.edges
       case AddNodesBatch(nodes) => q.nodes == p.nodes + nodes && q.edges == p.edges
       case UpdateNode(oldId, nodes) =>
         && LosesEnds(p.edges, q.edges, oldId)
         && |q.nodes| >= |nodes| && q.nodes[|q.nodes| - |nodes|..] == nodes && LosesNode(p.nodes, q.nodes[..|q.nodes| - |nodes|], oldId)
       case DeleteNode(id) => LosesEnds(p.edges, q.edges, id) && LosesNode(p.nodes, q.nodes, id)
       case AddEdge(src, dst) => q.nodes == p.nodes && Gains(p.edges, q.edges, EdgeRow(src, dst, "__delta__", map[]))
       case AddEdgeRow(edge) => q.nodes == p.nodes && |edge| == 1 && Gains(p.edges, q.edges, edge[0])
       case DeleteEdge(row) => q.nodes == p.nodes && LosesRow(p.edges, q.edges, row)
       case UpdateEdge(row, src, dst) => q.nodes == p.nodes && Rewired(p.edges, q.edges, row, src, dst)
       case UpdateEdgeRow(row, edge) =>
         && q.nodes == p.nodes && |q.edges| > 0 && |edge| == 1
         && LosesRow(p.edges, q.edges[..|q.edges| - 1], row) && q.edges[|q.edges| - 1] == PlainEdge(None, edge[0])
  }

  /** The operation succeeds on `p`. */
  ghost predicate Succeeds(p: Plain, op: Op) {
    match op
    case AddNode(nodes) => |nodes| == 1 && Distinct(Nodes.Ids(p.nodes + nodes))
    case AddNodesBatch(nodes) => Distinct(Nodes.Ids(p.nodes + nodes))
    case UpdateNode(oldId, nodes) => |nodes| == 1 && Has(p, oldId) && CanAppend(Remove(p, oldId), nodes)
    case DeleteNode(id) => Has(p, id)
    case AddEdge(src, dst) => Has(p, src) && Has(p, dst)
    case AddEdgeRow(edge) => |edge| == 1 && Has(p, edge[0].src) && Has(p, edge[0].dst)
    case DeleteEdge(_) => true
    case UpdateEdge(row, src, dst) => Has(p, src) && Has(p, dst) && HasBase(p, row)
    case UpdateEdgeRow(row, edge) => HasBase(p, row) && |edge| == 1 && Has(p, edge[0].src) && Has(p, edge[0].dst)
  }

  lemma RewiredEffect(p: Plain, row: nat, src: string, dst: string)
    requires HasBase(p, row)
    ensures Rewired(p.edges, Link(Unlink(p, row), BaseRow(p, row).(src := src, dst := dst)).edges, row, src, dst)
  {
    hide LosesRow, WithoutBase;
    UnlinkEffect(p, row);
    var q := Link(Unlink(p, row), BaseRow(p, row).(src := src, dst := dst));
    assert q.edges[..|q.edges| - 1] == Unlink(p, row).edges;
    var e :| e in p.edges && e.base == Some(row) && e.row == BaseRow(p, row);
    var k :| 0 <= k < |p.edges| && p.edges[k] == e;
  }

  /** Every operation that succeeds has its spelled-out effect; a failing one changes nothing, except that a
      refused replacement has lost its old row. */
  lemma ApplyEffect(p: Plain, op: Op)
    ensures Succeeds(p, op) ==> Effect(p, op, Apply(p, op))
    ensures !Succeeds(p, op) ==> Apply(p, op) == p || (op.UpdateEdgeRow? && LosesRow(p.edges, Apply(p, op).edges, op.row) && Apply(p, op).nodes == p.nodes)
  {
    hide LosesRow, LosesEnds, LosesNode, WithoutBase, WithoutEnds, WithoutNode, Has, HasBase;
    match op
    case AddNode(_) =>
    case AddNodesBatch(_) =>
    case UpdateNode(oldId, nodes) =>
      RemoveEffect(p, oldId);
      var q := Append(Remove(p, oldId), nodes);
      assert q.nodes[|q.nodes| - |nodes|..] == nodes && q.nodes[..|q.nodes| - |nodes|] == Remove(p, oldId).nodes;
    case DeleteNode(id) =>
      RemoveEffect(p, id);
    case AddEdge(_, _) =>
    case AddEdgeRow(_) =>
    case DeleteEdge(row) =>
      UnlinkEffect(p, row);
    case UpdateEdge(row, src, dst) =>
      if HasBase(p, row) {
        RewiredEffect(p, row, src, dst);
      }
    case UpdateEdgeRow(row, edge) =>
      UnlinkEffect(p, row);
      if HasBase(p, row) && CanLink(p, edge) {
        var q := Link(Unlink(p, row), edge[0]);
        assert q.edges[..|q.edges| - 1] == Unlink(p, row).edges;
      }
  }

  /** Runs compose: the operations take effect one after another, first to last. */
  lemma {:induction false} ApplyAllSplit(p: Plain, a: seq<Op>, b: seq<Op>)
    ensures ApplyAll(p, a + b) == ApplyAll(ApplyAll(p, a), b)
  {
    hide Apply;
    if b == [] {
      assert a + b == a;
    } else {
      assert (a + b)[..|a + b| - 1] == a + b[..|b| - 1];
      ApplyAllSplit(p, a, b[..|b| - 1]);
    }
  }

  lemma ApplyAllOne(p: Plain, op: Op)
    ensures ApplyAll(p, [op]) == Apply(p, op)
  {
    hide Apply;
    assert [op][..0] == [];
  }

  // ---- runs that never re-add a deleted id ----

  function AddedIds(op: Op): set<string> {
    match op
    case AddNode(nodes) => Nodes.IdSet(nodes)
    case AddNodesBatch(nodes) => Nodes.IdSet(nodes)
    case UpdateNode(_, nodes) => Nodes.IdSet(nodes)
    case _ => {}
  }

  ghost function DeletedIds(p: Plain, op: Op): set<string> {
    match op
    case DeleteNode(id) => if Has(p, id) then {id} else {}
    case UpdateNode(oldId, nodes) => if |nodes| == 1 && Has(p, oldId) && CanAppend(Remove(p, oldId), nodes) then {oldId} else {}
    case _ => {}
  }

  ghost function DeletedAll(p: Plain, ops: seq<Op>): set<string> {
    if ops == [] then {}
    else
      var n := |ops| - 1;
      DeletedAll(p, ops[..n]) + DeletedIds(ApplyAll(p, ops[..n]), ops[n])
  }

  /** No operation adds an id that is deleted before it or by it. */
  ghost predicate NeverReadds(p: Plain, deleted: set<string>, ops: seq<Op>) {
    forall k | 0 <= k < |ops| :: AddedIds(ops[k]) !! deleted + DeletedAll(p, ops[..k]) + DeletedIds(ApplyAll(p, ops[..k]), ops[k])
  }
}
