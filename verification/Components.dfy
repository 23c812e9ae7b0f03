/** Connected components ignoring edge direction, and the largest of them. */
module Components {
  import opened Basics
  import opened Rows
  import opened Adjacency
  import opened Balls
  import Csr
  import Nodes = NodeFrames
  import Edges = EdgeFrames
  import Graphs = GraphFrames
  import Searches
  import Traversal

  // ---- connectedness ----

  /** Undirected steps between nodes of the table. */
  ghost function Ties(g: Graphs.GraphFrame): Query {
    Query(g.edges.rows, Both, Any, Nodes.IdSet(g.nodes.rows))
  }

  ghost predicate Connected(q: Query, a: string, b: string) {
    exists k: nat :: Within(q, {a}, k, b)
  }

  lemma LeadsBack(q: Query, a: string, b: string)
    requires q.d == Both && Leads(q, a, b)
    ensures Leads(q, b, a)
  {
    var e :| 0 <= e < |q.rows| && Eligible(q.rows[e], q.spec, q.d, a, b);
    assert Eligible(q.rows[e], q.spec, q.d, b, a);
  }

  lemma {:induction false} Chained(q: Query, a: string, k: nat, b: string, m: nat, c: string)
    requires Within(q, {a}, k, b) && Within(q, {b}, m, c)
    ensures Within(q, {a}, k + m, c)
    decreases m
  {
    if c == b {
      WithinGrows(q, {a}, k, k + m, b);
    } else if Within(q, {b}, m - 1, c) {
      Chained(q, a, k, b, m - 1, c);
      WithinGrows(q, {a}, k + m - 1, k + m, c);
    } else {
      var x :| Within(q, {b}, m - 1, x) && Leads(q, x, c);
      Chained(q, a, k, b, m - 1, x);
    }
  }

  lemma ConnectedTrans(q: Query, a: string, b: string, c: string)
    requires Connected(q, a, b) && Connected(q, b, c)
    ensures Connected(q, a, c)
  {
    var k: nat :| Within(q, {a}, k, b);
    var m: nat :| Within(q, {b}, m, c);
    Chained(q, a, k, b, m, c);
  }

  lemma ConnectedSelf(q: Query, a: string)
    ensures Connected(q, a, a)
  {
    assert Within(q, {a}, 0, a);
  }

  lemma ConnectedStep(q: Query, a: string, b: string)
    requires Leads(q, a, b) && b in q.open
    ensures Connected(q, a, b)
  {
    assert Within(q, {a}, 0, a);
    assert Within(q, {a}, 1, b);
  }

  lemma {:induction false} ConnectedBack(q: Query, a: string, k: nat, b: string)
    requires q.d == Both && a in q.open && Within(q, {a}, k, b)
    ensures Connected(q, b, a)
    decreases k
  {
    if b == a {
      ConnectedSelf(q, a);
    } else if Within(q, {a}, k - 1, b) {
      ConnectedBack(q, a, k - 1, b);
    } else {
      var x :| Within(q, {a}, k - 1, x) && Leads(q, x, b);
      ConnectedBack(q, a, k - 1, x);
      LeadsBack(q, x, b);
      WithinOpen(q, a, k - 1, x);
      ConnectedStep(q, b, x);
      ConnectedTrans(q, b, x, a);
    }
  }

  lemma {:induction false} WithinOpen(q: Query, a: string, k: nat, x: string)
    requires a in q.open && Within(q, {a}, k, x)
    ensures x in q.open
    decreases k
  {
    if x != a && Within(q, {a}, k - 1, x) {
      WithinOpen(q, a, k - 1, x);
    }
  }

  /** For nodes of the table connectedness is an equivalence. */
  lemma ConnectedSym(q: Query, a: string, b: string)
    requires q.d == Both && a in q.open && Connected(q, a, b)
    ensures Connected(q, b, a)
  {
    var k: nat :| Within(q, {a}, k, b);
    ConnectedBack(q, a, k, b);
  }

  // ---- labellings ----

  /** Labels are equal exactly on connected nodes. */
  ghost predicate Separates(q: Query, rows: seq<NodeRow>, ids: seq<nat>) {
    |ids| == |rows| && forall i, j | 0 <= i < |rows| && 0 <= j < |rows| :: ids[i] == ids[j] <==> Connected(q, rows[i].id, rows[j].id)
  }

  /** Labels are dense and numbered by the first row that carries them. */
  ghost predicate Dense(ids: seq<nat>, n: nat) {
    && (forall i | 0 <= i < |ids| :: ids[i] < n)
    && (forall c | 0 <= c < n :: c in ids)
    && forall i, c | 0 <= i < |ids| && 0 <= c < ids[i] :: c in ids[..i]
  }

  ghost predicate Labelling(g: Graphs.GraphFrame, ids: seq<nat>, n: nat) {
    Separates(Ties(g), g.nodes.rows, ids) && Dense(ids, n)
  }

  /** A graph has exactly one such labelling. */
  lemma LabellingUnique(g: Graphs.GraphFrame, a: seq<nat>, m: nat, b: seq<nat>, n: nat)
    requires Labelling(g, a, m) && Labelling(g, b, n)
    ensures a == b && m == n
  {
    hide Connected, Ties;
    forall i | 0 <= i < |a|
      ensures a[i] == b[i]
    {
      SameLabel(Ties(g), g.nodes.rows, a, m, b, n, i);
    }
    assert a == b;
    if m > 0 {
      assert m - 1 in a;
    }
    if n > 0 {
      assert n - 1 in b;
    }
  }

  lemma {:induction false} SameLabel(q: Query, rows: seq<NodeRow>, a: seq<nat>, m: nat, b: seq<nat>, n: nat, i: nat)
    requires Separates(q, rows, a) && Dense(a, m) && Separates(q, rows, b) && Dense(b, n) && i < |a|
    ensures a[i] == b[i]
    decreases i
  {
    hide Connected;
    forall j | 0 <= j < i
      ensures a[j] == b[j]
    {
      SameLabel(q, rows, a, m, b, n, j);
    }
    if a[i] in a[..i] {
      var j :| 0 <= j < i && a[j] == a[i];
      LabelCarries(q, rows, a, b, i, j);
    } else if b[i] in b[..i] {
      var j :| 0 <= j < i && b[j] == b[i];
      LabelCarries(q, rows, b, a, i, j);
    } else {
      assert a[..i] == b[..i];
      NewLabelLeast(a, m, b, i);
      NewLabelLeast(b, n, a, i);
    }
  }

  lemma LabelCarries(q: Query, rows: seq<NodeRow>, a: seq<nat>, b: seq<nat>, i: nat, j: nat)
    requires Separates(q, rows, a) && Separates(q, rows, b) && i < |a| && j < |a| && a[i] == a[j] == b[j]
    ensures a[i] == b[i]
  {
    hide Connected;
  }

  lemma NewLabelLeast(a: seq<nat>, m: nat, b: seq<nat>, i: nat)
    requires Dense(a, m) && |a| == |b| && i < |a| && a[..i] == b[..i] && b[i] !in b[..i]
    ensures a[i] <= b[i]
  {
    hide Dense;
    if b[i] < a[i] {
      DenseAt(a, m, i, b[i]);
    }
  }

  lemma DenseAt(a: seq<nat>, m: nat, i: nat, c: nat)
    requires Dense(a, m) && i < |a| && c < a[i]
    ensures c in a[..i]
  {
  }

  // ---- index tables ----

  /** Node row to edge-local index and back; `None` where the other side does not know the id. */
  ghost predicate Tables(g: Graphs.GraphFrame, nfToE: seq<Option<nat>>, eToNf: seq<Option<nat>>) {
    && |nfToE| == |g.nodes.rows| && |eToNf| == |Edges.IdsOf(g.edges.rows)|
    && (forall i | 0 <= i < |nfToE| && nfToE[i].Some? ::
          nfToE[i].value < |eToNf| && Edges.IdsOf(g.edges.rows)[nfToE[i].value] == g.nodes.rows[i].id)
    && (forall i | 0 <= i < |nfToE| && nfToE[i].None? :: g.nodes.rows[i].id !in Edges.IdsOf(g.edges.rows))
    && (forall v | 0 <= v < |eToNf| && eToNf[v].Some? ::
          eToNf[v].value < |nfToE| && g.nodes.rows[eToNf[v].value].id == Edges.IdsOf(g.edges.rows)[v])
    && forall v | 0 <= v < |eToNf| && eToNf[v].None? :: Edges.IdsOf(g.edges.rows)[v] !in Nodes.Ids(g.nodes.rows)
  }

  /** The reverse table after the first `k` node rows. */
  ghost predicate Backed(g: Graphs.GraphFrame, nfToE: seq<Option<nat>>, eToNf: seq<Option<nat>>, k: nat) {
    && |nfToE| == |g.nodes.rows| && |eToNf| == |Edges.IdsOf(g.edges.rows)|
    && (forall v | 0 <= v < |eToNf| && eToNf[v].Some? ::
          eToNf[v].value < |nfToE| && g.nodes.rows[eToNf[v].value].id == Edges.IdsOf(g.edges.rows)[v])
    && forall i | 0 <= i < k && i < |nfToE| && nfToE[i].Some? && nfToE[i].value < |eToNf| :: eToNf[nfToE[i].value].Some?
  }

  method BuildTables(g: Graphs.GraphFrame) returns (nfToE: seq<Option<nat>>, eToNf: seq<Option<nat>>)
    requires Graphs.Valid(g)
    ensures Tables(g, nfToE, eToNf)
  {
    hide Edges.IdsOf, Graphs.Valid, Backed, Tables, Edges.Valid;
    var rows, f := g.nodes.rows, g.edges;
    nfToE := seq(|rows|, i requires 0 <= i < |rows| => f.NodeRowIdx(rows[i].id));
    IndexSize(g);
    eToNf := seq(|f.nodeIndex|, _ => None);
    ForwardTable(g, nfToE);
    BackNothing(g, nfToE, eToNf);
    var row := 0;
    while row < |rows|
      invariant 0 <= row <= |rows| && |eToNf| == |f.nodeIndex| && Backed(g, nfToE, eToNf, row)
    {
      BackOne(g, nfToE, eToNf, row);
      if nfToE[row].Some? {
        eToNf := eToNf[nfToE[row].value := Some(row)];
      }
      row := row + 1;
    }
    BackAll(g, nfToE, eToNf);
  }

  lemma IndexSize(g: Graphs.GraphFrame)
    requires Graphs.Valid(g)
    ensures |g.edges.nodeIndex| == |Edges.IdsOf(g.edges.rows)|
  {
    NumbersSize(g.edges.nodeIndex, Edges.IdsOf(g.edges.rows));
  }

  ghost predicate Forward(g: Graphs.GraphFrame, nfToE: seq<Option<nat>>) {
    && |nfToE| == |g.nodes.rows|
    && (forall i | 0 <= i < |nfToE| && nfToE[i].Some? ::
          nfToE[i].value < |Edges.IdsOf(g.edges.rows)| && Edges.IdsOf(g.edges.rows)[nfToE[i].value] == g.nodes.rows[i].id)
    && forall i | 0 <= i < |nfToE| && nfToE[i].None? :: g.nodes.rows[i].id !in Edges.IdsOf(g.edges.rows)
  }

  lemma ForwardTable(g: Graphs.GraphFrame, nfToE: seq<Option<nat>>)
    requires Graphs.Valid(g) && |nfToE| == |g.nodes.rows| && forall i | 0 <= i < |nfToE| :: nfToE[i] == g.edges.NodeRowIdx(g.nodes.rows[i].id)
    ensures Forward(g, nfToE)
  {
    hide Edges.IdsOf, Graphs.Valid;
    forall i | 0 <= i < |nfToE|
      ensures nfToE[i].Some? ==>
        nfToE[i].value < |Edges.IdsOf(g.edges.rows)| && Edges.IdsOf(g.edges.rows)[nfToE[i].value] == g.nodes.rows[i].id
      ensures nfToE[i].None? ==> g.nodes.rows[i].id !in Edges.IdsOf(g.edges.rows)
    {
      Searches.GraphIndexes(g, g.nodes.rows[i].id);
    }
  }

  lemma BackNothing(g: Graphs.GraphFrame, nfToE: seq<Option<nat>>, eToNf: seq<Option<nat>>)
    requires |nfToE| == |g.nodes.rows| && |eToNf| == |Edges.IdsOf(g.edges.rows)| && forall v | 0 <= v < |eToNf| :: eToNf[v] == None
    ensures Backed(g, nfToE, eToNf, 0)
  {
  }

  lemma BackOne(g: Graphs.GraphFrame, nfToE: seq<Option<nat>>, eToNf: seq<Option<nat>>, row: nat)
    requires Forward(g, nfToE) && Backed(g, nfToE, eToNf, row) && row < |nfToE|
    ensures nfToE[row].Some? ==> nfToE[row].value < |eToNf| && Backed(g, nfToE, eToNf[nfToE[row].value := Some(row)], row + 1)
    ensures nfToE[row].None? ==> Backed(g, nfToE, eToNf, row + 1)
  {
    hide Edges.IdsOf;
  }

  lemma BackAll(g: Graphs.GraphFrame, nfToE: seq<Option<nat>>, eToNf: seq<Option<nat>>)
    requires Graphs.Valid(g) && Forward(g, nfToE) && Backed(g, nfToE, eToNf, |nfToE|)
    ensures Tables(g, nfToE, eToNf)
  {
    hide Edges.IdsOf, Edges.Valid, Graphs.Valid;
    var ids := Edges.IdsOf(g.edges.rows);
    Edges.IdsOfDistinct(g.edges.rows);
    forall v | 0 <= v < |eToNf| && eToNf[v].None?
      ensures ids[v] !in Nodes.Ids(g.nodes.rows)
    {
      forall i | 0 <= i < |g.nodes.rows|
        ensures g.nodes.rows[i].id != ids[v]
      {
        assert nfToE[i].Some? ==> eToNf[nfToE[i].value].Some?;
      }
    }
  }

  // ---- the search ----

  /** Rows `i` and `j` are joined by an edge, in either direction. */
  ghost predicate Adjacent(g: Graphs.GraphFrame, i: nat, j: nat) {
    i < |g.nodes.rows| && j < |g.nodes.rows| && Leads(Ties(g), g.nodes.rows[i].id, g.nodes.rows[j].id)
  }

  /** All neighbours of `i` carry its label. */
  ghost predicate Settled(g: Graphs.GraphFrame, comp: seq<Option<nat>>, i: nat) {
    i < |comp| && forall j: nat | Adjacent(g, i, j) && j < |comp| :: comp[j] == comp[i]
  }

  /** Labels below `n` are given out, each first to the row `first[c]`, and label only rows connected to it. */
  ghost predicate Labelled(g: Graphs.GraphFrame, comp: seq<Option<nat>>, first: seq<nat>) {
    && |comp| == |g.nodes.rows|
    && (forall c | 0 <= c < |first| :: first[c] < |comp| && comp[first[c]] == Some(c))
    && forall i | 0 <= i < |comp| && comp[i].Some? ::
         comp[i].value < |first| && Connected(Ties(g), g.nodes.rows[first[comp[i].value]].id, g.nodes.rows[i].id)
  }

  /** Start rows ascend, and no row before a start row carries its label or a later one. */
  ghost predicate Sequential(comp: seq<Option<nat>>, first: seq<nat>) {
    && (forall c, d | 0 <= c < d < |first| :: first[c] < first[d])
    && forall i, c | 0 <= i < |comp| && comp[i] == Some(c) && c < |first| :: first[c] <= i
  }

  /** Between searches: every labelled row is settled. */
  ghost predicate Quiet(g: Graphs.GraphFrame, comp: seq<Option<nat>>, first: seq<nat>, start: nat) {
    && Labelled(g, comp, first) && Sequential(comp, first)
    && (forall i | 0 <= i < |comp| && comp[i].Some? :: Settled(g, comp, i))
    && (forall i | 0 <= i < start && i < |comp| :: comp[i].Some?)
    && forall c | 0 <= c < |first| :: first[c] < start
  }

  /** During the search for the last label: everything but the queue is settled. */
  ghost predicate Flooding(g: Graphs.GraphFrame, comp: seq<Option<nat>>, first: seq<nat>, queue: seq<nat>, except: set<nat>) {
    && Labelled(g, comp, first) && |first| > 0
    && (forall i | i in queue :: i < |comp| && comp[i] == Some(|first| - 1))
    && forall i | 0 <= i < |comp| && comp[i].Some? && i !in queue && i !in except :: Settled(g, comp, i)
  }

  /** `comp` only gained labels `c`. */
  ghost predicate Extends(before: seq<Option<nat>>, comp: seq<Option<nat>>, c: nat) {
    |comp| == |before| && forall i | 0 <= i < |comp| :: comp[i] == before[i] || (before[i].None? && comp[i] == Some(c))
  }

  lemma AdjacentBack(g: Graphs.GraphFrame, i: nat, j: nat)
    requires Adjacent(g, i, j)
    ensures Adjacent(g, j, i)
  {
    LeadsBack(Ties(g), g.nodes.rows[i].id, g.nodes.rows[j].id);
  }

  lemma NodeOpen(g: Graphs.GraphFrame, i: nat)
    requires i < |g.nodes.rows|
    ensures g.nodes.rows[i].id in Ties(g).open
  {
  }

  /** Labelling an unlabelled neighbour of a row just taken off the queue. */
  lemma Flood(g: Graphs.GraphFrame, comp: seq<Option<nat>>, first: seq<nat>, queue: seq<nat>, i: nat, j: nat)
    requires Flooding(g, comp, first, queue, {i}) && i < |comp| && comp[i] == Some(|first| - 1)
    requires Adjacent(g, i, j) && comp[j].None?
    ensures Flooding(g, comp[j := Some(|first| - 1)], first, queue + [j], {i})
  {
    hide Connected, Leads, Ties;
    NodeOpen(g, j);
    ConnectedStep(Ties(g), g.nodes.rows[i].id, g.nodes.rows[j].id);
    ConnectedTrans(Ties(g), g.nodes.rows[first[|first| - 1]].id, g.nodes.rows[i].id, g.nodes.rows[j].id);
    var comp' := comp[j := Some(|first| - 1)];
    forall x | 0 <= x < |comp'| && comp'[x].Some? && x !in queue + [j] && x !in {i}
      ensures Settled(g, comp', x)
    {
      assert Settled(g, comp, x);
    }
  }

  /** A neighbour that already has a label has this one. */
  lemma SameSide(g: Graphs.GraphFrame, comp: seq<Option<nat>>, first: seq<nat>, queue: seq<nat>, i: nat, j: nat)
    requires Flooding(g, comp, first, queue, {i}) && i < |comp| && comp[i] == Some(|first| - 1)
    requires Adjacent(g, i, j) && comp[j].Some?
    ensures comp[j] == comp[i]
  {
    hide Connected, Leads;
    AdjacentBack(g, i, j);
  }

  lemma TakeRow(g: Graphs.GraphFrame, comp: seq<Option<nat>>, first: seq<nat>, queue: seq<nat>)
    requires Flooding(g, comp, first, queue, {}) && queue != []
    ensures queue[0] < |comp| && comp[queue[0]] == Some(|first| - 1) && Flooding(g, comp, first, queue[1..], {queue[0]})
  {
    hide Labelled, Settled;
    assert queue == [queue[0]] + queue[1..];
    assert forall i :: i in queue <==> i == queue[0] || i in queue[1..];
    assert queue[0] in queue;
  }

  lemma DoneRow(g: Graphs.GraphFrame, comp: seq<Option<nat>>, first: seq<nat>, queue: seq<nat>, i: nat)
    requires Flooding(g, comp, first, queue, {i}) && Settled(g, comp, i)
    ensures Flooding(g, comp, first, queue, {})
  {
    hide Labelled, Settled;
  }

  /** Neighbours of a row are the rows behind its out- and in-neighbour lists. */
  lemma ListedRows(g: Graphs.GraphFrame, inCsr: Csr.CsrIndex, nfToE: seq<Option<nat>>, eToNf: seq<Option<nat>>, i: nat, j: nat)
    requires Graphs.Valid(g) && Indexed(g.edges, inCsr) && Tables(g, nfToE, eToNf) && i < |nfToE|
    ensures g.edges.outCsr.Sliceable() && inCsr.Sliceable()
    ensures Adjacent(g, i, j) <==> nfToE[i].Some? && exists v: nat ::
      (v in g.edges.outCsr.Neighbors(nfToE[i].value) || v in inCsr.Neighbors(nfToE[i].value)) && v < |eToNf| && eToNf[v] == Some(j)
  {
    hide Edges.IdsOf, Edges.Valid, Edges.InOf, Edges.TypesOf, Edges.OutOf, Leads, Searches.EdgeIds;
    var q, ids := Searches.Undirected(g.edges.rows), Edges.IdsOf(g.edges.rows);
    Searches.BothLists(g.edges, inCsr, 0);
    if nfToE[i].Some? {
      var u := nfToE[i].value;
      Searches.BothLists(g.edges, inCsr, u);
      if v: nat :| (v in g.edges.outCsr.Neighbors(u) || v in inCsr.Neighbors(u)) && v < |eToNf| && eToNf[v] == Some(j) {
        Searches.LeadsAlike(q, Ties(g), ids[u], ids[v]);
      }
    }
    if Adjacent(g, i, j) {
      var a, b := g.nodes.rows[i].id, g.nodes.rows[j].id;
      LeadsIndexed(Ties(g), a, b);
      Searches.LeadsAlike(q, Ties(g), a, b);
      var v :| 0 <= v < |ids| && ids[v] == b;
      assert Nodes.Ids(g.nodes.rows)[j] == b;
      assert LeadsIdx(q, nfToE[i].value, v);
      BackRow(g, nfToE, eToNf, v, j);
    }
  }

  lemma BackRow(g: Graphs.GraphFrame, nfToE: seq<Option<nat>>, eToNf: seq<Option<nat>>, v: nat, j: nat)
    requires Graphs.Valid(g) && Tables(g, nfToE, eToNf) && v < |eToNf| && j < |g.nodes.rows| && g.nodes.rows[j].id == Edges.IdsOf(g.edges.rows)[v]
    ensures eToNf[v] == Some(j)
  {
    hide Edges.IdsOf, Edges.Valid;
    assert Nodes.Ids(g.nodes.rows)[j] == g.nodes.rows[j].id;
    assert eToNf[v].Some?;
    assert Nodes.Ids(g.nodes.rows)[eToNf[v].value] == g.nodes.rows[j].id;
  }

  function Unlabelled(comp: seq<Option<nat>>): nat {
    if comp == [] then 0 else Unlabelled(comp[1..]) + if comp[0].None? then 1 else 0
  }

  lemma {:induction false} OneFewer(comp: seq<Option<nat>>, i: nat, c: nat)
    requires i < |comp| && comp[i].None?
    ensures Unlabelled(comp[i := Some(c)]) == Unlabelled(comp) - 1
  {
    if i == 0 {
      assert comp[i := Some(c)][1..] == comp[1..];
    } else {
      assert comp[i := Some(c)][1..] == comp[1..][i - 1 := Some(c)];
      OneFewer(comp[1..], i - 1, c);
    }
  }

  /** The neighbours listed in `ns` belong to rows adjacent to `i`. */
  ghost predicate Lists(g: Graphs.GraphFrame, eToNf: seq<Option<nat>>, ns: seq<nat>, i: nat) {
    forall v | v in ns && v < |eToNf| && eToNf[v].Some? :: Adjacent(g, i, eToNf[v].value)
  }

  ghost predicate Covered(eToNf: seq<Option<nat>>, ns: seq<nat>, comp: seq<Option<nat>>, c: nat) {
    forall v | v in ns && v < |eToNf| && eToNf[v].Some? && eToNf[v].value < |comp| :: comp[eToNf[v].value] == Some(c)
  }

  lemma CoveredMore(eToNf: seq<Option<nat>>, ns: seq<nat>, before: seq<Option<nat>>, comp: seq<Option<nat>>, c: nat)
    requires Covered(eToNf, ns, before, c) && Extends(before, comp, c)
    ensures Covered(eToNf, ns, comp, c)
  {
  }

  lemma ExtendsTrans(a: seq<Option<nat>>, b: seq<Option<nat>>, d: seq<Option<nat>>, c: nat)
    requires Extends(a, b, c) && Extends(b, d, c)
    ensures Extends(a, d, c)
  {
  }

  lemma AdjacentSize(g: Graphs.GraphFrame, comp: seq<Option<nat>>, first: seq<nat>, queue: seq<nat>, i: nat)
    requires Flooding(g, comp, first, queue, {i})
    ensures |comp| == |g.nodes.rows| && forall j: nat | Adjacent(g, i, j) :: j < |comp|
  {
  }

  /** Labels the unlabelled rows of one neighbour list and queues them. */
  method FloodList(g: Graphs.GraphFrame, eToNf: seq<Option<nat>>, ns: seq<nat>, ghost first: seq<nat>, ghost i: nat, cid: nat,
                   comp0: seq<Option<nat>>, queue0: seq<nat>)
    returns (comp: seq<Option<nat>>, queue: seq<nat>)
    requires Flooding(g, comp0, first, queue0, {i}) && i < |comp0| && comp0[i] == Some(cid) && |first| == cid + 1
    requires Lists(g, eToNf, ns, i)
    ensures Flooding(g, comp, first, queue, {i}) && Extends(comp0, comp, cid) && i < |comp| && comp[i] == Some(cid)
    ensures Covered(eToNf, ns, comp, cid)
    ensures Unlabelled(comp) + |queue| == Unlabelled(comp0) + |queue0| && Unlabelled(comp) <= Unlabelled(comp0)
  {
    hide Flooding, Adjacent, Unlabelled;
    comp, queue := comp0, queue0;
    var k := 0;
    while k < |ns|
      invariant 0 <= k <= |ns| && Flooding(g, comp, first, queue, {i}) && Extends(comp0, comp, cid) && i < |comp| && comp[i] == Some(cid)
      invariant Covered(eToNf, ns[..k], comp, cid)
      invariant Unlabelled(comp) + |queue| == Unlabelled(comp0) + |queue0| && Unlabelled(comp) <= Unlabelled(comp0)
    {
      var nb := ns[k];
      assert nb in ns && ns[..k + 1] == ns[..k] + [nb];
      AdjacentSize(g, comp, first, queue, i);
      if nb < |eToNf| && eToNf[nb].Some? {
        var j := eToNf[nb].value;
        if comp[j].None? {
          Flood(g, comp, first, queue, i, j);
          OneFewer(comp, j, cid);
          comp := comp[j := Some(cid)];
          queue := queue + [j];
        } else {
          SameSide(g, comp, first, queue, i, j);
        }
      }
      k := k + 1;
    }
    assert ns[..k] == ns;
  }

  lemma ListsNeighbors(g: Graphs.GraphFrame, inCsr: Csr.CsrIndex, nfToE: seq<Option<nat>>, eToNf: seq<Option<nat>>, i: nat)
    requires Graphs.Valid(g) && Indexed(g.edges, inCsr) && Tables(g, nfToE, eToNf) && i < |nfToE| && nfToE[i].Some?
    ensures g.edges.outCsr.Sliceable() && inCsr.Sliceable()
    ensures Lists(g, eToNf, g.edges.outCsr.Neighbors(nfToE[i].value), i)
    ensures Lists(g, eToNf, inCsr.Neighbors(nfToE[i].value), i)
  {
    hide Graphs.Valid, Indexed, Tables, Adjacent;
    ListedRows(g, inCsr, nfToE, eToNf, i, i);
    forall j: nat
      ensures Adjacent(g, i, j) <==> exists v: nat ::
        (v in g.edges.outCsr.Neighbors(nfToE[i].value) || v in inCsr.Neighbors(nfToE[i].value)) && v < |eToNf| && eToNf[v] == Some(j)
    {
      ListedRows(g, inCsr, nfToE, eToNf, i, j);
    }
  }

  /** Once both lists are covered the row is settled. */
  lemma SettleRow(g: Graphs.GraphFrame, inCsr: Csr.CsrIndex, nfToE: seq<Option<nat>>, eToNf: seq<Option<nat>>, comp: seq<Option<nat>>, i: nat, cid: nat)
    requires Graphs.Valid(g) && Indexed(g.edges, inCsr) && Tables(g, nfToE, eToNf) && i < |nfToE| == |comp| && comp[i] == Some(cid)
    requires g.edges.outCsr.Sliceable() && inCsr.Sliceable()
    requires nfToE[i].Some? ==> Covered(eToNf, g.edges.outCsr.Neighbors(nfToE[i].value), comp, cid)
                                && Covered(eToNf, inCsr.Neighbors(nfToE[i].value), comp, cid)
    ensures Settled(g, comp, i)
  {
    hide Graphs.Valid, Indexed, Tables, Adjacent;
    forall j: nat | Adjacent(g, i, j) && j < |comp|
      ensures comp[j] == comp[i]
    {
      ListedRows(g, inCsr, nfToE, eToNf, i, j);
      var v: nat :| (v in g.edges.outCsr.Neighbors(nfToE[i].value) || v in inCsr.Neighbors(nfToE[i].value)) && v < |eToNf| && eToNf[v] == Some(j);
    }
  }

  lemma FloodSize(g: Graphs.GraphFrame, comp: seq<Option<nat>>, first: seq<nat>, queue: seq<nat>, except: set<nat>, nfToE: seq<Option<nat>>, eToNf: seq<Option<nat>>)
    requires Flooding(g, comp, first, queue, except) && Tables(g, nfToE, eToNf)
    ensures |comp| == |nfToE| == |g.nodes.rows|
  {
  }

  /** The search from one start row. */
  method FloodFrom(g: Graphs.GraphFrame, inCsr: Csr.CsrIndex, nfToE: seq<Option<nat>>, eToNf: seq<Option<nat>>, start: nat, cid: nat,
                   ghost first: seq<nat>, comp0: seq<Option<nat>>)
    returns (comp: seq<Option<nat>>)
    requires Graphs.Valid(g) && Indexed(g.edges, inCsr) && Tables(g, nfToE, eToNf)
    requires Flooding(g, comp0, first, [start], {}) && |first| == cid + 1
    ensures Flooding(g, comp, first, [], {}) && Extends(comp0, comp, cid)
  {
    hide Flooding, Graphs.Valid, Indexed, Tables, Lists, Covered, Extends, Settled, Unlabelled;
    comp := comp0;
    var queue := [start];
    ExtendsSelf(comp, cid);
    while |queue| > 0
      invariant Flooding(g, comp, first, queue, {}) && Extends(comp0, comp, cid)
      decreases Unlabelled(comp), |queue|
    {
      var row := queue[0];
      TakeRow(g, comp, first, queue);
      queue := queue[1..];
      FloodSize(g, comp, first, queue, {row}, nfToE, eToNf);
      ListedRows(g, inCsr, nfToE, eToNf, row, row);
      if nfToE[row].Some? {
        var e := nfToE[row].value;
        ListsNeighbors(g, inCsr, nfToE, eToNf, row);
        ghost var before := comp;
        comp, queue := FloodList(g, eToNf, g.edges.outCsr.Neighbors(e), first, row, cid, comp, queue);
        ghost var between := comp;
        comp, queue := FloodList(g, eToNf, inCsr.Neighbors(e), first, row, cid, comp, queue);
        CoveredMore(eToNf, g.edges.outCsr.Neighbors(e), between, comp, cid);
        ExtendsTrans(comp0, before, between, cid);
        ExtendsTrans(comp0, between, comp, cid);
        FloodSize(g, comp, first, queue, {row}, nfToE, eToNf);
      }
      SettleRow(g, inCsr, nfToE, eToNf, comp, row, cid);
      DoneRow(g, comp, first, queue, row);
    }
    assert queue == [];
  }

  lemma ExtendsSelf(comp: seq<Option<nat>>, c: nat)
    ensures Extends(comp, comp, c)
  {
  }

  lemma StartFlood(g: Graphs.GraphFrame, comp: seq<Option<nat>>, first: seq<nat>, start: nat)
    requires Quiet(g, comp, first, start) && start < |comp| && comp[start].None?
    ensures Flooding(g, comp[start := Some(|first|)], first + [start], [start], {})
  {
    hide Connected, Adjacent, Ties;
    ConnectedSelf(Ties(g), g.nodes.rows[start].id);
    var comp', first' := comp[start := Some(|first|)], first + [start];
    forall i | 0 <= i < |comp'| && comp'[i].Some? && i !in [start]
      ensures Settled(g, comp', i)
    {
      assert Settled(g, comp, i);
    }
  }

  lemma EndFlood(g: Graphs.GraphFrame, before: seq<Option<nat>>, first: seq<nat>, start: nat, comp: seq<Option<nat>>)
    requires Quiet(g, before, first, start) && start < |before| && before[start].None?
    requires Extends(before[start := Some(|first|)], comp, |first|) && Flooding(g, comp, first + [start], [], {})
    ensures Quiet(g, comp, first + [start], start + 1)
  {
    hide Connected, Adjacent, Settled;
  }

  lemma {:induction false} SameByPath(g: Graphs.GraphFrame, comp: seq<Option<nat>>, first: seq<nat>, i: nat, k: nat, j: nat)
    requires Graphs.Valid(g) && Quiet(g, comp, first, |comp|) && i < |comp| && j < |comp| && |comp| == |g.nodes.rows|
    requires Within(Ties(g), {g.nodes.rows[i].id}, k, g.nodes.rows[j].id)
    ensures comp[i] == comp[j]
    decreases k
  {
    hide Leads, Edges.Valid, Labelled, Sequential;
    var q, rows := Ties(g), g.nodes.rows;
    if rows[j].id == rows[i].id {
      assert Nodes.Ids(rows)[i] == Nodes.Ids(rows)[j];
    } else if Within(q, {rows[i].id}, k - 1, rows[j].id) {
      SameByPath(g, comp, first, i, k - 1, j);
    } else {
      var a :| Within(q, {rows[i].id}, k - 1, a) && Leads(q, a, rows[j].id);
      NodeOpen(g, i);
      WithinOpen(q, rows[i].id, k - 1, a);
      var h :| 0 <= h < |rows| && rows[h].id == a;
      SameByPath(g, comp, first, i, k - 1, h);
      assert Adjacent(g, h, j);
      assert Settled(g, comp, h);
    }
  }

  lemma SameByLabel(g: Graphs.GraphFrame, comp: seq<Option<nat>>, first: seq<nat>, i: nat, j: nat)
    requires Labelled(g, comp, first) && i < |comp| && j < |comp| && comp[i].Some? && comp[i] == comp[j]
    ensures Connected(Ties(g), g.nodes.rows[i].id, g.nodes.rows[j].id)
  {
    hide Connected;
    var head := first[comp[i].value];
    NodeOpen(g, head);
    TiesBoth(g);
    ConnectedSym(Ties(g), g.nodes.rows[head].id, g.nodes.rows[i].id);
    ConnectedTrans(Ties(g), g.nodes.rows[i].id, g.nodes.rows[head].id, g.nodes.rows[j].id);
  }

  lemma TiesBoth(g: Graphs.GraphFrame)
    ensures Ties(g).d == Both
  {
  }

  lemma QuietLabelling(g: Graphs.GraphFrame, comp: seq<Option<nat>>, first: seq<nat>, ids: seq<nat>)
    requires Graphs.Valid(g) && Quiet(g, comp, first, |comp|) && |ids| == |comp| && forall i | 0 <= i < |ids| :: comp[i] == Some(ids[i])
    ensures Labelling(g, ids, |first|)
  {
    hide Graphs.Valid, Ties, Settled;
    forall i, j | 0 <= i < |ids| && 0 <= j < |ids|
      ensures ids[i] == ids[j] <==> Connected(Ties(g), g.nodes.rows[i].id, g.nodes.rows[j].id)
    {
      if ids[i] == ids[j] {
        SameByLabel(g, comp, first, i, j);
      }
      if k: nat :| Within(Ties(g), {g.nodes.rows[i].id}, k, g.nodes.rows[j].id) {
        SameByPath(g, comp, first, i, k, j);
      }
    }
    forall i, c | 0 <= i < |ids| && 0 <= c < ids[i]
      ensures c in ids[..i]
    {
      assert first[c] < first[ids[i]] <= i;
      assert ids[..i][first[c]] == c;
    }
    forall c | 0 <= c < |first|
      ensures c in ids
    {
      assert ids[first[c]] == c;
    }
  }

  lemma QuietStart(g: Graphs.GraphFrame, comp: seq<Option<nat>>)
    requires |comp| == |g.nodes.rows| && forall i | 0 <= i < |comp| :: comp[i].None?
    ensures Quiet(g, comp, [], 0)
  {
  }

  lemma QuietSize(g: Graphs.GraphFrame, comp: seq<Option<nat>>, first: seq<nat>, start: nat)
    requires Quiet(g, comp, first, start)
    ensures |comp| == |g.nodes.rows| && (start >= |comp| ==> forall i | 0 <= i < |comp| :: comp[i].Some?)
    ensures start < |comp| && comp[start].Some? ==> Quiet(g, comp, first, start + 1)
  {
    hide Connected, Sequential, Settled;
  }

  /** Two nodes get the same id exactly when they are connected ignoring direction; ids are dense and
      numbered by first node row. */
  method ComputeComponents(g: Graphs.GraphFrame) returns (ids: seq<nat>, num: nat)
    requires Graphs.Valid(g)
    ensures Labelling(g, ids, num)
  {
    hide Graphs.Valid, Labelling, Quiet, Flooding, Tables, Indexed, Extends, Edges.Valid;
    Traversal.GraphParts(g);
    var inCsr := Edges.InCsr(g.edges);
    NowIndexed(g.edges, inCsr);
    var nfToE, eToNf := BuildTables(g);
    var comp: seq<Option<nat>> := seq(|g.nodes.rows|, _ => None);
    num := 0;
    ghost var first: seq<nat> := [];
    var start := 0;
    QuietStart(g, comp);
    while start < |g.nodes.rows|
      invariant 0 <= start <= |g.nodes.rows| && Quiet(g, comp, first, start) && num == |first|
    {
      QuietSize(g, comp, first, start);
      if comp[start].None? {
        StartFlood(g, comp, first, start);
        ghost var before := comp;
        comp := FloodFrom(g, inCsr, nfToE, eToNf, start, num, first + [start], comp[start := Some(num)]);
        EndFlood(g, before, first, start, comp);
        first := first + [start];
        num := num + 1;
      }
      start := start + 1;
    }
    QuietSize(g, comp, first, start);
    ids := seq(|comp|, i requires 0 <= i < |comp| => if comp[i].Some? then comp[i].value else 0);
    QuietLabelling(g, comp, first, ids);
  }

  // ---- the largest component ----

  function Size(ids: seq<nat>, c: nat): nat {
    if ids == [] then 0 else Size(ids[..|ids| - 1], c) + if ids[|ids| - 1] == c then 1 else 0
  }

  /** `c` has the most rows; on a tie the lowest label wins. */
  ghost predicate Largest(ids: seq<nat>, n: nat, c: nat) {
    c < n && forall d | 0 <= d < n :: Size(ids, d) < Size(ids, c) || (Size(ids, d) == Size(ids, c) && c <= d)
  }

  function MemberMask(ids: seq<nat>, c: nat): (mask: seq<bool>)
    ensures |mask| == |ids| && forall i | 0 <= i < |ids| :: mask[i] <==> ids[i] == c
  {
    seq(|ids|, i requires 0 <= i < |ids| => ids[i] == c)
  }

  method LargestLabel(ids: seq<nat>, n: nat) returns (c: nat)
    requires n > 0 && forall i | 0 <= i < |ids| :: ids[i] < n
    ensures Largest(ids, n, c)
  {
    var sizes := new nat[n](_ => 0);
    var i := 0;
    while i < |ids|
      invariant 0 <= i <= |ids| && forall d | 0 <= d < n :: sizes[d] == Size(ids[..i], d)
    {
      assert ids[..i + 1][..i] == ids[..i];
      sizes[ids[i]] := sizes[ids[i]] + 1;
      i := i + 1;
    }
    assert ids[..i] == ids;
    c := 0;
    var k := 1;
    while k < n
      invariant 1 <= k <= n && c < k && forall d | 0 <= d < n :: sizes[d] == Size(ids, d)
      invariant forall d | 0 <= d < k :: sizes[d] < sizes[c] || (sizes[d] == sizes[c] && c <= d)
    {
      if sizes[k] > sizes[c] {
        c := k;
      }
      k := k + 1;
    }
  }

  /** The ids of the rows labelled `c`. */
  function Members(rows: seq<NodeRow>, ids: seq<nat>, c: nat): set<string>
    requires |ids| == |rows|
  {
    set i | 0 <= i < |rows| && ids[i] == c :: rows[i].id
  }

  lemma MemberHas(rows: seq<NodeRow>, ids: seq<nat>, c: nat, i: nat)
    requires |ids| == |rows| && Distinct(Nodes.Ids(rows)) && i < |rows|
    ensures rows[i].id in Members(rows, ids, c) <==> ids[i] == c
  {
    if rows[i].id in Members(rows, ids, c) {
      var j :| 0 <= j < |rows| && ids[j] == c && rows[j].id == rows[i].id;
      assert Nodes.Ids(rows)[i] == Nodes.Ids(rows)[j];
    }
  }

  lemma MembersInduce(rows: seq<NodeRow>, ids: seq<nat>, c: nat)
    requires |ids| == |rows| && Distinct(Nodes.Ids(rows))
    ensures Graphs.InducedNodes(rows, Members(rows, ids, c)) == Kept(rows, MemberMask(ids, c))
  {
    hide Kept;
    hide Members, Distinct;
    forall i | 0 <= i < |rows|
      ensures rows[i].id in Members(rows, ids, c) <==> ids[i] == c
    {
      MemberHas(rows, ids, c, i);
    }
    assert Graphs.NodeMask(rows, Members(rows, ids, c)) == MemberMask(ids, c);
  }

  lemma NoRows(g: Graphs.GraphFrame)
    requires g.nodes.rows == []
    ensures Graphs.InducedNodes(g.nodes.rows, {}) == []
  {
  }

  lemma SomeLabel(g: Graphs.GraphFrame, ids: seq<nat>, n: nat)
    requires Labelling(g, ids, n)
    ensures |ids| == |g.nodes.rows| && (forall i | 0 <= i < |ids| :: ids[i] < n) && (|ids| > 0 ==> n > 0)
  {
    hide Connected;
    if |ids| > 0 {
      assert ids[0] < n;
    }
  }

  /** The induced graph of the largest class; ties go to the class that appears first. */
  ghost predicate LargestClass(g: Graphs.GraphFrame, rows: seq<NodeRow>) {
    if g.nodes.rows == [] then rows == []
    else exists ids, n, c :: Labelling(g, ids, n) && Largest(ids, n, c) && |ids| == |g.nodes.rows| && rows == Kept(g.nodes.rows, MemberMask(ids, c))
  }

  method LargestConnectedComponent(g: Graphs.GraphFrame) returns (r: Result<Graphs.GraphFrame>)
    requires Graphs.Valid(g)
    ensures r.Success? && Graphs.Valid(r.value) && LargestClass(g, r.value.nodes.rows)
    ensures r.value.edges.rows == Graphs.InducedEdges(g.nodes.rows, g.edges.rows, Nodes.IdSet(r.value.nodes.rows))
  {
    hide Graphs.Valid, Labelling, Largest, Kept, Graphs.InducedNodes, Graphs.InducedEdges, Nodes.IdSet, Graphs.Closed, Members;
    if |g.nodes.rows| == 0 {
      NoRows(g);
      Searches.SameInduced(g.nodes.rows, g.edges.rows, {});
      r := Graphs.Subgraph(g, {});
      return;
    }
    var ids, num := ComputeComponents(g);
    SomeLabel(g, ids, num);
    var largest := LargestLabel(ids, num);
    UniqueIds(g);
    MembersInduce(g.nodes.rows, ids, largest);
    Searches.SameInduced(g.nodes.rows, g.edges.rows, Members(g.nodes.rows, ids, largest));
    r := Graphs.Subgraph(g, Members(g.nodes.rows, ids, largest));
  }

  lemma UniqueIds(g: Graphs.GraphFrame)
    requires Graphs.Valid(g)
    ensures Distinct(Nodes.Ids(g.nodes.rows))
  {
    hide Edges.Valid;
  }
}
