/** Immutable edge tables with the indexes built from their rows. */
module EdgeFrames {
  import opened Basics
  import opened Rows
  import Csr

  // ---- what the indexes stand for, read off the rows ----

  function Enter(ids: seq<string>, id: string): seq<string> {
    if id in ids then ids else ids + [id]
  }

  /** The endpoint ids in order of first appearance, source before target. */
  function IdsOf(rows: seq<EdgeRow>): seq<string> {
    if rows == [] then []
    else
      var r := rows[|rows| - 1];
      Enter(Enter(IdsOf(rows[..|rows| - 1]), r.src), r.dst)
  }

  lemma {:induction false} IdsOfDistinct(rows: seq<EdgeRow>)
    ensures Distinct(IdsOf(rows))
  {
    if rows != [] {
      IdsOfDistinct(rows[..|rows| - 1]);
    }
  }

  ghost predicate Mentioned(rows: seq<EdgeRow>, id: string) {
    exists e :: 0 <= e < |rows| && Touches(rows[e], id)
  }

  lemma MentionedMore(rows: seq<EdgeRow>, id: string)
    requires rows != []
    ensures Mentioned(rows, id) <==> Mentioned(rows[..|rows| - 1], id) || Touches(rows[|rows| - 1], id)
  {
    hide Touches;
    var n := |rows| - 1;
    if e :| 0 <= e < n && Touches(rows[..n][e], id) {
      assert Touches(rows[e], id);
    }
    if e :| 0 <= e < |rows| && Touches(rows[e], id) {
      assert e == n || Touches(rows[..n][e], id);
    }
  }

  lemma {:induction false} IdsOfMember(rows: seq<EdgeRow>, id: string)
    ensures id in IdsOf(rows) <==> Mentioned(rows, id)
  {
    if rows != [] {
      hide Mentioned;
      IdsOfMember(rows[..|rows| - 1], id);
      MentionedMore(rows, id);
    }
  }

  lemma EndsIn(rows: seq<EdgeRow>, e: nat)
    requires e < |rows|
    ensures rows[e].src in IdsOf(rows) && rows[e].dst in IdsOf(rows)
  {
    assert Touches(rows[e], rows[e].src) && Touches(rows[e], rows[e].dst);
    IdsOfMember(rows, rows[e].src);
    IdsOfMember(rows, rows[e].dst);
  }

  /** `id` first occurs at place `p`, counting sources at even and targets at odd places. */
  ghost predicate FirstAt(rows: seq<EdgeRow>, id: string, p: nat) {
    && p < 2 * |rows| && PlaceId(rows, p) == id && forall q | 0 <= q < p :: PlaceId(rows, q) != id
  }

  ghost function PlaceId(rows: seq<EdgeRow>, p: nat): string
    requires p < 2 * |rows|
  {
    if p % 2 == 0 then rows[p / 2].src else rows[p / 2].dst
  }

  /** The ids are numbered in the order of their first occurrences. */
  lemma {:induction false} IdsInOrder(rows: seq<EdgeRow>) returns (ps: seq<nat>)
    ensures |ps| == |IdsOf(rows)| && (forall i, j | 0 <= i < j < |ps| :: ps[i] < ps[j])
    ensures forall i | 0 <= i < |ps| :: FirstAt(rows, IdsOf(rows)[i], ps[i])
  {
    if rows == [] {
      ps := [];
    } else {
      var n := |rows| - 1;
      var before := IdsInOrder(rows[..n]);
      var ids, src, dst := IdsOf(rows[..n]), rows[n].src, rows[n].dst;
      forall i | 0 <= i < |before|
        ensures FirstAt(rows, ids[i], before[i]) && before[i] < 2 * n
      {
        PlacesKept(rows, ids[i], before[i]);
      }
      var middle := EnterInOrder(rows, ids, before, src, 2 * n);
      ps := EnterInOrder(rows, Enter(ids, src), middle, dst, 2 * n + 1);
    }
  }

  /** Places `ps` are the first occurrences of `ids`, in order, all before `p`. */
  ghost predicate Placed(rows: seq<EdgeRow>, ids: seq<string>, ps: seq<nat>, p: nat) {
    && |ps| == |ids| && (forall i, j | 0 <= i < j < |ps| :: ps[i] < ps[j])
    && forall i | 0 <= i < |ps| :: ps[i] < p && FirstAt(rows, ids[i], ps[i])
  }

  lemma EnterInOrder(rows: seq<EdgeRow>, ids: seq<string>, ps: seq<nat>, id: string, p: nat) returns (ps': seq<nat>)
    requires rows != [] && 2 * |rows| - 2 <= p < 2 * |rows| && PlaceId(rows, p) == id && Placed(rows, ids, ps, p)
    requires forall x | x in IdsOf(rows[..|rows| - 1]) :: x in ids
    requires p == 2 * |rows| - 1 ==> rows[|rows| - 1].src in ids
    ensures Placed(rows, Enter(ids, id), ps', p + 1)
  {
    hide FirstAt, IdsOf, PlaceId;
    if id in ids {
      ps' := ps;
    } else {
      NewAt(rows, id, p);
      ps' := ps + [p];
    }
  }

  lemma PlacesKept(rows: seq<EdgeRow>, id: string, p: nat)
    requires rows != [] && FirstAt(rows[..|rows| - 1], id, p)
    ensures FirstAt(rows, id, p)
  {
    forall q | 0 <= q <= p
      ensures PlaceId(rows, q) == PlaceId(rows[..|rows| - 1], q)
    {
    }
  }

  lemma NewAt(rows: seq<EdgeRow>, id: string, p: nat)
    requires rows != [] && 2 * |rows| - 2 <= p < 2 * |rows| && PlaceId(rows, p) == id && id !in IdsOf(rows[..|rows| - 1])
    requires p == 2 * |rows| - 1 ==> rows[|rows| - 1].src != id
    ensures FirstAt(rows, id, p)
  {
    hide IdsOf;
    var front := rows[..|rows| - 1];
    forall q | 0 <= q < p
      ensures PlaceId(rows, q) != id
    {
      if q < 2 * |front| {
        EndsIn(front, q / 2);
        assert PlaceId(rows, q) == PlaceId(front, q);
      }
    }
  }

  /** The compact index of each row's source. */
  function SrcIdx(rows: seq<EdgeRow>): (r: seq<nat>)
    ensures |r| == |rows|
  {
    seq(|rows|, e requires 0 <= e < |rows| => EndsIn(rows, e); Position(IdsOf(rows), rows[e].src))
  }

  function DstIdx(rows: seq<EdgeRow>): (r: seq<nat>)
    ensures |r| == |rows|
  {
    seq(|rows|, e requires 0 <= e < |rows| => EndsIn(rows, e); Position(IdsOf(rows), rows[e].dst))
  }

  lemma IdxBound(rows: seq<EdgeRow>)
    ensures Csr.Covers(SrcIdx(rows), |IdsOf(rows)|) && Csr.Covers(DstIdx(rows), |IdsOf(rows)|)
  {
    hide IdsOf;
    forall e | 0 <= e < |rows|
      ensures SrcIdx(rows)[e] < |IdsOf(rows)| && DstIdx(rows)[e] < |IdsOf(rows)|
    {
      EndsIn(rows, e);
    }
  }

  /** The rows of type `t`, ascending. */
  function RowsOfType(rows: seq<EdgeRow>, t: string): seq<nat> {
    if rows == [] then []
    else
      var n := |rows| - 1;
      RowsOfType(rows[..n], t) + if rows[n].etype == t then [n] else []
  }

  // ---- the frame ----

  datatype EdgeFrame = EdgeFrame(rows: seq<EdgeRow>, outCsr: Csr.CsrIndex, typeIndex: map<string, seq<nat>>, nodeIndex: map<string, nat>) {

    function NodeRowIdx(id: string): Option<nat> {
      if id in nodeIndex then Some(nodeIndex[id]) else None
    }
  }

  ghost predicate TypesOf(index: map<string, seq<nat>>, rows: seq<EdgeRow>) {
    && (forall t :: t in index <==> RowsOfType(rows, t) != [])
    && forall t | t in index :: index[t] == RowsOfType(rows, t)
  }

  ghost predicate OutOf(c: Csr.CsrIndex, rows: seq<EdgeRow>) {
    Csr.Indexes(c, SrcIdx(rows), DstIdx(rows), |IdsOf(rows)|)
  }

  ghost predicate InOf(c: Csr.CsrIndex, rows: seq<EdgeRow>) {
    Csr.Indexes(c, DstIdx(rows), SrcIdx(rows), |IdsOf(rows)|)
  }

  /** Every index agrees with the rows. */
  ghost predicate Valid(f: EdgeFrame) {
    Numbers(f.nodeIndex, IdsOf(f.rows)) && TypesOf(f.typeIndex, f.rows) && OutOf(f.outCsr, f.rows)
  }

  /** The rows determine every index: no history of filters, selections and concatenations can be told apart. */
  lemma IndexesDetermined(f: EdgeFrame, h: EdgeFrame)
    requires Valid(f) && Valid(h) && f.rows == h.rows
    ensures f == h
  {
    Csr.IndexUnique(f.outCsr, h.outCsr, SrcIdx(f.rows), DstIdx(f.rows), |IdsOf(f.rows)|);
    SameNumbers(f.nodeIndex, h.nodeIndex, IdsOf(f.rows));
    assert f.typeIndex.Keys == h.typeIndex.Keys;
    assert f.typeIndex == h.typeIndex;
  }

  // ---- building every index from the rows ----

  lemma EnterNumbers(index: map<string, nat>, ids: seq<string>, id: string)
    requires Numbers(index, ids)
    ensures id in ids <==> id in index
    ensures id !in ids ==> Numbers(index[id := |ids|], Enter(ids, id))
  {
  }

  lemma Extend(rows: seq<EdgeRow>, i: nat)
    requires i < |rows|
    ensures IdsOf(rows[..i + 1]) == Enter(Enter(IdsOf(rows[..i]), rows[i].src), rows[i].dst)
  {
    assert rows[..i + 1][..i] == rows[..i];
  }

  /** `a` numbers the sources and `b` the targets of the first rows. */
  ghost predicate Numbered(a: seq<nat>, b: seq<nat>, rows: seq<EdgeRow>, index: map<string, nat>) {
    && |a| == |b| <= |rows|
    && forall e | 0 <= e < |a| :: rows[e].src in index && rows[e].dst in index && a[e] == index[rows[e].src] && b[e] == index[rows[e].dst]
  }

  lemma NumberedRow(a: seq<nat>, b: seq<nat>, rows: seq<EdgeRow>, index: map<string, nat>)
    requires Numbered(a, b, rows, index) && |a| < |rows| && rows[|a|].src in index && rows[|a|].dst in index
    ensures Numbered(a + [index[rows[|a|].src]], b + [index[rows[|a|].dst]], rows, index)
  {
  }

  lemma NumberedAll(a: seq<nat>, b: seq<nat>, rows: seq<EdgeRow>, index: map<string, nat>)
    requires Numbered(a, b, rows, index) && |a| == |rows| && Numbers(index, IdsOf(rows))
    ensures a == SrcIdx(rows) && b == DstIdx(rows)
    ensures Csr.Covers(a, |IdsOf(rows)|) && Csr.Covers(b, |IdsOf(rows)|)
  {
    forall e | 0 <= e < |rows|
      ensures a[e] == SrcIdx(rows)[e] < |IdsOf(rows)| && b[e] == DstIdx(rows)[e] < |IdsOf(rows)|
    {
      EndsIn(rows, e);
    }
  }

  method AssignIndex(index: map<string, nat>, ghost ids: seq<string>, next: nat, id: string)
    returns (index': map<string, nat>, next': nat)
    requires Numbers(index, ids) && next == |ids|
    ensures Numbers(index', Enter(ids, id)) && next' == |Enter(ids, id)|
    ensures id in index' && index' == if id in index then index else index[id := next]
  {
    EnterNumbers(index, ids, id);
    if id in index {
      return index, next;
    }
    return index[id := next], next + 1;
  }

  method IndexNodes(rows: seq<EdgeRow>) returns (index: map<string, nat>, srcRows: seq<nat>, dstRows: seq<nat>)
    ensures Numbers(index, IdsOf(rows)) && srcRows == SrcIdx(rows) && dstRows == DstIdx(rows)
    ensures |index| == |IdsOf(rows)| && Csr.Covers(srcRows, |IdsOf(rows)|) && Csr.Covers(dstRows, |IdsOf(rows)|)
  {
    hide Numbered, Numbers, IdsOf, Enter, Csr.Covers, SrcIdx, DstIdx;
    index, srcRows, dstRows := map[], [], [];
    var next, row := 0, 0;
    IndexNothing();
    while row < |rows|
      invariant 0 <= row <= |rows| && |srcRows| == row
      invariant Numbers(index, IdsOf(rows[..row])) && next == |IdsOf(rows[..row])|
      invariant Numbered(srcRows, dstRows, rows, index)
    {
      Extend(rows, row);
      ghost var before, first := index, next;
      index, next := AssignIndex(index, IdsOf(rows[..row]), next, rows[row].src);
      Renumber(srcRows, dstRows, rows, before, index, rows[row].src, first);
      ghost var between, second := index, next;
      index, next := AssignIndex(index, Enter(IdsOf(rows[..row]), rows[row].src), next, rows[row].dst);
      Renumber(srcRows, dstRows, rows, between, index, rows[row].dst, second);
      NumberedRow(srcRows, dstRows, rows, index);
      srcRows := srcRows + [index[rows[row].src]];
      dstRows := dstRows + [index[rows[row].dst]];
      row := row + 1;
    }
    assert rows[..row] == rows;
    NumberedAll(srcRows, dstRows, rows, index);
    NumbersSize(index, IdsOf(rows));
  }

  lemma IndexNothing()
    ensures forall rows: seq<EdgeRow> :: Numbers(map[], IdsOf(rows[..0])) && |IdsOf(rows[..0])| == 0 && Numbered([], [], rows, map[])
  {
  }

  lemma Renumber(a: seq<nat>, b: seq<nat>, rows: seq<EdgeRow>, before: map<string, nat>, index: map<string, nat>, id: string, k: nat)
    requires Numbered(a, b, rows, before) && index == if id in before then before else before[id := k]
    ensures Numbered(a, b, rows, index)
  {
  }

  method IndexTypes(rows: seq<EdgeRow>) returns (index: map<string, seq<nat>>)
    ensures TypesOf(index, rows)
  {
    hide *;
    index := map[];
    var row := 0;
    NoTypes(rows[..0]);
    while row < |rows|
      invariant 0 <= row <= |rows| && TypesOf(index, rows[..row])
    {
      TypesMore(index, rows, row);
      var t := rows[row].etype;
      index := index[t := (if t in index then index[t] else []) + [row]];
      row := row + 1;
    }
    assert rows[..row] == rows;
  }

  lemma NoTypes(rows: seq<EdgeRow>)
    requires rows == []
    ensures TypesOf(map[], rows)
  {
  }

  lemma TypesMore(index: map<string, seq<nat>>, rows: seq<EdgeRow>, row: nat)
    requires row < |rows| && TypesOf(index, rows[..row])
    ensures TypesOf(index[rows[row].etype := (if rows[row].etype in index then index[rows[row].etype] else []) + [row]], rows[..row + 1])
  {
    hide RowsOfType;
    var t := rows[row].etype;
    var now := index[t := (if t in index then index[t] else []) + [row]];
    forall x
      ensures x in now <==> RowsOfType(rows[..row + 1], x) != []
      ensures x in now ==> now[x] == RowsOfType(rows[..row + 1], x)
    {
      TypeMore(rows, row, x);
    }
  }

  lemma TypeMore(rows: seq<EdgeRow>, row: nat, t: string)
    requires row < |rows|
    ensures RowsOfType(rows[..row + 1], t) == RowsOfType(rows[..row], t) + if rows[row].etype == t then [row] else []
  {
    assert rows[..row + 1][..row] == rows[..row];
  }

  /** Builds every index from scratch. */
  method FromValidBatch(rows: seq<EdgeRow>) returns (f: EdgeFrame)
    ensures Valid(f) && f.rows == rows
  {
    var nodeIndex, srcRows, dstRows := IndexNodes(rows);
    var outCsr := Csr.Build(srcRows, dstRows, |nodeIndex|);
    var typeIndex := IndexTypes(rows);
    f := EdgeFrame(rows, outCsr, typeIndex, nodeIndex);
  }

  /** The reverse index, derived from the stored node index on first use. */
  method InCsr(f: EdgeFrame) returns (c: Csr.CsrIndex)
    requires Valid(f)
    ensures InOf(c, f.rows)
  {
    hide Valid, Numbered, Numbers, IdsOf, TypesOf, OutOf, Csr.Covers, SrcIdx, DstIdx;
    var srcRows, dstRows := [], [];
    var row := 0;
    FrameNumbers(f);
    InitNumbered(f.rows, f.nodeIndex);
    while row < |f.rows|
      invariant 0 <= row <= |f.rows| && |srcRows| == row && Numbered(srcRows, dstRows, f.rows, f.nodeIndex)
    {
      EndIndexed(f, row);
      NumberedRow(srcRows, dstRows, f.rows, f.nodeIndex);
      srcRows := srcRows + [f.nodeIndex[f.rows[row].src]];
      dstRows := dstRows + [f.nodeIndex[f.rows[row].dst]];
      row := row + 1;
    }
    NumberedAll(srcRows, dstRows, f.rows, f.nodeIndex);
    c := Csr.BuildReverse(srcRows, dstRows, |f.nodeIndex|);
  }

  lemma InitNumbered(rows: seq<EdgeRow>, index: map<string, nat>)
    ensures Numbered([], [], rows, index)
  {
  }

  lemma FrameNumbers(f: EdgeFrame)
    requires Valid(f)
    ensures Numbers(f.nodeIndex, IdsOf(f.rows)) && |f.nodeIndex| == |IdsOf(f.rows)|
  {
    NumbersSize(f.nodeIndex, IdsOf(f.rows));
  }

  lemma EndIndexed(f: EdgeFrame, e: nat)
    requires Valid(f) && e < |f.rows|
    ensures f.rows[e].src in f.nodeIndex && f.rows[e].dst in f.nodeIndex
  {
    EndsIn(f.rows, e);
  }

  // ---- operations ----

  method Filter(f: EdgeFrame, mask: seq<bool>) returns (r: Result<EdgeFrame>)
    ensures r == Failure(LengthMismatch(|f.rows|, |mask|)) <==> |mask| != |f.rows|
    ensures |mask| == |f.rows| ==> r.Success? && Valid(r.value) && r.value.rows == Kept(f.rows, mask)
    ensures |mask| == |f.rows| ==> exists ks :: Picks(ks, f.rows, r.value.rows) && forall k: nat :: k in ks <==> k < |f.rows| && mask[k]
  {
    if |mask| != |f.rows| {
      return Failure(LengthMismatch(|f.rows|, |mask|));
    }
    ghost var ks := KeptPicks(f.rows, mask);
    var g := FromValidBatch(Kept(f.rows, mask));
    return Success(g);
  }

  function TypeMask(rows: seq<EdgeRow>, t: string): (mask: seq<bool>)
    ensures |mask| == |rows|
  {
    seq(|rows|, e requires 0 <= e < |rows| => rows[e].etype == t)
  }

  lemma {:induction false} TypeRowMember(rows: seq<EdgeRow>, t: string, e: nat)
    ensures e in RowsOfType(rows, t) <==> e < |rows| && rows[e].etype == t
  {
    if rows != [] {
      TypeRowMember(rows[..|rows| - 1], t, e);
    }
  }

  /** The rows of a type are listed in rising order, once each. */
  lemma {:induction false} TypeRowsRise(rows: seq<EdgeRow>, t: string)
    ensures forall i, j | 0 <= i < j < |RowsOfType(rows, t)| :: RowsOfType(rows, t)[i] < RowsOfType(rows, t)[j]
    ensures forall e: nat :: e in RowsOfType(rows, t) <==> e < |rows| && rows[e].etype == t
  {
    if rows != [] {
      var n := |rows| - 1;
      TypeRowsRise(rows[..n], t);
      var before := RowsOfType(rows[..n], t);
      assert RowsOfType(rows, t) == before + if rows[n].etype == t then [n] else [];
      assert forall k | 0 <= k < |before| :: before[k] in before && before[k] < n;
      forall e: nat
        ensures e in RowsOfType(rows, t) <==> e < |rows| && rows[e].etype == t
      {
        TypeRowMember(rows, t, e);
      }
    }
  }

  /** `kept` lists the rows of type `t` in their order. */
  ghost predicate OnlyType(rows: seq<EdgeRow>, t: string, kept: seq<EdgeRow>) {
    exists ks :: Picks(ks, rows, kept) && forall k: nat :: k in ks <==> k < |rows| && rows[k].etype == t
  }

  lemma KeptOfType(rows: seq<EdgeRow>, t: string)
    ensures OnlyType(rows, t, Kept(rows, TypeMask(rows, t)))
  {
    hide Kept;
    var ks := KeptPicks(rows, TypeMask(rows, t));
  }

  lemma NoneOfType(f: EdgeFrame, t: string)
    requires Valid(f) && t !in f.typeIndex
    ensures Kept(f.rows, TypeMask(f.rows, t)) == []
  {
    forall e | 0 <= e < |f.rows|
      ensures !TypeMask(f.rows, t)[e]
    {
      TypeRowMember(f.rows, t, e);
    }
    KeptNone(f.rows, TypeMask(f.rows, t));
  }

  /** The mask of the rows the type index lists. */
  method MarkType(f: EdgeFrame, t: string) returns (mask: array<bool>)
    requires Valid(f) && t in f.typeIndex
    ensures mask[..] == TypeMask(f.rows, t)
  {
    mask := new bool[|f.rows|](_ => false);
    var hits := f.typeIndex[t];
    var i := 0;
    while i < |hits|
      invariant 0 <= i <= |hits|
      invariant forall e | 0 <= e < |f.rows| :: mask[e] <==> e in hits[..i]
    {
      TypeRowMember(f.rows, t, hits[i]);
      mask[hits[i]] := true;
      i := i + 1;
    }
    forall e | 0 <= e < |f.rows|
      ensures mask[e] == TypeMask(f.rows, t)[e]
    {
      TypeRowMember(f.rows, t, e);
      assert hits[..i] == hits;
    }
  }

  /** The rows of one type, found through the type index instead of a scan. */
  method FilterByType(f: EdgeFrame, t: string) returns (r: Result<EdgeFrame>)
    requires Valid(f)
    ensures r.Success? && Valid(r.value) && r.value.rows == Kept(f.rows, TypeMask(f.rows, t))
    ensures OnlyType(f.rows, t, r.value.rows)
  {
    hide OnlyType, Picks;
    KeptOfType(f.rows, t);
    if t !in f.typeIndex {
      NoneOfType(f, t);
      var g := FromValidBatch([]);
      return Success(g);
    }
    var mask := MarkType(f, t);
    r := Filter(f, mask[..]);
  }

  function Project(r: EdgeRow, columns: set<string>): EdgeRow {
    r.(payload := map c | c in r.payload && c in columns :: r.payload[c])
  }

  function ProjectAll(rows: seq<EdgeRow>, columns: set<string>): (r: seq<EdgeRow>)
    ensures |r| == |rows| && forall e | 0 <= e < |rows| :: r[e] == Project(rows[e], columns)
  {
    seq(|rows|, e requires 0 <= e < |rows| => Project(rows[e], columns))
  }

  /** The indexes ignore the user columns. */
  lemma {:induction false} SameEnds(a: seq<EdgeRow>, b: seq<EdgeRow>)
    requires |a| == |b| && forall e | 0 <= e < |a| :: a[e].src == b[e].src && a[e].dst == b[e].dst && a[e].etype == b[e].etype
    ensures IdsOf(a) == IdsOf(b) && forall t :: RowsOfType(a, t) == RowsOfType(b, t)
  {
    if a != [] {
      SameEnds(a[..|a| - 1], b[..|a| - 1]);
    }
  }

  lemma SameEndsIdx(a: seq<EdgeRow>, b: seq<EdgeRow>)
    requires |a| == |b| && forall e | 0 <= e < |a| :: a[e].src == b[e].src && a[e].dst == b[e].dst && a[e].etype == b[e].etype
    requires IdsOf(a) == IdsOf(b)
    ensures SrcIdx(a) == SrcIdx(b) && DstIdx(a) == DstIdx(b)
  {
    forall e | 0 <= e < |a|
      ensures SrcIdx(a)[e] == SrcIdx(b)[e] && DstIdx(a)[e] == DstIdx(b)[e]
    {
      EndsIn(a, e);
    }
  }

  /** Keeps the requested user columns; the row set is unchanged, so the indexes are copied. */
  method Select(f: EdgeFrame, columns: set<string>) returns (r: EdgeFrame)
    requires Valid(f)
    ensures Valid(r) && r.rows == ProjectAll(f.rows, columns)
    ensures |r.rows| == |f.rows| && forall e | 0 <= e < |f.rows| ::
      && r.rows[e].src == f.rows[e].src && r.rows[e].dst == f.rows[e].dst && r.rows[e].etype == f.rows[e].etype
      && (forall c :: c in r.rows[e].payload <==> c in f.rows[e].payload && c in columns)
      && forall c | c in r.rows[e].payload :: r.rows[e].payload[c] == f.rows[e].payload[c]
  {
    r := EdgeFrame(ProjectAll(f.rows, columns), f.outCsr, f.typeIndex, f.nodeIndex);
    SameEnds(f.rows, r.rows);
    SameEndsIdx(f.rows, r.rows);
  }

  function RowsOf(fs: seq<EdgeFrame>): (r: seq<seq<EdgeRow>>)
    ensures |r| == |fs| && forall i | 0 <= i < |fs| :: r[i] == fs[i].rows
  {
    seq(|fs|, i requires 0 <= i < |fs| => fs[i].rows)
  }

  method Concat(fs: seq<EdgeFrame>) returns (r: Result<EdgeFrame>)
    requires forall i | 0 <= i < |fs| :: Valid(fs[i])
    ensures r == Failure(InvalidConfig) <==> fs == []
    ensures fs != [] ==> r.Success? && Valid(r.value) && r.value.rows == Joined(RowsOf(fs))
  {
    if |fs| == 0 {
      return Failure(InvalidConfig);
    }
    if |fs| == 1 {
      assert RowsOf(fs) == [fs[0].rows];
      assert RowsOf(fs)[..0] == [];
      return Success(fs[0]);
    }
    var g := FromValidBatch(Joined(RowsOf(fs)));
    return Success(g);
  }
}
