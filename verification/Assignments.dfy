/** Assigning nodes to shards: by hash, by lexicographic bands, or by first label. */
module Assignments {
  import opened Basics
  import opened Rows
  import Nodes = NodeFrames

  datatype PartitionMethod = Hash | Range | Label

  // ---- lexicographic order of ids ----

  predicate LexLess(a: string, b: string) {
    if b == "" then false
    else if a == "" then true
    else a[0] < b[0] || (a[0] == b[0] && LexLess(a[1..], b[1..]))
  }

  lemma {:induction false} LexTrans(a: string, b: string, c: string)
    requires !LexLess(b, a) && !LexLess(c, b)
    ensures !LexLess(c, a)
    decreases |a|
  {
    if a != "" && b != "" && c != "" && a[0] == b[0] && b[0] == c[0] {
      LexTrans(a[1..], b[1..], c[1..]);
    }
  }

  lemma {:induction false} LexAsym(a: string, b: string)
    requires LexLess(a, b)
    ensures !LexLess(b, a)
    decreases |a|
  {
    if a != "" && b != "" && a[0] == b[0] {
      LexAsym(a[1..], b[1..]);
    }
  }

  /** Two different ids are ordered one way or the other. */
  lemma {:induction false} LexTotal(a: string, b: string)
    requires !LexLess(a, b) && !LexLess(b, a)
    ensures a == b
    decreases |a|
  {
    if a != "" && b != "" {
      LexTotal(a[1..], b[1..]);
      assert a == [a[0]] + a[1..] && b == [b[0]] + b[1..];
    }
  }

  /** `a` comes first exactly when, behind a common beginning, it ends or has the smaller character. */
  lemma {:induction false} LexMeans(a: string, b: string)
    ensures LexLess(a, b) <==> exists k: nat :: Splits(a, b, k)
    decreases |a|
  {
    if a != "" && b != "" && a[0] == b[0] {
      LexMeans(a[1..], b[1..]);
      if LexLess(a, b) {
        var k: nat :| Splits(a[1..], b[1..], k);
        assert a[..k + 1] == [a[0]] + a[1..][..k] && b[..k + 1] == [b[0]] + b[1..][..k];
        assert Splits(a, b, k + 1);
      }
      if k: nat :| Splits(a, b, k) {
        assert k > 0;
        assert a[1..][..k - 1] == a[..k][1..] && b[1..][..k - 1] == b[..k][1..];
        assert Splits(a[1..], b[1..], k - 1);
      }
    } else {
      if LexLess(a, b) {
        assert Splits(a, b, 0);
      }
      if k: nat :| Splits(a, b, k) {
        assert k > 0 ==> a[..k][0] == b[..k][0];
      }
    }
  }

  predicate Splits(a: string, b: string, k: nat) {
    k <= |a| && k < |b| && a[..k] == b[..k] && (k == |a| || a[k] < b[k])
  }

  // ---- sorted rows ----

  /** `order` lists rows by ascending id. */
  ghost predicate Ascending(order: seq<nat>, ids: seq<string>) {
    && (forall i | 0 <= i < |order| :: order[i] < |ids|)
    && forall i, j | 0 <= i < j < |order| :: !LexLess(ids[order[j]], ids[order[i]])
  }

  ghost predicate Lists(order: seq<nat>, k: nat) {
    && |order| == k && (forall x: nat :: x in order <==> x < k)
    && forall i, j | 0 <= i < j < |order| :: order[i] != order[j]
  }

  function InsertRow(row: nat, order: seq<nat>, ids: seq<string>): (r: seq<nat>)
    requires Ascending(order, ids) && row < |ids| && row !in order
    ensures Ascending(r, ids) && |r| == |order| + 1 && forall x :: x in r <==> x == row || x in order
  {
    if order == [] then [row]
    else if LexLess(ids[row], ids[order[0]]) then
      FirstIsLeast(row, order, ids);
      [row] + order
    else
      assert order == [order[0]] + order[1..];
      var rest := InsertRow(row, order[1..], ids);
      assert forall x | x in rest :: !LexLess(ids[x], ids[order[0]]);
      [order[0]] + rest
  }

  lemma FirstIsLeast(row: nat, order: seq<nat>, ids: seq<string>)
    requires Ascending(order, ids) && row < |ids| && order != [] && LexLess(ids[row], ids[order[0]])
    ensures forall x | x in order :: !LexLess(ids[x], ids[row])
  {
    LexAsym(ids[row], ids[order[0]]);
    forall x | x in order
      ensures !LexLess(ids[x], ids[row])
    {
      var i :| 0 <= i < |order| && order[i] == x;
      if i > 0 {
        LexTrans(ids[row], ids[order[0]], ids[x]);
      }
    }
  }

  lemma {:induction false} InsertDistinct(row: nat, order: seq<nat>, ids: seq<string>)
    requires Ascending(order, ids) && row < |ids| && row !in order
    requires forall i, j | 0 <= i < j < |order| :: order[i] != order[j]
    ensures forall i, j | 0 <= i < j < |order| + 1 :: InsertRow(row, order, ids)[i] != InsertRow(row, order, ids)[j]
    decreases |order|
  {
    if order != [] && !LexLess(ids[row], ids[order[0]]) {
      InsertDistinct(row, order[1..], ids);
      assert order[0] !in order[1..];
    }
  }

  /** The library's sort by id. */
  method SortRows(ids: seq<string>) returns (order: seq<nat>)
    ensures Ascending(order, ids) && Lists(order, |ids|)
  {
    order := [];
    var row := 0;
    while row < |ids|
      invariant 0 <= row <= |ids| && Ascending(order, ids) && Lists(order, row)
    {
      InsertDistinct(row, order, ids);
      order := InsertRow(row, order, ids);
      row := row + 1;
    }
  }

  // ---- bands ----

  function CeilDiv(len: nat, n: nat): nat
    requires n > 0
  {
    (len + n - 1) / n
  }

  lemma DivMeans(a: nat, b: nat)
    requires b > 0
    ensures (a / b) * b <= a < (a / b) * b + b
  {
    assert a == (a / b) * b + a % b;
  }

  lemma MulStep(x: nat, y: nat, b: nat)
    requires x < y
    ensures x * b + b <= y * b
  {
    assert y * b == (x + (y - x)) * b == x * b + (y - x) * b;
    assert (y - x) * b >= b by {
      assert (y - x) * b == b + (y - x - 1) * b;
    }
  }

  /** A rank's band, without the clamp the code applies to it. */
  lemma BandInRange(len: nat, n: nat, rank: nat)
    requires n > 0 && rank < len
    ensures CeilDiv(len, n) > 0 && rank / CeilDiv(len, n) < n
  {
    hide *;
    var band := CeilDiv(len, n);
    CeilCovers(len, n);
    ZeroTimes(band, n);
    DivMeans(rank, band);
    if rank / band >= n {
      MulMono(n, rank / band, band);
    }
  }

  lemma ZeroTimes(b: nat, n: nat)
    ensures b == 0 ==> b * n == 0
  {
  }

  /** The rounded-up share covers everything, and one less would not. */
  lemma CeilCovers(len: nat, n: nat)
    requires n > 0
    ensures CeilDiv(len, n) * n >= len
    ensures len > 0 ==> n * (CeilDiv(len, n) - 1) < len
  {
    DivMeans(len + n - 1, n);
    var band := CeilDiv(len, n);
    assert n * (band - 1) == band * n - n;
  }

  lemma MulMono(x: nat, y: nat, b: nat)
    requires x <= y
    ensures x * b <= y * b
  {
    if x < y {
      MulStep(x, y, b);
    }
  }

  lemma DivMono(x: nat, y: nat, b: nat)
    requires b > 0 && x <= y
    ensures x / b <= y / b
  {
    DivMeans(x, b);
    DivMeans(y, b);
    if y / b < x / b {
      MulStep(y / b, x / b, b);
    }
  }

  /** Nodes in id order fall into consecutive bands of `band` ranks. */
  ghost predicate Banded(ids: seq<string>, band: nat, a: seq<nat>, order: seq<nat>) {
    && |a| == |ids| && Ascending(order, ids) && Lists(order, |ids|)
    && (|ids| > 0 ==> band > 0) && forall r | 0 <= r < |order| :: a[order[r]] == r / band
  }

  ghost predicate RangeAssigned(ids: seq<string>, n: nat, a: seq<nat>)
    requires n > 0
  {
    exists order :: Banded(ids, CeilDiv(|ids|, n), a, order)
  }

  /** Bands respect the order of the ids. */
  lemma RangeConsecutive(ids: seq<string>, n: nat, a: seq<nat>, i: nat, j: nat)
    requires n > 0 && RangeAssigned(ids, n, a) && i < |ids| && j < |ids| && LexLess(ids[i], ids[j])
    ensures a[i] <= a[j]
  {
    var band := CeilDiv(|ids|, n);
    var order :| Banded(ids, band, a, order);
    assert i in order && j in order;
    var x :| 0 <= x < |order| && order[x] == i;
    var y :| 0 <= y < |order| && order[y] == j;
    LexAsym(ids[i], ids[j]);
    assert x <= y;
    DivMono(x, y, band);
  }

  ghost function BandOf(order: seq<nat>, band: nat, s: nat, k: nat): set<nat>
    requires band > 0 && k <= |order|
  {
    set r | 0 <= r < k && r / band == s :: order[r]
  }

  lemma {:induction false} BandSize(order: seq<nat>, band: nat, s: nat, k: nat)
    requires band > 0 && k <= |order|
    ensures k <= s * band ==> |BandOf(order, band, s, k)| == 0
    ensures s * band <= k ==> |BandOf(order, band, s, k)| <= k - s * band
    ensures |BandOf(order, band, s, k)| <= band
  {
    if k == 0 {
      assert BandOf(order, band, s, 0) == {};
    } else {
      BandSize(order, band, s, k - 1);
      BandMore(order, band, s, k);
      RankBand(k - 1, band, s);
      var before, now := BandOf(order, band, s, k - 1), BandOf(order, band, s, k);
      if (k - 1) / band == s {
        SizePlus(before, order[k - 1]);
      }
    }
  }

  lemma SizePlus(s: set<nat>, x: nat)
    ensures |s + {x}| <= |s| + 1
  {
    if x in s {
      assert s + {x} == s;
    }
  }

  lemma RankBand(r: nat, band: nat, s: nat)
    requires band > 0
    ensures r / band == s <==> s * band <= r < s * band + band
  {
    hide *;
    DivMeans(r, band);
    var d := r / band;
    if d < s {
      MulStep(d, s, band);
    } else if s < d {
      MulStep(s, d, band);
    }
  }

  lemma BandMore(order: seq<nat>, band: nat, s: nat, k: nat)
    requires band > 0 && 0 < k <= |order|
    ensures BandOf(order, band, s, k) == BandOf(order, band, s, k - 1) + if (k - 1) / band == s then {order[k - 1]} else {}
  {
    forall x
      ensures x in BandOf(order, band, s, k) <==> x in BandOf(order, band, s, k - 1) || ((k - 1) / band == s && x == order[k - 1])
    {
    }
  }

  ghost function Assigned(a: seq<nat>, s: nat): set<nat> {
    set i | 0 <= i < |a| && a[i] == s
  }

  /** No shard gets more than its share of the nodes, rounded up: with one node less in every shard as full as
      this one, some node would be left over. */
  lemma RangeBandSize(ids: seq<string>, n: nat, a: seq<nat>, s: nat)
    requires n > 0 && RangeAssigned(ids, n, a)
    ensures |ids| > 0 ==> n * (|Assigned(a, s)| - 1) < |ids|
    ensures |Assigned(a, s)| <= (|ids| + n - 1) / n
  {
    BandSizeAtMost(ids, n, a, s);
    if |ids| > 0 {
      CeilCovers(|ids|, n);
      ProductMono(n, |Assigned(a, s)| - 1, CeilDiv(|ids|, n) - 1);
      LeastBand(|ids|, n, |Assigned(a, s)|);
    } else {
      assert Assigned(a, s) == {};
    }
  }

  lemma ProductMono(n: nat, x: int, y: int)
    requires x <= y
    ensures n * x <= n * y
  {
  }

  lemma LeastBand(len: nat, n: nat, size: nat)
    requires n > 0 && n * (size - 1) < len
    ensures size <= (len + n - 1) / n
  {
    var q := (len + n - 1) / n;
    DivMeans(len + n - 1, n);
    if size > q {
      ProductMono(n, q, size - 1);
    }
  }

  /** In id order, shard `s` holds the ranks from `s * band` up to `(s + 1) * band`, where `n` bands hold all nodes
      and would not if they were narrower by one. */
  ghost predicate ByRank(ids: seq<string>, n: nat, a: seq<nat>, order: seq<nat>, band: nat) {
    && Ascending(order, ids) && Lists(order, |ids|) && |a| == |ids|
    && band > 0 && n * (band - 1) < |ids| <= n * band
    && forall r | 0 <= r < |order| :: a[order[r]] * band <= r < (a[order[r]] + 1) * band
  }

  /** The shard of rank `r` is the number of whole bands before it: the band is the least width that lets `n` bands
      hold all nodes. */
  lemma RangeByRank(ids: seq<string>, n: nat, a: seq<nat>) returns (order: seq<nat>, band: nat)
    requires n > 0 && RangeAssigned(ids, n, a) && |ids| > 0
    ensures ByRank(ids, n, a, order, band)
  {
    hide CeilDiv, Ascending;
    band := CeilDiv(|ids|, n);
    order :| Banded(ids, band, a, order);
    CeilCovers(|ids|, n);
    assert n * band == band * n;
    assert forall r | 0 <= r < |order| :: order[r] in order;
    forall r | 0 <= r < |order|
      ensures a[order[r]] * band <= r < (a[order[r]] + 1) * band
    {
      DivMeans(r, band);
      var q := r / band;
      assert (q + 1) * band == q * band + band;
    }
  }

  lemma BandSizeAtMost(ids: seq<string>, n: nat, a: seq<nat>, s: nat)
    requires n > 0 && RangeAssigned(ids, n, a)
    ensures |Assigned(a, s)| <= CeilDiv(|ids|, n)
  {
    hide CeilDiv;
    var band := CeilDiv(|ids|, n);
    var order :| Banded(ids, band, a, order);
    if |ids| == 0 {
      assert Assigned(a, s) == {};
    } else {
      forall i
        ensures i in Assigned(a, s) ==> i in BandOf(order, band, s, |order|)
      {
        if i in Assigned(a, s) {
          assert i in order;
          var r :| 0 <= r < |order| && order[r] == i;
        }
      }
      BandSize(order, band, s, |order|);
      SubsetSize(Assigned(a, s), BandOf(order, band, s, |order|));
    }
  }

  // ---- labels ----

  /** The distinct first labels in order of first appearance. */
  function FirstLabels(rows: seq<NodeRow>): seq<string> {
    if rows == [] then []
    else
      var n := |rows| - 1;
      var before := FirstLabels(rows[..n]);
      if rows[n].labels == [] || rows[n].labels[0] in before then before else before + [rows[n].labels[0]]
  }

  lemma {:induction false} LabelListed(rows: seq<NodeRow>, i: nat)
    requires i < |rows| && rows[i].labels != []
    ensures rows[i].labels[0] in FirstLabels(rows)
  {
    if i < |rows| - 1 {
      LabelListed(rows[..|rows| - 1], i);
    }
  }

  /** Labels take shards round-robin as they first appear; unlabelled nodes fall back to the hash. */
  ghost predicate LabelAssigned(rows: seq<NodeRow>, n: nat, hash: string -> nat, a: seq<nat>)
    requires n > 0
  {
    && |a| == |rows|
    && forall i | 0 <= i < |rows| ::
         if rows[i].labels == [] then a[i] == hash(rows[i].id) % n
         else rows[i].labels[0] in FirstLabels(rows) && a[i] == Position(FirstLabels(rows), rows[i].labels[0]) % n
  }

  /** Nodes with the same first label share a shard. */
  lemma LabelAffinity(rows: seq<NodeRow>, n: nat, hash: string -> nat, a: seq<nat>, i: nat, j: nat)
    requires n > 0 && LabelAssigned(rows, n, hash, a) && i < |rows| && j < |rows|
    requires rows[i].labels != [] && rows[j].labels != [] && rows[i].labels[0] == rows[j].labels[0]
    ensures a[i] == a[j]
  {
  }

  /** The first labels of the rows before `i`. */
  ghost function LabelsBefore(rows: seq<NodeRow>, i: nat): set<string>
    requires i <= |rows|
  {
    set j | 0 <= j < i && rows[j].labels != [] :: rows[j].labels[0]
  }

  /** A row whose first label is new takes the next shard in turn: as many shards on as labels came before. */
  lemma LabelRoundRobin(rows: seq<NodeRow>, n: nat, hash: string -> nat, a: seq<nat>, i: nat)
    requires n > 0 && LabelAssigned(rows, n, hash, a) && i < |rows| && rows[i].labels != []
    requires rows[i].labels[0] !in LabelsBefore(rows, i)
    ensures a[i] == |LabelsBefore(rows, i)| % n
  {
    var before, now, l := FirstLabels(rows[..i]), FirstLabels(rows[..i + 1]), rows[i].labels[0];
    FirstLabelsAre(rows, i);
    assert rows[..i + 1][..i] == rows[..i];
    assert now == before + [l];
    LabelsGrowTo(rows, i + 1, |rows|);
    assert rows[..|rows|] == rows;
    FirstLabelsDistinct(rows);
    assert now[|before|] == l;
    PositionAt(FirstLabels(rows), |before|);
  }

  lemma LabelsBeforeMore(rows: seq<NodeRow>, i: nat)
    requires 0 < i <= |rows|
    ensures LabelsBefore(rows, i) == LabelsBefore(rows, i - 1) + if rows[i - 1].labels == [] then {} else {rows[i - 1].labels[0]}
  {
  }

  lemma {:induction false} FirstLabelsAre(rows: seq<NodeRow>, i: nat)
    requires i <= |rows|
    ensures forall l :: l in FirstLabels(rows[..i]) <==> l in LabelsBefore(rows, i)
    ensures |FirstLabels(rows[..i])| == |LabelsBefore(rows, i)|
  {
    if i > 0 {
      FirstLabelsAre(rows, i - 1);
      LabelsBeforeMore(rows, i);
      assert rows[..i][..i - 1] == rows[..i - 1];
      hide LabelsBefore;
    } else {
      assert LabelsBefore(rows, 0) == {};
    }
  }

  lemma {:induction false} LabelsGrowTo(rows: seq<NodeRow>, i: nat, j: nat)
    requires i <= j <= |rows|
    ensures FirstLabels(rows[..i]) <= FirstLabels(rows[..j])
    decreases j
  {
    if i < j {
      LabelsGrowTo(rows, i, j - 1);
      LabelsGrow(rows, j - 1);
    }
  }

  lemma {:induction false} FirstLabelsDistinct(rows: seq<NodeRow>)
    ensures Distinct(FirstLabels(rows))
  {
    if rows != [] {
      FirstLabelsDistinct(rows[..|rows| - 1]);
    }
  }

  ghost predicate HashAssigned(rows: seq<NodeRow>, n: nat, hash: string -> nat, a: seq<nat>)
    requires n > 0
  {
    |a| == |rows| && forall i | 0 <= i < |rows| :: a[i] == hash(rows[i].id) % n
  }

  ghost predicate AssignedBy(how: PartitionMethod, rows: seq<NodeRow>, n: nat, hash: string -> nat, a: seq<nat>)
    requires n > 0
  {
    match how
    case Hash => HashAssigned(rows, n, hash, a)
    case Range => RangeAssigned(Nodes.Ids(rows), n, a)
    case Label => LabelAssigned(rows, n, hash, a)
  }

  /** The label map holds the labels seen so far with their round-robin shards. */
  ghost predicate Mapped(labels: seq<string>, n: nat, shards: map<string, nat>)
    requires n > 0
  {
    && Distinct(labels)
    && (forall l :: l in shards <==> l in labels)
    && forall i | 0 <= i < |labels| :: shards[labels[i]] == i % n
  }

  method AssignByLabel(rows: seq<NodeRow>, n: nat, hash: string -> nat) returns (a: seq<nat>)
    requires n > 0
    ensures LabelAssigned(rows, n, hash, a)
  {
    var labelMap: map<string, nat> := map[];
    var nextShard := 0;
    a := [];
    var row := 0;
    while row < |rows|
      invariant 0 <= row <= |rows| && Mapped(FirstLabels(rows[..row]), n, labelMap) && nextShard == |FirstLabels(rows[..row])|
      invariant LabelAssigned(rows[..row], n, hash, a)
    {
      ghost var before, now := FirstLabels(rows[..row]), FirstLabels(rows[..row + 1]);
      assert rows[..row + 1][..row] == rows[..row];
      var shard;
      if |rows[row].labels| == 0 {
        shard := hash(rows[row].id) % n;
      } else {
        var first := rows[row].labels[0];
        if first !in labelMap {
          labelMap := labelMap[first := nextShard % n];
          nextShard := nextShard + 1;
        }
        shard := labelMap[first];
      }
      LabelMore(rows, row, n, hash, a, labelMap, shard);
      a := a + [shard];
      row := row + 1;
    }
    assert rows[..row] == rows;
  }

  lemma LabelMore(rows: seq<NodeRow>, row: nat, n: nat, hash: string -> nat, a: seq<nat>, labelMap: map<string, nat>, shard: nat)
    requires n > 0 && row < |rows| && LabelAssigned(rows[..row], n, hash, a) && Mapped(FirstLabels(rows[..row + 1]), n, labelMap)
    requires if rows[row].labels == [] then shard == hash(rows[row].id) % n
             else rows[row].labels[0] in labelMap && shard == labelMap[rows[row].labels[0]]
    ensures LabelAssigned(rows[..row + 1], n, hash, a + [shard])
  {
    hide FirstLabels;
    forall i | 0 <= i < row + 1 && rows[i].labels != []
      ensures rows[i].labels[0] in FirstLabels(rows[..row + 1])
      ensures (a + [shard])[i] == Position(FirstLabels(rows[..row + 1]), rows[i].labels[0]) % n
    {
      LabelListed(rows[..row + 1], i);
      if i < row {
        LabelListed(rows[..row], i);
        LabelsGrow(rows, row);
        PositionKept(FirstLabels(rows[..row]), FirstLabels(rows[..row + 1]), rows[i].labels[0]);
      } else {
        MappedAt(FirstLabels(rows[..row + 1]), n, labelMap, rows[row].labels[0]);
      }
    }
  }

  lemma LabelsGrow(rows: seq<NodeRow>, row: nat)
    requires row < |rows|
    ensures FirstLabels(rows[..row]) <= FirstLabels(rows[..row + 1])
  {
    assert rows[..row + 1][..row] == rows[..row];
  }

  lemma MappedAt(labels: seq<string>, n: nat, shards: map<string, nat>, l: string)
    requires n > 0 && Mapped(labels, n, shards) && l in labels
    ensures l in shards && shards[l] == Position(labels, l) % n
  {
    assert labels[Position(labels, l)] == l;
  }

  lemma {:induction false} PositionKept(a: seq<string>, b: seq<string>, id: string)
    requires id in a && a <= b
    ensures id in b && Position(a, id) == Position(b, id)
    decreases |a|
  {
    assert a[0] == b[0];
    if a[0] != id {
      assert id in a[1..];
      PositionKept(a[1..], b[1..], id);
    }
  }

  method AssignByRange(ids: seq<string>, n: nat) returns (a: seq<nat>)
    requires n > 0
    ensures RangeAssigned(ids, n, a) && |a| == |ids|
    ensures forall s: nat :: |ids| > 0 ==> n * (|Assigned(a, s)| - 1) < |ids|
    ensures |ids| > 0 ==> exists order: seq<nat>, band: nat :: ByRank(ids, n, a, order, band)
  {
    hide CeilDiv, Ascending;
    var order := SortRows(ids);
    var result := new nat[|ids|](_ => 0);
    var band := CeilDiv(|ids|, n);
    var rank := 0;
    if |ids| > 0 {
      BandInRange(|ids|, n, 0);
    }
    while rank < |order|
      invariant 0 <= rank <= |order| && (|ids| > 0 ==> band > 0)
      invariant forall r | 0 <= r < rank :: band > 0 && result[order[r]] == r / band
    {
      BandInRange(|ids|, n, rank);
      assert order[rank] in order;
      var shard := rank / (if band == 0 then 1 else band);
      result[order[rank]] := if shard < n - 1 then shard else n - 1;
      rank := rank + 1;
    }
    a := result[..];
    assert Banded(ids, band, a, order);
    forall s: nat
      ensures |ids| > 0 ==> n * (|Assigned(a, s)| - 1) < |ids|
    {
      RangeBandSize(ids, n, a, s);
    }
    if |ids| > 0 {
      ghost var o, b := RangeByRank(ids, n, a);
    }
  }

  /** The shard of every node row. */
  method AssignNodes(rows: seq<NodeRow>, n: nat, how: PartitionMethod, hash: string -> nat) returns (a: seq<nat>)
    requires n > 0
    ensures |a| == |rows| && (forall i | 0 <= i < |a| :: a[i] < n) && AssignedBy(how, rows, n, hash, a)
    ensures how.Range? && rows != [] ==> exists order: seq<nat>, band: nat :: ByRank(Nodes.Ids(rows), n, a, order, band)
  {
    match how
    case Hash =>
      a := seq(|rows|, i requires 0 <= i < |rows| => hash(rows[i].id) % n);
    case Range =>
      a := AssignByRange(Nodes.Ids(rows), n);
      RangeInRange(Nodes.Ids(rows), n, a);
    case Label =>
      a := AssignByLabel(rows, n, hash);
      assert forall i | 0 <= i < |a| :: a[i] < n;
  }

  lemma RangeInRange(ids: seq<string>, n: nat, a: seq<nat>)
    requires n > 0 && RangeAssigned(ids, n, a)
    ensures |a| == |ids| && forall i | 0 <= i < |a| :: a[i] < n
  {
    hide CeilDiv;
    var band := CeilDiv(|ids|, n);
    var order :| Banded(ids, band, a, order);
    forall i | 0 <= i < |a|
      ensures a[i] < n
    {
      assert i in order;
      var r :| 0 <= r < |order| && order[r] == i;
      BandInRange(|ids|, n, r);
    }
  }
}
