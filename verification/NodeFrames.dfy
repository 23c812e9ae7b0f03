/** Immutable node tables with unique ids. */
module NodeFrames {
  import opened Basics
  import opened Rows

  function Ids(rows: seq<NodeRow>): (r: seq<string>)
    ensures |r| == |rows| && forall i | 0 <= i < |rows| :: r[i] == rows[i].id
  {
    seq(|rows|, i requires 0 <= i < |rows| => rows[i].id)
  }

  function IdSet(rows: seq<NodeRow>): set<string> {
    set i | 0 <= i < |rows| :: rows[i].id
  }

  lemma IdSetMeans(rows: seq<NodeRow>)
    ensures forall id :: id in IdSet(rows) <==> id in Ids(rows)
  {
    forall id
      ensures id in IdSet(rows) <==> id in Ids(rows)
    {
      if id in IdSet(rows) {
        var i :| 0 <= i < |rows| && rows[i].id == id;
        assert Ids(rows)[i] == id;
      }
      if id in Ids(rows) {
        var i :| 0 <= i < |rows| && Ids(rows)[i] == id;
        assert rows[i].id == id;
      }
    }
  }

  datatype NodeFrame = NodeFrame(rows: seq<NodeRow>, idIndex: map<string, nat>) {

    function RowIndex(id: string): Option<nat> {
      if id in idIndex then Some(idIndex[id]) else None
    }
  }

  /** Ids are unique and the id index gives each one's row. */
  ghost predicate Valid(f: NodeFrame) {
    Numbers(f.idIndex, Ids(f.rows))
  }

  /** `id` is the first id, in row order, that an earlier row already carries. */
  ghost predicate FirstRepeat(rows: seq<NodeRow>, id: string) {
    exists k :: 0 <= k < |rows| && rows[k].id == id && Distinct(Ids(rows[..k])) && id in Ids(rows[..k])
  }

  lemma RepeatClashes(rows: seq<NodeRow>, id: string)
    requires FirstRepeat(rows, id)
    ensures !Distinct(Ids(rows))
  {
    var k :| 0 <= k < |rows| && rows[k].id == id && Distinct(Ids(rows[..k])) && id in Ids(rows[..k]);
    var j :| 0 <= j < k && Ids(rows[..k])[j] == id;
    assert Ids(rows)[j] == Ids(rows)[k];
  }

  /** Indexes the ids, refusing the first one that repeats. */
  method IndexIds(rows: seq<NodeRow>) returns (r: Result<map<string, nat>>)
    ensures r.Success? <==> Distinct(Ids(rows))
    ensures r.Success? ==> Numbers(r.value, Ids(rows))
    ensures r.Failure? ==> r.error.DuplicateNodeId? && FirstRepeat(rows, r.error.dup)
  {
    var index: map<string, nat> := map[];
    var row := 0;
    while row < |rows|
      invariant 0 <= row <= |rows| && Numbers(index, Ids(rows[..row]))
    {
      var id := rows[row].id;
      NumbersMore(index, Ids(rows[..row]), id);
      if id in index {
        RepeatClashes(rows, id);
        return Failure(DuplicateNodeId(id));
      }
      assert Ids(rows[..row + 1]) == Ids(rows[..row]) + [id];
      index := index[id := row];
      row := row + 1;
    }
    assert rows[..row] == rows;
    return Success(index);
  }

  method FromRecordBatch(rows: seq<NodeRow>) returns (r: Result<NodeFrame>)
    ensures r.Success? <==> Distinct(Ids(rows))
    ensures r.Success? ==> Valid(r.value) && r.value.rows == rows
    ensures r.Failure? ==> r.error.DuplicateNodeId? && FirstRepeat(rows, r.error.dup)
  {
    var index :- IndexIds(rows);
    return Success(NodeFrame(rows, index));
  }

  lemma {:induction false} KeptDistinct(rows: seq<NodeRow>, mask: seq<bool>)
    requires |rows| == |mask| && Distinct(Ids(rows))
    ensures Distinct(Ids(Kept(rows, mask)))
  {
    if rows != [] {
      var n := |rows| - 1;
      assert Ids(rows[..n]) == Ids(rows)[..n];
      KeptDistinct(rows[..n], mask[..n]);
      if mask[n] {
        var kept := Kept(rows[..n], mask[..n]);
        forall i | 0 <= i < |kept|
          ensures kept[i].id != rows[n].id
        {
          KeptMember(rows[..n], mask[..n], kept[i]);
          var j :| 0 <= j < n && rows[j] == kept[i];
          assert Ids(rows)[j] != Ids(rows)[n];
        }
      }
    }
  }

  /** Rebuilds the id index of rows already known to have unique ids. */
  method FromValidBatch(rows: seq<NodeRow>) returns (f: NodeFrame)
    requires Distinct(Ids(rows))
    ensures Valid(f) && f.rows == rows
  {
    var index: map<string, nat> := map[];
    var row := 0;
    while row < |rows|
      invariant 0 <= row <= |rows| && Numbers(index, Ids(rows[..row]))
    {
      var id := rows[row].id;
      NumbersMore(index, Ids(rows[..row]), id);
      assert Ids(rows[..row]) == Ids(rows)[..row] && Ids(rows)[row] == id;
      assert Ids(rows[..row + 1]) == Ids(rows[..row]) + [id];
      index := index[id := row];
      row := row + 1;
    }
    assert rows[..row] == rows;
    return NodeFrame(rows, index);
  }

  method Filter(f: NodeFrame, mask: seq<bool>) returns (r: Result<NodeFrame>)
    requires Valid(f)
    ensures r == Failure(LengthMismatch(|f.rows|, |mask|)) <==> |mask| != |f.rows|
    ensures |mask| == |f.rows| ==> r.Success? && Valid(r.value) && r.value.rows == Kept(f.rows, mask)
    ensures |mask| == |f.rows| ==> exists ks :: Picks(ks, f.rows, r.value.rows) && forall k: nat :: k in ks <==> k < |f.rows| && mask[k]
  {
    if |mask| != |f.rows| {
      return Failure(LengthMismatch(|f.rows|, |mask|));
    }
    ghost var ks := KeptPicks(f.rows, mask);
    KeptDistinct(f.rows, mask);
    var g := FromValidBatch(Kept(f.rows, mask));
    return Success(g);
  }

  function RowsOf(fs: seq<NodeFrame>): (r: seq<seq<NodeRow>>)
    ensures |r| == |fs| && forall i | 0 <= i < |fs| :: r[i] == fs[i].rows
  {
    seq(|fs|, i requires 0 <= i < |fs| => fs[i].rows)
  }

  /** The frames' rows one after another, if no id occurs twice. */
  method Concat(fs: seq<NodeFrame>) returns (r: Result<NodeFrame>)
    requires forall i | 0 <= i < |fs| :: Valid(fs[i])
    ensures fs == [] <==> r == Failure(InvalidConfig)
    ensures fs != [] ==> (r.Success? <==> Distinct(Ids(Joined(RowsOf(fs)))))
    ensures r.Success? ==> Valid(r.value) && r.value.rows == Joined(RowsOf(fs))
    ensures fs != [] && r.Failure? ==> r.error.DuplicateNodeId? && FirstRepeat(Joined(RowsOf(fs)), r.error.dup)
  {
    if |fs| == 0 {
      return Failure(InvalidConfig);
    }
    if |fs| == 1 {
      assert RowsOf(fs)[..0] == [] && RowsOf(fs)[0] == fs[0].rows;
      assert Joined(RowsOf(fs)) == fs[0].rows;
      return Success(fs[0]);
    }
    r := FromRecordBatch(Joined(RowsOf(fs)));
  }
}
