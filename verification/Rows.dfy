/** The rows of the node and edge tables, with user columns as an opaque payload. */
module Rows {
  import opened Basics

  type Payload = map<string, string>

  datatype NodeRow = NodeRow(id: string, labels: seq<string>, payload: Payload)

  datatype EdgeRow = EdgeRow(src: string, dst: string, etype: string, payload: Payload)

  predicate Touches(r: EdgeRow, id: string) {
    r.src == id || r.dst == id
  }

  /** The entries of `s` whose mask bit is set, in order. */
  function Kept<T>(s: seq<T>, mask: seq<bool>): (r: seq<T>)
    requires |s| == |mask|
    ensures |r| <= |s|
  {
    if s == [] then []
    else
      var n := |s| - 1;
      Kept(s[..n], mask[..n]) + if mask[n] then [s[n]] else []
  }

  lemma {:induction false} KeptMember<T>(s: seq<T>, mask: seq<bool>, x: T)
    requires |s| == |mask|
    ensures x in Kept(s, mask) <==> exists i :: 0 <= i < |s| && mask[i] && s[i] == x
  {
    if s != [] {
      var n := |s| - 1;
      KeptMember(s[..n], mask[..n], x);
      if i :| 0 <= i < n && mask[..n][i] && s[..n][i] == x {
        assert mask[i] && s[i] == x;
      }
      if i :| 0 <= i < |s| && mask[i] && s[i] == x {
        assert i == n || (mask[..n][i] && s[..n][i] == x);
      }
    }
  }

  lemma {:induction false} KeptSplit<T>(a: seq<T>, b: seq<T>, ma: seq<bool>, mb: seq<bool>)
    requires |a| == |ma| && |b| == |mb|
    ensures Kept(a + b, ma + mb) == Kept(a, ma) + Kept(b, mb)
  {
    if b == [] {
      assert a + b == a && ma + mb == ma;
    } else {
      var n := |b| - 1;
      assert (a + b)[..|a + b| - 1] == a + b[..n] && (ma + mb)[..|a + b| - 1] == ma + mb[..n];
      KeptSplit(a, b[..n], ma, mb[..n]);
    }
  }

  lemma {:induction false} KeptAll<T>(s: seq<T>, mask: seq<bool>)
    requires |s| == |mask| && forall i | 0 <= i < |mask| :: mask[i]
    ensures Kept(s, mask) == s
  {
    if s != [] {
      KeptAll(s[..|s| - 1], mask[..|s| - 1]);
    }
  }

  lemma {:induction false} KeptNone<T>(s: seq<T>, mask: seq<bool>)
    requires |s| == |mask| && forall i | 0 <= i < |mask| :: !mask[i]
    ensures Kept(s, mask) == []
  {
    if s != [] {
      KeptNone(s[..|s| - 1], mask[..|s| - 1]);
    }
  }

  /** The positions `ks` pick `kept` out of `all`, in order. */
  ghost predicate Picks<T>(ks: seq<nat>, all: seq<T>, kept: seq<T>) {
    && |ks| == |kept| && (forall i, j | 0 <= i < j < |ks| :: ks[i] < ks[j])
    && forall i | 0 <= i < |ks| :: ks[i] < |all| && kept[i] == all[ks[i]]
  }

  /** One entry more, kept or dropped. */
  lemma PickMore<T>(ks: seq<nat>, all: seq<T>, kept: seq<T>, keep: bool) returns (ks': seq<nat>)
    requires all != [] && Picks(ks, all[..|all| - 1], kept)
    ensures Picks(ks', all, if keep then kept + [all[|all| - 1]] else kept)
    ensures forall k: nat :: k in ks' <==> k in ks || (keep && k == |all| - 1)
    ensures forall k | k in ks :: k < |all| - 1
  {
    ks' := if keep then ks + [|all| - 1] else ks;
  }

  /** Exactly the positions with a set bit are kept, in order. */
  lemma {:induction false} KeptPicks<T>(s: seq<T>, mask: seq<bool>) returns (ks: seq<nat>)
    requires |s| == |mask|
    ensures Picks(ks, s, Kept(s, mask)) && forall k: nat :: k in ks <==> k < |s| && mask[k]
  {
    if s == [] {
      ks := [];
    } else {
      var n := |s| - 1;
      var before := KeptPicks(s[..n], mask[..n]);
      ks := PickMore(before, s, Kept(s[..n], mask[..n]), mask[n]);
    }
  }

  /** All sequences joined in order. */
  function Joined<T>(ss: seq<seq<T>>): seq<T> {
    if ss == [] then [] else Joined(ss[..|ss| - 1]) + ss[|ss| - 1]
  }

  lemma {:induction false} JoinedSplit<T>(ss: seq<seq<T>>, i: nat)
    requires i < |ss|
    ensures Joined(ss) == Joined(ss[..i]) + ss[i] + Joined(ss[i + 1..])
  {
    var n := |ss| - 1;
    if i == n {
      assert ss[i + 1..] == [];
    } else {
      JoinedSplit(ss[..n], i);
      assert ss[..n][..i] == ss[..i] && ss[..n][i + 1..] == ss[i + 1..][..|ss[i + 1..]| - 1];
    }
  }

  // ---- numbering ids by position ----

  function Position(ids: seq<string>, id: string): (i: nat)
    requires id in ids
    ensures i < |ids| && ids[i] == id
  {
    if ids[0] == id then 0 else Position(ids[1..], id) + 1
  }

  lemma PositionAt(ids: seq<string>, i: nat)
    requires Distinct(ids) && i < |ids|
    ensures Position(ids, ids[i]) == i
  {
  }

  /** `index` maps each of the distinct `ids` to its position, and nothing else. */
  ghost predicate Numbers(index: map<string, nat>, ids: seq<string>) {
    && Distinct(ids)
    && (forall i | 0 <= i < |ids| :: ids[i] in index && index[ids[i]] == i)
    && forall id | id in index :: id in ids
  }

  lemma SameNumbers(a: map<string, nat>, b: map<string, nat>, ids: seq<string>)
    requires Numbers(a, ids) && Numbers(b, ids)
    ensures a == b
  {
    forall id | id in a || id in b
      ensures id in a && id in b && a[id] == b[id]
    {
      var i :| 0 <= i < |ids| && ids[i] == id;
    }
    assert a.Keys == b.Keys;
  }

  lemma {:induction false} NumbersSize(index: map<string, nat>, ids: seq<string>)
    requires Numbers(index, ids)
    ensures |index| == |ids|
    decreases |ids|
  {
    if ids == [] {
      assert index.Keys == {};
    } else {
      var n := |ids| - 1;
      var rest := index - {ids[n]};
      assert Numbers(rest, ids[..n]);
      NumbersSize(rest, ids[..n]);
      assert index.Keys == rest.Keys + {ids[n]};
    }
  }

  lemma NumbersMore(index: map<string, nat>, ids: seq<string>, id: string)
    requires Numbers(index, ids)
    ensures id in ids <==> id in index
    ensures id !in ids ==> Numbers(index[id := |ids|], ids + [id])
  {
  }
}
