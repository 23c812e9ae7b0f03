/** When parallel edges make Yen's scheme miss paths: exactly when they hide a branch. */
module YenGaps {
  import opened Basics
  import opened Networks
  import opened HopSearch
  import opened Deviations
  import opened YenRuns
  import opened YenInvariants
  import Yen

  // ---- every question has an answer ----

  lemma {:induction false} BackLeTotal(a: seq<nat>, b: seq<nat>)
    requires |a| == |b| && !BackLe(a, b)
    ensures BackLe(b, a)
  {
    if a != [] && a[|a| - 1] == b[|a| - 1] {
      BackLeTotal(a[..|a| - 1], b[..|a| - 1]);
    }
  }

  lemma {:induction false} BackLeTrans(a: seq<nat>, b: seq<nat>, c: seq<nat>)
    requires |a| == |b| == |c| && BackLe(a, b) && BackLe(b, c)
    ensures BackLe(a, c)
  {
    if a != [] && a[|a| - 1] == b[|a| - 1] == c[|a| - 1] {
      BackLeTrans(a[..|a| - 1], b[..|a| - 1], c[..|a| - 1]);
    }
  }

  /** All sequences of up to `len` numbers below `n`. */
  ghost function Universe(n: nat, len: nat): (u: set<seq<nat>>)
    ensures forall ns: seq<nat> | |ns| <= len && (forall k | 0 <= k < |ns| :: ns[k] < n) :: ns in u
  {
    if len == 0 then {[]}
    else
      var shorter := Universe(n, len - 1);
      var u := shorter + set ns, x | ns in shorter && 0 <= x < n :: ns + [x];
      assert forall ns: seq<nat> | |ns| == len && (forall k | 0 <= k < |ns| :: ns[k] < n) :: ns == ns[..len - 1] + [ns[len - 1]];
      u
  }

  /** The node sequences that come before `ns`. */
  ghost function Earlier(n: nat, ns: seq<nat>): set<seq<nat>> {
    set x | x in Universe(n, |ns|) && |x| == |ns| && !BackLe(ns, x)
  }

  lemma EarlierShrinks(n: nat, a: seq<nat>, b: seq<nat>)
    requires |a| == |b| && !BackLe(a, b) && forall k | 0 <= k < |b| :: b[k] < n
    ensures Earlier(n, b) < Earlier(n, a)
  {
    forall x | x in Earlier(n, b)
      ensures x in Earlier(n, a)
    {
      BackLeTotal(b, x);
      if BackLe(a, x) {
        BackLeTrans(a, x, b);
      }
    }
    BackLeSame(b);
    assert b in Earlier(n, a) && b !in Earlier(n, b);
  }

  /** A search that has a solution has a least one. */
  lemma {:induction false} LeastExists(q: Query, w: Walk) returns (pc: PathCandidate)
    requires Solves(q, w)
    ensures Best(q, pc)
    decreases Cost(q.g, w.rows), |w.rows|, Earlier(|q.g.adj|, w.nodes)
  {
    hide Solves;
    if x :| Solves(q, x) && !WalkLe(q.g, w, x) {
      SolutionShape(q, w);
      SolutionShape(q, x);
      if Cost(q.g, x.rows) == Cost(q.g, w.rows) && |x.rows| == |w.rows| {
        EarlierShrinks(|q.g.adj|, w.nodes, x.nodes);
      }
      pc := LeastExists(q, x);
    } else {
      pc := PathCandidate(w.nodes, w.rows, Cost(q.g, w.rows));
      LeastIsSimple(q, w);
    }
  }

  lemma SolutionShape(q: Query, w: Walk)
    requires Solves(q, w)
    ensures |w.nodes| == |w.rows| + 1 && forall k | 0 <= k < |w.nodes| :: w.nodes[k] < |q.g.adj|
  {
  }

  lemma LeastIsSimple(q: Query, w: Walk)
    requires Solves(q, w) && forall x | Solves(q, x) :: WalkLe(q.g, w, x)
    ensures Distinct(w.nodes)
  {
    hide Solves;
    forall i, j | 0 <= i < j < |w.nodes|
      ensures w.nodes[i] != w.nodes[j]
    {
      if w.nodes[i] == w.nodes[j] {
        var shorter := CutLoop(q, w, i, j);
      }
    }
  }

  lemma StepExists(r: Request, accepted: seq<PathCandidate>, i: nat, candidates: seq<PathCandidate>) returns (candidates': seq<PathCandidate>)
    requires |accepted| > 0 && i < |Last(accepted).rows| && i < |Last(accepted).nodes|
    ensures SpurStep(r, accepted, i, candidates, candidates')
  {
    hide Solves, Best;
    var q := Spur(r, Last(accepted).nodes[..i + 1], Bans(accepted, Last(accepted).nodes[..i + 1]));
    if w :| Solves(q, w) {
      var spur := LeastExists(q, w);
      candidates' := Offer(accepted, candidates, Glue(r.g, Last(accepted), i, spur));
    } else {
      candidates' := candidates;
    }
  }

  lemma {:induction false} SpursExist(r: Request, accepted: seq<PathCandidate>, k: nat, candidates: seq<PathCandidate>) returns (candidates': seq<PathCandidate>)
    requires |accepted| > 0 && k <= |Last(accepted).rows| && k <= |Last(accepted).nodes|
    ensures Spurs(r, accepted, k, candidates, candidates')
    decreases k
  {
    hide SpurStep;
    if k == 0 {
      candidates' := candidates;
    } else {
      var mid := SpursExist(r, accepted, k - 1, candidates);
      candidates' := StepExists(r, accepted, k - 1, mid);
    }
  }

  lemma {:induction false} LeastCandidate(candidates: seq<PathCandidate>, n: nat) returns (m: nat)
    requires 0 < n <= |candidates|
    ensures m < n && forall i | 0 <= i < n :: CandidateLe(candidates[m], candidates[i])
  {
    hide CandidateLe;
    if n == 1 {
      m := 0;
      Yen.CandidateOrder(candidates[0], candidates[0], candidates[0]);
    } else {
      var b := LeastCandidate(candidates, n - 1);
      m := if CandidateLe(candidates[b], candidates[n - 1]) then b else n - 1;
      forall i | 0 <= i < n
        ensures CandidateLe(candidates[m], candidates[i])
      {
        Yen.CandidateOrder(candidates[n - 1], candidates[b], candidates[i]);
        Yen.CandidateOrder(candidates[n - 1], candidates[n - 1], candidates[n - 1]);
      }
    }
  }

  lemma {:induction false} RunContinues(r: Request, k: nat, accepted: seq<PathCandidate>, candidates: seq<PathCandidate>) returns (res: seq<PathCandidate>)
    requires r.g.Valid() && |accepted| <= k && Run(r, accepted, candidates)
    ensures Yields(r, k, res)
    decreases k - |accepted|
  {
    hide Run, Round, Spurs, Lists, CandidateLe, Yields;
    RunLists(r, accepted, candidates);
    if |accepted| == k {
      RunNotEmpty(r, accepted, candidates);
      Yen.EndsFull(r, k, accepted, candidates);
      return accepted;
    }
    LastShape(r, accepted, candidates);
    var c1 := RoundExists(r, accepted, candidates);
    if |c1| == 0 {
      Yen.EndsEarly(r, k, accepted, candidates, c1);
      return accepted;
    }
    var m := LeastCandidate(c1, |c1|);
    Yen.NextRun(r, accepted, candidates, c1, m);
    res := RunContinues(r, k, accepted + [c1[m]], SwapRemove(c1, m));
  }

  lemma RunNotEmpty(r: Request, accepted: seq<PathCandidate>, candidates: seq<PathCandidate>)
    requires Run(r, accepted, candidates)
    ensures |accepted| > 0
  {
  }

  lemma RoundExists(r: Request, accepted: seq<PathCandidate>, candidates: seq<PathCandidate>) returns (candidates': seq<PathCandidate>)
    requires |accepted| > 0 && |Last(accepted).nodes| == |Last(accepted).rows| + 1
    ensures Round(r, accepted, candidates, candidates')
  {
    hide Spurs;
    candidates' := SpursExist(r, accepted, |Last(accepted).rows|, candidates);
  }

  lemma AnswerExists(r: Request, k: nat) returns (res: seq<PathCandidate>)
    requires r.g.Valid()
    ensures Yields(r, k, res)
  {
    hide Solves, Run, Yields, Best;
    if k == 0 || forall w :: !Solves(r.Whole(), w) {
      Yen.YieldsNothing(r, k);
      return [];
    }
    var w :| Solves(r.Whole(), w);
    var first := LeastExists(r.Whole(), w);
    Yen.FirstRun(r, first);
    res := RunContinues(r, k, [first], []);
  }

  // ---- no answer is longer than the number of paths ----

  lemma AnswerBounded(r: Request, ps: seq<PathCandidate>)
    requires Paths(r, ps)
    ensures |ps| <= |Universe(|r.g.adj|, |r.g.adj|)|
  {
    hide Wanted;
    var keys := Yen.Keys(ps);
    KeysSize(ps);
    forall ns | ns in keys
      ensures ns in Universe(|r.g.adj|, |r.g.adj|)
    {
      var i :| 0 <= i < |ps| && ps[i].nodes == ns;
      assert Path(r, ps[i]);
      WantedInRange(r, AsWalk(ps[i]));
    }
    SubsetSize(keys, Universe(|r.g.adj|, |r.g.adj|));
  }

  lemma WantedInRange(r: Request, w: Walk)
    requires Wanted(r, w)
    ensures |w.nodes| <= |r.g.adj| && forall k | 0 <= k < |w.nodes| :: w.nodes[k] < |r.g.adj|
  {
    DistinctBounded(w.nodes, |r.g.adj|);
  }

  lemma {:induction false} KeysSize(ps: seq<PathCandidate>)
    requires forall i, j | 0 <= i < j < |ps| :: ps[i].nodes != ps[j].nodes
    ensures |Yen.Keys(ps)| == |ps|
  {
    if ps != [] {
      var n := |ps| - 1;
      KeysSize(ps[..n]);
      assert ps == ps[..n] + [ps[n]];
      Yen.KeysPush(ps[..n], ps[n]);
      Yen.KeysList(ps[..n], ps[n].nodes);
    }
  }

  // ---- the weights that hide a branch ----

  /** The same question over other weights. */
  function Reweigh(r: Request, weight: seq<nat>): Request {
    r.(g := Network(r.g.adj, weight))
  }

  lemma SameWanted(r: Request, weight: seq<nat>, w: Walk)
    ensures Wanted(Reweigh(r, weight), w) <==> Wanted(r, w)
  {
    var r' := Reweigh(r, weight);
    assert forall u: nat, v: nat, e: nat :: r.g.HasArc(u, v, e) <==> r'.g.HasArc(u, v, e);
  }

  predicate Light(w: Walk, f: nat, e: nat) {
    e in w.rows || e == f
  }

  /** The rows of `w` and `f` weigh 1, every other row more than all of `w`. */
  ghost predicate Weighed(r: Request, w: Walk, f: nat) {
    forall u: nat, v: nat, e: nat | r.g.HasArc(u, v, e) :: r.g.W(e) == if Light(w, f, e) then 1 else |w.rows| + 1
  }

  lemma {:induction false} CheapIsLight(r: Request, w: Walk, f: nat, rows: seq<nat>)
    requires forall k | 0 <= k < |rows| :: r.g.W(rows[k]) == if Light(w, f, rows[k]) then 1 else |w.rows| + 1
    ensures Cost(r.g, rows) <= |w.rows| ==> forall k | 0 <= k < |rows| :: Light(w, f, rows[k])
    ensures (forall k | 0 <= k < |rows| :: Light(w, f, rows[k])) ==> Cost(r.g, rows) == |rows|
  {
    if rows != [] {
      CheapIsLight(r, w, f, rows[..|rows| - 1]);
    }
  }

  lemma WalkWeights(r: Request, w: Walk, f: nat, x: Walk, n: nat)
    requires Weighed(r, w, f) && Wanted(r, x) && n <= |x.rows|
    ensures forall k | 0 <= k < |x.rows[n..]| :: r.g.W(x.rows[n..][k]) == if Light(w, f, x.rows[n..][k]) then 1 else |w.rows| + 1
  {
    forall k | n <= k < |x.rows|
      ensures r.g.W(x.rows[k]) == if Light(w, f, x.rows[k]) then 1 else |w.rows| + 1
    {
      assert r.g.HasArc(x.nodes[k], x.nodes[k + 1], x.rows[k]);
    }
  }

  /** The branch hidden by `f`, under weights that make it so. */
  ghost predicate Trap(r: Request, w1: Walk, w2: Walk, i: nat, f: nat) {
    r.g.Valid() && RowsJoinPairs(r.g) && HiddenBranch(r, w1, w2, i, f) && Weighed(r, w1, f)
  }

  /** A light row runs along one step of `w1`. */
  lemma LightStep(r: Request, w1: Walk, w2: Walk, i: nat, f: nat, e: nat) returns (m: nat)
    requires Trap(r, w1, w2, i, f) && Light(w1, f, e)
    ensures m < |w1.rows| && r.g.HasArc(w1.nodes[m], w1.nodes[m + 1], e)
  {
    if e == f {
      m := i;
    } else {
      m :| 0 <= m < |w1.rows| && w1.rows[m] == e;
    }
  }

  /** A simple path that begins like `w1` and goes on by light rows alone visits the nodes of `w1`. */
  lemma {:induction false} LightFollows(r: Request, w1: Walk, w2: Walk, i: nat, f: nat, x: Walk, n: nat)
    requires Trap(r, w1, w2, i, f) && Wanted(r, x) && n <= |x.rows| && n <= |w1.rows| && x.nodes[..n + 1] == w1.nodes[..n + 1]
    requires forall k | n <= k < |x.rows| :: Light(w1, f, x.rows[k])
    ensures x.nodes == w1.nodes
    decreases |w1.rows| - n
  {
    hide Trap, Light;
    TrapShape(r, w1, w2, i, f);
    assert x.nodes[n] == x.nodes[..n + 1][n] == w1.nodes[n];
    if n == |w1.rows| || n == |x.rows| {
      EndsTogether(r, w1, x, n);
    } else {
      LightNext(r, w1, w2, i, f, x, n);
      assert x.nodes[..n + 2] == x.nodes[..n + 1] + [x.nodes[n + 1]] == w1.nodes[..n + 2];
      LightFollows(r, w1, w2, i, f, x, n + 1);
    }
  }

  lemma TrapShape(r: Request, w1: Walk, w2: Walk, i: nat, f: nat)
    requires Trap(r, w1, w2, i, f)
    ensures Wanted(r, w1) && Wanted(r, w2) && i < |w1.rows| && i < |w2.rows| && |w1.nodes| == |w1.rows| + 1
  {
  }

  lemma EndsTogether(r: Request, a: Walk, b: Walk, n: nat)
    requires Wanted(r, a) && Wanted(r, b) && n <= |a.rows| && n <= |b.rows| && a.nodes[n] == b.nodes[n]
    requires a.nodes[..n + 1] == b.nodes[..n + 1] && (n == |a.rows| || n == |b.rows|)
    ensures a.nodes == b.nodes
  {
    assert n == |a.rows| && n == |b.rows|;
    assert a.nodes == a.nodes[..n + 1] && b.nodes == b.nodes[..n + 1];
  }

  lemma LightNext(r: Request, w1: Walk, w2: Walk, i: nat, f: nat, x: Walk, n: nat)
    requires Trap(r, w1, w2, i, f) && Wanted(r, x) && n < |x.rows| && n < |w1.rows| && x.nodes[..n + 1] == w1.nodes[..n + 1]
    requires Light(w1, f, x.rows[n])
    ensures x.nodes[n + 1] == w1.nodes[n + 1]
  {
    hide HiddenBranch, Weighed;
    TrapShape(r, w1, w2, i, f);
    forall k | 0 <= k <= n
      ensures x.nodes[k] == w1.nodes[k]
    {
      assert x.nodes[..n + 1][k] == w1.nodes[..n + 1][k];
    }
    var m := LightStep(r, w1, w2, i, f, x.rows[n]);
    assert r.g.HasArc(x.nodes[n], x.nodes[n + 1], x.rows[n]);
  }

  /** Below the weight of a heavy row, the rest of a path that begins like `w1` is the rest of `w1`. */
  lemma CheapFollows(r: Request, w1: Walk, w2: Walk, i: nat, f: nat, x: Walk, n: nat)
    requires Trap(r, w1, w2, i, f) && Wanted(r, x) && n <= |x.rows| && n <= |w1.rows| && x.nodes[..n + 1] == w1.nodes[..n + 1]
    requires Cost(r.g, x.rows[n..]) <= |w1.rows|
    ensures x.nodes == w1.nodes && forall k | n <= k < |x.rows| :: Light(w1, f, x.rows[k])
  {
    hide RowsJoinPairs, HiddenBranch, Weighed, Wanted, Light;
    WalkWeights(r, w1, f, x, n);
    CheapIsLight(r, w1, f, x.rows[n..]);
    forall k | n <= k < |x.rows|
      ensures Light(w1, f, x.rows[k])
    {
      assert x.rows[k] == x.rows[n..][k - n];
    }
    LightFollows(r, w1, w2, i, f, x, n);
  }

  // ---- the trap never opens ----

  /** Wherever the path comes through the root it goes on by row `b`. */
  predicate GoesBy(w1: Walk, i: nat, b: nat, pc: PathCandidate)
    requires i < |w1.nodes|
  {
    Extends(pc.nodes, w1.nodes[..i + 1]) ==> i < |pc.rows| && pc.rows[i] == b
  }

  ghost predicate Shut(w1: Walk, i: nat, b: nat, accepted: seq<PathCandidate>, candidates: seq<PathCandidate>)
    requires i < |w1.nodes|
  {
    && Listed(accepted, w1.nodes)
    && (forall a | 0 <= a < |accepted| :: GoesBy(w1, i, b, accepted[a]))
    && (forall c | 0 <= c < |candidates| :: GoesBy(w1, i, b, candidates[c]))
  }

  /** `b` is one light row at the branch and `b'` another. */
  ghost predicate Rivals(r: Request, w1: Walk, i: nat, f: nat, b: nat, b': nat)
    requires i + 1 < |w1.nodes|
  {
    b != b' && Light(w1, f, b') && r.g.HasArc(w1.nodes[i], w1.nodes[i + 1], b) && r.g.HasArc(w1.nodes[i], w1.nodes[i + 1], b')
  }

  lemma FirstShut(r: Request, w1: Walk, w2: Walk, i: nat, f: nat, first: PathCandidate) returns (b: nat, b': nat)
    requires Trap(r, w1, w2, i, f) && Best(r.Whole(), first)
    ensures i + 1 < |w1.nodes| && Rivals(r, w1, i, f, b, b') && Shut(w1, i, b, [first], [])
  {
    hide RowsJoinPairs, Weighed, Best;
    TrapShape(r, w1, w2, i, f);
    BestIsPath(r, first);
    WantedShape(r, first);
    FirstWhole(r, first);
    WalkWeights(r, w1, f, w1, 0);
    assert w1.rows[0..] == w1.rows && first.rows[0..] == first.rows;
    CheapIsLight(r, w1, f, w1.rows);
    assert first.nodes[..1] == [r.s] == w1.nodes[..1];
    CheapFollows(r, w1, w2, i, f, AsWalk(first), 0);
    b := first.rows[i];
    b' := if b == f then w1.rows[i] else f;
    assert r.g.HasArc(first.nodes[i], first.nodes[i + 1], b);
    assert r.g.HasArc(w1.nodes[i], w1.nodes[i + 1], w1.rows[i]);
    assert [first][0].nodes == w1.nodes;
  }

  /** A spur through the root that leaves it at or before the branch is `w1` again. */
  lemma SpurIsW1(r: Request, w1: Walk, w2: Walk, i: nat, f: nat, b: nat, b': nat, accepted: seq<PathCandidate>, root: seq<nat>, total: PathCandidate)
    requires Trap(r, w1, w2, i, f) && i + 1 < |w1.nodes| && Rivals(r, w1, i, f, b, b') && Shut(w1, i, b, accepted, [])
    requires Paths(r, accepted) && Spurred(r, accepted, root, total) && 0 < |root| <= i + 1 && Extends(total.nodes, w1.nodes[..i + 1])
    ensures total.nodes == w1.nodes
  {
    hide RowsJoinPairs, HiddenBranch, Weighed, Spurred, Wanted, WalkLe;
    TrapShape(r, w1, w2, i, f);
    SpurredShape(r, accepted, root, total);
    WantedShape(r, total);
    SpurredFree(r, accepted, root, total);
    var x := AsWalk(total);
    var rival := Walk(w1.nodes, w1.rows[i := b']);
    SwapRow(r, w1, i, b');
    GraftWanted(r, x, i, rival);
    var y := Graft(x, i, rival);
    var j := |root| - 1;
    assert y.nodes[..|root|] == w1.nodes[..i + 1][..|root|] == total.nodes[..|root|] == root;
    if j < i {
      assert y.rows[j] == x.rows[j];
    } else {
      RivalFree(w1, i, b, b', accepted);
      assert root == w1.nodes[..i + 1];
    }
    SpurredLeast(r, accepted, root, total, y);
    TailsOfTails(r.g, x, y, j, i);
    RestCheap(r, w1, w2, i, f, b', x, y);
    CheapFollows(r, w1, w2, i, f, x, i);
  }

  lemma RivalFree(w1: Walk, i: nat, b: nat, b': nat, accepted: seq<PathCandidate>)
    requires i < |w1.nodes| && b != b' && forall a | 0 <= a < |accepted| :: GoesBy(w1, i, b, accepted[a])
    ensures b' !in Bans(accepted, w1.nodes[..i + 1])
  {
    forall a | 0 <= a < |accepted|
      ensures !Takes(accepted[a], w1.nodes[..i + 1], b')
    {
      assert GoesBy(w1, i, b, accepted[a]);
    }
  }

  lemma RestCheap(r: Request, w1: Walk, w2: Walk, i: nat, f: nat, b': nat, x: Walk, y: Walk)
    requires Trap(r, w1, w2, i, f) && Light(w1, f, b') && i < |w1.rows| && i <= |x.rows| && i <= |x.nodes| && i <= |y.rows| && i <= |y.nodes|
    requires y.rows[i..] == w1.rows[i := b'][i..] && Wanted(r, y)
    requires WalkLe(r.g, Tail(x, i), Tail(y, i))
    ensures Cost(r.g, x.rows[i..]) <= |w1.rows|
  {
    hide RowsJoinPairs, HiddenBranch, Weighed, Wanted;
    WalkWeights(r, w1, f, y, i);
    forall k | 0 <= k < |y.rows[i..]|
      ensures Light(w1, f, y.rows[i..][k])
    {
      assert y.rows[i..][k] == w1.rows[i := b'][i + k];
    }
    CheapIsLight(r, w1, f, y.rows[i..]);
  }

  lemma StepShut(r: Request, w1: Walk, w2: Walk, i: nat, f: nat, b: nat, b': nat,
                 accepted: seq<PathCandidate>, j: nat, candidates: seq<PathCandidate>, candidates': seq<PathCandidate>)
    requires Trap(r, w1, w2, i, f) && i + 1 < |w1.nodes| && Rivals(r, w1, i, f, b, b') && Shut(w1, i, b, accepted, candidates)
    requires Lists(r, accepted, candidates) && SpurStep(r, accepted, j, candidates, candidates')
    ensures Shut(w1, i, b, accepted, candidates')
  {
    hide Trap, Rivals, Best, Solves, Listed, Spurred, Extends;
    if candidates' != candidates {
      var last := Last(accepted);
      var root := last.nodes[..j + 1];
      var spur :| Best(Spur(r, root, Bans(accepted, root)), spur) && candidates' == Offer(accepted, candidates, Glue(r.g, last, j, spur));
      var total := Glue(r.g, last, j, spur);
      TrapValid(r, w1, w2, i, f);
      LastShape(r, accepted, candidates);
      GlueSpurred(r, accepted, j, spur);
      if Extends(total.nodes, w1.nodes[..i + 1]) {
        if j <= i {
          SpurIsW1(r, w1, w2, i, f, b, b', accepted, root, total);
        } else {
          CopiesRow(w1, i, b, last, j, total);
        }
      }
      assert GoesBy(w1, i, b, total);
    }
  }

  lemma TrapValid(r: Request, w1: Walk, w2: Walk, i: nat, f: nat)
    requires Trap(r, w1, w2, i, f)
    ensures r.g.Valid() && RowsJoinPairs(r.g)
  {
  }

  lemma CopiesRow(w1: Walk, i: nat, b: nat, last: PathCandidate, j: nat, total: PathCandidate)
    requires i < |w1.nodes| && i < j < |last.nodes| && j < |total.nodes| && j <= |last.rows| && j <= |total.rows|
    requires GoesBy(w1, i, b, last) && Extends(total.nodes, w1.nodes[..i + 1])
    requires total.nodes[..j + 1] == last.nodes[..j + 1] && total.rows[..j] == last.rows[..j]
    ensures GoesBy(w1, i, b, total)
  {
    assert last.nodes[..i + 1] == last.nodes[..j + 1][..i + 1] == total.nodes[..j + 1][..i + 1] == total.nodes[..i + 1];
    assert total.rows[i] == total.rows[..j][i] == last.rows[..j][i] == last.rows[i];
  }

  lemma {:induction false} SpursShut(r: Request, w1: Walk, w2: Walk, i: nat, f: nat, b: nat, b': nat,
                                     accepted: seq<PathCandidate>, k: nat, candidates: seq<PathCandidate>, candidates': seq<PathCandidate>)
    requires Trap(r, w1, w2, i, f) && i + 1 < |w1.nodes| && Rivals(r, w1, i, f, b, b') && Shut(w1, i, b, accepted, candidates)
    requires Lists(r, accepted, candidates) && Spurs(r, accepted, k, candidates, candidates')
    ensures Shut(w1, i, b, accepted, candidates')
    decreases k
  {
    hide Trap, Rivals, Shut, Lists, SpurStep;
    if k > 0 {
      var mid :| Spurs(r, accepted, k - 1, candidates, mid) && SpurStep(r, accepted, k - 1, mid, candidates');
      TrapValid(r, w1, w2, i, f);
      SpursShut(r, w1, w2, i, f, b, b', accepted, k - 1, candidates, mid);
      SpursLists(r, accepted, k - 1, candidates, mid);
      StepShut(r, w1, w2, i, f, b, b', accepted, k - 1, mid, candidates');
    }
  }

  lemma PickShut(w1: Walk, i: nat, b: nat, accepted: seq<PathCandidate>, candidates: seq<PathCandidate>, m: nat)
    requires i < |w1.nodes| && Shut(w1, i, b, accepted, candidates) && m < |candidates|
    ensures Shut(w1, i, b, accepted + [candidates[m]], SwapRemove(candidates, m))
  {
    hide GoesBy;
    ListedStays(accepted, candidates[m], w1.nodes);
  }

  lemma {:induction false} RunShut(r: Request, w1: Walk, w2: Walk, i: nat, f: nat, accepted: seq<PathCandidate>, candidates: seq<PathCandidate>)
    returns (b: nat, b': nat)
    requires Trap(r, w1, w2, i, f) && Run(r, accepted, candidates)
    ensures i + 1 < |w1.nodes| && Rivals(r, w1, i, f, b, b') && Shut(w1, i, b, accepted, candidates)
    decreases |accepted|
  {
    hide Trap, Rivals, Shut, Lists, Best, Picked;
    if |accepted| == 1 {
      b, b' := FirstShut(r, w1, w2, i, f, accepted[0]);
      assert accepted == [accepted[0]];
    } else {
      var c0, c1, m := RunSplits(r, accepted, candidates);
      var front := accepted[..|accepted| - 1];
      TrapValid(r, w1, w2, i, f);
      b, b' := RunShut(r, w1, w2, i, f, front, c0);
      RunLists(r, front, c0);
      SpursShut(r, w1, w2, i, f, b, b', front, |Last(front).rows|, c0, c1);
      PickedIsCheapest(c1, m, Last(accepted), candidates);
      PickShut(w1, i, b, front, c1, m);
      assert accepted == front + [c1[m]];
    }
  }

  /** Under the weights that hide it, no answer of any length holds the second path. */
  lemma HiddenMissed(r: Request, w1: Walk, w2: Walk, i: nat, f: nat, k: nat, res: seq<PathCandidate>)
    requires Trap(r, w1, w2, i, f) && Yields(r, k, res)
    ensures !Listed(res, w2.nodes)
  {
    hide Solves, Run, Round, Trap, Shut, Rivals, Path;
    if res != [] {
      var candidates :| Run(r, res, candidates) && (|res| == k || (|res| < k && Round(r, res, candidates, [])));
      var b, b' := RunShut(r, w1, w2, i, f, res, candidates);
      TrapValid(r, w1, w2, i, f);
      RunLists(r, res, candidates);
      forall a | 0 <= a < |res|
        ensures res[a].nodes != w2.nodes
      {
        assert Path(r, res[a]);
        ShutsOut(r, w1, w2, i, f, b, b', res, candidates, a);
      }
    }
  }

  lemma ShutsOut(r: Request, w1: Walk, w2: Walk, i: nat, f: nat, b: nat, b': nat,
                 accepted: seq<PathCandidate>, candidates: seq<PathCandidate>, a: nat)
    requires Trap(r, w1, w2, i, f) && i + 1 < |w1.nodes| && Rivals(r, w1, i, f, b, b') && Shut(w1, i, b, accepted, candidates)
    requires a < |accepted| && Path(r, accepted[a])
    ensures accepted[a].nodes != w2.nodes
  {
    hide Weighed;
    var pc := accepted[a];
    assert GoesBy(w1, i, b, pc);
    assert w1.nodes[i] == w1.nodes[..i + 1][i] == w2.nodes[..i + 1][i] == w2.nodes[i];
  }

  // ---- the exact condition ----

  function RowLimit(arcs: seq<Arc>): (n: nat)
    ensures forall k | 0 <= k < |arcs| :: arcs[k].row < n
  {
    if arcs == [] then 0
    else
      var n := RowLimit(arcs[..|arcs| - 1]);
      if n <= arcs[|arcs| - 1].row then arcs[|arcs| - 1].row + 1 else n
  }

  function RowLimits(adj: seq<seq<Arc>>): (n: nat)
    ensures forall u, k | 0 <= u < |adj| && 0 <= k < |adj[u]| :: adj[u][k].row < n
  {
    if adj == [] then 0
    else
      var n, m := RowLimits(adj[..|adj| - 1]), RowLimit(adj[|adj| - 1]);
      if n <= m then m else n
  }

  /** Weights under which the branch is hidden. */
  lemma Setting(r: Request, w1: Walk, w2: Walk, i: nat, f: nat) returns (weight: seq<nat>)
    requires r.g.Valid() && RowsJoinPairs(r.g) && HiddenBranch(r, w1, w2, i, f)
    ensures Trap(Reweigh(r, weight), w1, w2, i, f) && Reweigh(r, weight).g.Positive()
  {
    weight := seq(RowLimits(r.g.adj), e => if e >= 0 && Light(w1, f, e) then 1 else |w1.rows| + 1);
    var r' := Reweigh(r, weight);
    SameWanted(r, weight, w1);
    SameWanted(r, weight, w2);
    assert forall u: nat, v: nat, e: nat :: r.g.HasArc(u, v, e) <==> r'.g.HasArc(u, v, e);
    forall u: nat, v: nat, e: nat | r'.g.HasArc(u, v, e)
      ensures r'.g.W(e) == if Light(w1, f, e) then 1 else |w1.rows| + 1
    {
      var k :| 0 <= k < |r.g.adj[u]| && r.g.adj[u][k] == Arc(v, e);
    }
  }

  /** Under every positive weighting, fewer paths than asked for means that there are no more. */
  ghost predicate AlwaysComplete(r: Request) {
    forall weight, k, res | Reweigh(r, weight).g.Positive() && Yields(Reweigh(r, weight), k, res) && |res| < k ::
      Complete(Reweigh(r, weight), res)
  }

  /** ... and besides each path is the cheapest one left at its turn. */
  ghost predicate AlwaysExact(r: Request) {
    AlwaysComplete(r) && forall weight, k, res | Reweigh(r, weight).g.Positive() && Yields(Reweigh(r, weight), k, res) ::
      Ordered(Reweigh(r, weight), res)
  }

  lemma HiddenIncomplete(r: Request, w1: Walk, w2: Walk, i: nat, f: nat)
    requires r.g.Valid() && RowsJoinPairs(r.g) && HiddenBranch(r, w1, w2, i, f)
    ensures !AlwaysComplete(r)
  {
    hide Yields, Trap, RowsJoinPairs, Universe, Paths, Wanted, Listed;
    var weight := Setting(r, w1, w2, i, f);
    var r' := Reweigh(r, weight);
    var k := |Universe(|r.g.adj|, |r.g.adj|)| + 1;
    TrapValid(r', w1, w2, i, f);
    TrapShape(r', w1, w2, i, f);
    var res := AnswerExists(r', k);
    YieldsPaths(r', k, res);
    AnswerBounded(r', res);
    HiddenMissed(r', w1, w2, i, f, k, res);
    assert !Complete(r', res);
  }

  lemma SameBranches(r: Request, weight: seq<nat>)
    requires NoHiddenBranch(r) && RowsJoinPairs(r.g) && r.g.Valid()
    ensures NoHiddenBranch(Reweigh(r, weight)) && RowsJoinPairs(Reweigh(r, weight).g) && Reweigh(r, weight).g.Valid()
  {
    hide Wanted;
    var r' := Reweigh(r, weight);
    assert forall u: nat, v: nat, e: nat :: r.g.HasArc(u, v, e) <==> r'.g.HasArc(u, v, e);
    forall w1, w2, i, f
      ensures !HiddenBranch(r', w1, w2, i, f)
    {
      SameWanted(r, weight, w1);
      SameWanted(r, weight, w2);
      assert !HiddenBranch(r, w1, w2, i, f);
    }
  }

  /** The answers are complete, and exact, for every weighting if and only if no parallel edge hides a branch. */
  lemma ExactIffNothingHidden(r: Request)
    requires r.g.Valid() && RowsJoinPairs(r.g)
    ensures AlwaysComplete(r) <==> NoHiddenBranch(r)
    ensures AlwaysExact(r) <==> NoHiddenBranch(r)
  {
    hide Yields, RowsJoinPairs, HiddenBranch, Complete, Ordered;
    if NoHiddenBranch(r) {
      forall weight, k, res | Yields(Reweigh(r, weight), k, res)
        ensures Ordered(Reweigh(r, weight), res) && (|res| < k ==> Complete(Reweigh(r, weight), res))
      {
        SameBranches(r, weight);
        YieldsExact(Reweigh(r, weight), k, res);
      }
    } else {
      var w1, w2, i, f :| HiddenBranch(r, w1, w2, i, f);
      HiddenIncomplete(r, w1, w2, i, f);
    }
  }

  // ---- an input on which a path is missed ----

  /** Two parallel edges 0 -> 1 of weight 1 and a detour through 2 over edges of weight 2. */
  function ParallelEdges(): Request {
    Request(Network([[Arc(1, 0), Arc(1, 1), Arc(2, 2)], [], [Arc(1, 3)]], [1, 1, 2, 2]), 0, 1, None)
  }

  lemma Detour()
    ensures Trap(ParallelEdges(), Walk([0, 1], [0]), Walk([0, 2, 1], [2, 3]), 0, 1)
  {
    var g := ParallelEdges().g;
    assert g.adj[0] == [Arc(1, 0), Arc(1, 1), Arc(2, 2)] && g.adj[1] == [] && g.adj[2] == [Arc(1, 3)];
    assert g.HasArc(0, 1, 0) && g.HasArc(0, 1, 1) && g.HasArc(0, 2, 2) && g.HasArc(2, 1, 3);
  }

  /** There are only two node paths from 0 to 1. */
  lemma TwoWays(w: Walk)
    requires Wanted(ParallelEdges(), w)
    ensures w.nodes == [0, 1] || w.nodes == [0, 2, 1]
  {
    var r := ParallelEdges();
    WantedInRange(r, w);
    assert r.g.HasArc(w.nodes[0], w.nodes[1], w.rows[0]);
    if w.nodes[1] == 1 {
      assert |w.rows| == 1;
      assert w.nodes == [0, 1];
    } else {
      assert r.g.HasArc(w.nodes[1], w.nodes[2], w.rows[1]);
      assert |w.rows| == 2;
      assert w.nodes == [0, 2, 1];
    }
  }

  /** Asked for any number of paths, the search returns the direct one alone. */
  method DetourMissed(k: nat) returns (paths: seq<PathCandidate>)
    requires k > 0
    ensures |paths| == 1 && paths[0].nodes == [0, 1] && paths[0].cost == 1
    ensures Wanted(ParallelEdges(), Walk([0, 2, 1], [2, 3])) && !Listed(paths, [0, 2, 1])
  {
    hide *;
    var r := ParallelEdges();
    InputValid();
    paths := Yen.KShortestPaths(r.g, r.s, r.t, k, r.maxHops);
    OnlyDirect(k, paths);
  }

  lemma InputValid()
    ensures var r := ParallelEdges(); r.g.Valid() && r.s < |r.g.adj| && r.t < |r.g.adj| && r == Request(r.g, r.s, r.t, r.maxHops)
  {
  }

  lemma OnlyDirect(k: nat, paths: seq<PathCandidate>)
    requires k > 0 && Yields(ParallelEdges(), k, paths)
    ensures |paths| == 1 && paths[0].nodes == [0, 1] && paths[0].cost == 1
    ensures Wanted(ParallelEdges(), Walk([0, 2, 1], [2, 3])) && !Listed(paths, [0, 2, 1])
  {
    hide Yields, Wanted, ParallelEdges, Trap, Weighed, HiddenBranch;
    var r, w1, w2 := ParallelEdges(), Walk([0, 1], [0]), Walk([0, 2, 1], [2, 3]);
    Detour();
    TrapValid(r, w1, w2, 0, 1);
    TrapShape(r, w1, w2, 0, 1);
    YieldsPaths(r, k, paths);
    HiddenMissed(r, w1, w2, 0, 1, k, paths);
    assert |paths| > 1 ==> paths[0].nodes != paths[1].nodes;
    forall a | 0 <= a < |paths|
      ensures paths[a].nodes == [0, 1]
    {
      assert Path(r, paths[a]);
      TwoWays(AsWalk(paths[a]));
    }
    DirectCost(paths[0]);
  }

  lemma DirectCost(pc: PathCandidate)
    requires Path(ParallelEdges(), pc) && pc.nodes == [0, 1]
    ensures pc.cost == 1
  {
    var r := ParallelEdges();
    assert r.g.HasArc(pc.nodes[0], pc.nodes[1], pc.rows[0]);
    var e := pc.rows[0];
    assert r.g.adj[0] == [Arc(1, 0), Arc(1, 1), Arc(2, 2)];
    assert e == 0 || e == 1;
    assert r.g.W(e) == 1;
    assert pc.rows == [e] && pc.rows[..0] == [];
    CostPrefix(r.g, pc.rows, 0);
    assert pc.rows[..1] == pc.rows;
  }
}
