/** Yen's scheme as a relation between lists of paths, the invariant of its runs, and what follows from it. */
module YenRuns {
  import opened Basics
  import opened Networks
  import opened HopSearch
  import opened Deviations

  // ---- the scheme ----

  function SwapRemove<T>(xs: seq<T>, i: nat): (r: seq<T>)
    requires i < |xs|
    ensures |r| == |xs| - 1
    ensures forall j | 0 <= j < |r| :: r[j] == if j == i then xs[|xs| - 1] else xs[j]
    ensures forall j | 0 <= j < |xs| && j != i :: xs[j] in r
  {
    var r := xs[i := xs[|xs| - 1]][..|xs| - 1];
    assert forall j | 0 <= j < |xs| && j != i :: xs[j] == r[if j == |xs| - 1 then i else j];
    r
  }

  predicate LexLe(a: seq<nat>, b: seq<nat>) {
    if a == [] then true else if b == [] then false else a[0] < b[0] || (a[0] == b[0] && LexLe(a[1..], b[1..]))
  }

  /** Cost first, then the node sequence. */
  predicate CandidateLe(a: PathCandidate, b: PathCandidate) {
    a.cost < b.cost || (a.cost == b.cost && LexLe(a.nodes, b.nodes))
  }

  function Last(accepted: seq<PathCandidate>): PathCandidate
    requires |accepted| > 0
  {
    accepted[|accepted| - 1]
  }

  /** A path whose nodes are already listed is dropped. */
  ghost function Offer(accepted: seq<PathCandidate>, candidates: seq<PathCandidate>, total: PathCandidate): seq<PathCandidate> {
    if Listed(accepted, total.nodes) || Listed(candidates, total.nodes) then candidates else candidates + [total]
  }

  /** The spur search at position `i` of the path accepted last. */
  ghost predicate SpurStep(r: Request, accepted: seq<PathCandidate>, i: nat, candidates: seq<PathCandidate>, candidates': seq<PathCandidate>) {
    && |accepted| > 0 && i < |Last(accepted).rows| && i < |Last(accepted).nodes|
    && var root := Last(accepted).nodes[..i + 1];
    var q := Spur(r, root, Bans(accepted, root));
    || (candidates' == candidates && forall w :: !Solves(q, w))
    || exists spur :: Best(q, spur) && candidates' == Offer(accepted, candidates, Glue(r.g, Last(accepted), i, spur))
  }

  ghost predicate Spurs(r: Request, accepted: seq<PathCandidate>, k: nat, candidates: seq<PathCandidate>, candidates': seq<PathCandidate>) {
    if k == 0 then candidates' == candidates
    else
      var j := k - 1;
      exists mid :: Spurs(r, accepted, j, candidates, mid) && SpurStep(r, accepted, j, mid, candidates')
  }

  /** All spur searches out of the path accepted last. */
  ghost predicate Round(r: Request, accepted: seq<PathCandidate>, candidates: seq<PathCandidate>, candidates': seq<PathCandidate>) {
    |accepted| > 0 && Spurs(r, accepted, |Last(accepted).rows|, candidates, candidates')
  }

  ghost predicate Picked(candidates: seq<PathCandidate>, m: nat, next: PathCandidate, rest: seq<PathCandidate>) {
    && m < |candidates| && (forall i | 0 <= i < |candidates| :: CandidateLe(candidates[m], candidates[i]))
    && next == candidates[m] && rest == SwapRemove(candidates, m)
  }

  /** `accepted` and `candidates` are the lists just after the last of `accepted` was accepted. */
  ghost predicate Run(r: Request, accepted: seq<PathCandidate>, candidates: seq<PathCandidate>) {
    if |accepted| == 0 then false
    else if |accepted| == 1 then Best(r.Whole(), accepted[0]) && candidates == []
    else
      var front := accepted[..|accepted| - 1];
      exists c0 :: Run(r, front, c0) && Accepts(r, front, c0, Last(accepted), candidates)
  }

  /** One more round, after which `next` is the best candidate. */
  ghost predicate Accepts(r: Request, front: seq<PathCandidate>, c0: seq<PathCandidate>, next: PathCandidate, rest: seq<PathCandidate>) {
    exists c1, m :: Round(r, front, c0, c1) && Picked(c1, m, next, rest)
  }

  /** `res` is what the scheme may return when asked for `k` paths. */
  ghost predicate Yields(r: Request, k: nat, res: seq<PathCandidate>) {
    if k == 0 || forall w :: !Solves(r.Whole(), w) then res == []
    else exists candidates :: Run(r, res, candidates) && (|res| == k || (|res| < k && Round(r, res, candidates, [])))
  }

  // ---- every list holds distinct wanted paths ----

  ghost predicate Apart(a: seq<PathCandidate>, b: seq<PathCandidate>) {
    forall i, j | 0 <= i < |a| && 0 <= j < |b| :: a[i].nodes != b[j].nodes
  }

  ghost predicate Lists(r: Request, accepted: seq<PathCandidate>, candidates: seq<PathCandidate>) {
    |accepted| > 0 && Paths(r, accepted) && Paths(r, candidates) && Apart(accepted, candidates)
  }

  lemma SpurStepLists(r: Request, accepted: seq<PathCandidate>, i: nat, candidates: seq<PathCandidate>, candidates': seq<PathCandidate>)
    requires r.g.Valid() && Lists(r, accepted, candidates) && SpurStep(r, accepted, i, candidates, candidates')
    ensures Lists(r, accepted, candidates')
  {
    hide Best, Path;
    if candidates' != candidates {
      var root := Last(accepted).nodes[..i + 1];
      var spur :| Best(Spur(r, root, Bans(accepted, root)), spur) && candidates' == Offer(accepted, candidates, Glue(r.g, Last(accepted), i, spur));
      GlueIsPath(r, Last(accepted), i, Bans(accepted, root), spur);
    }
  }

  lemma {:induction false} SpursLists(r: Request, accepted: seq<PathCandidate>, k: nat, candidates: seq<PathCandidate>, candidates': seq<PathCandidate>)
    requires r.g.Valid() && Lists(r, accepted, candidates) && Spurs(r, accepted, k, candidates, candidates')
    ensures Lists(r, accepted, candidates')
  {
    hide Lists, SpurStep;
    if k > 0 {
      var mid :| Spurs(r, accepted, k - 1, candidates, mid) && SpurStep(r, accepted, k - 1, mid, candidates');
      SpursLists(r, accepted, k - 1, candidates, mid);
      SpurStepLists(r, accepted, k - 1, mid, candidates');
    }
  }

  lemma PickLists(r: Request, accepted: seq<PathCandidate>, candidates: seq<PathCandidate>, m: nat)
    requires Lists(r, accepted, candidates) && m < |candidates|
    ensures Lists(r, accepted + [candidates[m]], SwapRemove(candidates, m))
  {
    hide Path;
  }

  lemma RunSplits(r: Request, accepted: seq<PathCandidate>, candidates: seq<PathCandidate>)
    returns (c0: seq<PathCandidate>, c1: seq<PathCandidate>, m: nat)
    requires Run(r, accepted, candidates) && |accepted| > 1
    ensures var front := accepted[..|accepted| - 1];
            Run(r, front, c0) && Round(r, front, c0, c1) && Picked(c1, m, Last(accepted), candidates)
  {
    var front := accepted[..|accepted| - 1];
    hide Best, Solves, Accepts, Picked, Round;
    c0 :| Run(r, front, c0) && Accepts(r, front, c0, Last(accepted), candidates);
    c1, m := AcceptsSplits(r, front, c0, Last(accepted), candidates);
  }

  lemma AcceptsSplits(r: Request, front: seq<PathCandidate>, c0: seq<PathCandidate>, next: PathCandidate, rest: seq<PathCandidate>)
    returns (c1: seq<PathCandidate>, m: nat)
    requires Accepts(r, front, c0, next, rest)
    ensures Round(r, front, c0, c1) && Picked(c1, m, next, rest) && m < |c1| && next == c1[m]
  {
    hide Round, CandidateLe;
    c1, m :| Round(r, front, c0, c1) && Picked(c1, m, next, rest);
  }

  lemma {:induction false} RunLists(r: Request, accepted: seq<PathCandidate>, candidates: seq<PathCandidate>)
    requires r.g.Valid() && Run(r, accepted, candidates)
    ensures Lists(r, accepted, candidates) && Best(r.Whole(), accepted[0])
    decreases |accepted|
  {
    hide Best, Path, Spurs, Solves;
    if |accepted| == 1 {
      BestIsPath(r, accepted[0]);
    } else {
      var c0, c1, m := RunSplits(r, accepted, candidates);
      var front := accepted[..|accepted| - 1];
      RunLists(r, front, c0);
      SpursLists(r, front, |Last(front).rows|, c0, c1);
      PickLists(r, front, c1, m);
      assert accepted == front + [c1[m]];
    }
  }

  // ---- least continuations ----

  ghost predicate LeadAt(r: Request, a: PathCandidate, prefix: seq<nat>) {
    && |a.nodes| == |a.rows| + 1 && 0 < |prefix| <= |a.nodes| && a.nodes[..|prefix|] == prefix
    && TailLeast(r, AsWalk(a), |prefix| - 1)
  }

  ghost predicate HasLead(r: Request, accepted: seq<PathCandidate>, prefix: seq<nat>) {
    exists m :: 0 <= m < |accepted| && LeadAt(r, accepted[m], prefix)
  }

  /** Some accepted path goes on in the least way from every prefix of an accepted path. */
  ghost predicate Led(r: Request, accepted: seq<PathCandidate>) {
    forall a, n {:trigger accepted[a].nodes[..n]} | 0 <= a < |accepted| && 1 <= n <= |accepted[a].nodes| ::
      HasLead(r, accepted, accepted[a].nodes[..n])
  }

  lemma ShareThrough(a: seq<nat>, b: seq<nat>, n: nat, root: seq<nat>, x: nat)
    requires |root| < n <= |a| && n <= |b| && a[..n] == b[..n] && Through(a, root, x)
    ensures Through(b, root, x)
  {
    assert b[..|root|] == b[..n][..|root|] == a[..n][..|root|] == a[..|root|];
    assert b[|root|] == b[..n][|root|] == a[..n][|root|] == a[|root|];
  }

  lemma ThroughPrefix(a: seq<nat>, root: seq<nat>, x: nat)
    requires Through(a, root, x)
    ensures a[..|root| + 1] == root + [x]
  {
  }

  /** A spur search that leaves the root where an accepted path already does finds nothing new. */
  lemma BranchTaken(r: Request, accepted: seq<PathCandidate>, root: seq<nat>, total: PathCandidate)
    requires r.g.Valid() && RowsJoinPairs(r.g) && Paths(r, accepted) && Led(r, accepted) && Spurred(r, accepted, root, total)
    requires |root| < |total.nodes| && Branch(accepted, root, total.nodes[|root|])
    ensures Listed(accepted, total.nodes)
  {
    hide Spurred, TailLeast, Wanted, RowsJoinPairs;
    SpurredShape(r, accepted, root, total);
    var x := total.nodes[|root|];
    var a :| 0 <= a < |accepted| && Through(accepted[a].nodes, root, x);
    var prefix := accepted[a].nodes[..|root| + 1];
    ThroughPrefix(accepted[a].nodes, root, x);
    ThroughPrefix(total.nodes, root, x);
    assert HasLead(r, accepted, prefix);
    var m :| 0 <= m < |accepted| && LeadAt(r, accepted[m], prefix);
    WantedShape(r, total);
    SpurredTailLeast(r, accepted, root, total, |root|);
    LeastTailsAgree(r, AsWalk(accepted[m]), AsWalk(total), |root|);
  }

  lemma WantedShape(r: Request, pc: PathCandidate)
    requires Path(r, pc)
    ensures |pc.nodes| == |pc.rows| + 1 && pc.nodes[0] == r.s && pc.nodes[|pc.rows|] == r.t && pc.cost == Cost(r.g, pc.rows)
    ensures Distinct(pc.nodes) && Wanted(r, AsWalk(pc))
  {
  }

  // ---- where candidates come from ----

  ghost predicate Parent(accepted: seq<PathCandidate>, c: PathCandidate, i: nat)
    requires i < |c.nodes| && i < |c.rows|
  {
    exists p :: 0 <= p < |accepted| && Follows(accepted[p], c, i)
  }

  /** `p` shares the first `i` steps of `c`, rows included, and does not end there. */
  predicate Follows(p: PathCandidate, c: PathCandidate, i: nat)
    requires i < |c.nodes| && i < |c.rows|
  {
    Extends(p.nodes, c.nodes[..i + 1]) && i < |p.rows| && p.rows[..i] == c.rows[..i]
  }

  /** No other listed path takes the step on which candidate `m` leaves its parent. */
  ghost predicate Alone(accepted: seq<PathCandidate>, candidates: seq<PathCandidate>, m: nat, i: nat)
    requires m < |candidates| && i + 1 < |candidates[m].nodes|
  {
    var root, x := candidates[m].nodes[..i + 1], candidates[m].nodes[i + 1];
    !Branch(accepted, root, x) && forall j | 0 <= j < |candidates| && j != m :: !Through(candidates[j].nodes, root, x)
  }

  /** Candidate `m` left an accepted path at its node `i`, by a step of its own, and goes on in the least way. */
  ghost predicate OriginAt(r: Request, accepted: seq<PathCandidate>, candidates: seq<PathCandidate>, m: nat, i: nat)
    requires m < |candidates|
  {
    var c := candidates[m];
    && |c.nodes| == |c.rows| + 1 && i < |c.rows| && Parent(accepted, c, i) && Alone(accepted, candidates, m, i)
    && forall n | i < n <= |c.rows| :: TailLeast(r, AsWalk(c), n)
  }

  ghost predicate Origins(r: Request, accepted: seq<PathCandidate>, candidates: seq<PathCandidate>) {
    forall m | 0 <= m < |candidates| :: HasOrigin(r, accepted, candidates, m)
  }

  ghost predicate HasOrigin(r: Request, accepted: seq<PathCandidate>, candidates: seq<PathCandidate>, m: nat)
    requires m < |candidates|
  {
    exists i :: OriginAt(r, accepted, candidates, m, i)
  }

  /** A candidate that takes an unaccepted step out of a prefix of an accepted path left it right there. */
  lemma LeftThere(r: Request, accepted: seq<PathCandidate>, candidates: seq<PathCandidate>, m: nat, j: nat, a: nat, i: nat, x: nat)
    requires m < |candidates| && OriginAt(r, accepted, candidates, m, j)
    requires a < |accepted| && i + 1 < |accepted[a].nodes| && Through(candidates[m].nodes, accepted[a].nodes[..i + 1], x)
    requires !Branch(accepted, accepted[a].nodes[..i + 1], x)
    ensures i == j
  {
    hide TailLeast, Branch;
    var c, root := candidates[m], accepted[a].nodes[..i + 1];
    if j > i {
      var p :| 0 <= p < |accepted| && Follows(accepted[p], c, j);
      ShareThrough(c.nodes, accepted[p].nodes, j + 1, root, x);
      BranchAt(accepted, p, root, x);
    } else if j < i {
      ShareThrough(c.nodes, accepted[a].nodes, i + 1, c.nodes[..j + 1], c.nodes[j + 1]);
      BranchAt(accepted, a, c.nodes[..j + 1], c.nodes[j + 1]);
    }
  }

  lemma BranchAt(paths: seq<PathCandidate>, i: nat, root: seq<nat>, x: nat)
    requires i < |paths| && Through(paths[i].nodes, root, x)
    ensures Branch(paths, root, x)
  {
  }

  /** A spur search whose first step some candidate already takes finds that candidate again. */
  lemma CandidateTaken(r: Request, accepted: seq<PathCandidate>, candidates: seq<PathCandidate>, i: nat, total: PathCandidate, m: nat)
    requires r.g.Valid() && RowsJoinPairs(r.g) && Lists(r, accepted, candidates) && Origins(r, accepted, candidates)
    requires i < |Last(accepted).rows| && i < |Last(accepted).nodes| && Spurred(r, accepted, Last(accepted).nodes[..i + 1], total)
    requires i + 1 < |total.nodes| && !Branch(accepted, Last(accepted).nodes[..i + 1], total.nodes[i + 1])
    requires m < |candidates| && Through(candidates[m].nodes, Last(accepted).nodes[..i + 1], total.nodes[i + 1])
    ensures candidates[m].nodes == total.nodes
  {
    hide Spurred, TailLeast, Wanted, RowsJoinPairs, Alone, Parent, Branch;
    var root, x := Last(accepted).nodes[..i + 1], total.nodes[i + 1];
    SpurredShape(r, accepted, root, total);
    WantedShape(r, total);
    WantedShape(r, Last(accepted));
    assert Path(r, candidates[m]);
    WantedShape(r, candidates[m]);
    assert HasOrigin(r, accepted, candidates, m);
    var j :| OriginAt(r, accepted, candidates, m, j);
    LeftThere(r, accepted, candidates, m, j, |accepted| - 1, i, x);
    SpurredTailLeast(r, accepted, root, total, i + 1);
    ThroughPrefix(candidates[m].nodes, root, x);
    ThroughPrefix(total.nodes, root, x);
    LeastTailsAgree(r, AsWalk(candidates[m]), AsWalk(total), i + 1);
  }

  // ---- cheapest rows ----

  ghost predicate AllLean(r: Request, ps: seq<PathCandidate>) {
    forall i | 0 <= i < |ps| :: |ps[i].nodes| == |ps[i].rows| + 1 && Lean(r.g, ps[i])
  }

  lemma SwapRow(r: Request, w: Walk, m: nat, e: nat)
    requires Wanted(r, w) && m < |w.rows| && r.g.HasArc(w.nodes[m], w.nodes[m + 1], e)
    ensures Wanted(r, Walk(w.nodes, w.rows[m := e]))
    ensures WalkLe(r.g, Tail(w, m), Tail(Walk(w.nodes, w.rows[m := e]), m)) ==> r.g.W(w.rows[m]) <= r.g.W(e)
  {
    hide Network.HasArc;
    var y := Walk(w.nodes, w.rows[m := e]);
    assert w.rows[m..] == [w.rows[m]] + w.rows[m + 1..] && y.rows[m..] == [e] + w.rows[m + 1..];
    CostConcat(r.g, [w.rows[m]], w.rows[m + 1..]);
    CostConcat(r.g, [e], w.rows[m + 1..]);
    assert [w.rows[m]][..0] == [] == [e][..0];
    forall k | 0 <= k < |y.rows|
      ensures r.g.HasArc(y.nodes[k], y.nodes[k + 1], y.rows[k])
    {
      assert r.g.HasArc(w.nodes[k], w.nodes[k + 1], w.rows[k]);
    }
  }

  /** A glued path that takes a new step out of a lean root is lean. */
  lemma LeanTotal(r: Request, ps: seq<PathCandidate>, root: seq<nat>, total: PathCandidate)
    requires r.g.Valid() && RowsJoinPairs(r.g) && Paths(r, ps) && Spurred(r, ps, root, total)
    requires |root| < |total.nodes| && !Branch(ps, root, total.nodes[|root|]) && |total.nodes| == |total.rows| + 1
    requires forall m: nat, e: nat | m < |root| - 1 && r.g.HasArc(total.nodes[m], total.nodes[m + 1], e) :: r.g.W(total.rows[m]) <= r.g.W(e)
    ensures Lean(r.g, total)
  {
    hide Spurred, Paths, RowsJoinPairs, WalkLe, Wanted, Branch, TailLeast, Network.HasArc;
    SpurredShape(r, ps, root, total);
    forall m: nat, e: nat | m < |total.rows| && r.g.HasArc(total.nodes[m], total.nodes[m + 1], e)
      ensures r.g.W(total.rows[m]) <= r.g.W(e)
    {
      if m >= |root| - 1 {
        LeanStep(r, ps, root, total, m, e);
      }
    }
  }

  lemma LeanStep(r: Request, ps: seq<PathCandidate>, root: seq<nat>, total: PathCandidate, m: nat, e: nat)
    requires r.g.Valid() && RowsJoinPairs(r.g) && Paths(r, ps) && Spurred(r, ps, root, total)
    requires |root| < |total.nodes| && !Branch(ps, root, total.nodes[|root|]) && |total.nodes| == |total.rows| + 1
    requires 0 <= |root| - 1 <= m < |total.rows| && r.g.HasArc(total.nodes[m], total.nodes[m + 1], e)
    ensures r.g.W(total.rows[m]) <= r.g.W(e)
  {
    hide Spurred, Paths, RowsJoinPairs, WalkLe, Wanted, Branch, Network.HasArc;
    SpurredShape(r, ps, root, total);
    var w := AsWalk(total);
    var y := Walk(w.nodes, w.rows[m := e]);
    SwapRow(r, w, m, e);
    if m == |root| - 1 {
      FreshRowFree(r, ps, root, y, e);
      SpurredLeast(r, ps, root, total, y);
    } else {
      SpurredTailLeast(r, ps, root, total, m);
    }
  }

  // ---- settled roots ----

  function GluedNodes(root: seq<nat>, spur: PathCandidate): seq<nat>
    requires |root| > 0
  {
    root[..|root| - 1] + spur.nodes
  }

  /** What the spur search out of `root` would find now is listed already. */
  ghost predicate Settled(r: Request, accepted: seq<PathCandidate>, candidates: seq<PathCandidate>, root: seq<nat>)
    requires |root| > 0
  {
    var q := Spur(r, root, Bans(accepted, root));
    || (forall w :: !Solves(q, w))
    || exists spur :: Best(q, spur) && (Listed(accepted, GluedNodes(root, spur)) || Listed(candidates, GluedNodes(root, spur)))
  }

  /** Every proper prefix of an accepted path is settled, except prefixes of the last one longer than `k`. */
  ghost predicate AllSettled(r: Request, accepted: seq<PathCandidate>, candidates: seq<PathCandidate>, k: nat)
    requires |accepted| > 0
  {
    forall a, j {:trigger accepted[a].nodes[..j]} | 0 <= a < |accepted| && 1 <= j < |accepted[a].nodes| ::
      || (k < j < |Last(accepted).nodes| && accepted[a].nodes[..j] == Last(accepted).nodes[..j])
      || Settled(r, accepted, candidates, accepted[a].nodes[..j])
  }

  lemma MoreSettled(r: Request, accepted: seq<PathCandidate>, candidates: seq<PathCandidate>, candidates': seq<PathCandidate>, root: seq<nat>)
    requires |root| > 0 && Settled(r, accepted, candidates, root)
    requires forall ns | Listed(candidates, ns) :: Listed(candidates', ns)
    ensures Settled(r, accepted, candidates', root)
  {
    hide Solves, Best, Listed;
  }

  lemma OfferLists(accepted: seq<PathCandidate>, candidates: seq<PathCandidate>, total: PathCandidate)
    ensures forall ns | Listed(candidates, ns) :: Listed(Offer(accepted, candidates, total), ns)
    ensures Listed(accepted, total.nodes) || Listed(Offer(accepted, candidates, total), total.nodes)
  {
    forall ns | Listed(candidates, ns)
      ensures Listed(candidates + [total], ns)
    {
      var i :| 0 <= i < |candidates| && candidates[i].nodes == ns;
      assert (candidates + [total])[i].nodes == ns;
    }
    assert (candidates + [total])[|candidates|] == total;
  }

  lemma StepLists(r: Request, accepted: seq<PathCandidate>, i: nat, candidates: seq<PathCandidate>, candidates': seq<PathCandidate>)
    requires SpurStep(r, accepted, i, candidates, candidates')
    ensures forall ns | Listed(candidates, ns) :: Listed(candidates', ns)
  {
    hide Solves, Best, Listed;
    if candidates' != candidates {
      var root := Last(accepted).nodes[..i + 1];
      var spur :| Best(Spur(r, root, Bans(accepted, root)), spur) && candidates' == Offer(accepted, candidates, Glue(r.g, Last(accepted), i, spur));
      OfferLists(accepted, candidates, Glue(r.g, Last(accepted), i, spur));
    }
  }

  lemma StepSettlesRoot(r: Request, accepted: seq<PathCandidate>, i: nat, candidates: seq<PathCandidate>, candidates': seq<PathCandidate>)
    requires SpurStep(r, accepted, i, candidates, candidates')
    ensures Settled(r, accepted, candidates', Last(accepted).nodes[..i + 1])
  {
    hide Solves, Best, Listed;
    var root := Last(accepted).nodes[..i + 1];
    var q := Spur(r, root, Bans(accepted, root));
    if w :| Solves(q, w) {
      var spur :| Best(q, spur) && candidates' == Offer(accepted, candidates, Glue(r.g, Last(accepted), i, spur));
      OfferLists(accepted, candidates, Glue(r.g, Last(accepted), i, spur));
      assert GluedNodes(root, spur) == Glue(r.g, Last(accepted), i, spur).nodes by {
        assert root[..i] == Last(accepted).nodes[..i];
      }
    }
  }

  lemma StepSettles(r: Request, accepted: seq<PathCandidate>, i: nat, candidates: seq<PathCandidate>, candidates': seq<PathCandidate>)
    requires |accepted| > 0 && AllSettled(r, accepted, candidates, i) && SpurStep(r, accepted, i, candidates, candidates')
    ensures AllSettled(r, accepted, candidates', i + 1)
  {
    hide SpurStep, Settled, Listed;
    StepLists(r, accepted, i, candidates, candidates');
    StepSettlesRoot(r, accepted, i, candidates, candidates');
    forall a, j {:trigger accepted[a].nodes[..j]} | 0 <= a < |accepted| && 1 <= j < |accepted[a].nodes|
      ensures (i + 1 < j < |Last(accepted).nodes| && accepted[a].nodes[..j] == Last(accepted).nodes[..j])
        || Settled(r, accepted, candidates', accepted[a].nodes[..j])
    {
      if Settled(r, accepted, candidates, accepted[a].nodes[..j]) {
        MoreSettled(r, accepted, candidates, candidates', accepted[a].nodes[..j]);
      }
    }
  }

  /** Accepting a path that does not run through the root changes neither its bans nor what is listed. */
  lemma AcceptKeepsSettled(r: Request, accepted: seq<PathCandidate>, candidates: seq<PathCandidate>, m: nat, root: seq<nat>)
    requires |root| > 0 && Settled(r, accepted, candidates, root) && m < |candidates| && !Extends(candidates[m].nodes, root)
    ensures Settled(r, accepted + [candidates[m]], SwapRemove(candidates, m), root)
  {
    hide Solves, Best, Listed;
    SameBans(accepted, candidates[m], root);
    var q := Spur(r, root, Bans(accepted, root));
    if w :| Solves(q, w) {
      var spur :| Best(q, spur) && (Listed(accepted, GluedNodes(root, spur)) || Listed(candidates, GluedNodes(root, spur)));
      StillListed(accepted, candidates, m, GluedNodes(root, spur));
    }
  }

  lemma SameBans(accepted: seq<PathCandidate>, next: PathCandidate, root: seq<nat>)
    requires !Extends(next.nodes, root)
    ensures Bans(accepted + [next], root) == Bans(accepted, root)
  {
    forall e: nat
      ensures e in Bans(accepted + [next], root) <==> e in Bans(accepted, root)
    {
      if i :| 0 <= i < |accepted| && Takes(accepted[i], root, e) {
        assert (accepted + [next])[i] == accepted[i];
      }
    }
  }

  lemma StillListed(accepted: seq<PathCandidate>, candidates: seq<PathCandidate>, m: nat, ns: seq<nat>)
    requires m < |candidates| && (Listed(accepted, ns) || Listed(candidates, ns))
    ensures Listed(accepted + [candidates[m]], ns) || Listed(SwapRemove(candidates, m), ns)
  {
    var accepted', rest := accepted + [candidates[m]], SwapRemove(candidates, m);
    if i :| 0 <= i < |accepted| && accepted[i].nodes == ns {
      assert accepted'[i].nodes == ns;
    } else {
      var i :| 0 <= i < |candidates| && candidates[i].nodes == ns;
      if i == m {
        assert accepted'[|accepted|].nodes == ns;
      } else {
        assert candidates[i] in rest;
        var j :| 0 <= j < |rest| && rest[j] == candidates[i];
      }
    }
  }

  lemma AcceptSettles(r: Request, accepted: seq<PathCandidate>, candidates: seq<PathCandidate>, m: nat)
    requires |accepted| > 0 && AllSettled(r, accepted, candidates, |Last(accepted).nodes|) && m < |candidates|
    ensures AllSettled(r, accepted + [candidates[m]], SwapRemove(candidates, m), 0)
  {
    hide Settled;
    var next := candidates[m];
    var accepted' := accepted + [next];
    forall a, j {:trigger accepted'[a].nodes[..j]} | 0 <= a < |accepted'| && 1 <= j < |accepted'[a].nodes|
      ensures (0 < j < |next.nodes| && accepted'[a].nodes[..j] == next.nodes[..j])
        || Settled(r, accepted', SwapRemove(candidates, m), accepted'[a].nodes[..j])
    {
      if a < |accepted| {
        var root := accepted[a].nodes[..j];
        assert Settled(r, accepted, candidates, root);
        if !Extends(next.nodes, root) {
          AcceptKeepsSettled(r, accepted, candidates, m, root);
        }
      }
    }
  }
}
