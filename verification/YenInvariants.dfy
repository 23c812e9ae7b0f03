/** The invariant of Yen's runs: what every list reached satisfies, and when the answer is exact. */
module YenInvariants {
  import opened Basics
  import opened Networks
  import opened HopSearch
  import opened Deviations
  import opened YenRuns

  // ---- the order of acceptance ----

  /** No wanted path outside `before` is cheaper than `pc`. */
  ghost predicate Cheapest(r: Request, before: seq<PathCandidate>, pc: PathCandidate) {
    forall w | Wanted(r, w) && !Listed(before, w.nodes) :: pc.cost <= Cost(r.g, w.rows)
  }

  /** Each accepted path is the cheapest one left at its turn. */
  ghost predicate Ordered(r: Request, accepted: seq<PathCandidate>) {
    forall i | 0 <= i < |accepted| :: Cheapest(r, accepted[..i], accepted[i])
  }

  ghost predicate Complete(r: Request, paths: seq<PathCandidate>) {
    forall w | Wanted(r, w) :: Listed(paths, w.nodes)
  }

  /** Two wanted paths part after node `i`, and a second edge runs beside the step the first one takes there. */
  ghost predicate HiddenBranch(r: Request, w1: Walk, w2: Walk, i: nat, f: nat) {
    && Wanted(r, w1) && Wanted(r, w2) && i < |w1.rows| && i < |w2.rows|
    && w1.nodes[..i + 1] == w2.nodes[..i + 1] && w1.nodes[i + 1] != w2.nodes[i + 1]
    && r.g.HasArc(w1.nodes[i], w1.nodes[i + 1], f) && f != w1.rows[i]
  }

  ghost predicate NoHiddenBranch(r: Request) {
    forall w1, w2, i, f :: !HiddenBranch(r, w1, w2, i, f)
  }

  ghost predicate NonDecreasing(ps: seq<PathCandidate>) {
    forall i, j | 0 <= i <= j < |ps| :: ps[i].cost <= ps[j].cost
  }

  /** Costs have come out in order and no candidate undercuts the path accepted last. */
  ghost predicate Rising(accepted: seq<PathCandidate>, candidates: seq<PathCandidate>) {
    && |accepted| > 0 && NonDecreasing(accepted)
    && forall c | 0 <= c < |candidates| :: Last(accepted).cost <= candidates[c].cost
  }

  /** Whatever a spur search out of the last path finds is listed or no cheaper than that path. */
  ghost predicate Floor(r: Request, accepted: seq<PathCandidate>, candidates: seq<PathCandidate>)
    requires |accepted| > 0
  {
    forall i: nat, spur | i < |Last(accepted).rows| && i < |Last(accepted).nodes| :: FloorAt(r, accepted, candidates, i, spur)
  }

  ghost predicate FloorAt(r: Request, accepted: seq<PathCandidate>, candidates: seq<PathCandidate>, i: nat, spur: PathCandidate)
    requires |accepted| > 0 && i < |Last(accepted).rows| && i < |Last(accepted).nodes|
  {
    var root := Last(accepted).nodes[..i + 1];
    var total := Glue(r.g, Last(accepted), i, spur);
    Best(Spur(r, root, Bans(accepted, root)), spur) ==>
      Listed(accepted, total.nodes) || Listed(candidates, total.nodes) || Last(accepted).cost <= total.cost
  }

  ghost predicate State(r: Request, accepted: seq<PathCandidate>, candidates: seq<PathCandidate>, k: nat) {
    && r.g.Valid() && RowsJoinPairs(r.g)
    && Lists(r, accepted, candidates) && AllLean(r, accepted) && AllLean(r, candidates)
    && Led(r, accepted) && Origins(r, accepted, candidates)
    && AllSettled(r, accepted, candidates, k) && Floor(r, accepted, candidates) && Rising(accepted, candidates)
    && (NoHiddenBranch(r) ==> Ordered(r, accepted))
  }

  // ---- the first path ----

  lemma FirstSpurred(r: Request, first: PathCandidate)
    requires Best(r.Whole(), first) && r.s != r.t
    ensures Spurred(r, [], [r.s], first)
  {
    hide Best;
    BestIsPath(r, first);
    WantedShape(r, first);
    assert Before([r.s]) == {} && Bans([], [r.s]) == {};
    assert Spur(r, [r.s], {}) == r.Whole();
    assert Tail(AsWalk(first), 0) == AsWalk(first);
    assert first.nodes[..1] == [r.s];
  }

  lemma FirstLeast(r: Request, first: PathCandidate, n: nat)
    requires r.g.Valid() && RowsJoinPairs(r.g) && Best(r.Whole(), first) && Path(r, first) && n <= |first.rows|
    ensures TailLeast(r, AsWalk(first), n)
  {
    hide Spurred, RowsJoinPairs;
    WantedShape(r, first);
    if n > 0 {
      FirstSpurred(r, first);
      SpurredTailLeast(r, [], [r.s], first, n);
    } else {
      FirstWhole(r, first);
    }
  }

  lemma FirstWhole(r: Request, first: PathCandidate)
    requires Best(r.Whole(), first) && Path(r, first)
    ensures TailLeast(r, AsWalk(first), 0)
    ensures forall w | Wanted(r, w) :: first.cost <= Cost(r.g, w.rows)
  {
    hide Wanted, Solves;
    WantedShape(r, first);
    forall w | Wanted(r, w)
      ensures WalkLe(r.g, Tail(AsWalk(first), 0), Tail(w, 0)) && first.cost <= Cost(r.g, w.rows)
    {
      WantedSolves(r, w);
      assert Tail(AsWalk(first), 0) == AsWalk(first) && Tail(w, 0) == w;
    }
  }

  lemma FirstLean(r: Request, first: PathCandidate)
    requires r.g.Valid() && RowsJoinPairs(r.g) && Best(r.Whole(), first) && Path(r, first)
    ensures |first.nodes| == |first.rows| + 1 && Lean(r.g, first)
  {
    hide Spurred, RowsJoinPairs, Wanted, Best;
    WantedShape(r, first);
    if r.s != r.t {
      FirstSpurred(r, first);
      LeanTotal(r, [], [r.s], first);
    } else {
      assert first.nodes[0] == first.nodes[|first.rows|];
    }
  }

  lemma FirstFloor(r: Request, first: PathCandidate)
    requires r.g.Valid() && Best(r.Whole(), first) && Path(r, first)
    ensures Floor(r, [first], [])
  {
    hide Best, Wanted;
    FirstWhole(r, first);
    WantedShape(r, first);
    forall i: nat, spur | i < |first.rows| && i < |first.nodes|
      ensures FloorAt(r, [first], [], i, spur)
    {
      var root := first.nodes[..i + 1];
      if Best(Spur(r, root, Bans([first], root)), spur) {
        GlueIsPath(r, first, i, Bans([first], root), spur);
      }
    }
  }

  lemma FirstState(r: Request, first: PathCandidate)
    requires r.g.Valid() && RowsJoinPairs(r.g) && Best(r.Whole(), first)
    ensures State(r, [first], [], 0)
  {
    hide Best, Path, Floor, Settled, TailLeast, RowsJoinPairs, NoHiddenBranch, Lean, Wanted;
    BestIsPath(r, first);
    FirstLean(r, first);
    FirstFloor(r, first);
    FirstWhole(r, first);
    assert [first][..0] == [];
    forall a, n {:trigger [first][a].nodes[..n]} | 0 <= a < |[first]| && 1 <= n <= |[first][a].nodes|
      ensures HasLead(r, [first], [first][a].nodes[..n])
    {
      FirstLeast(r, first, n - 1);
      assert LeadAt(r, [first][0], first.nodes[..n]);
    }
  }

  // ---- one spur step ----

  /** A new glued path: a step of its own, cheapest rows, and never cheaper than the path accepted last. */
  ghost predicate Fresh(r: Request, accepted: seq<PathCandidate>, candidates: seq<PathCandidate>, i: nat, total: PathCandidate)
    requires |accepted| > 0
  {
    var last := Last(accepted);
    && i < |last.rows| && i < |last.nodes| && |total.nodes| == |total.rows| + 1 && i < |total.rows|
    && total.nodes[..i + 1] == last.nodes[..i + 1] && total.rows[..i] == last.rows[..i]
    && !Branch(accepted, last.nodes[..i + 1], total.nodes[i + 1])
    && (forall m | 0 <= m < |candidates| :: !Through(candidates[m].nodes, last.nodes[..i + 1], total.nodes[i + 1]))
    && (forall n | i < n <= |total.rows| :: TailLeast(r, AsWalk(total), n))
    && Lean(r.g, total) && last.cost <= total.cost
  }

  lemma GlueSpurred(r: Request, accepted: seq<PathCandidate>, i: nat, spur: PathCandidate)
    requires r.g.Valid() && |accepted| > 0 && Path(r, Last(accepted)) && i < |Last(accepted).rows| && i < |Last(accepted).nodes|
    requires Best(Spur(r, Last(accepted).nodes[..i + 1], Bans(accepted, Last(accepted).nodes[..i + 1])), spur)
    ensures var total := Glue(r.g, Last(accepted), i, spur);
            && Spurred(r, accepted, Last(accepted).nodes[..i + 1], total) && |total.nodes| == |total.rows| + 1 && i < |total.rows|
            && total.nodes[..i + 1] == Last(accepted).nodes[..i + 1] && total.rows[..i] == Last(accepted).rows[..i]
  {
    hide Best;
    var root := Last(accepted).nodes[..i + 1];
    GlueIsPath(r, Last(accepted), i, Bans(accepted, root), spur);
  }

  lemma FreshTotal(r: Request, accepted: seq<PathCandidate>, candidates: seq<PathCandidate>, k: nat, i: nat, spur: PathCandidate)
    requires State(r, accepted, candidates, k) && i < |Last(accepted).rows| && i < |Last(accepted).nodes|
    requires Best(Spur(r, Last(accepted).nodes[..i + 1], Bans(accepted, Last(accepted).nodes[..i + 1])), spur)
    requires var total := Glue(r.g, Last(accepted), i, spur); !Listed(accepted, total.nodes) && !Listed(candidates, total.nodes)
    ensures Fresh(r, accepted, candidates, i, Glue(r.g, Last(accepted), i, spur))
  {
    hide Best, Path, Wanted, RowsJoinPairs, NoHiddenBranch, Ordered, AllSettled, Rising, Led, Origins, Spurred, Lean, TailLeast, Branch, Through;
    var last, total := Last(accepted), Glue(r.g, Last(accepted), i, spur);
    var root := last.nodes[..i + 1];
    GlueSpurred(r, accepted, i, spur);
    if Branch(accepted, root, total.nodes[i + 1]) {
      BranchTaken(r, accepted, root, total);
    }
    forall m | 0 <= m < |candidates|
      ensures !Through(candidates[m].nodes, root, total.nodes[i + 1])
    {
      if Through(candidates[m].nodes, root, total.nodes[i + 1]) {
        CandidateTaken(r, accepted, candidates, i, total, m);
      }
    }
    forall n | i < n <= |total.rows|
      ensures TailLeast(r, AsWalk(total), n)
    {
      SpurredTailLeast(r, accepted, root, total, n);
    }
    LeanBefore(r, last, total, i);
    LeanTotal(r, accepted, root, total);
    assert FloorAt(r, accepted, candidates, i, spur);
  }

  lemma LeanBefore(r: Request, last: PathCandidate, total: PathCandidate, i: nat)
    requires |last.nodes| == |last.rows| + 1 && |total.nodes| == |total.rows| + 1 && Lean(r.g, last)
    requires i < |last.rows| && i < |total.rows| && total.nodes[..i + 1] == last.nodes[..i + 1] && total.rows[..i] == last.rows[..i]
    ensures forall m: nat, e: nat | m < i && r.g.HasArc(total.nodes[m], total.nodes[m + 1], e) :: r.g.W(total.rows[m]) <= r.g.W(e)
  {
    forall m: nat, e: nat | m < i && r.g.HasArc(total.nodes[m], total.nodes[m + 1], e)
      ensures r.g.W(total.rows[m]) <= r.g.W(e)
    {
      assert total.nodes[m] == total.nodes[..i + 1][m] == last.nodes[m] && total.nodes[m + 1] == total.nodes[..i + 1][m + 1] == last.nodes[m + 1];
      assert total.rows[m] == total.rows[..i][m] == last.rows[m];
    }
  }

  /** Offering a fresh path keeps every candidate's origin and adds one. */
  lemma FreshOrigins(r: Request, accepted: seq<PathCandidate>, candidates: seq<PathCandidate>, i: nat, total: PathCandidate)
    requires |accepted| > 0 && Origins(r, accepted, candidates) && Fresh(r, accepted, candidates, i, total)
    requires |Last(accepted).nodes| == |Last(accepted).rows| + 1
    ensures Origins(r, accepted, candidates + [total])
  {
    hide TailLeast, Lean, Branch, Through;
    var candidates' := candidates + [total];
    forall m | 0 <= m < |candidates'|
      ensures HasOrigin(r, accepted, candidates', m)
    {
      if m < |candidates| {
        assert HasOrigin(r, accepted, candidates, m);
        var j :| OriginAt(r, accepted, candidates, m, j);
        StillAlone(r, accepted, candidates, i, total, m, j);
        assert OriginAt(r, accepted, candidates', m, j);
      } else {
        FollowsLast(accepted, total, i);
        assert OriginAt(r, accepted, candidates', m, i);
      }
    }
  }

  lemma FollowsLast(accepted: seq<PathCandidate>, total: PathCandidate, i: nat)
    requires |accepted| > 0 && i < |total.rows| && i < |total.nodes| && i < |Last(accepted).rows| && i + 1 < |Last(accepted).nodes|
    requires total.nodes[..i + 1] == Last(accepted).nodes[..i + 1] && total.rows[..i] == Last(accepted).rows[..i]
    ensures Parent(accepted, total, i)
  {
    assert Follows(accepted[|accepted| - 1], total, i);
  }

  lemma StillAlone(r: Request, accepted: seq<PathCandidate>, candidates: seq<PathCandidate>, i: nat, total: PathCandidate, m: nat, j: nat)
    requires |accepted| > 0 && Fresh(r, accepted, candidates, i, total) && m < |candidates| && OriginAt(r, accepted, candidates, m, j)
    ensures Alone(accepted, candidates + [total], m, j)
  {
    hide TailLeast, Lean, Branch;
    var c := candidates[m];
    var root, x := c.nodes[..j + 1], c.nodes[j + 1];
    if Through(total.nodes, root, x) {
      if j < i {
        ShareThrough(total.nodes, Last(accepted).nodes, i + 1, root, x);
        BranchAt(accepted, |accepted| - 1, root, x);
      } else {
        ThroughPrefix(total.nodes, root, x);
        ShareThrough(total.nodes, c.nodes, j + 2, total.nodes[..i + 1], total.nodes[i + 1]);
      }
    }
  }

  lemma FreshState(r: Request, accepted: seq<PathCandidate>, candidates: seq<PathCandidate>, candidates': seq<PathCandidate>, i: nat, total: PathCandidate)
    requires State(r, accepted, candidates, i) && Fresh(r, accepted, candidates, i, total) && candidates' == candidates + [total]
    requires Lists(r, accepted, candidates') && AllSettled(r, accepted, candidates', i + 1)
    requires forall ns | Listed(candidates, ns) :: Listed(candidates', ns)
    ensures State(r, accepted, candidates', i + 1)
  {
    hide Best, RowsJoinPairs, NoHiddenBranch, Ordered, AllSettled, Led, Origins, Lean, TailLeast, Branch, Listed, NonDecreasing, Path;
    LastShape(r, accepted, candidates);
    FreshOrigins(r, accepted, candidates, i, total);
    FloorGrows(r, accepted, candidates, candidates');
  }

  lemma FloorGrows(r: Request, accepted: seq<PathCandidate>, candidates: seq<PathCandidate>, candidates': seq<PathCandidate>)
    requires |accepted| > 0 && Floor(r, accepted, candidates) && forall ns | Listed(candidates, ns) :: Listed(candidates', ns)
    ensures Floor(r, accepted, candidates')
  {
    hide Best, Listed;
    forall i: nat, spur | i < |Last(accepted).rows| && i < |Last(accepted).nodes|
      ensures FloorAt(r, accepted, candidates', i, spur)
    {
      assert FloorAt(r, accepted, candidates, i, spur);
    }
  }

  lemma LastShape(r: Request, accepted: seq<PathCandidate>, candidates: seq<PathCandidate>)
    requires Lists(r, accepted, candidates)
    ensures |accepted| > 0 && Path(r, Last(accepted)) && |Last(accepted).nodes| == |Last(accepted).rows| + 1
  {
    assert Path(r, accepted[|accepted| - 1]);
    WantedShape(r, Last(accepted));
  }

  lemma StepState(r: Request, accepted: seq<PathCandidate>, i: nat, candidates: seq<PathCandidate>, candidates': seq<PathCandidate>)
    requires State(r, accepted, candidates, i) && SpurStep(r, accepted, i, candidates, candidates')
    ensures State(r, accepted, candidates', i + 1)
  {
    hide Best, Solves, Path, Wanted, RowsJoinPairs, NoHiddenBranch, Ordered, AllSettled, Led, Origins, Lean, TailLeast, Branch, Listed,
         Rising, Fresh, Floor, AllLean, Lists;
    SpurStepLists(r, accepted, i, candidates, candidates');
    StepSettles(r, accepted, i, candidates, candidates');
    StepLists(r, accepted, i, candidates, candidates');
    if candidates' != candidates {
      var root := Last(accepted).nodes[..i + 1];
      var spur :| Best(Spur(r, root, Bans(accepted, root)), spur) && candidates' == Offer(accepted, candidates, Glue(r.g, Last(accepted), i, spur));
      FreshTotal(r, accepted, candidates, i, i, spur);
      FreshState(r, accepted, candidates, candidates', i, Glue(r.g, Last(accepted), i, spur));
    }
  }

  lemma {:induction false} SpursState(r: Request, accepted: seq<PathCandidate>, k: nat, candidates: seq<PathCandidate>, candidates': seq<PathCandidate>)
    requires State(r, accepted, candidates, 0) && Spurs(r, accepted, k, candidates, candidates')
    ensures State(r, accepted, candidates', k)
  {
    hide State, SpurStep;
    if k > 0 {
      var mid :| Spurs(r, accepted, k - 1, candidates, mid) && SpurStep(r, accepted, k - 1, mid, candidates');
      SpursState(r, accepted, k - 1, candidates, mid);
      StepState(r, accepted, k - 1, mid, candidates');
    }
  }

  /** After a round nothing is exempt any more. */
  lemma RoundState(r: Request, accepted: seq<PathCandidate>, candidates: seq<PathCandidate>, candidates': seq<PathCandidate>)
    requires State(r, accepted, candidates, 0) && Round(r, accepted, candidates, candidates')
    ensures |accepted| > 0 && State(r, accepted, candidates', |Last(accepted).nodes|)
  {
    hide Spurs, Settled, Path, RowsJoinPairs, NoHiddenBranch, Ordered, Led, Origins, Floor, Rising, AllLean;
    SpursState(r, accepted, |Last(accepted).rows|, candidates, candidates');
    LastShape(r, accepted, candidates');
  }

  // ---- accepting the best candidate ----

  lemma MoreLeads(r: Request, accepted: seq<PathCandidate>, next: PathCandidate, prefix: seq<nat>)
    requires HasLead(r, accepted, prefix)
    ensures HasLead(r, accepted + [next], prefix)
  {
    hide LeadAt;
    var m :| 0 <= m < |accepted| && LeadAt(r, accepted[m], prefix);
    assert LeadAt(r, (accepted + [next])[m], prefix);
  }

  lemma AcceptLed(r: Request, accepted: seq<PathCandidate>, candidates: seq<PathCandidate>, m: nat)
    requires Led(r, accepted) && Origins(r, accepted, candidates) && m < |candidates|
    ensures Led(r, accepted + [candidates[m]])
  {
    hide TailLeast, HasLead, Alone;
    var next := candidates[m];
    var accepted' := accepted + [next];
    forall a, n {:trigger accepted'[a].nodes[..n]} | 0 <= a < |accepted'| && 1 <= n <= |accepted'[a].nodes|
      ensures HasLead(r, accepted', accepted'[a].nodes[..n])
    {
      if a < |accepted| {
        MoreLeads(r, accepted, next, accepted[a].nodes[..n]);
      } else {
        NextLed(r, accepted, candidates, m, n);
      }
    }
  }

  lemma NextLed(r: Request, accepted: seq<PathCandidate>, candidates: seq<PathCandidate>, m: nat, n: nat)
    requires Led(r, accepted) && Origins(r, accepted, candidates) && m < |candidates| && 1 <= n <= |candidates[m].nodes|
    ensures HasLead(r, accepted + [candidates[m]], candidates[m].nodes[..n])
  {
    hide TailLeast, Alone;
    var next := candidates[m];
    assert HasOrigin(r, accepted, candidates, m);
    var i: nat :| OriginAt(r, accepted, candidates, m, i);
    if n <= i + 1 {
      var p :| 0 <= p < |accepted| && Follows(accepted[p], next, i);
      assert accepted[p].nodes[..n] == accepted[p].nodes[..i + 1][..n] == next.nodes[..n];
      MoreLeads(r, accepted, next, accepted[p].nodes[..n]);
    } else {
      assert TailLeast(r, AsWalk(next), n - 1);
      assert LeadAt(r, (accepted + [next])[|accepted|], next.nodes[..n]);
    }
  }

  lemma AcceptOrigins(r: Request, accepted: seq<PathCandidate>, candidates: seq<PathCandidate>, m: nat)
    requires Origins(r, accepted, candidates) && m < |candidates|
    ensures Origins(r, accepted + [candidates[m]], SwapRemove(candidates, m))
  {
    hide OriginAt;
    var rest := SwapRemove(candidates, m);
    forall j | 0 <= j < |rest|
      ensures HasOrigin(r, accepted + [candidates[m]], rest, j)
    {
      var k := if j == m then |candidates| - 1 else j;
      assert HasOrigin(r, accepted, candidates, k);
      var i :| OriginAt(r, accepted, candidates, k, i);
      AcceptOrigin(r, accepted, candidates, m, k, j, i);
    }
  }

  lemma AcceptOrigin(r: Request, accepted: seq<PathCandidate>, candidates: seq<PathCandidate>, m: nat, k: nat, j: nat, i: nat)
    requires m < |candidates| && k < |candidates| && k != m && OriginAt(r, accepted, candidates, k, i)
    requires j < |candidates| - 1 && k == if j == m then |candidates| - 1 else j
    ensures OriginAt(r, accepted + [candidates[m]], SwapRemove(candidates, m), j, i)
  {
    hide TailLeast, Through;
    var accepted', rest, c := accepted + [candidates[m]], SwapRemove(candidates, m), candidates[k];
    assert rest[j] == c;
    var p :| 0 <= p < |accepted| && Follows(accepted[p], c, i);
    assert Follows(accepted'[p], c, i);
    var root, x := c.nodes[..i + 1], c.nodes[i + 1];
    forall b | 0 <= b < |accepted'|
      ensures !Through(accepted'[b].nodes, root, x)
    {
      assert b < |accepted| ==> accepted'[b] == accepted[b];
    }
  }

  lemma AcceptRising(accepted: seq<PathCandidate>, candidates: seq<PathCandidate>, m: nat)
    requires Rising(accepted, candidates) && m < |candidates| && forall i | 0 <= i < |candidates| :: candidates[m].cost <= candidates[i].cost
    ensures Rising(accepted + [candidates[m]], SwapRemove(candidates, m))
  {
    var accepted' := accepted + [candidates[m]];
    forall i, j | 0 <= i <= j < |accepted'|
      ensures accepted'[i].cost <= accepted'[j].cost
    {
      assert accepted[if i < |accepted| then i else 0].cost <= Last(accepted).cost;
    }
  }

  // ---- the floor under a newly accepted path ----

  /** A spur beyond the step on which the path left its parent cannot beat the path itself. */
  lemma FloorBeyond(r: Request, next: PathCandidate, i: nat, banned: set<nat>, spur: PathCandidate)
    requires r.g.Valid() && Path(r, next) && |next.nodes| == |next.rows| + 1 && i < |next.rows| && TailLeast(r, AsWalk(next), i)
    requires Best(Spur(r, next.nodes[..i + 1], banned), spur)
    ensures next.cost <= Glue(r.g, next, i, spur).cost
  {
    hide Best, Wanted;
    var total := Glue(r.g, next, i, spur);
    GlueIsPath(r, next, i, banned, spur);
    WantedShape(r, next);
    WantedShape(r, total);
    CostSplit(r.g, next.rows, i);
    CostSplit(r.g, total.rows, i);
    assert WalkLe(r.g, Tail(AsWalk(next), i), Tail(AsWalk(total), i));
  }

  /** A settled root offers no spur under the cheapest candidate but one that is listed. */
  lemma FloorSettled(r: Request, accepted: seq<PathCandidate>, candidates: seq<PathCandidate>, m: nat, i: nat, j: nat, spur: PathCandidate)
    requires r.g.Valid() && RowsJoinPairs(r.g) && Lists(r, accepted, candidates) && AllLean(r, candidates)
    requires m < |candidates| && (forall c | 0 <= c < |candidates| :: candidates[m].cost <= candidates[c].cost)
    requires OriginAt(r, accepted, candidates, m, j) && i <= j && i < |candidates[m].rows| && i < |candidates[m].nodes|
    requires var root := candidates[m].nodes[..i + 1];
             Settled(r, accepted, candidates, root) && Best(Spur(r, root, Bans(accepted + [candidates[m]], root)), spur)
    ensures var total := Glue(r.g, candidates[m], i, spur); Listed(accepted, total.nodes) || candidates[m].cost <= total.cost
  {
    hide Best, Solves, Wanted, Path, RowsJoinPairs, OriginAt, WalkLe, Lean;
    var next := candidates[m];
    var root, accepted' := next.nodes[..i + 1], accepted + [next];
    var q, q' := Spur(r, root, Bans(accepted', root)), Spur(r, root, Bans(accepted, root));
    assert Path(r, next);
    FewerBans(r, accepted, next, root, spur);
    var spur' :| Best(q', spur') && (Listed(accepted, GluedNodes(root, spur')) || Listed(candidates, GluedNodes(root, spur')));
    GlueIsPath(r, next, i, Bans(accepted, root), spur');
    var total' := Glue(r.g, next, i, spur');
    assert root[..i] == next.nodes[..i];
    BestCompare(q', spur', spur);
    if Listed(candidates, total'.nodes) {
      var c :| 0 <= c < |candidates| && candidates[c].nodes == total'.nodes;
      assert Path(r, candidates[c]);
      WantedShape(r, total');
      LeanCheapest(r, candidates[c], AsWalk(total'));
    } else if total'.rows[i] == next.rows[i] {
      NotItsOwnRow(r, accepted, candidates, m, i, j, total');
    } else {
      PickLists(r, accepted, candidates, m);
      StillFree(accepted, next, root, total'.rows[i]);
      WantedShape(r, total');
      RestSolves(r, accepted', root, AsWalk(total'));
      SpurBasics(q', spur');
      BestCompare(q, spur, spur');
      WalkLeBoth(r.g, AsWalk(spur), AsWalk(spur'));
    }
  }

  lemma BestCompare(q: Query, pc: PathCandidate, other: PathCandidate)
    requires Best(q, pc) && Solves(q, AsWalk(other)) && other.cost == Cost(q.g, other.rows)
    ensures WalkLe(q.g, AsWalk(pc), AsWalk(other)) && pc.cost <= other.cost
  {
    hide Solves;
  }

  lemma StillFree(accepted: seq<PathCandidate>, next: PathCandidate, root: seq<nat>, e: nat)
    requires e !in Bans(accepted, root) && 0 < |root| <= |next.rows| && e != next.rows[|root| - 1]
    ensures e !in Bans(accepted + [next], root)
  {
    forall i | 0 <= i < |accepted + [next]|
      ensures !Takes((accepted + [next])[i], root, e)
    {
      assert i < |accepted| ==> (accepted + [next])[i] == accepted[i];
    }
  }

  lemma FewerBans(r: Request, accepted: seq<PathCandidate>, next: PathCandidate, root: seq<nat>, spur: PathCandidate)
    requires |root| > 0 && Best(Spur(r, root, Bans(accepted + [next], root)), spur)
    ensures Solves(Spur(r, root, Bans(accepted, root)), AsWalk(spur)) && spur.cost == Cost(r.g, spur.rows)
  {
    var more, fewer := Bans(accepted + [next], root), Bans(accepted, root);
    forall e: nat | e in fewer
      ensures e in more
    {
      var i :| 0 <= i < |accepted| && Takes(accepted[i], root, e);
      assert Takes((accepted + [next])[i], root, e);
    }
    BansMore(Spur(r, root, more), Spur(r, root, fewer), AsWalk(spur));
  }

  lemma BansMore(q: Query, q': Query, w: Walk)
    requires Solves(q, w) && q' == q.(bannedRows := q'.bannedRows) && q'.bannedRows <= q.bannedRows
    ensures Solves(q', w)
  {
    hide Network.HasArc;
    forall k | 0 <= k < |w.rows|
      ensures q'.Allows(Arc(w.nodes[k + 1], w.rows[k]))
    {
      assert q.Allows(Arc(w.nodes[k + 1], w.rows[k]));
    }
  }

  /** No accepted path lies where a free spur over the candidate's own row would lead. */
  lemma NotItsOwnRow(r: Request, accepted: seq<PathCandidate>, candidates: seq<PathCandidate>, m: nat, i: nat, j: nat, total: PathCandidate)
    requires RowsJoinPairs(r.g) && m < |candidates| && OriginAt(r, accepted, candidates, m, j) && i <= j && i < |total.rows|
    requires Path(r, candidates[m]) && Path(r, total) && i < |candidates[m].rows|
    requires total.nodes[..i] == candidates[m].nodes[..i] && Extends(total.nodes, candidates[m].nodes[..i + 1])
    requires total.rows[i] == candidates[m].rows[i] && total.rows[i] !in Bans(accepted, candidates[m].nodes[..i + 1])
    ensures !Listed(accepted, total.nodes)
  {
    hide TailLeast, Branch;
    var next := candidates[m];
    var root := next.nodes[..i + 1];
    var p :| 0 <= p < |accepted| && Follows(accepted[p], next, j);
    if i < j {
      FollowsTakes(accepted[p], next, j, i);
    } else if Listed(accepted, total.nodes) {
      var a :| 0 <= a < |accepted| && accepted[a].nodes == total.nodes;
      SameRowSameStep(r, AsWalk(next), AsWalk(total), i);
      BranchAt(accepted, a, root, next.nodes[i + 1]);
    }
  }

  lemma FollowsTakes(p: PathCandidate, c: PathCandidate, j: nat, i: nat)
    requires i < j < |c.rows| && j < |c.nodes| && Follows(p, c, j)
    ensures Takes(p, c.nodes[..i + 1], c.rows[i])
  {
    assert p.nodes[..i + 1] == p.nodes[..j + 1][..i + 1] == c.nodes[..i + 1];
    assert p.rows[i] == p.rows[..j][i] == c.rows[i];
  }

  lemma SameRowSameStep(r: Request, a: Walk, b: Walk, i: nat)
    requires RowsJoinPairs(r.g) && Wanted(r, a) && Wanted(r, b) && i < |a.rows| && i < |b.rows|
    requires Extends(b.nodes, a.nodes[..i + 1]) && a.rows[i] == b.rows[i]
    ensures a.nodes[i + 1] == b.nodes[i + 1]
  {
    assert a.nodes[i] == a.nodes[..i + 1][i] == b.nodes[i];
    assert r.g.HasArc(a.nodes[i], a.nodes[i + 1], a.rows[i]) && r.g.HasArc(b.nodes[i], b.nodes[i + 1], b.rows[i]);
  }

  lemma AcceptFloor(r: Request, accepted: seq<PathCandidate>, candidates: seq<PathCandidate>, m: nat)
    requires r.g.Valid() && RowsJoinPairs(r.g) && Lists(r, accepted, candidates) && AllLean(r, candidates) && Origins(r, accepted, candidates)
    requires AllSettled(r, accepted, candidates, |Last(accepted).nodes|)
    requires m < |candidates| && (forall c | 0 <= c < |candidates| :: candidates[m].cost <= candidates[c].cost)
    ensures Floor(r, accepted + [candidates[m]], SwapRemove(candidates, m))
  {
    hide Best, Path, RowsJoinPairs, AllLean, AllSettled, OriginAt, Listed, Wanted;
    var next := candidates[m];
    var accepted', rest := accepted + [next], SwapRemove(candidates, m);
    assert HasOrigin(r, accepted, candidates, m);
    var j :| OriginAt(r, accepted, candidates, m, j);
    forall i: nat, spur | i < |next.rows| && i < |next.nodes|
      ensures FloorAt(r, accepted', rest, i, spur)
    {
      if Best(Spur(r, next.nodes[..i + 1], Bans(accepted', next.nodes[..i + 1])), spur) {
        AcceptFloorAt(r, accepted, candidates, m, j, i, spur);
        if Listed(accepted, Glue(r.g, next, i, spur).nodes) {
          ListedStays(accepted, next, Glue(r.g, next, i, spur).nodes);
        }
      }
    }
  }

  lemma AcceptFloorAt(r: Request, accepted: seq<PathCandidate>, candidates: seq<PathCandidate>, m: nat, j: nat, i: nat, spur: PathCandidate)
    requires r.g.Valid() && RowsJoinPairs(r.g) && Lists(r, accepted, candidates) && AllLean(r, candidates)
    requires AllSettled(r, accepted, candidates, |Last(accepted).nodes|)
    requires m < |candidates| && (forall c | 0 <= c < |candidates| :: candidates[m].cost <= candidates[c].cost)
    requires OriginAt(r, accepted, candidates, m, j) && i < |candidates[m].rows| && i < |candidates[m].nodes|
    requires var root := candidates[m].nodes[..i + 1]; Best(Spur(r, root, Bans(accepted + [candidates[m]], root)), spur)
    ensures var total := Glue(r.g, candidates[m], i, spur); Listed(accepted, total.nodes) || candidates[m].cost <= total.cost
  {
    hide Best, Path, RowsJoinPairs, AllLean, Settled, Listed, Wanted, TailLeast, Alone, LeadAt;
    var next := candidates[m];
    if i > j {
      assert Path(r, next);
      FloorBeyond(r, next, i, Bans(accepted + [next], next.nodes[..i + 1]), spur);
    } else {
      var p :| 0 <= p < |accepted| && Follows(accepted[p], next, j);
      assert accepted[p].nodes[..i + 1] == accepted[p].nodes[..j + 1][..i + 1] == next.nodes[..i + 1];
      assert Settled(r, accepted, candidates, accepted[p].nodes[..i + 1]);
      FloorSettled(r, accepted, candidates, m, i, j, spur);
    }
  }

  lemma ListedStays(accepted: seq<PathCandidate>, next: PathCandidate, ns: seq<nat>)
    requires Listed(accepted, ns)
    ensures Listed(accepted + [next], ns)
  {
    var i :| 0 <= i < |accepted| && accepted[i].nodes == ns;
    assert (accepted + [next])[i] == accepted[i];
  }

  // ---- exactness ----

  /** A wanted path that is not accepted parts from all accepted ones at a proper prefix of one of them. */
  lemma {:induction false} FindDeparture(r: Request, accepted: seq<PathCandidate>, w: Walk, a: nat, j: nat) returns (b: nat, n: nat)
    requires Paths(r, accepted) && Wanted(r, w) && !Listed(accepted, w.nodes)
    requires a < |accepted| && 1 <= j <= |w.nodes| && j <= |accepted[a].nodes| && accepted[a].nodes[..j] == w.nodes[..j]
    ensures b < |accepted| && 1 <= n < |w.nodes| && n < |accepted[b].nodes| && accepted[b].nodes[..n] == w.nodes[..n]
    ensures !Branch(accepted, w.nodes[..n], w.nodes[n])
    decreases |w.nodes| - j
  {
    hide Paths, Wanted, Branch;
    if j == |w.nodes| || j == |accepted[a].nodes| {
      SharedToTheEnd(r, accepted, w, a, j);
    } else if Branch(accepted, w.nodes[..j], w.nodes[j]) {
      var m := LongerShare(accepted, w.nodes, j);
      b, n := FindDeparture(r, accepted, w, m, j + 1);
    } else {
      b, n := a, j;
    }
  }

  lemma SharedToTheEnd(r: Request, accepted: seq<PathCandidate>, w: Walk, i: nat, j: nat)
    requires Paths(r, accepted) && Wanted(r, w)
    requires i < |accepted| && 1 <= j <= |w.nodes| && j <= |accepted[i].nodes| && accepted[i].nodes[..j] == w.nodes[..j]
    requires j == |w.nodes| || j == |accepted[i].nodes|
    ensures Listed(accepted, w.nodes)
  {
    var a := accepted[i].nodes;
    assert Path(r, accepted[i]);
    assert a[j - 1] == a[..j][j - 1] == w.nodes[..j][j - 1] == w.nodes[j - 1];
    assert a[j - 1] == r.t && w.nodes[j - 1] == r.t;
    assert a == a[..j] && w.nodes == w.nodes[..j];
  }

  lemma LongerShare(accepted: seq<PathCandidate>, ns: seq<nat>, j: nat) returns (m: nat)
    requires j < |ns| && Branch(accepted, ns[..j], ns[j])
    ensures m < |accepted| && j + 1 <= |accepted[m].nodes| && accepted[m].nodes[..j + 1] == ns[..j + 1]
  {
    m :| 0 <= m < |accepted| && Through(accepted[m].nodes, ns[..j], ns[j]);
    ThroughPrefix(accepted[m].nodes, ns[..j], ns[j]);
    assert ns[..j + 1] == ns[..j] + [ns[j]];
  }

  /** Without hidden branches some candidate costs no more than any wanted path not accepted yet. */
  lemma CandidatesSuffice(r: Request, accepted: seq<PathCandidate>, candidates: seq<PathCandidate>, w: Walk)
    requires |accepted| > 0 && State(r, accepted, candidates, |Last(accepted).nodes|) && NoHiddenBranch(r)
    requires Wanted(r, w) && !Listed(accepted, w.nodes)
    ensures exists c :: 0 <= c < |candidates| && candidates[c].cost <= Cost(r.g, w.rows)
  {
    hide Path, RowsJoinPairs, NoHiddenBranch, Ordered, Led, Origins, Floor, Rising, Settled, Branch, Listed, Lean;
    assert Path(r, accepted[0]);
    WantedShape(r, accepted[0]);
    assert accepted[0].nodes[..1] == [r.s] == w.nodes[..1];
    var b, n := FindDeparture(r, accepted, w, 0, 1);
    var root := accepted[b].nodes[..n];
    assert Settled(r, accepted, candidates, root);
    assert Path(r, accepted[b]);
    DepartureCovered(r, accepted, candidates, w, b, n);
  }

  lemma DepartureCovered(r: Request, accepted: seq<PathCandidate>, candidates: seq<PathCandidate>, w: Walk, b: nat, n: nat)
    requires r.g.Valid() && RowsJoinPairs(r.g) && NoHiddenBranch(r)
    requires Lists(r, accepted, candidates) && AllLean(r, accepted) && AllLean(r, candidates)
    requires Wanted(r, w) && b < |accepted| && Path(r, accepted[b]) && 1 <= n < |w.nodes| && n < |accepted[b].nodes|
    requires accepted[b].nodes[..n] == w.nodes[..n] && !Branch(accepted, w.nodes[..n], w.nodes[n])
    requires Settled(r, accepted, candidates, w.nodes[..n])
    ensures exists c :: 0 <= c < |candidates| && candidates[c].cost <= Cost(r.g, w.rows)
  {
    hide Best, Solves, RowsJoinPairs, NoHiddenBranch, Path, Branch, Lean, WalkLe;
    var root := w.nodes[..n];
    var q := Spur(r, root, Bans(accepted, root));
    assert r.g.HasArc(w.nodes[n - 1], w.nodes[n], w.rows[n - 1]);
    hide Wanted;
    FreshRowFree(r, accepted, root, w, w.rows[n - 1]);
    RestSolves(r, accepted, root, w);
    var spur :| Best(q, spur) && (Listed(accepted, GluedNodes(root, spur)) || Listed(candidates, GluedNodes(root, spur)));
    WantedShape(r, accepted[b]);
    GlueIsPath(r, accepted[b], n - 1, Bans(accepted, root), spur);
    var total := Glue(r.g, accepted[b], n - 1, spur);
    assert total.nodes == GluedNodes(root, spur) by {
      assert root[..n - 1] == accepted[b].nodes[..n][..n - 1] == accepted[b].nodes[..n - 1];
    }
    if Listed(accepted, total.nodes) {
      DroppedIsHidden(r, accepted, w, n, total);
    } else {
      GlueUnder(r, accepted[b], w, n - 1, q, spur);
      var c :| 0 <= c < |candidates| && candidates[c].nodes == total.nodes;
      assert Path(r, candidates[c]);
      WantedShape(r, total);
      LeanCheapest(r, candidates[c], AsWalk(total));
    }
  }

  /** A spur dropped as accepted already runs beside an accepted path. */
  lemma DroppedRunsBeside(r: Request, accepted: seq<PathCandidate>, w: Walk, n: nat, total: PathCandidate, a: nat)
    requires Paths(r, accepted) && Wanted(r, w) && Path(r, total) && 1 <= n < |w.nodes|
    requires Extends(total.nodes, w.nodes[..n]) && n - 1 < |total.rows| && total.rows[n - 1] !in Bans(accepted, w.nodes[..n])
    requires !Branch(accepted, w.nodes[..n], w.nodes[n]) && a < |accepted| && accepted[a].nodes == total.nodes
    ensures HiddenBranch(r, AsWalk(accepted[a]), w, n - 1, total.rows[n - 1])
  {
    assert Path(r, accepted[a]);
    assert Takes(accepted[a], w.nodes[..n], accepted[a].rows[n - 1]);
    assert !Through(accepted[a].nodes, w.nodes[..n], w.nodes[n]);
    assert r.g.HasArc(total.nodes[n - 1], total.nodes[n], total.rows[n - 1]);
  }

  /** Without hidden branches no spur is dropped as accepted already. */
  lemma DroppedIsHidden(r: Request, accepted: seq<PathCandidate>, w: Walk, n: nat, total: PathCandidate)
    requires NoHiddenBranch(r) && Paths(r, accepted) && Wanted(r, w) && Path(r, total) && 1 <= n < |w.nodes|
    requires Extends(total.nodes, w.nodes[..n]) && n - 1 < |total.rows| && total.rows[n - 1] !in Bans(accepted, w.nodes[..n])
    requires !Branch(accepted, w.nodes[..n], w.nodes[n])
    ensures !Listed(accepted, total.nodes)
  {
    hide HiddenBranch, Paths, Path, Branch, Extends, Wanted;
    if Listed(accepted, total.nodes) {
      var a :| 0 <= a < |accepted| && accepted[a].nodes == total.nodes;
      DroppedRunsBeside(r, accepted, w, n, total, a);
    }
  }

  lemma GlueUnder(r: Request, a: PathCandidate, w: Walk, i: nat, q: Query, spur: PathCandidate)
    requires Path(r, a) && |a.nodes| == |a.rows| + 1 && Lean(r.g, a) && Wanted(r, w) && i < |a.rows| && i < |w.rows| && i < |w.nodes|
    requires a.nodes[..i + 1] == w.nodes[..i + 1] && q.g == r.g && Best(q, spur) && Solves(q, Tail(w, i))
    ensures Glue(r.g, a, i, spur).cost <= Cost(r.g, w.rows)
  {
    hide Path, Wanted, Lean, Solves;
    LeanPrefix(r, a, w, i);
    CostSplit(r.g, w.rows, i);
    assert WalkLe(q.g, AsWalk(spur), Tail(w, i));
  }

  lemma AcceptCheapest(r: Request, accepted: seq<PathCandidate>, candidates: seq<PathCandidate>, m: nat)
    requires |accepted| > 0 && State(r, accepted, candidates, |Last(accepted).nodes|) && NoHiddenBranch(r)
    requires m < |candidates| && forall i | 0 <= i < |candidates| :: candidates[m].cost <= candidates[i].cost
    ensures Ordered(r, accepted + [candidates[m]])
  {
    hide NoHiddenBranch, Wanted, Listed;
    var accepted' := accepted + [candidates[m]];
    forall i | 0 <= i < |accepted'|
      ensures Cheapest(r, accepted'[..i], accepted'[i])
    {
      if i < |accepted| {
        assert accepted'[..i] == accepted[..i];
      } else {
        assert accepted'[..i] == accepted;
        forall w | Wanted(r, w) && !Listed(accepted, w.nodes)
          ensures candidates[m].cost <= Cost(r.g, w.rows)
        {
          CandidatesSuffice(r, accepted, candidates, w);
        }
      }
    }
  }

  lemma AcceptState(r: Request, accepted: seq<PathCandidate>, candidates: seq<PathCandidate>, m: nat)
    requires |accepted| > 0 && State(r, accepted, candidates, |Last(accepted).nodes|)
    requires m < |candidates| && forall i | 0 <= i < |candidates| :: candidates[m].cost <= candidates[i].cost
    ensures State(r, accepted + [candidates[m]], SwapRemove(candidates, m), 0)
  {
    hide Path, RowsJoinPairs, NoHiddenBranch, Ordered, Led, Origins, Floor, Rising, AllSettled, Lean, Lists;
    PickLists(r, accepted, candidates, m);
    AcceptLed(r, accepted, candidates, m);
    AcceptOrigins(r, accepted, candidates, m);
    AcceptSettles(r, accepted, candidates, m);
    AcceptFloor(r, accepted, candidates, m);
    AcceptRising(accepted, candidates, m);
    if NoHiddenBranch(r) {
      AcceptCheapest(r, accepted, candidates, m);
    }
  }

  // ---- runs ----

  lemma PickedIsCheapest(candidates: seq<PathCandidate>, m: nat, next: PathCandidate, rest: seq<PathCandidate>)
    requires Picked(candidates, m, next, rest)
    ensures m < |candidates| && next == candidates[m] && rest == SwapRemove(candidates, m)
    ensures forall i | 0 <= i < |candidates| :: candidates[m].cost <= candidates[i].cost
  {
    hide LexLe;
  }

  lemma {:induction false} RunState(r: Request, accepted: seq<PathCandidate>, candidates: seq<PathCandidate>)
    requires r.g.Valid() && RowsJoinPairs(r.g) && Run(r, accepted, candidates)
    ensures State(r, accepted, candidates, 0)
    decreases |accepted|
  {
    hide State, Best, Round, Picked, RowsJoinPairs;
    if |accepted| == 1 {
      FirstState(r, accepted[0]);
      assert accepted == [accepted[0]];
    } else {
      var c0, c1, m := RunSplits(r, accepted, candidates);
      var front := accepted[..|accepted| - 1];
      RunState(r, front, c0);
      RoundState(r, front, c0, c1);
      PickedIsCheapest(c1, m, Last(accepted), candidates);
      AcceptState(r, front, c1, m);
      assert accepted == front + [c1[m]];
    }
  }

  /** Whatever the edges: distinct wanted paths, none exactly when there is none, the first one cheapest. */
  lemma YieldsPaths(r: Request, k: nat, res: seq<PathCandidate>)
    requires r.g.Valid() && Yields(r, k, res)
    ensures |res| <= k && Paths(r, res)
    ensures k > 0 ==> (res == [] <==> forall w :: !Wanted(r, w))
    ensures res != [] ==> Cheapest(r, [], res[0])
  {
    hide Best, Solves, Round, Path, Wanted;
    if k == 0 || forall w :: !Solves(r.Whole(), w) {
      forall w | Wanted(r, w)
        ensures k == 0
      {
        WantedSolves(r, w);
      }
    } else {
      var candidates :| Run(r, res, candidates) && (|res| == k || (|res| < k && Round(r, res, candidates, [])));
      RunLists(r, res, candidates);
      BestIsPath(r, res[0]);
      WantedShape(r, res[0]);
      FirstWhole(r, res[0]);
    }
  }

  /** Whatever the edges: costs never fall, and each path uses the cheapest rows between its nodes. */
  lemma YieldsInOrder(r: Request, k: nat, res: seq<PathCandidate>)
    requires r.g.Valid() && RowsJoinPairs(r.g) && Yields(r, k, res)
    ensures NonDecreasing(res)
    ensures forall i, w | 0 <= i < |res| && Wanted(r, w) && w.nodes == res[i].nodes :: res[i].cost <= Cost(r.g, w.rows)
  {
    hide Best, Solves, Round, Path, Wanted, RowsJoinPairs, Led, Origins, AllSettled, Floor, Lean, NoHiddenBranch, Run;
    if res != [] {
      var candidates :| Run(r, res, candidates) && (|res| == k || (|res| < k && Round(r, res, candidates, [])));
      RunState(r, res, candidates);
      forall i, w | 0 <= i < |res| && Wanted(r, w) && w.nodes == res[i].nodes
        ensures res[i].cost <= Cost(r.g, w.rows)
      {
        assert Path(r, res[i]);
        LeanCheapest(r, res[i], w);
      }
    }
  }

  /** Without hidden branches each path is the cheapest left at its turn, and fewer than `k` are all there are. */
  lemma YieldsExact(r: Request, k: nat, res: seq<PathCandidate>)
    requires r.g.Valid() && RowsJoinPairs(r.g) && NoHiddenBranch(r) && Yields(r, k, res)
    ensures Ordered(r, res) && (|res| < k ==> Complete(r, res))
  {
    hide Best, Solves, Round, Wanted, RowsJoinPairs, Led, Origins, AllSettled, Floor, NoHiddenBranch, Run, Ordered, State;
    if k == 0 || forall w :: !Solves(r.Whole(), w) {
      NothingLeft(r);
    } else {
      var candidates :| Run(r, res, candidates) && (|res| == k || (|res| < k && Round(r, res, candidates, [])));
      RunState(r, res, candidates);
      StateOrdered(r, res, candidates, 0);
      if |res| < k {
        RoundState(r, res, candidates, []);
        forall w | Wanted(r, w)
          ensures Listed(res, w.nodes)
        {
          if !Listed(res, w.nodes) {
            CandidatesSuffice(r, res, [], w);
          }
        }
      }
    }
  }

  lemma StateOrdered(r: Request, accepted: seq<PathCandidate>, candidates: seq<PathCandidate>, k: nat)
    requires State(r, accepted, candidates, k) && NoHiddenBranch(r)
    ensures Ordered(r, accepted)
  {
  }

  lemma NothingLeft(r: Request)
    ensures Ordered(r, [])
    ensures (forall w :: !Solves(r.Whole(), w)) ==> Complete(r, [])
  {
    hide Solves, Wanted, Listed;
    forall w | Wanted(r, w)
      ensures Solves(r.Whole(), w)
    {
      WantedSolves(r, w);
    }
  }
}
