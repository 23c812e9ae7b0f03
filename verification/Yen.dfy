/** Yen's k-shortest simple paths over the hop-layered search. */
module Yen {
  import opened Basics
  import opened Networks
  import opened HopSearch
  import opened Deviations
  import opened YenRuns
  import opened YenInvariants

  /** A path that starts with `root`, which does not end at the target, goes on beyond it. */
  lemma RowInRange(path: PathCandidate, root: seq<nat>, t: nat)
    requires |path.nodes| == |path.rows| + 1 && path.nodes[|path.rows|] == t
    requires 0 < |root| <= |path.nodes| && path.nodes[..|root|] == root && root[|root| - 1] != t
    ensures |root| - 1 < |path.rows|
  {
    assert path.nodes[|root| - 1] == root[|root| - 1];
  }

  /** The rows that accepted paths take out of `root`; the indexing is always in range. */
  method BannedRows(ghost r: Request, accepted: seq<PathCandidate>, root: seq<nat>) returns (banned: set<nat>)
    requires |root| > 0 && root[|root| - 1] != r.t && Paths(r, accepted)
    ensures banned == Bans(accepted, root)
  {
    banned := {};
    var i := 0;
    while i < |accepted|
      invariant 0 <= i <= |accepted|
      invariant forall e: nat :: e in banned <==> exists j :: 0 <= j < i && Takes(accepted[j], root, e)
    {
      var path := accepted[i];
      assert Path(r, path);
      if |path.nodes| > |root| - 1 && path.nodes[..|root|] == root {
        RowInRange(path, root, r.t);
        banned := banned + {path.rows[|root| - 1]};
        assert forall e: nat :: Takes(path, root, e) <==> e == path.rows[|root| - 1];
      } else {
        assert forall e: nat :: !Takes(path, root, e);
      }
      i := i + 1;
    }
  }

  lemma {:induction false} LexLeTotal(a: seq<nat>, b: seq<nat>)
    requires !LexLe(a, b)
    ensures LexLe(b, a)
  {
    if a != [] && b != [] && a[0] == b[0] {
      LexLeTotal(a[1..], b[1..]);
    }
  }

  lemma {:induction false} LexLeTrans(a: seq<nat>, b: seq<nat>, c: seq<nat>)
    requires LexLe(a, b) && LexLe(b, c)
    ensures LexLe(a, c)
  {
    if a != [] && b != [] && c != [] && a[0] == b[0] == c[0] {
      LexLeTrans(a[1..], b[1..], c[1..]);
    }
  }

  lemma {:induction false} LexLeSelf(a: seq<nat>)
    ensures LexLe(a, a)
  {
    if a != [] {
      LexLeSelf(a[1..]);
    }
  }

  lemma CandidateOrder(a: PathCandidate, b: PathCandidate, c: PathCandidate)
    ensures CandidateLe(a, a) && (CandidateLe(a, b) || CandidateLe(b, a))
    ensures CandidateLe(a, b) && CandidateLe(b, c) ==> CandidateLe(a, c)
  {
    LexLeSelf(a.nodes);
    if !LexLe(a.nodes, b.nodes) {
      LexLeTotal(a.nodes, b.nodes);
    }
    if LexLe(a.nodes, b.nodes) && LexLe(b.nodes, c.nodes) {
      LexLeTrans(a.nodes, b.nodes, c.nodes);
    }
  }

  /** `a` and `b` agree up to `k`, where `a` has the smaller node. */
  predicate SmallerAt(a: seq<nat>, b: seq<nat>, k: nat) {
    k < |a| && k < |b| && a[..k] == b[..k] && a[k] < b[k]
  }

  lemma {:induction false} LexLeMeans(a: seq<nat>, b: seq<nat>, k: nat)
    requires LexLe(a, b)
    ensures !SmallerAt(b, a, k)
    decreases k
  {
    if k > 0 && SmallerAt(b, a, k) {
      assert a[0] == a[..k][0] == b[..k][0] == b[0];
      assert a[1..][..k - 1] == a[..k][1..] && b[1..][..k - 1] == b[..k][1..];
      LexLeMeans(a[1..], b[1..], k - 1);
    }
  }

  /** The cheapest candidate, ties broken by the node sequence. */
  method SelectBest(candidates: seq<PathCandidate>) returns (m: nat)
    requires |candidates| > 0
    ensures m < |candidates| && forall i | 0 <= i < |candidates| :: CandidateLe(candidates[m], candidates[i])
    ensures forall i | 0 <= i < |candidates| :: candidates[m].cost <= candidates[i].cost
    ensures forall i, k: nat | 0 <= i < |candidates| && candidates[i].cost == candidates[m].cost ::
      !SmallerAt(candidates[i].nodes, candidates[m].nodes, k)
  {
    hide LexLe;
    m := 0;
    var i := 1;
    CandidateOrder(candidates[0], candidates[0], candidates[0]);
    while i < |candidates|
      invariant m < i <= |candidates|
      invariant forall j | 0 <= j < i :: CandidateLe(candidates[m], candidates[j])
    {
      CandidateOrder(candidates[i], candidates[m], candidates[m]);
      if !CandidateLe(candidates[m], candidates[i]) {
        forall j | 0 <= j < i
          ensures CandidateLe(candidates[i], candidates[j])
        {
          CandidateOrder(candidates[i], candidates[m], candidates[j]);
        }
        m := i;
      }
      i := i + 1;
    }
    forall i, k: nat | 0 <= i < |candidates| && candidates[i].cost == candidates[m].cost
      ensures !SmallerAt(candidates[i].nodes, candidates[m].nodes, k)
    {
      LexLeMeans(candidates[m].nodes, candidates[i].nodes, k);
    }
  }

  function Keys(ps: seq<PathCandidate>): set<seq<nat>> {
    set i | 0 <= i < |ps| :: ps[i].nodes
  }

  lemma KeysList(ps: seq<PathCandidate>, nodes: seq<nat>)
    ensures nodes in Keys(ps) <==> Listed(ps, nodes)
  {
  }

  lemma KeysPush(ps: seq<PathCandidate>, p: PathCandidate)
    ensures Keys(ps + [p]) == Keys(ps) + {p.nodes}
  {
    forall nodes
      ensures nodes in Keys(ps + [p]) <==> nodes in Keys(ps) + {p.nodes}
    {
      KeysList(ps, nodes);
      KeysList(ps + [p], nodes);
      assert (ps + [p])[|ps|] == p;
      assert forall i | 0 <= i < |ps| :: (ps + [p])[i] == ps[i];
    }
  }

  /** The inner loop over spur positions of the path accepted last. */
  method CollectSpurs(r: Request, accepted: seq<PathCandidate>, acceptedKeys: set<seq<nat>>,
                      candidates0: seq<PathCandidate>, candidateKeys0: set<seq<nat>>)
    returns (candidates: seq<PathCandidate>, candidateKeys: set<seq<nat>>)
    requires r.g.Valid() && r.t < |r.g.adj| && Lists(r, accepted, candidates0)
    requires acceptedKeys == Keys(accepted) && candidateKeys0 == Keys(candidates0)
    ensures Round(r, accepted, candidates0, candidates) && Lists(r, accepted, candidates)
    ensures candidateKeys == Keys(candidates)
  {
    hide *;
    candidates, candidateKeys := candidates0, candidateKeys0;
    LastIsPath(r, accepted, candidates);
    var last := accepted[|accepted| - 1];
    var i := 0;
    NoSpurs(r, accepted, candidates);
    while i < |last.nodes| - 1
      invariant 0 <= i <= |last.nodes| - 1
      invariant Spurs(r, accepted, i, candidates0, candidates) && Lists(r, accepted, candidates)
      invariant candidateKeys == Keys(candidates)
    {
      var root := last.nodes[..i + 1];
      RootNotTarget(r, last, i);
      var banned := BannedRows(r, accepted, root);
      var spur := ShortestPathCandidate(r.g, last.nodes[i], r.t, Before(root), banned, Remaining(r.maxHops, i));
      SpurQuery(r, last.nodes, i, banned);
      ghost var held := candidates;
      if spur.None? {
        NoSpurStep(r, accepted, i, candidates, Spur(r, root, banned));
      } else {
        FoundSpurStep(r, accepted, i, candidates, spur.value);
        var total := PathCandidate(last.nodes[..i] + spur.value.nodes, last.rows[..i] + spur.value.rows,
                                   Cost(r.g, last.rows[..i]) + spur.value.cost);
        KeysList(accepted, total.nodes);
        KeysList(candidates, total.nodes);
        OfferMeans(r.g, accepted, candidates, last, i, spur.value, total);
        if !(total.nodes in acceptedKeys || total.nodes in candidateKeys) {
          KeysPush(candidates, total);
          candidateKeys := candidateKeys + {total.nodes};
          candidates := candidates + [total];
        }
      }
      SpurStepLists(r, accepted, i, held, candidates);
      OneMoreSpur(r, accepted, i, candidates0, held, candidates);
      i := i + 1;
    }
    RoundMeans(r, accepted, candidates0, candidates);
  }

  lemma LastIsPath(r: Request, accepted: seq<PathCandidate>, candidates: seq<PathCandidate>)
    requires Lists(r, accepted, candidates)
    ensures |accepted| > 0 && Paths(r, accepted) && Path(r, Last(accepted)) && Last(accepted) == accepted[|accepted| - 1]
    ensures |Last(accepted).nodes| == |Last(accepted).rows| + 1
  {
    LastShape(r, accepted, candidates);
  }

  lemma NoSpurs(r: Request, accepted: seq<PathCandidate>, candidates: seq<PathCandidate>)
    ensures Spurs(r, accepted, 0, candidates, candidates)
  {
  }

  lemma OneMoreSpur(r: Request, accepted: seq<PathCandidate>, i: nat, c0: seq<PathCandidate>, c1: seq<PathCandidate>, c2: seq<PathCandidate>)
    requires Spurs(r, accepted, i, c0, c1) && SpurStep(r, accepted, i, c1, c2)
    ensures Spurs(r, accepted, i + 1, c0, c2)
  {
    hide SpurStep;
  }

  lemma RoundMeans(r: Request, accepted: seq<PathCandidate>, c0: seq<PathCandidate>, c1: seq<PathCandidate>)
    requires |accepted| > 0 && |Last(accepted).nodes| == |Last(accepted).rows| + 1
    requires Spurs(r, accepted, |Last(accepted).nodes| - 1, c0, c1)
    ensures Round(r, accepted, c0, c1)
  {
    hide Spurs;
  }

  lemma RootNotTarget(r: Request, last: PathCandidate, i: nat)
    requires Path(r, last) && i < |last.nodes| - 1
    ensures last.nodes[i] != r.t && last.nodes[i] < |r.g.adj| && last.nodes[i] !in Before(last.nodes[..i + 1])
    ensures r.t !in Before(last.nodes[..i + 1])
  {
  }

  lemma SpurQuery(r: Request, nodes: seq<nat>, i: nat, banned: set<nat>)
    requires i < |nodes|
    ensures |nodes[..i + 1]| == i + 1
    ensures Spur(r, nodes[..i + 1], banned) ==
            Query(r.g, nodes[i], r.t, Before(nodes[..i + 1]), banned, HopLimit(r.g, Remaining(r.maxHops, i)))
  {
  }

  lemma NoSpurStep(r: Request, accepted: seq<PathCandidate>, i: nat, candidates: seq<PathCandidate>, q: Query)
    requires |accepted| > 0 && i < |Last(accepted).rows| && i < |Last(accepted).nodes|
    requires q == Spur(r, Last(accepted).nodes[..i + 1], Bans(accepted, Last(accepted).nodes[..i + 1]))
    requires forall w :: !Solves(q, w)
    ensures SpurStep(r, accepted, i, candidates, candidates)
  {
    hide Solves, Best;
  }

  lemma FoundSpurStep(r: Request, accepted: seq<PathCandidate>, i: nat, candidates: seq<PathCandidate>, spur: PathCandidate)
    requires |accepted| > 0 && i < |Last(accepted).rows| && i < |Last(accepted).nodes|
    requires Best(Spur(r, Last(accepted).nodes[..i + 1], Bans(accepted, Last(accepted).nodes[..i + 1])), spur)
    ensures SpurStep(r, accepted, i, candidates, Offer(accepted, candidates, Glue(r.g, Last(accepted), i, spur)))
  {
    hide Solves, Best;
  }

  lemma OfferMeans(g: Network, accepted: seq<PathCandidate>, candidates: seq<PathCandidate>, last: PathCandidate, i: nat,
                   spur: PathCandidate, total: PathCandidate)
    requires i <= |last.nodes| && i <= |last.rows|
    requires total == PathCandidate(last.nodes[..i] + spur.nodes, last.rows[..i] + spur.rows, Cost(g, last.rows[..i]) + spur.cost)
    ensures Offer(accepted, candidates, Glue(g, last, i, spur)) ==
            if Listed(accepted, total.nodes) || Listed(candidates, total.nodes) then candidates else candidates + [total]
  {
  }

  lemma WholeQuery(r: Request)
    ensures r.Whole() == Query(r.g, r.s, r.t, {}, {}, HopLimit(r.g, r.maxHops))
    ensures r.s !in {} && r.t !in {}
  {
  }

  lemma YieldsNothing(r: Request, k: nat)
    requires k == 0 || forall w :: !Solves(r.Whole(), w)
    ensures Yields(r, k, [])
  {
    hide Solves;
  }

  lemma FirstRun(r: Request, first: PathCandidate)
    requires Best(r.Whole(), first)
    ensures Run(r, [first], [])
  {
    hide Best;
  }

  lemma NextRun(r: Request, accepted: seq<PathCandidate>, c0: seq<PathCandidate>, c1: seq<PathCandidate>, m: nat)
    requires |accepted| > 0 && Run(r, accepted, c0) && Round(r, accepted, c0, c1)
    requires m < |c1| && forall i | 0 <= i < |c1| :: CandidateLe(c1[m], c1[i])
    ensures Run(r, accepted + [c1[m]], SwapRemove(c1, m))
  {
    hide Round, Best, CandidateLe;
    assert (accepted + [c1[m]])[..|accepted|] == accepted;
    assert Picked(c1, m, c1[m], SwapRemove(c1, m));
    assert Accepts(r, accepted, c0, Last(accepted + [c1[m]]), SwapRemove(c1, m));
  }

  lemma EndsEarly(r: Request, k: nat, accepted: seq<PathCandidate>, c0: seq<PathCandidate>, c1: seq<PathCandidate>)
    requires r.g.Valid() && |accepted| < k && Run(r, accepted, c0) && Round(r, accepted, c0, c1) && |c1| == 0
    ensures Yields(r, k, accepted)
  {
    hide Round, Solves, Run;
    RunSolves(r, accepted, c0);
    assert c1 == [];
  }

  lemma EndsFull(r: Request, k: nat, accepted: seq<PathCandidate>, candidates: seq<PathCandidate>)
    requires r.g.Valid() && |accepted| == k > 0 && Run(r, accepted, candidates)
    ensures Yields(r, k, accepted)
  {
    hide Round, Solves, Run;
    RunSolves(r, accepted, candidates);
  }

  lemma RunSolves(r: Request, accepted: seq<PathCandidate>, candidates: seq<PathCandidate>)
    requires r.g.Valid() && Run(r, accepted, candidates)
    ensures exists w :: Solves(r.Whole(), w)
  {
    hide Run, Solves;
    RunLists(r, accepted, candidates);
    SpurBasics(r.Whole(), accepted[0]);
  }

  lemma FirstKeys(first: PathCandidate)
    ensures Keys([first]) == {first.nodes} && Keys([]) == {}
  {
    assert Keys([first]) == {[first][0].nodes};
  }

  lemma AcceptKeys(r: Request, accepted: seq<PathCandidate>, candidates: seq<PathCandidate>, m: nat)
    requires Lists(r, accepted, candidates) && m < |candidates|
    ensures Keys(SwapRemove(candidates, m)) == Keys(candidates) - {candidates[m].nodes}
    ensures Keys(accepted + [candidates[m]]) == Keys(accepted) + {candidates[m].nodes}
  {
    hide Path;
    KeysPush(accepted, candidates[m]);
    var rest := SwapRemove(candidates, m);
    forall nodes
      ensures nodes in Keys(rest) <==> nodes in Keys(candidates) - {candidates[m].nodes}
    {
      KeysList(rest, nodes);
      KeysList(candidates, nodes);
      if Listed(candidates, nodes) && nodes != candidates[m].nodes {
        var i :| 0 <= i < |candidates| && candidates[i].nodes == nodes;
        assert candidates[i] in rest;
        var j :| 0 <= j < |rest| && rest[j] == candidates[i];
      }
    }
  }

  /** The outer loop: one round of spur searches for every path accepted. */
  method Accumulate(r: Request, k: nat) returns (accepted: seq<PathCandidate>)
    requires r.g.Valid() && r.s < |r.g.adj| && r.t < |r.g.adj|
    ensures Yields(r, k, accepted)
  {
    hide *;
    if k == 0 {
      YieldsNothing(r, k);
      return [];
    }
    var first := ShortestPathCandidate(r.g, r.s, r.t, {}, {}, r.maxHops);
    WholeQuery(r);
    if first.None? {
      YieldsNothing(r, k);
      return [];
    }
    FirstRun(r, first.value);
    accepted := [first.value];
    var acceptedKeys := {first.value.nodes};
    var candidates: seq<PathCandidate>, candidateKeys: set<seq<nat>> := [], {};
    FirstKeys(first.value);

    while |accepted| < k
      invariant 0 < |accepted| <= k && Run(r, accepted, candidates)
      invariant acceptedKeys == Keys(accepted) && candidateKeys == Keys(candidates)
    {
      RunLists(r, accepted, candidates);
      ghost var c0 := candidates;
      candidates, candidateKeys := CollectSpurs(r, accepted, acceptedKeys, candidates, candidateKeys);
      if |candidates| == 0 {
        EndsEarly(r, k, accepted, c0, candidates);
        return;
      }
      var m := SelectBest(candidates);
      var next := candidates[m];
      NextRun(r, accepted, c0, candidates, m);
      AcceptKeys(r, accepted, candidates, m);
      candidates := SwapRemove(candidates, m);
      candidateKeys := candidateKeys - {next.nodes};
      acceptedKeys := acceptedKeys + {next.nodes};
      accepted := accepted + [next];
    }
    EndsFull(r, k, accepted, candidates);
  }

  /** Up to `k` simple paths from `src` to `dst`, none listed twice, in non-decreasing cost and each by its
      cheapest rows. Unless a branch is hidden behind parallel edges, each is the cheapest one left at its turn,
      and fewer than `k` come back only when there are no more. */
  method KShortestPaths(g: Network, src: nat, dst: nat, k: nat, maxHops: Option<nat>) returns (accepted: seq<PathCandidate>)
    requires g.Valid() && src < |g.adj| && dst < |g.adj|
    ensures var r := Request(g, src, dst, maxHops);
            && Yields(r, k, accepted) && |accepted| <= k && Paths(r, accepted)
            && (k > 0 ==> (accepted == [] <==> forall w :: !Wanted(r, w)))
            && (accepted != [] ==> Cheapest(r, [], accepted[0]))
            && (RowsJoinPairs(g) ==> NonDecreasing(accepted))
            && (RowsJoinPairs(g) && NoHiddenBranch(r) ==> Ordered(r, accepted) && (|accepted| < k ==> Complete(r, accepted)))
  {
    hide *;
    var r := Request(g, src, dst, maxHops);
    accepted := Accumulate(r, k);
    YieldsPaths(r, k, accepted);
    if RowsJoinPairs(g) {
      YieldsInOrder(r, k, accepted);
      if NoHiddenBranch(r) {
        YieldsExact(r, k, accepted);
      }
    }
  }
}
