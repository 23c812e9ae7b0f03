/** Simple paths between two nodes, the roots they share, and what one spur search adds to a list of them. */
module Deviations {
  import opened Basics
  import opened Networks
  import opened HopSearch

  /** The k-shortest-paths question: simple paths from `s` to `t` within the caller's hop limit. */
  datatype Request = Request(g: Network, s: nat, t: nat, maxHops: Option<nat>) {
    function Whole(): Query {
      Query(g, s, t, {}, {}, HopLimit(g, maxHops))
    }
  }

  ghost predicate Wanted(r: Request, w: Walk) {
    Joins(r.g, r.s, w, r.t) && Distinct(w.nodes) && (r.maxHops.Some? ==> |w.rows| <= r.maxHops.value)
  }

  function AsWalk(pc: PathCandidate): Walk {
    Walk(pc.nodes, pc.rows)
  }

  ghost predicate Path(r: Request, pc: PathCandidate) {
    Wanted(r, AsWalk(pc)) && pc.cost == Cost(r.g, pc.rows)
  }

  /** Distinct paths of the kind asked for. */
  ghost predicate Paths(r: Request, ps: seq<PathCandidate>) {
    && (forall i | 0 <= i < |ps| :: Path(r, ps[i]))
    && (forall i, j | 0 <= i < j < |ps| :: ps[i].nodes != ps[j].nodes)
  }

  ghost predicate Listed(paths: seq<PathCandidate>, nodes: seq<nat>) {
    exists i :: 0 <= i < |paths| && paths[i].nodes == nodes
  }

  /** Every edge row joins one pair of nodes (true of any network read off an edge frame). */
  ghost predicate RowsJoinPairs(g: Network) {
    forall u: nat, v: nat, x: nat, y: nat, e: nat | g.HasArc(u, v, e) && g.HasArc(x, y, e) ::
      (x == u && y == v) || (x == v && y == u)
  }

  /** `nodes` starts with `root` and goes on. */
  predicate Extends(nodes: seq<nat>, root: seq<nat>) {
    |root| < |nodes| && nodes[..|root|] == root
  }

  /** `nodes` starts with `root` and goes on to `next`. */
  predicate Through(nodes: seq<nat>, root: seq<nat>, next: nat) {
    Extends(nodes, root) && nodes[|root|] == next
  }

  ghost predicate Branch(paths: seq<PathCandidate>, root: seq<nat>, next: nat) {
    exists i :: 0 <= i < |paths| && Through(paths[i].nodes, root, next)
  }

  // ---- simple paths are short ----

  lemma WithinLimit(r: Request, w: Walk)
    requires Wanted(r, w)
    ensures |w.rows| <= HopLimit(r.g, r.maxHops)
  {
    DistinctBounded(w.nodes, |r.g.adj|);
  }

  lemma WantedSolves(r: Request, w: Walk)
    requires Wanted(r, w)
    ensures Solves(r.Whole(), w)
  {
    WithinLimit(r, w);
  }

  /** The whole search answers with a wanted path. */
  lemma BestIsPath(r: Request, pc: PathCandidate)
    requires Best(r.Whole(), pc)
    ensures Path(r, pc)
  {
  }

  // ---- the order of walks, under common beginnings ----

  lemma {:induction false} BackLeSame(a: seq<nat>)
    ensures BackLe(a, a)
  {
    if a != [] {
      BackLeSame(a[..|a| - 1]);
    }
  }

  lemma {:induction false} BackLeBoth(a: seq<nat>, b: seq<nat>)
    requires |a| == |b| && BackLe(a, b) && BackLe(b, a)
    ensures a == b
  {
    if a != [] {
      var n := |a| - 1;
      BackLeBoth(a[..n], b[..n]);
      assert a == a[..n] + [a[n]] && b == b[..n] + [b[n]];
    }
  }

  lemma {:induction false} BackLeAfter(front: seq<nat>, a: seq<nat>, b: seq<nat>)
    requires |a| == |b|
    ensures BackLe(front + a, front + b) <==> BackLe(a, b)
  {
    if a == [] {
      assert front + a == front == front + b;
      BackLeSame(front);
    } else {
      var n := |a| - 1;
      assert (front + a)[..|front| + n] == front + a[..n];
      assert (front + b)[..|front| + n] == front + b[..n];
      BackLeAfter(front, a[..n], b[..n]);
    }
  }

  function Tail(w: Walk, n: nat): Walk
    requires n <= |w.rows| && n <= |w.nodes|
  {
    Walk(w.nodes[n..], w.rows[n..])
  }

  /** Walks that begin alike compare as what is left of them. */
  lemma TailOrder(g: Network, a: Walk, b: Walk, n: nat)
    requires |a.nodes| == |a.rows| + 1 && |b.nodes| == |b.rows| + 1 && n <= |a.rows| && n <= |b.rows|
    requires a.nodes[..n] == b.nodes[..n] && a.rows[..n] == b.rows[..n]
    ensures WalkLe(g, a, b) <==> WalkLe(g, Tail(a, n), Tail(b, n))
  {
    CostSplit(g, a.rows, n);
    CostSplit(g, b.rows, n);
    assert a.nodes == a.nodes[..n] + a.nodes[n..] && b.nodes == b.nodes[..n] + b.nodes[n..];
    if |a.nodes| == |b.nodes| {
      BackLeAfter(a.nodes[..n], a.nodes[n..], b.nodes[n..]);
    }
  }

  lemma WalkLeBoth(g: Network, a: Walk, b: Walk)
    requires WalkLe(g, a, b) && WalkLe(g, b, a)
    ensures a.nodes == b.nodes && Cost(g, a.rows) == Cost(g, b.rows)
  {
    BackLeBoth(a.nodes, b.nodes);
  }

  /** `a` up to its node `n`, then `b`. */
  function Graft(a: Walk, n: nat, b: Walk): Walk
    requires n <= |a.nodes| && n <= |a.rows| && n <= |b.nodes| && n <= |b.rows|
  {
    Walk(a.nodes[..n] + b.nodes[n..], a.rows[..n] + b.rows[n..])
  }

  /** Taking the rows of another path over a common beginning changes nothing but those rows. */
  lemma GraftWanted(r: Request, a: Walk, n: nat, b: Walk)
    requires Wanted(r, a) && Wanted(r, b) && n <= |a.rows| && n <= |b.rows| && a.nodes[..n + 1] == b.nodes[..n + 1]
    ensures Wanted(r, Graft(a, n, b)) && Graft(a, n, b).nodes == b.nodes
    ensures Cost(r.g, Graft(a, n, b).rows) == Cost(r.g, a.rows[..n]) + Cost(r.g, b.rows[n..])
  {
    hide Network.HasArc;
    var c := Graft(a, n, b);
    CostConcat(r.g, a.rows[..n], b.rows[n..]);
    SameStart(a.nodes, b.nodes, n);
    forall k | 0 <= k < |c.rows|
      ensures r.g.HasArc(c.nodes[k], c.nodes[k + 1], c.rows[k])
    {
      GraftArc(r.g, a, n, b, k);
    }
  }

  lemma SameStart(a: seq<nat>, b: seq<nat>, n: nat)
    requires n < |a| && n < |b| && a[..n + 1] == b[..n + 1]
    ensures a[..n] + b[n..] == b && a[..n] == b[..n] && forall k | 0 <= k <= n :: a[k] == b[k]
  {
    forall k | 0 <= k <= n
      ensures a[k] == b[k]
    {
      assert a[..n + 1][k] == b[..n + 1][k];
    }
  }

  lemma GraftArc(g: Network, a: Walk, n: nat, b: Walk, k: nat)
    requires IsWalk(g, a) && IsWalk(g, b) && n <= |a.rows| && n <= |b.rows| && a.nodes[..n + 1] == b.nodes[..n + 1]
    requires k < |Graft(a, n, b).rows|
    ensures g.HasArc(b.nodes[k], b.nodes[k + 1], Graft(a, n, b).rows[k])
  {
    hide Network.HasArc;
    SameStart(a.nodes, b.nodes, n);
    if k < n {
      assert g.HasArc(a.nodes[k], a.nodes[k + 1], a.rows[k]);
    } else {
      assert g.HasArc(b.nodes[k], b.nodes[k + 1], b.rows[k]);
    }
  }

  /** From its node `n` on, `a` is the least way to go among the wanted paths that come the same way. */
  ghost predicate TailLeast(r: Request, a: Walk, n: nat)
    requires n <= |a.rows| && n < |a.nodes|
  {
    forall w | Wanted(r, w) && n <= |w.rows| && w.nodes[..n + 1] == a.nodes[..n + 1] :: WalkLe(r.g, Tail(a, n), Tail(w, n))
  }

  /** Two least continuations of one beginning are the same. */
  lemma LeastTailsAgree(r: Request, a: Walk, b: Walk, n: nat)
    requires Wanted(r, a) && Wanted(r, b) && n <= |a.rows| && n <= |b.rows| && a.nodes[..n + 1] == b.nodes[..n + 1]
    requires TailLeast(r, a, n) && TailLeast(r, b, n)
    ensures a.nodes == b.nodes
  {
    WalkLeBoth(r.g, Tail(a, n), Tail(b, n));
    assert a.nodes[..n] == a.nodes[..n + 1][..n] == b.nodes[..n + 1][..n] == b.nodes[..n];
    assert a.nodes == a.nodes[..n] + a.nodes[n..] && b.nodes == b.nodes[..n] + b.nodes[n..];
  }

  // ---- cheapest rows along a path ----

  /** No edge parallel to one of the path's own is cheaper. */
  ghost predicate Lean(g: Network, pc: PathCandidate)
    requires |pc.nodes| == |pc.rows| + 1
  {
    forall m: nat, e: nat | m < |pc.rows| && g.HasArc(pc.nodes[m], pc.nodes[m + 1], e) :: g.W(pc.rows[m]) <= g.W(e)
  }

  /** A lean path costs no more than any walk over the same nodes, as far as they agree. */
  lemma {:induction false} LeanPrefix(r: Request, pc: PathCandidate, w: Walk, n: nat)
    requires Path(r, pc) && Lean(r.g, pc) && Wanted(r, w)
    requires n <= |pc.rows| && n <= |w.rows| && pc.nodes[..n + 1] == w.nodes[..n + 1]
    ensures Cost(r.g, pc.rows[..n]) <= Cost(r.g, w.rows[..n])
  {
    if n > 0 {
      assert pc.nodes[..n] == pc.nodes[..n + 1][..n] == w.nodes[..n + 1][..n] == w.nodes[..n];
      LeanPrefix(r, pc, w, n - 1);
      CostPrefix(r.g, pc.rows, n - 1);
      CostPrefix(r.g, w.rows, n - 1);
      assert pc.nodes[n - 1] == pc.nodes[..n + 1][n - 1] == w.nodes[n - 1] && pc.nodes[n] == pc.nodes[..n + 1][n] == w.nodes[n];
      assert r.g.HasArc(w.nodes[n - 1], w.nodes[n], w.rows[n - 1]);
    }
  }

  lemma LeanCheapest(r: Request, pc: PathCandidate, w: Walk)
    requires Path(r, pc) && Lean(r.g, pc) && Wanted(r, w) && pc.nodes == w.nodes
    ensures pc.cost <= Cost(r.g, w.rows)
  {
    LeanPrefix(r, pc, w, |pc.rows|);
    assert pc.rows[..|pc.rows|] == pc.rows && w.rows[..|w.rows|] == w.rows;
  }

  // ---- one spur search ----

  predicate Takes(pc: PathCandidate, root: seq<nat>, e: nat) {
    Extends(pc.nodes, root) && 0 < |root| <= |pc.rows| && pc.rows[|root| - 1] == e
  }

  /** The rows that paths of `ps` take out of `root`. */
  ghost function Bans(ps: seq<PathCandidate>, root: seq<nat>): (banned: set<nat>)
    ensures forall e: nat :: e in banned <==> exists i :: 0 <= i < |ps| && Takes(ps[i], root, e)
  {
    var all := set i | 0 <= i < |ps| && 0 < |root| <= |ps[i].rows| && Takes(ps[i], root, ps[i].rows[|root| - 1]) :: ps[i].rows[|root| - 1];
    assert forall i, e: nat | 0 <= i < |ps| && Takes(ps[i], root, e) :: e in all;
    all
  }

  function Before(root: seq<nat>): set<nat>
    requires |root| > 0
  {
    set i | 0 <= i < |root| - 1 :: root[i]
  }

  /** Hops left for the spur, saturating at zero. */
  function Remaining(maxHops: Option<nat>, used: nat): Option<nat> {
    match maxHops
    case None => None
    case Some(limit) => Some(if used <= limit then limit - used else 0)
  }

  /** The search out of the last node of `root`, keeping off the root and off the banned rows. */
  function Spur(r: Request, root: seq<nat>, banned: set<nat>): Query
    requires |root| > 0
  {
    Query(r.g, root[|root| - 1], r.t, Before(root), banned, HopLimit(r.g, Remaining(r.maxHops, |root| - 1)))
  }

  /** The first `i` steps of `last`, then the spur. */
  function Glue(g: Network, last: PathCandidate, i: nat, spur: PathCandidate): PathCandidate
    requires i <= |last.nodes| && i <= |last.rows|
  {
    PathCandidate(last.nodes[..i] + spur.nodes, last.rows[..i] + spur.rows, Cost(g, last.rows[..i]) + spur.cost)
  }

  /** A wanted path through the root, by a row that is not banned there, is open to the spur search. */
  lemma RestSolves(r: Request, ps: seq<PathCandidate>, root: seq<nat>, w: Walk)
    requires r.g.Valid() && RowsJoinPairs(r.g) && Paths(r, ps) && Wanted(r, w) && |root| > 0 && Extends(w.nodes, root)
    requires w.rows[|root| - 1] !in Bans(ps, root)
    ensures Solves(Spur(r, root, Bans(ps, root)), Tail(w, |root| - 1))
  {
    var i := |root| - 1;
    var q := Spur(r, root, Bans(ps, root));
    var rest := Tail(w, i);
    assert root[i] == w.nodes[..|root|][i] == w.nodes[i];
    RestFits(r, root, w);
    forall k | 0 <= k < |rest.rows|
      ensures q.Allows(Arc(rest.nodes[k + 1], rest.rows[k]))
    {
      if k > 0 {
        LaterRowFree(r, ps, root, w, i + k);
      }
      RestAvoids(r, root, w, i + k + 1);
    }
  }

  lemma RestFits(r: Request, root: seq<nat>, w: Walk)
    requires Wanted(r, w) && |root| > 0 && Extends(w.nodes, root)
    ensures IsWalk(r.g, Tail(w, |root| - 1)) && |w.rows[|root| - 1..]| <= HopLimit(r.g, Remaining(r.maxHops, |root| - 1))
  {
    Suffix(r.g, r.s, w, r.t, |root| - 1);
    WithinLimit(r, w);
  }

  lemma RestAvoids(r: Request, root: seq<nat>, w: Walk, k: nat)
    requires Wanted(r, w) && |root| > 0 && Extends(w.nodes, root) && |root| - 1 <= k < |w.nodes|
    ensures w.nodes[k] !in Before(root)
  {
    forall m | 0 <= m < |root| - 1
      ensures root[m] != w.nodes[k]
    {
      assert root[m] == w.nodes[..|root|][m] == w.nodes[m];
    }
  }

  /** A banned row leaves the last node of the root, which `w` visits too. */
  lemma TakenArc(r: Request, a: PathCandidate, root: seq<nat>, e: nat, w: Walk)
    requires Path(r, a) && Takes(a, root, e) && Wanted(r, w) && Extends(w.nodes, root)
    ensures a.nodes[|root| - 1] == w.nodes[|root| - 1]
    ensures r.g.HasArc(w.nodes[|root| - 1], a.nodes[|root|], e)
    ensures r.g.HasArc(w.nodes[|root| - 1], w.nodes[|root|], w.rows[|root| - 1])
  {
    var i := |root| - 1;
    assert a.nodes[i] == a.nodes[..|root|][i] == w.nodes[..|root|][i] == w.nodes[i];
    assert r.g.HasArc(a.nodes[i], a.nodes[i + 1], a.rows[i]);
    assert r.g.HasArc(w.nodes[i], w.nodes[i + 1], w.rows[i]);
  }

  /** Where no listed path goes, no row is banned. */
  lemma FreshRowFree(r: Request, ps: seq<PathCandidate>, root: seq<nat>, w: Walk, e: nat)
    requires RowsJoinPairs(r.g) && Paths(r, ps) && Wanted(r, w) && |root| > 0 && Extends(w.nodes, root)
    requires !Branch(ps, root, w.nodes[|root|]) && r.g.HasArc(w.nodes[|root| - 1], w.nodes[|root|], e)
    ensures e !in Bans(ps, root)
  {
    forall i, f: nat | 0 <= i < |ps| && Takes(ps[i], root, f)
      ensures f != e
    {
      TakenArc(r, ps[i], root, f, w);
      assert !Through(ps[i].nodes, root, w.nodes[|root|]);
    }
  }

  lemma LaterRowFree(r: Request, ps: seq<PathCandidate>, root: seq<nat>, w: Walk, k: nat)
    requires RowsJoinPairs(r.g) && Paths(r, ps) && Wanted(r, w) && |root| > 0 && Extends(w.nodes, root) && |root| <= k < |w.rows|
    ensures w.rows[k] !in Bans(ps, root)
  {
    assert r.g.HasArc(w.nodes[k], w.nodes[k + 1], w.rows[k]);
    forall i, e: nat | 0 <= i < |ps| && Takes(ps[i], root, e)
      ensures e != w.rows[k]
    {
      TakenArc(r, ps[i], root, e, w);
      assert w.nodes[k] != w.nodes[|root| - 1] && w.nodes[k + 1] != w.nodes[|root| - 1];
    }
  }

  /** A spur glued to the root of a wanted path is a wanted path through that root, by a row that was free. */
  lemma GlueIsPath(r: Request, last: PathCandidate, i: nat, banned: set<nat>, spur: PathCandidate)
    requires r.g.Valid() && Path(r, last) && i < |last.rows| && Best(Spur(r, last.nodes[..i + 1], banned), spur)
    ensures var total := Glue(r.g, last, i, spur);
            && Path(r, total) && Extends(total.nodes, last.nodes[..i + 1]) && i < |total.rows| && total.rows[i] !in banned
            && total.rows[..i] == last.rows[..i] && Tail(AsWalk(total), i) == AsWalk(spur)
  {
    hide Best;
    var root := last.nodes[..i + 1];
    var q := Spur(r, root, banned);
    var total := Glue(r.g, last, i, spur);
    SpurBasics(q, spur);
    CostConcat(r.g, last.rows[..i], spur.rows);
    GlueWalk(r, AsWalk(last), i, q, AsWalk(spur));
    GlueDistinct(last.nodes, i, q, spur);
    assert last.nodes[i] != r.t;
    assert q.Allows(Arc(spur.nodes[1], spur.rows[0]));
    assert root == last.nodes[..i] + [last.nodes[i]];
    assert total.nodes[..i + 1] == root;
  }

  lemma SpurBasics(q: Query, spur: PathCandidate)
    requires Best(q, spur)
    ensures Solves(q, AsWalk(spur)) && Distinct(spur.nodes) && spur.cost == Cost(q.g, spur.rows) && spur.nodes[0] == q.s
  {
  }

  lemma GlueWalk(r: Request, w: Walk, i: nat, q: Query, rest: Walk)
    requires Joins(r.g, r.s, w, r.t) && i < |w.rows| && Solves(q, rest) && q.g == r.g && q.s == w.nodes[i] && q.t == r.t
    ensures Joins(r.g, r.s, Walk(w.nodes[..i] + rest.nodes, w.rows[..i] + rest.rows), r.t)
  {
    hide Network.HasArc;
    var glued := Walk(w.nodes[..i] + rest.nodes, w.rows[..i] + rest.rows);
    forall k | 0 <= k < |glued.rows|
      ensures r.g.HasArc(glued.nodes[k], glued.nodes[k + 1], glued.rows[k])
    {
      if k < i {
        assert r.g.HasArc(w.nodes[k], w.nodes[k + 1], w.rows[k]);
      } else {
        assert r.g.HasArc(rest.nodes[k - i], rest.nodes[k - i + 1], rest.rows[k - i]);
      }
    }
  }

  lemma GlueDistinct(nodes: seq<nat>, i: nat, q: Query, spur: PathCandidate)
    requires i < |nodes| && Distinct(nodes) && Solves(q, AsWalk(spur)) && Distinct(spur.nodes) && q.s == nodes[i]
    requires q.bannedNodes == Before(nodes[..i + 1])
    ensures Distinct(nodes[..i] + spur.nodes)
  {
    forall a, b | 0 <= a < i && 0 <= b < |spur.nodes|
      ensures nodes[a] != spur.nodes[b]
    {
      assert nodes[..i + 1][a] == nodes[a] && nodes[a] in Before(nodes[..i + 1]);
      if b > 0 {
        assert q.Allows(Arc(spur.nodes[b], spur.rows[b - 1]));
      }
    }
  }

  /** What a path owes to the spur search that produced it. */
  ghost predicate Spurred(r: Request, ps: seq<PathCandidate>, root: seq<nat>, total: PathCandidate) {
    && Path(r, total) && |root| > 0 && Extends(total.nodes, root)
    && exists spur :: Best(Spur(r, root, Bans(ps, root)), spur) && Tail(AsWalk(total), |root| - 1) == AsWalk(spur)
  }

  /** Nothing the spur search was free to take beats what it took. */
  lemma SpurredLeast(r: Request, ps: seq<PathCandidate>, root: seq<nat>, total: PathCandidate, w: Walk)
    requires r.g.Valid() && RowsJoinPairs(r.g) && Paths(r, ps) && Spurred(r, ps, root, total)
    requires Wanted(r, w) && Extends(w.nodes, root) && w.rows[|root| - 1] !in Bans(ps, root)
    ensures WalkLe(r.g, Tail(AsWalk(total), |root| - 1), Tail(w, |root| - 1))
  {
    hide Solves, Path, Paths, RowsJoinPairs, WalkLe;
    RestSolves(r, ps, root, w);
  }

  lemma SpurredFree(r: Request, ps: seq<PathCandidate>, root: seq<nat>, total: PathCandidate)
    requires Spurred(r, ps, root, total)
    ensures total.rows[|root| - 1] !in Bans(ps, root)
  {
    var q := Spur(r, root, Bans(ps, root));
    var spur :| Best(q, spur) && Tail(AsWalk(total), |root| - 1) == AsWalk(spur);
    assert q.Allows(Arc(spur.nodes[1], spur.rows[0]));
  }

  /** Beyond the root every continuation of a glued path is a least one. */
  lemma SpurredTailLeast(r: Request, ps: seq<PathCandidate>, root: seq<nat>, total: PathCandidate, n: nat)
    requires r.g.Valid() && RowsJoinPairs(r.g) && Paths(r, ps) && Spurred(r, ps, root, total) && |root| <= n <= |total.rows|
    ensures TailLeast(r, AsWalk(total), n)
  {
    hide Spurred, Paths, RowsJoinPairs, WalkLe;
    var i, a := |root| - 1, AsWalk(total);
    SpurredFree(r, ps, root, total);
    SpurredShape(r, ps, root, total);
    forall w | Wanted(r, w) && n <= |w.rows| && w.nodes[..n + 1] == a.nodes[..n + 1]
      ensures WalkLe(r.g, Tail(a, n), Tail(w, n))
    {
      GraftWanted(r, a, n, w);
      var y := Graft(a, n, w);
      assert y.rows[i] == total.rows[i];
      assert y.nodes[..|root|] == a.nodes[..n + 1][..|root|] == root;
      SpurredLeast(r, ps, root, total, y);
      TailsOfTails(r.g, a, y, i, n);
      assert Tail(y, n) == Tail(w, n);
    }
  }

  lemma SpurredShape(r: Request, ps: seq<PathCandidate>, root: seq<nat>, total: PathCandidate)
    requires Spurred(r, ps, root, total)
    ensures Path(r, total) && |root| > 0 && Extends(total.nodes, root)
  {
  }

  lemma TailsOfTails(g: Network, a: Walk, b: Walk, i: nat, n: nat)
    requires |a.nodes| == |a.rows| + 1 && |b.nodes| == |b.rows| + 1 && i <= n <= |a.rows| && n <= |b.rows|
    requires a.nodes[..n + 1] == b.nodes[..n + 1] && a.rows[..n] == b.rows[..n]
    ensures WalkLe(g, Tail(a, i), Tail(b, i)) <==> WalkLe(g, Tail(a, n), Tail(b, n))
  {
    hide WalkLe;
    var x, y := Tail(a, i), Tail(b, i);
    assert x.nodes[..n - i] == a.nodes[..n + 1][i..n] == b.nodes[..n + 1][i..n] == y.nodes[..n - i];
    assert x.rows[..n - i] == a.rows[..n][i..] == b.rows[..n][i..] == y.rows[..n - i];
    TailOrder(g, x, y, n - i);
    assert Tail(x, n - i) == Tail(a, n) && Tail(y, n - i) == Tail(b, n);
  }
}
