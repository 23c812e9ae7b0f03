/** Bounded-distance balls over a list of edge rows: the reference notion every search is compared with. */
module Balls {
  import opened Rows
  import opened Adjacency
  import Edges = EdgeFrames

  /** `open` holds the ids a step may lead to. */
  datatype Query = Query(rows: seq<EdgeRow>, d: Direction, spec: EdgeTypeSpec, open: set<string>)

  ghost predicate Leads(q: Query, a: string, b: string) {
    exists e :: 0 <= e < |q.rows| && Eligible(q.rows[e], q.spec, q.d, a, b)
  }

  /** `x` is a root or lies within `k` eligible steps of one, every step leading to an open id. */
  ghost predicate Within(q: Query, roots: set<string>, k: nat, x: string)
    decreases k
  {
    || x in roots
    || (k > 0 && Within(q, roots, k - 1, x))
    || (k > 0 && x in q.open && exists a :: Within(q, roots, k - 1, a) && Leads(q, a, x))
  }

  // ---- the same notion by explicit paths ----

  ghost predicate Trail(q: Query, roots: set<string>, ns: seq<string>) {
    && |ns| > 0 && ns[0] in roots
    && forall i | 0 < i < |ns| :: ns[i] in q.open && Leads(q, ns[i - 1], ns[i])
  }

  lemma {:induction false} TrailWithin(q: Query, roots: set<string>, ns: seq<string>, k: nat)
    requires Trail(q, roots, ns) && |ns| - 1 <= k
    ensures Within(q, roots, k, ns[|ns| - 1])
    decreases |ns|
  {
    var n := |ns| - 1;
    if n > 0 {
      TrailWithin(q, roots, ns[..n], k - 1);
      assert Leads(q, ns[n - 1], ns[n]);
    }
  }

  lemma {:induction false} WithinTrail(q: Query, roots: set<string>, k: nat, x: string) returns (ns: seq<string>)
    requires Within(q, roots, k, x)
    ensures Trail(q, roots, ns) && |ns| - 1 <= k && ns[|ns| - 1] == x
    decreases k
  {
    if x in roots {
      ns := [x];
    } else if Within(q, roots, k - 1, x) {
      ns := WithinTrail(q, roots, k - 1, x);
    } else {
      var a :| Within(q, roots, k - 1, a) && Leads(q, a, x);
      var before := WithinTrail(q, roots, k - 1, a);
      ns := before + [x];
    }
  }

  /** Being within `k` is having a trail of at most `k` steps. */
  lemma WithinIsTrail(q: Query, roots: set<string>, k: nat, x: string)
    ensures Within(q, roots, k, x) <==> exists ns :: Trail(q, roots, ns) && |ns| - 1 <= k && ns[|ns| - 1] == x
  {
    if Within(q, roots, k, x) {
      var ns := WithinTrail(q, roots, k, x);
    }
    forall ns | Trail(q, roots, ns) && |ns| - 1 <= k && ns[|ns| - 1] == x
      ensures Within(q, roots, k, x)
    {
      TrailWithin(q, roots, ns, k);
    }
  }

  /** One more step: through an edge row of an admitted type, in the direction asked for, to an open id. */
  lemma WithinStep(q: Query, roots: set<string>, k: nat, x: string)
    ensures Within(q, roots, 0, x) <==> x in roots
    ensures Within(q, roots, k + 1, x) <==> Within(q, roots, k, x) || (x in q.open && exists e :: 0 <= e < |q.rows| && Hop(q, roots, k, q.rows[e], x))
  {
    hide Eligible;
    if a :| Within(q, roots, k, a) && Leads(q, a, x) {
      var e :| 0 <= e < |q.rows| && Eligible(q.rows[e], q.spec, q.d, a, x);
      EligibleMeans(q.rows[e], q.spec, q.d, a, x);
      assert Hop(q, roots, k, q.rows[e], x);
    }
    if e :| 0 <= e < |q.rows| && Hop(q, roots, k, q.rows[e], x) {
      EligibleMeans(q.rows[e], q.spec, q.d, q.rows[e].src, q.rows[e].dst);
      EligibleMeans(q.rows[e], q.spec, q.d, q.rows[e].dst, q.rows[e].src);
    }
  }

  /** Row `r` has an admitted type and leads, in the direction asked for, from a node within `k` to `x`. */
  ghost predicate Hop(q: Query, roots: set<string>, k: nat, r: EdgeRow, x: string) {
    && (q.spec.Any? || (q.spec.Single? && r.etype == q.spec.etype) || (q.spec.Multiple? && r.etype in q.spec.etypes))
    && ((!q.d.In? && r.dst == x && Within(q, roots, k, r.src)) || (!q.d.Out? && r.src == x && Within(q, roots, k, r.dst)))
  }

  // ---- growth and fixed points ----

  lemma {:induction false} WithinGrows(q: Query, roots: set<string>, j: nat, k: nat, x: string)
    requires j <= k && Within(q, roots, j, x)
    ensures Within(q, roots, k, x)
    decreases k
  {
    if j < k {
      WithinGrows(q, roots, j, k - 1, x);
    }
  }

  ghost predicate Closes(q: Query, roots: set<string>, k: nat) {
    forall x | Within(q, roots, k + 1, x) :: Within(q, roots, k, x)
  }

  /** Once a round adds nothing, no later round does. */
  lemma {:induction false} ClosedStays(q: Query, roots: set<string>, k: nat, m: nat, x: string)
    requires Closes(q, roots, k) && k <= m
    ensures Within(q, roots, m, x) <==> Within(q, roots, k, x)
    decreases m
  {
    if k < m {
      ClosedStays(q, roots, k, m - 1, x);
      if Within(q, roots, m, x) && !Within(q, roots, m - 1, x) && x !in roots {
        var a :| Within(q, roots, m - 1, a) && Leads(q, a, x);
        ClosedStays(q, roots, k, m - 1, a);
        assert Within(q, roots, k + 1, x);
      }
    }
  }

  /** Only endpoints of edges can be stepped to or from. */
  lemma LeadsIndexed(q: Query, a: string, b: string)
    requires Leads(q, a, b)
    ensures a in Edges.IdsOf(q.rows) && b in Edges.IdsOf(q.rows)
  {
    hide Edges.IdsOf;
    var e :| 0 <= e < |q.rows| && Eligible(q.rows[e], q.spec, q.d, a, b);
    Edges.EndsIn(q.rows, e);
  }

  // ---- balls of compact indices ----

  ghost function Ball(q: Query, roots: set<string>, k: nat): set<nat> {
    set i | 0 <= i < |Edges.IdsOf(q.rows)| && Within(q, roots, k, Edges.IdsOf(q.rows)[i])
  }

  lemma BallHas(q: Query, roots: set<string>, k: nat, i: nat)
    requires i < |Edges.IdsOf(q.rows)|
    ensures i in Ball(q, roots, k) <==> Within(q, roots, k, Edges.IdsOf(q.rows)[i])
  {
  }

  ghost predicate LeadsIdx(q: Query, u: nat, v: nat) {
    u < |Edges.IdsOf(q.rows)| && v < |Edges.IdsOf(q.rows)| && Leads(q, Edges.IdsOf(q.rows)[u], Edges.IdsOf(q.rows)[v])
  }

  predicate OpenIdx(q: Query, v: nat) {
    v < |Edges.IdsOf(q.rows)| && Edges.IdsOf(q.rows)[v] in q.open
  }

  /** Adding every open neighbour of a ball, and nothing else, gives the next ball. */
  lemma NextBall(q: Query, roots: set<string>, k: nat, now: set<nat>, next: set<nat>)
    requires now == Ball(q, roots, k) && now <= next
    requires forall v | v in next && v !in now :: OpenIdx(q, v) && exists u :: u in now && LeadsIdx(q, u, v)
    requires forall u, v | u in now && LeadsIdx(q, u, v) && OpenIdx(q, v) :: v in next
    ensures next == Ball(q, roots, k + 1)
  {
    hide Edges.IdsOf, Leads;
    var ids := Edges.IdsOf(q.rows);
    forall v: nat
      ensures v in next <==> v in Ball(q, roots, k + 1)
    {
      if v in next && v !in now {
        var u :| u in now && LeadsIdx(q, u, v);
        assert Within(q, roots, k, ids[u]) && Leads(q, ids[u], ids[v]);
      }
      if v in Ball(q, roots, k + 1) && v !in now {
        var a :| Within(q, roots, k, a) && Leads(q, a, ids[v]);
        LeadsIndexed(q, a, ids[v]);
        var u :| 0 <= u < |ids| && ids[u] == a;
        assert u in now && LeadsIdx(q, u, v);
      }
    }
  }

  ghost predicate StepsInside(q: Query, roots: set<string>, k: nat) {
    forall u, v | u in Ball(q, roots, k) && LeadsIdx(q, u, v) && OpenIdx(q, v) :: v in Ball(q, roots, k)
  }

  lemma StepInside(q: Query, roots: set<string>, k: nat, a: string, x: string)
    requires StepsInside(q, roots, k) && Within(q, roots, k, a) && Leads(q, a, x) && x in q.open
    ensures Within(q, roots, k, x)
  {
    hide Edges.IdsOf, Leads;
    var ids := Edges.IdsOf(q.rows);
    LeadsIndexed(q, a, x);
    var u :| 0 <= u < |ids| && ids[u] == a;
    var v :| 0 <= v < |ids| && ids[v] == x;
    assert LeadsIdx(q, u, v) && OpenIdx(q, v);
  }

  /** A ball closed under steps is the last one. */
  lemma BallCloses(q: Query, roots: set<string>, k: nat)
    requires StepsInside(q, roots, k)
    ensures Closes(q, roots, k)
  {
    hide StepsInside, Leads;
    forall x | Within(q, roots, k + 1, x)
      ensures Within(q, roots, k, x)
    {
      if x in q.open && exists a :: Within(q, roots, k, a) && Leads(q, a, x) {
        var a :| Within(q, roots, k, a) && Leads(q, a, x);
        StepInside(q, roots, k, a, x);
      }
    }
  }
}
