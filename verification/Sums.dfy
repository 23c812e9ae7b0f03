/** Finite sums of reals, as used by the rank and centrality kernels. */
module Sums {

  function Sum(xs: seq<real>): real {
    if xs == [] then 0.0 else Sum(xs[..|xs| - 1]) + xs[|xs| - 1]
  }

  lemma SumPush(xs: seq<real>, x: real)
    ensures Sum(xs + [x]) == Sum(xs) + x
  {
    assert (xs + [x])[..|xs|] == xs;
  }

  lemma {:induction false} SumAdd(a: seq<real>, b: seq<real>, c: seq<real>)
    requires |a| == |b| == |c| && forall i | 0 <= i < |c| :: c[i] == a[i] + b[i]
    ensures Sum(c) == Sum(a) + Sum(b)
  {
    if c != [] {
      var n := |c| - 1;
      SumAdd(a[..n], b[..n], c[..n]);
    }
  }

  lemma {:induction false} SumScale(k: real, a: seq<real>, b: seq<real>)
    requires |a| == |b| && forall i | 0 <= i < |a| :: b[i] == k * a[i]
    ensures Sum(b) == k * Sum(a)
  {
    if a != [] {
      var n := |a| - 1;
      SumScale(k, a[..n], b[..n]);
    }
  }

  lemma {:induction false} SumZero(a: seq<real>)
    requires forall i | 0 <= i < |a| :: a[i] == 0.0
    ensures Sum(a) == 0.0
  {
    if a != [] {
      SumZero(a[..|a| - 1]);
    }
  }

  lemma {:induction false} SumNonNegative(a: seq<real>)
    requires forall i | 0 <= i < |a| :: a[i] >= 0.0
    ensures Sum(a) >= 0.0
  {
    if a != [] {
      SumNonNegative(a[..|a| - 1]);
    }
  }

  lemma {:induction false} SumLe(a: seq<real>, b: seq<real>)
    requires |a| == |b| && forall i | 0 <= i < |a| :: a[i] <= b[i]
    ensures Sum(a) <= Sum(b)
  {
    if a != [] {
      SumLe(a[..|a| - 1], b[..|b| - 1]);
    }
  }

  /** Changing one term changes the sum by the difference. */
  lemma {:induction false} SumUpdate(a: seq<real>, i: nat, x: real)
    requires i < |a|
    ensures Sum(a[i := x]) == Sum(a) - a[i] + x
  {
    var n := |a| - 1;
    if i == n {
      assert a[i := x][..n] == a[..n];
    } else {
      assert a[i := x][..n] == a[..n][i := x];
      SumUpdate(a[..n], i, x);
    }
  }

  lemma SumSingle(a: seq<real>, i: nat)
    requires i < |a| && forall j | 0 <= j < |a| && j != i :: a[j] == 0.0
    ensures Sum(a) == a[i]
  {
    SumUpdate(a, i, 0.0);
    SumZero(a[i := 0.0]);
  }

  function Constant(n: nat, x: real): (r: seq<real>)
    ensures |r| == n && forall i | 0 <= i < n :: r[i] == x
  {
    seq(n, _ => x)
  }

  lemma {:induction false} SumConstant(n: nat, x: real)
    ensures Sum(Constant(n, x)) == n as real * x
  {
    if n > 0 {
      assert Constant(n, x)[..n - 1] == Constant(n - 1, x);
      SumConstant(n - 1, x);
    }
  }

  // ---- double sums ----

  ghost predicate Rectangular(m: seq<seq<real>>, n: nat) {
    forall i | 0 <= i < |m| :: |m[i]| == n
  }

  function RowSums(m: seq<seq<real>>): (r: seq<real>)
    ensures |r| == |m| && forall i | 0 <= i < |m| :: r[i] == Sum(m[i])
  {
    seq(|m|, i requires 0 <= i < |m| => Sum(m[i]))
  }

  function Column(m: seq<seq<real>>, j: nat): (r: seq<real>)
    requires forall i | 0 <= i < |m| :: j < |m[i]|
    ensures |r| == |m| && forall i | 0 <= i < |m| :: r[i] == m[i][j]
  {
    seq(|m|, i requires 0 <= i < |m| => m[i][j])
  }

  ghost function ColumnSums(m: seq<seq<real>>, n: nat): (r: seq<real>)
    requires Rectangular(m, n)
    ensures |r| == n && forall j | 0 <= j < n :: r[j] == Sum(Column(m, j))
  {
    seq(n, j requires 0 <= j < n => Sum(Column(m, j)))
  }

  /** The order of summation does not matter. */
  lemma {:induction false} SumSwap(m: seq<seq<real>>, n: nat)
    requires Rectangular(m, n)
    ensures Sum(RowSums(m)) == Sum(ColumnSums(m, n))
  {
    if m == [] {
      SumZero(ColumnSums(m, n));
    } else {
      var k := |m| - 1;
      var front := m[..k];
      SumSwap(front, n);
      assert RowSums(m)[..k] == RowSums(front);
      forall j | 0 <= j < n
        ensures ColumnSums(m, n)[j] == ColumnSums(front, n)[j] + m[k][j]
      {
        assert Column(m, j)[..k] == Column(front, j);
      }
      SumAdd(ColumnSums(front, n), m[k], ColumnSums(m, n));
    }
  }
}
