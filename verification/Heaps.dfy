/** The binary heaps of the searches, as multisets popped at a least element. */
module Heaps {

  ghost predicate TotalOrder<T(!new)>(leq: (T, T) -> bool) {
    && (forall a, b :: leq(a, b) || leq(b, a))
    && (forall a, b, c {:trigger leq(a, b), leq(b, c)} :: leq(a, b) && leq(b, c) ==> leq(a, c))
  }

  lemma {:induction false} LeastExists<T(!new)>(heap: multiset<T>, leq: (T, T) -> bool)
    requires |heap| > 0 && TotalOrder(leq)
    ensures exists m :: m in heap && forall x | x in heap :: leq(m, x)
    decreases |heap|
  {
    var x :| x in heap;
    var rest := heap - multiset{x};
    if |rest| == 0 {
      OnlyOne(heap, x);
      assert leq(x, x);
    } else {
      LeastExists(rest, leq);
      var m :| m in rest && forall y | y in rest :: leq(m, y);
      LeastOfTwo(heap, leq, x, m);
    }
  }

  lemma LeastOfTwo<T(!new)>(heap: multiset<T>, leq: (T, T) -> bool, x: T, m: T)
    requires TotalOrder(leq) && x in heap && m in heap
    requires forall y | y in heap - multiset{x} :: leq(m, y)
    ensures exists least :: least in heap && forall y | y in heap :: leq(least, y)
  {
    forall y | y in heap
      ensures y == x || leq(m, y)
    {
      assert y != x ==> (heap - multiset{x})[y] > 0;
    }
    if leq(x, m) {
      assert forall y | y in heap :: leq(x, y);
    } else {
      assert forall y | y in heap :: leq(m, y);
    }
  }

  lemma OnlyOne<T>(heap: multiset<T>, x: T)
    requires x in heap && |heap - multiset{x}| == 0
    ensures forall y | y in heap :: y == x
  {
    forall y | y in heap
      ensures y == x
    {
      assert y != x ==> (heap - multiset{x})[y] > 0;
    }
  }

  method Pop<T(==, !new)>(heap: multiset<T>, leq: (T, T) -> bool) returns (top: T, rest: multiset<T>)
    requires |heap| > 0 && TotalOrder(leq)
    ensures top in heap && forall x | x in heap :: leq(top, x)
    ensures rest == heap - multiset{top}
  {
    LeastExists(heap, leq);
    top :| top in heap && forall x | x in heap :: leq(top, x);
    rest := heap - multiset{top};
  }
}
