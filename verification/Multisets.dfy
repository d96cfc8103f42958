/** Two rearrangements of multiset sums that the solver does not find by itself. */
module Multisets {

  lemma SwapLast<T>(a: multiset<T>, last: multiset<T>, x: multiset<T>, b: multiset<T>, y: multiset<T>)
    requires a + x == b + y
    ensures a + last + x == b + last + y
  {
    assert a + last + x == (a + x) + last;
    assert b + last + y == (b + y) + last;
  }

  lemma Cancel<T>(a: multiset<T>, c: multiset<T>, b: multiset<T>, d: multiset<T>)
    requires a + b == c + (b + d)
    ensures a == c + d
  {
    forall e ensures a[e] == (c + d)[e] {
      assert (a + b)[e] == (c + (b + d))[e];
    }
  }
}
