/** Counting in finite sets. */
module Finite {

  /** The numbers below `n`. */
  ghost function Below(n: nat): (r: set<nat>)
    ensures |r| == n && forall i: nat :: i in r <==> i < n
  {
    if n == 0 then {} else Below(n - 1) + {n - 1}
  }

  lemma SubsetSize<T>(a: set<T>, b: set<T>)
    requires a <= b
    ensures |a| <= |b|
  {
    assert b == a + (b - a);
  }

  lemma SmallerWithout(a: set<nat>, n: nat, x: nat)
    requires x < n && x !in a && forall i :: i in a ==> i < n
    ensures |a| < n
  {
    var others := Below(n) - {x};
    forall i | i in a
      ensures i in others
    {
    }
    SubsetSize(a, others);
  }
}
