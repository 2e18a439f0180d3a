/**
 Sorting by a comparison, as Go's `sort.Slice` promises it: a permutation, in order wherever the
 comparison orders the elements.
 */
module Sorting {

  /** On the good elements the comparison is a strict weak order. */
  ghost predicate OrdersWeakly<T(!new)>(less: (T, T) -> bool, good: T -> bool) {
    && (forall x, y :: good(x) && good(y) && less(x, y) ==> !less(y, x))
    && (forall x, y, z :: good(x) && good(y) && good(z) && !less(y, x) && !less(z, y) ==> !less(z, x))
  }

  predicate AllGood<T>(good: T -> bool, s: seq<T>) {
    forall i :: 0 <= i < |s| ==> good(s[i])
  }

  predicate InOrder<T>(less: (T, T) -> bool, s: seq<T>) {
    forall i, j :: 0 <= i < j < |s| ==> !less(s[j], s[i])
  }

  lemma {:induction false} InsertedInOrder<T(!new)>(less: (T, T) -> bool, good: T -> bool, s: seq<T>, x: T, k: nat)
    requires OrdersWeakly(less, good) && AllGood(good, s) && good(x) && InOrder(less, s) && k <= |s|
    requires (forall h :: 0 <= h < k ==> !less(x, s[h])) && (k < |s| ==> less(x, s[k]))
    ensures InOrder(less, s[..k] + [x] + s[k..]) && AllGood(good, s[..k] + [x] + s[k..])
  {
    var r := s[..k] + [x] + s[k..];
    forall i, j | 0 <= i < j < |r| ensures !less(r[j], r[i]) {
      if i == k && j > k + 1 { assert !less(s[j - 1], s[k]) && !less(s[k], x); }
    }
  }

  lemma {:induction false} InsertedElements<T>(s: seq<T>, x: T, k: nat)
    requires k <= |s|
    ensures multiset(s[..k] + [x] + s[k..]) == multiset(s) + multiset{x}
  {
    assert s == s[..k] + s[k..];
  }

  method SortBy<T(!new)>(s: seq<T>, less: (T, T) -> bool, ghost good: T -> bool) returns (r: seq<T>)
    ensures multiset(r) == multiset(s)
    ensures OrdersWeakly(less, good) && AllGood(good, s) ==> InOrder(less, r)
  {
    r := [];
    for i := 0 to |s|
      invariant multiset(r) == multiset(s[..i])
      invariant OrdersWeakly(less, good) && AllGood(good, s) ==> InOrder(less, r) && AllGood(good, r)
    {
      var k := 0;
      while k < |r| && !less(s[i], r[k])
        invariant 0 <= k <= |r| && forall h :: 0 <= h < k ==> !less(s[i], r[h])
      {
        k := k + 1;
      }
      if OrdersWeakly(less, good) && AllGood(good, s) { InsertedInOrder(less, good, r, s[i], k); }
      InsertedElements(r, s[i], k);
      assert s[..i + 1] == s[..i] + [s[i]];
      r := r[..k] + [s[i]] + r[k..];
    }
    assert s[..|s|] == s;
  }
}
