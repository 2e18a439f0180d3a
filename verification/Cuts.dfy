/**
 Partitions of the rows of a chunk.

 Every coarsening of an axis (Reduce, Focus, MergeColdLogicalRange, Divide) picks some of the row
 boundaries and adds up the rows between them. A partition of n rows is the ascending sequence of
 the chosen boundary indices, from 0 to n.
 */
module Cuts {

  /** Sum of rows i, ..., j-1. */
  function RangeSum(v: seq<nat>, i: nat, j: nat): nat
    requires i <= j <= |v|
    decreases j
  {
    if i == j then 0 else RangeSum(v, i, j - 1) + v[j - 1]
  }

  function Total(v: seq<nat>): nat {
    RangeSum(v, 0, |v|)
  }

  lemma {:induction false} RangeSumSplit(v: seq<nat>, i: nat, j: nat, k: nat)
    requires i <= j <= k <= |v|
    ensures RangeSum(v, i, k) == RangeSum(v, i, j) + RangeSum(v, j, k)
    decreases k
  {
    if j < k { RangeSumSplit(v, i, j, k - 1); }
  }

  lemma {:induction false} RangeSumAdds(v: seq<nat>, a: seq<nat>, b: seq<nat>, i: nat, j: nat)
    requires |v| == |a| == |b| && i <= j <= |v|
    requires forall k :: i <= k < j ==> v[k] == a[k] + b[k]
    ensures RangeSum(v, i, j) == RangeSum(a, i, j) + RangeSum(b, i, j)
    decreases j
  {
    if i < j { RangeSumAdds(v, a, b, i, j - 1); }
  }

  lemma {:induction false} RangeSumLocal(v: seq<nat>, w: seq<nat>, i: nat, j: nat)
    requires i <= j <= |v| && j <= |w|
    requires forall k :: i <= k < j ==> v[k] == w[k]
    ensures RangeSum(v, i, j) == RangeSum(w, i, j)
    decreases j
  {
    if i < j { RangeSumLocal(v, w, i, j - 1); }
  }

  predicate Rising(c: seq<nat>) {
    forall i, j :: 0 <= i < j < |c| ==> c[i] < c[j]
  }

  /** `c` partitions n rows. */
  predicate IsCuts(c: seq<nat>, n: nat) {
    && Rising(c)
    && |c| >= 1 && c[0] == 0 && c[|c| - 1] == n
  }

  function RowsOf(c: seq<nat>): nat
    requires |c| >= 1
  {
    |c| - 1
  }

  lemma {:induction false} RisingGrows(c: seq<nat>, i: nat)
    requires Rising(c) && i < |c|
    ensures c[0] + i <= c[i]
  {
    if i > 0 { RisingGrows(c, i - 1); }
  }

  lemma {:induction false} RisingToEnd(c: seq<nat>, i: nat)
    requires Rising(c) && i < |c|
    ensures c[i] + (|c| - 1 - i) <= c[|c| - 1]
    decreases |c| - i
  {
    if i + 1 < |c| { RisingToEnd(c, i + 1); }
  }

  /** A partition never has more parts than rows. */
  lemma {:induction false} CutsNeverAddRows(c: seq<nat>, n: nat)
    requires IsCuts(c, n)
    ensures RowsOf(c) <= n
    ensures forall i :: 0 <= i < |c| ==> c[i] <= n
  {
    RisingGrows(c, |c| - 1);
  }

  /** Every row lies in exactly one part. */
  lemma {:induction false} PartOf(c: seq<nat>, n: nat, row: nat, k: nat) returns (i: nat)
    requires IsCuts(c, n) && row < n && k < |c| && c[k] > row
    ensures i < k && c[i] <= row < c[i + 1]
    decreases k
  {
    if c[k - 1] <= row { i := k - 1; } else { i := PartOf(c, n, row, k - 1); }
  }

  /** The boundaries a partition picks. */
  function KeysAt<K>(keys: seq<K>, c: seq<nat>): (r: seq<K>)
    requires forall i :: 0 <= i < |c| ==> c[i] < |keys|
    ensures |r| == |c| && forall i :: 0 <= i < |c| ==> r[i] == keys[c[i]]
  {
    if c == [] then [] else KeysAt(keys, c[..|c| - 1]) + [keys[c[|c| - 1]]]
  }

  /** The row sums of a partition. */
  function SumsAt(v: seq<nat>, c: seq<nat>): (s: seq<nat>)
    requires Rising(c) && |c| >= 1
    requires forall i :: 0 <= i < |c| ==> c[i] <= |v|
    ensures |s| == |c| - 1
    ensures forall i {:trigger s[i]} :: 0 <= i < |s| ==> s[i] == RangeSum(v, c[i], c[i + 1])
  {
    if |c| == 1 then []
    else SumsAt(v, c[..|c| - 1]) + [RangeSum(v, c[|c| - 2], c[|c| - 1])]
  }

  lemma {:induction false} PartSums(v: seq<nat>, c: seq<nat>, s: seq<nat>, i: nat, j: nat)
    requires Rising(c) && |c| == |s| + 1
    requires forall k :: 0 <= k < |c| ==> c[k] <= |v|
    requires forall k {:trigger s[k]} :: 0 <= k < |s| ==> s[k] == RangeSum(v, c[k], c[k + 1])
    requires i <= j < |c|
    ensures c[i] <= c[j] && RangeSum(s, i, j) == RangeSum(v, c[i], c[j])
    decreases j
  {
    if i < j {
      PartSums(v, c, s, i, j - 1);
      RangeSumSplit(v, c[i], c[j - 1], c[j]);
    }
  }

  lemma {:induction false} SumsAtRange(v: seq<nat>, c: seq<nat>, i: nat, j: nat)
    requires Rising(c) && (forall k :: 0 <= k < |c| ==> c[k] <= |v|)
    requires i <= j < |c|
    ensures RangeSum(SumsAt(v, c), i, j) == RangeSum(v, c[i], c[j])
  {
    PartSums(v, c, SumsAt(v, c), i, j);
  }

  /** Coarsening keeps the column total. */
  lemma {:induction false} SumsKeepTotal(v: seq<nat>, c: seq<nat>)
    requires IsCuts(c, |v|)
    ensures Total(SumsAt(v, c)) == Total(v)
  {
    CutsNeverAddRows(c, |v|);
    SumsAtRange(v, c, 0, |c| - 1);
  }

  /** Coarsening is linear. */
  lemma {:induction false} SumsAdd(v: seq<nat>, a: seq<nat>, b: seq<nat>, c: seq<nat>)
    requires |v| == |a| == |b| && IsCuts(c, |v|)
    requires forall k :: 0 <= k < |v| ==> v[k] == a[k] + b[k]
    ensures forall i :: 0 <= i < |c| ==> c[i] <= |v|
    ensures forall i :: 0 <= i < RowsOf(c) ==> SumsAt(v, c)[i] == SumsAt(a, c)[i] + SumsAt(b, c)[i]
  {
    CutsNeverAddRows(c, |v|);
    forall i | 0 <= i < RowsOf(c)
      ensures SumsAt(v, c)[i] == SumsAt(a, c)[i] + SumsAt(b, c)[i]
    {
      RangeSumAdds(v, a, b, c[i], c[i + 1]);
    }
  }

  /** Picking boundaries of picked boundaries. */
  function Compose(c: seq<nat>, d: seq<nat>): seq<nat>
    requires forall i :: 0 <= i < |d| ==> d[i] < |c|
  {
    KeysAt(c, d)
  }

  lemma {:induction false} ComposeIsCuts(c: seq<nat>, d: seq<nat>, n: nat)
    requires IsCuts(c, n) && IsCuts(d, RowsOf(c))
    ensures forall i :: 0 <= i < |d| ==> d[i] < |c|
    ensures IsCuts(Compose(c, d), n)
  {
    CutsNeverAddRows(d, RowsOf(c));
  }

  lemma {:induction false} ComposeSums(v: seq<nat>, c: seq<nat>, d: seq<nat>, e: seq<nat>)
    requires IsCuts(c, |v|) && IsCuts(d, RowsOf(c)) && IsCuts(e, |v|)
    requires |e| == |d| && forall i :: 0 <= i < |d| ==> d[i] < |c| && e[i] == c[d[i]]
    ensures forall i :: 0 <= i < |c| ==> c[i] <= |v|
    ensures forall i :: 0 <= i < |e| ==> e[i] <= |v|
    ensures SumsAt(SumsAt(v, c), d) == SumsAt(v, e)
  {
    CutsNeverAddRows(c, |v|);
    CutsNeverAddRows(e, |v|);
    var s := SumsAt(v, c);
    var t := SumsAt(s, d);
    var u := SumsAt(v, e);
    forall i | 0 <= i < |d| - 1 ensures t[i] == u[i] {
      PartSums(v, c, s, d[i], d[i + 1]);
    }
  }

  /** Two coarsenings in a row are one. */
  lemma {:induction false} CoarsenTwice<K>(keys: seq<K>, v: seq<nat>, c: seq<nat>, d: seq<nat>)
    requires |keys| == |v| + 1 && IsCuts(c, |v|) && IsCuts(d, RowsOf(c))
    ensures forall i :: 0 <= i < |d| ==> d[i] < |c|
    ensures IsCuts(Compose(c, d), |v|)
    ensures forall i :: 0 <= i < |c| ==> c[i] <= |v|
    ensures forall i :: 0 <= i < |d| ==> Compose(c, d)[i] <= |v|
    ensures KeysAt(KeysAt(keys, c), d) == KeysAt(keys, Compose(c, d))
    ensures SumsAt(SumsAt(v, c), d) == SumsAt(v, Compose(c, d))
  {
    ComposeIsCuts(c, d, |v|);
    ComposeSums(v, c, d, Compose(c, d));
  }
}
