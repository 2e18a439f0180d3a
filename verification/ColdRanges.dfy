/**
 Merging cold logical ranges: which boundaries `MergeColdLogicalRange` keeps.

 The rows of a chunk fall into logical ranges, separated by the boundaries the labeler reports. A
 range is hot when its sum exceeds the limit (a quarter of the focus threshold).
 */
module ColdRanges {
  import opened Cuts
  import opened Focus

  datatype Merge = Merge(chunk: Chunk, border: Border, limit: nat) {
    predicate Valid() {
      chunk.Sized()
    }

    function N(): nat {
      |chunk.values|
    }

    function Sum(a: nat, b: nat): nat
      requires a <= b <= N()
    {
      RangeSum(chunk.values, a, b)
    }

    /** Boundary j separates two logical ranges, or is an end of the chunk. */
    predicate Logical(j: nat)
      requires Valid() && j <= N()
    {
      j == 0 || j == N() || border(chunk.keys[j - 1], chunk.keys[j])
    }

    /** Rows [a, b) are one logical range. */
    predicate IsRange(a: nat, b: nat)
      requires Valid() && b <= N()
    {
      a < b && Logical(a) && Logical(b) && forall j :: a < j < b ==> !Logical(j)
    }

    predicate HotRange(a: nat, b: nat)
      requires Valid() && b <= N()
    {
      IsRange(a, b) && Sum(a, b) > limit
    }

    /** A bucket that is one row of a hot range. */
    ghost predicate HotRow(a: nat, b: nat)
      requires Valid() && b <= N()
    {
      b == a + 1 && exists x: nat, y: nat :: x <= a && b <= y <= N() && HotRange(x, y)
    }

    /** A bucket made of whole cold ranges, of which all but the last stay within the limit together. */
    ghost predicate ColdBucket(a: nat, b: nat)
      requires Valid() && b <= N()
    {
      && a <= b && Logical(a) && Logical(b)
      && (forall x: nat, y: nat :: a <= x && y <= b && IsRange(x, y) ==> Sum(x, y) <= limit)
      && (forall j :: a < j < b && Logical(j) ==> Sum(a, j) <= limit)
      && Sum(a, b) <= 2 * limit
    }
  }

  /** The end boundaries of the single rows in [a, b). */
  function RowEnds(a: nat, b: nat): (r: seq<nat>)
    requires a <= b
    ensures |r| == b - a && forall k :: 0 <= k < |r| ==> r[k] == a + 1 + k
    decreases b
  {
    if a == b then [] else RowEnds(a, b - 1) + [b]
  }

  /** The boundaries kept when range [coldEnd, end) is met while [coldStart, coldEnd) is pending. */
  function Emitted(m: Merge, coldStart: nat, coldEnd: nat, end: nat): seq<nat>
    requires coldStart <= coldEnd <= end <= m.N()
  {
    var hot := m.Sum(coldEnd, end) > m.limit;
    (if coldStart < coldEnd && (hot || m.Sum(coldStart, coldEnd) > m.limit) then [coldEnd] else []) +
    (if hot then RowEnds(coldEnd, end) else [])
  }

  /** Where the pending cold rows start after that. */
  function NextStart(m: Merge, coldStart: nat, coldEnd: nat, end: nat): (s: nat)
    requires coldStart <= coldEnd <= end <= m.N()
    ensures coldStart <= s <= end
  {
    if m.Sum(coldEnd, end) > m.limit then end
    else if m.Sum(coldStart, coldEnd) > m.limit then coldEnd
    else coldStart
  }

  /** The boundaries still to be kept from row i on. */
  function MergeEnds(m: Merge, i: nat, coldStart: nat, coldEnd: nat): seq<nat>
    requires m.Valid() && coldStart <= coldEnd <= i <= m.N()
    decreases m.N() - i
  {
    if i == m.N() then
      (if coldEnd < i then Emitted(m, coldStart, coldEnd, i) else []) +
      (if (if coldEnd < i then NextStart(m, coldStart, coldEnd, i) else coldStart) < i then [i] else [])
    else if m.border(m.chunk.keys[i], m.chunk.keys[i + 1]) then
      Emitted(m, coldStart, coldEnd, i + 1) + MergeEnds(m, i + 1, NextStart(m, coldStart, coldEnd, i + 1), i + 1)
    else MergeEnds(m, i + 1, coldStart, coldEnd)
  }

  function MergeCuts(m: Merge): seq<nat>
    requires m.Valid()
  {
    [0] + MergeEnds(m, 0, 0, 0)
  }

  ghost predicate InBounds(m: Merge, s: seq<nat>) {
    Rising(s) && forall k :: 0 <= k < |s| ==> s[k] <= m.N()
  }

  /** Bucket k of a stretch of kept boundaries is a hot row, or cold. */
  ghost predicate BucketAt(m: Merge, s: seq<nat>, k: nat)
    requires m.Valid() && InBounds(m, s) && k + 1 < |s|
  {
    m.HotRow(s[k], s[k + 1]) || m.ColdBucket(s[k], s[k + 1])
  }

  /** Bucket k could not have been merged with the next one. */
  ghost predicate FullAt(m: Merge, s: seq<nat>, k: nat)
    requires m.Valid() && InBounds(m, s) && k + 2 < |s|
  {
    m.Sum(s[k], s[k + 1]) > m.limit || m.HotRow(s[k], s[k + 1]) || m.HotRow(s[k + 1], s[k + 2])
  }

  /** What every stretch of kept boundaries satisfies. */
  ghost predicate Good(m: Merge, s: seq<nat>)
    requires m.Valid()
  {
    && InBounds(m, s)
    && (forall k: nat :: k + 1 < |s| ==> BucketAt(m, s, k))
    && (forall k: nat :: k + 2 < |s| ==> FullAt(m, s, k))
  }

  /** The last bucket of a stretch needs nothing from the next one. */
  ghost predicate Sealed(m: Merge, s: seq<nat>)
    requires m.Valid() && Good(m, s)
  {
    |s| >= 2 ==> m.Sum(s[|s| - 2], s[|s| - 1]) > m.limit || m.HotRow(s[|s| - 2], s[|s| - 1])
  }

  lemma {:induction false} GoodJoin(m: Merge, s: seq<nat>, t: seq<nat>)
    requires m.Valid() && |s| >= 1 && |t| >= 1 && s[|s| - 1] == t[0]
    requires Good(m, s) && Good(m, t) && Sealed(m, s)
    ensures Good(m, s + t[1..])
  {
    var u := s + t[1..];
    var p := |s| - 1;
    assert forall k :: p <= k < |u| ==> u[k] == t[k - p];
    assert InBounds(m, u);
    forall k: nat | k + 1 < |u| ensures BucketAt(m, u, k) {
      if k < p {
        assert BucketAt(m, s, k);
      } else {
        assert BucketAt(m, t, k - p);
      }
    }
    forall k: nat | k + 2 < |u| ensures FullAt(m, u, k) {
      if k + 1 < p {
        assert FullAt(m, s, k);
      } else if k >= p {
        assert FullAt(m, t, k - p);
      }
    }
  }

  /** The rows [coldStart, coldEnd) are pending and cold; [coldEnd, i) is inside the next range. */
  ghost predicate Pending(m: Merge, i: nat, coldStart: nat, coldEnd: nat)
    requires m.Valid() && i <= m.N()
  {
    && coldStart <= coldEnd <= i
    && m.ColdBucket(coldStart, coldEnd)
    && (forall j :: coldEnd < j <= i && j < m.N() ==> !m.Logical(j))
  }

  lemma {:induction false} RangeAlone(m: Merge, a: nat, b: nat)
    requires m.Valid() && b <= m.N() && m.IsRange(a, b) && m.Sum(a, b) <= m.limit
    ensures m.ColdBucket(a, b)
  {
    forall x: nat, y: nat | a <= x && y <= b && m.IsRange(x, y) ensures m.Sum(x, y) <= m.limit {
      assert x == a && y == b;
    }
  }

  lemma {:induction false} ColdGrows(m: Merge, a: nat, b: nat, c: nat)
    requires m.Valid() && a <= b <= c <= m.N()
    requires m.ColdBucket(a, b) && m.Sum(a, b) <= m.limit
    requires m.IsRange(b, c) && m.Sum(b, c) <= m.limit
    ensures m.ColdBucket(a, c)
  {
    RangeSumSplit(m.chunk.values, a, b, c);
    forall x: nat, y: nat | a <= x && y <= c && m.IsRange(x, y) ensures m.Sum(x, y) <= m.limit {
      if x < b { assert y <= b; } else { assert x == b && y == c; }
    }
  }

  /** A hot range is put out row by row, after the pending cold bucket. */
  lemma {:induction false} HotStepGood(m: Merge, coldStart: nat, coldEnd: nat, end: nat)
    requires m.Valid() && coldStart <= coldEnd <= end <= m.N()
    requires m.ColdBucket(coldStart, coldEnd) && m.HotRange(coldEnd, end)
    ensures var s := [coldStart] + Emitted(m, coldStart, coldEnd, end);
            Good(m, s) && Sealed(m, s) && |s| >= 2 && s[|s| - 1] == end
  {
    var s := [coldStart] + Emitted(m, coldStart, coldEnd, end);
    var p := if coldStart < coldEnd then 1 else 0;
    assert |s| == p + 1 + (end - coldEnd);
    assert s[0] == coldStart && forall k :: p <= k < |s| ==> s[k] == coldEnd + (k - p);
    assert InBounds(m, s);
    forall k: nat | p <= k && k + 1 < |s| ensures m.HotRow(s[k], s[k + 1]) {
      assert coldEnd <= s[k] && s[k + 1] <= end;
    }
    forall k: nat | k + 1 < |s| ensures BucketAt(m, s, k) {
      if k < p { assert k == 0; }
    }
    forall k: nat | k + 2 < |s| ensures FullAt(m, s, k) {
      assert m.HotRow(s[k + 1], s[k + 1 + 1]);
    }
  }

  /** Meeting one more range keeps the output good and the pending rows cold. */
  lemma {:induction false} StepGood(m: Merge, coldStart: nat, coldEnd: nat, end: nat)
    requires m.Valid() && coldStart <= coldEnd <= end <= m.N()
    requires m.ColdBucket(coldStart, coldEnd) && m.IsRange(coldEnd, end)
    ensures var s := [coldStart] + Emitted(m, coldStart, coldEnd, end);
            var next := NextStart(m, coldStart, coldEnd, end);
            Good(m, s) && Sealed(m, s) && s[|s| - 1] == next && m.ColdBucket(next, end)
  {
    var s := [coldStart] + Emitted(m, coldStart, coldEnd, end);
    if m.Sum(coldEnd, end) > m.limit {
      HotStepGood(m, coldStart, coldEnd, end);
    } else if m.Sum(coldStart, coldEnd) > m.limit {
      RangeAlone(m, coldEnd, end);
      assert s == [coldStart, coldEnd];
      assert InBounds(m, s) && BucketAt(m, s, 0);
    } else {
      ColdGrows(m, coldStart, coldEnd, end);
      assert s == [coldStart];
    }
  }

  /** `e` finishes the partition well after the boundary `start`. */
  ghost predicate Finishes(m: Merge, start: nat, e: seq<nat>)
    requires m.Valid()
  {
    var s := [start] + e;
    Good(m, s) && s[|s| - 1] == m.N()
  }

  lemma {:induction false} FinishesJoin(m: Merge, start: nat, out: seq<nat>, next: nat, e: seq<nat>)
    requires m.Valid() && Good(m, [start] + out) && Sealed(m, [start] + out)
    requires ([start] + out)[|out|] == next && Finishes(m, next, e)
    ensures Finishes(m, start, out + e)
  {
    GoodJoin(m, [start] + out, [next] + e);
    assert [start] + (out + e) == ([start] + out) + ([next] + e)[1..];
  }

  lemma {:induction false} FinishesWith(m: Merge, start: nat)
    requires m.Valid() && start <= m.N() && m.ColdBucket(start, m.N())
    ensures Finishes(m, start, if start < m.N() then [m.N()] else [])
  {
    if start < m.N() {
      var s := [start] + [m.N()];
      assert InBounds(m, s) && BucketAt(m, s, 0);
    }
  }

  /** The last range is met, or has been. */
  lemma {:induction false} EndGood(m: Merge, coldStart: nat, coldEnd: nat)
    requires m.Valid() && Pending(m, m.N(), coldStart, coldEnd)
    ensures Finishes(m, coldStart, MergeEnds(m, m.N(), coldStart, coldEnd))
  {
    var n := m.N();
    if coldEnd < n {
      StepGood(m, coldStart, coldEnd, n);
      var next := NextStart(m, coldStart, coldEnd, n);
      FinishesWith(m, next);
      FinishesJoin(m, coldStart, Emitted(m, coldStart, coldEnd, n), next, if next < n then [n] else []);
    } else {
      FinishesWith(m, coldStart);
      assert [] + [n] == [n];
    }
  }

  lemma {:induction false} PendingNext(m: Merge, i: nat, coldStart: nat, coldEnd: nat)
    requires m.Valid() && i < m.N() && Pending(m, i, coldStart, coldEnd)
    ensures m.border(m.chunk.keys[i], m.chunk.keys[i + 1]) ==> m.IsRange(coldEnd, i + 1)
    ensures !m.border(m.chunk.keys[i], m.chunk.keys[i + 1]) ==> Pending(m, i + 1, coldStart, coldEnd)
  {
  }

  lemma {:induction false} MergeGood(m: Merge, i: nat, coldStart: nat, coldEnd: nat)
    requires m.Valid() && i <= m.N() && Pending(m, i, coldStart, coldEnd)
    ensures Finishes(m, coldStart, MergeEnds(m, i, coldStart, coldEnd))
    decreases m.N() - i
  {
    if i == m.N() {
      EndGood(m, coldStart, coldEnd);
    } else {
      PendingNext(m, i, coldStart, coldEnd);
      if m.border(m.chunk.keys[i], m.chunk.keys[i + 1]) {
        StepGood(m, coldStart, coldEnd, i + 1);
        var next := NextStart(m, coldStart, coldEnd, i + 1);
        MergeGood(m, i + 1, next, i + 1);
        FinishesJoin(m, coldStart, Emitted(m, coldStart, coldEnd, i + 1), next, MergeEnds(m, i + 1, next, i + 1));
      } else {
        MergeGood(m, i + 1, coldStart, coldEnd);
      }
    }
  }

  /**
   The merged chunk consists of single rows of hot ranges and of unions of whole cold ranges whose
   sum is at most twice the limit, and two cold buckets stand side by side only where the first one
   alone exceeds the limit.
   */
  lemma {:induction false} MergeCutsAreGood(m: Merge)
    requires m.Valid()
    ensures IsCuts(MergeCuts(m), m.N()) && Good(m, MergeCuts(m))
  {
    MergeGood(m, 0, 0, 0);
  }

  /** The buckets after one boundary end alike. */
  lemma {:induction false} NoLongerBucket(m: Merge, s: seq<nat>, t: seq<nat>, i: nat)
    requires m.Valid() && IsCuts(s, m.N()) && IsCuts(t, m.N()) && Good(m, s) && Good(m, t)
    requires i + 1 < |s| && i + 1 < |t| && s[i] == t[i]
    ensures t[i + 1] <= s[i + 1]
  {
    var a, b, c := s[i], s[i + 1], t[i + 1];
    if b < c {
      assert BucketAt(m, s, i) && BucketAt(m, t, i);
      NotHot(m, a, c, a);
      assert b < s[|s| - 1];
      assert FullAt(m, s, i);
      NotHot(m, a, c, b);
    }
  }

  /** No logical boundary of a cold bucket starts a hot range. */
  lemma {:induction false} NotHot(m: Merge, a: nat, b: nat, j: nat)
    requires m.Valid() && a <= j < b <= m.N() && m.ColdBucket(a, b)
    ensures forall y: nat :: y <= m.N() && m.Logical(j) ==> !m.HotRow(j, y)
  {
  }

  lemma {:induction false} GoodAgree(m: Merge, s: seq<nat>, t: seq<nat>, i: nat)
    requires m.Valid() && IsCuts(s, m.N()) && IsCuts(t, m.N()) && Good(m, s) && Good(m, t) && i < |s|
    ensures i < |t| && s[i] == t[i]
  {
    if i > 0 {
      GoodAgree(m, s, t, i - 1);
      assert s[i - 1] < s[i] <= s[|s| - 1];
      assert i < |t|;
      NoLongerBucket(m, s, t, i - 1);
      NoLongerBucket(m, t, s, i - 1);
    }
  }

  /** The kept boundaries are the only partition with good buckets. */
  lemma {:induction false} OnlyGood(m: Merge, cuts: seq<nat>)
    requires m.Valid() && IsCuts(cuts, m.N())
    ensures cuts == MergeCuts(m) <==> Good(m, cuts)
  {
    MergeCutsAreGood(m);
    if Good(m, cuts) {
      var own, n := MergeCuts(m), |cuts| - 1;
      forall i | 0 <= i < |cuts| ensures i < |own| && own[i] == cuts[i] { GoodAgree(m, cuts, own, i); }
      RisingToEnd(own, n);
    }
  }

  /** Every row of a hot logical range is kept as it is. */
  lemma {:induction false} HotRangesIntact(m: Merge, a: nat, b: nat, row: nat) returns (k: nat)
    requires m.Valid() && b <= m.N() && m.HotRange(a, b) && a <= row < b
    ensures k < RowsOf(MergeCuts(m)) && MergeCuts(m)[k] == row && MergeCuts(m)[k + 1] == row + 1
  {
    MergeCutsAreGood(m);
    var s := MergeCuts(m);
    k := PartOf(s, m.N(), row, |s| - 1);
    assert BucketAt(m, s, k);
  }
}
