/**
 Merging the rows of one column: which boundaries `GetFocusRows` and `Focus` keep, and how many.
 */
module Focus {
  import opened Keys
  import opened Cuts

  /** Whether two keys lie in different logical ranges (`Labeler.CrossBorder`). */
  type Border = (Key, Key) -> bool

  datatype Chunk = Chunk(keys: seq<Key>, values: seq<nat>) {
    predicate Sized() {
      |values| >= 1 && |keys| == |values| + 1
    }

    predicate Valid() {
      Sized() && ValidKeys(keys)
    }
  }

  function Coarsen(c: Chunk, cuts: seq<nat>): (r: Chunk)
    requires c.Sized() && IsCuts(cuts, |c.values|)
    ensures r.Sized() && |r.values| == RowsOf(cuts)
  {
    CutsNeverAddRows(cuts, |c.values|);
    assert |cuts| > 1;
    Chunk(KeysAt(c.keys, cuts), SumsAt(c.values, cuts))
  }

  // ---------- which rows start a new bucket ----------

  /** When a pass that is inside a bucket started at row `start` closes it before row i. */
  datatype Rule =
    | Plain(values: seq<nat>, threshold: nat)
    | Full(values: seq<nat>, threshold: nat, keys: seq<Key>, ratio: int, border: Border)
  {
    predicate Valid() {
      Full? ==> |keys| == |values| + 1
    }

    /** The row, or the bucket so far, is too hot to grow. */
    predicate HotCut(start: nat, i: nat)
      requires start <= i < |values|
    {
      values[i] >= threshold || RangeSum(values, start, i) >= threshold
    }

    predicate RatioCut(start: nat, i: nat) {
      Full? && i - start >= ratio
    }

    predicate BorderCut(start: nat, i: nat)
      requires Valid() && start <= i < |values|
    {
      Full? && border(keys[start], keys[i])
    }

    predicate Cut(start: nat, i: nat)
      requires Valid() && start <= i < |values|
    {
      HotCut(start, i) || RatioCut(start, i) || BorderCut(start, i)
    }
  }

  /** The bucket ends still to come at row i inside a bucket started at `start`. */
  function Ends(r: Rule, i: nat, start: nat): seq<nat>
    requires r.Valid() && start <= i <= |r.values|
    decreases |r.values| - i
  {
    if i == |r.values| then (if start < i then [i] else [])
    else if start < i && r.Cut(start, i) then [i] + Ends(r, i + 1, i)
    else Ends(r, i + 1, start)
  }

  function RuleCuts(r: Rule): seq<nat>
    requires r.Valid()
  {
    [0] + Ends(r, 0, 0)
  }

  lemma {:induction false} EndsAscend(r: Rule, i: nat, start: nat)
    requires r.Valid() && start <= i <= |r.values| && (start < i || i < |r.values|)
    ensures var e := Ends(r, i, start);
            |e| >= 1 && start < e[0] && Rising(e) && e[|e| - 1] == |r.values|
    decreases |r.values| - i
  {
    if i < |r.values| {
      if start < i && r.Cut(start, i) {
        EndsAscend(r, i + 1, i);
      } else {
        EndsAscend(r, i + 1, start);
      }
    }
  }

  lemma {:induction false} RuleCutsAreCuts(r: Rule)
    requires r.Valid() && |r.values| >= 1
    ensures IsCuts(RuleCuts(r), |r.values|)
  {
    EndsAscend(r, 0, 0);
  }

  /**
   What a finished bucket looks like, on the rows themselves: unless it is the last one, it ends at a hot
   row, or has become hot, or long enough, or has come to a border; and at no row inside it was that so.
   */
  predicate Bucket(r: Rule, a: nat, b: nat)
    requires r.Valid() && b <= |r.values|
  {
    && a < b
    && (forall j :: a < j < b ==>
          && r.values[j] < r.threshold && RangeSum(r.values, a, j) < r.threshold
          && (r.Full? ==> j - a < r.ratio && !r.border(r.keys[a], r.keys[j])))
    && (b < |r.values| ==>
          || r.values[b] >= r.threshold || RangeSum(r.values, a, b) >= r.threshold
          || (r.Full? && (b - a >= r.ratio || r.border(r.keys[a], r.keys[b]))))
  }

  predicate BucketAt(r: Rule, cuts: seq<nat>, k: nat)
    requires r.Valid() && k + 1 < |cuts|
  {
    cuts[k + 1] <= |r.values| && Bucket(r, cuts[k], cuts[k + 1])
  }

  /** All parts of a partition are finished buckets. */
  predicate AllBuckets(r: Rule, cuts: seq<nat>)
    requires r.Valid() && |cuts| >= 1
  {
    forall k: nat :: k < RowsOf(cuts) ==> BucketAt(r, cuts, k)
  }

  lemma {:induction false} RuleBucket(r: Rule, a: nat, b: nat)
    requires r.Valid() && a < b <= |r.values| && forall j :: a < j < b ==> !r.Cut(a, j)
    requires b < |r.values| ==> r.Cut(a, b)
    ensures Bucket(r, a, b)
  {
    forall j | a < j < b
      ensures r.values[j] < r.threshold && RangeSum(r.values, a, j) < r.threshold
      ensures r.Full? ==> j - a < r.ratio && !r.border(r.keys[a], r.keys[j])
    {
      assert !r.Cut(a, j);
    }
  }

  lemma {:induction false} OneMoreBucket(r: Rule, a: nat, s: seq<nat>)
    requires r.Valid() && |s| >= 1 && s[0] <= |r.values| && Bucket(r, a, s[0]) && AllBuckets(r, s)
    ensures AllBuckets(r, [a] + s)
  {
    forall k: nat | k < |s| ensures BucketAt(r, [a] + s, k) {
      if k > 0 { assert BucketAt(r, s, k - 1); }
    }
  }

  /** `Ends` closes exactly finished buckets. */
  lemma {:induction false} EndsAreBuckets(r: Rule, i: nat, start: nat)
    requires r.Valid() && start <= i <= |r.values| && (start < i || i < |r.values|)
    requires forall j :: start < j < i ==> !r.Cut(start, j)
    ensures AllBuckets(r, [start] + Ends(r, i, start))
    decreases |r.values| - i
  {
    if i == |r.values| {
      RuleBucket(r, start, i);
      OneMoreBucket(r, start, [i]);
    } else if start < i && r.Cut(start, i) {
      RuleBucket(r, start, i);
      EndsAreBuckets(r, i + 1, i);
      OneMoreBucket(r, start, [i] + Ends(r, i + 1, i));
    } else {
      EndsAreBuckets(r, i + 1, start);
    }
  }

  lemma {:induction false} RuleCutsAreBuckets(r: Rule)
    requires r.Valid() && |r.values| >= 1
    ensures IsCuts(RuleCuts(r), |r.values|) && AllBuckets(r, RuleCuts(r))
  {
    RuleCutsAreCuts(r);
    EndsAreBuckets(r, 0, 0);
  }

  /** Finished buckets that start alike end alike. */
  lemma {:induction false} OneEnd(r: Rule, a: nat, b: nat, c: nat)
    requires r.Valid() && b <= |r.values| && c <= |r.values| && Bucket(r, a, b) && Bucket(r, a, c)
    ensures b == c
  {
  }

  lemma {:induction false} NextAgrees(r: Rule, s: seq<nat>, t: seq<nat>, i: nat)
    requires r.Valid() && |s| >= 1 && |t| >= 1 && AllBuckets(r, s) && AllBuckets(r, t)
    requires i + 1 < |s| && i + 1 < |t| && s[i] == t[i]
    ensures s[i + 1] == t[i + 1]
  {
    assert BucketAt(r, s, i) && BucketAt(r, t, i);
    OneEnd(r, s[i], s[i + 1], t[i + 1]);
  }

  /** Partitions into finished buckets agree, boundary by boundary. */
  lemma {:induction false} BucketsAgree(r: Rule, s: seq<nat>, t: seq<nat>, i: nat)
    requires r.Valid() && IsCuts(s, |r.values|) && IsCuts(t, |r.values|) && AllBuckets(r, s) && AllBuckets(r, t)
    requires i < |s|
    ensures i < |t| && s[i] == t[i]
  {
    if i > 0 {
      BucketsAgree(r, s, t, i - 1);
      assert s[i - 1] < s[|s| - 1] == t[|t| - 1];
      NextAgrees(r, s, t, i - 1);
    }
  }

  /** A pass keeps the boundaries of the one partition of the rows into finished buckets. */
  lemma {:induction false} OnlyBuckets(r: Rule, cuts: seq<nat>)
    requires r.Valid() && |r.values| >= 1 && IsCuts(cuts, |r.values|)
    ensures cuts == RuleCuts(r) <==> AllBuckets(r, cuts)
  {
    RuleCutsAreBuckets(r);
    if AllBuckets(r, cuts) {
      var own, n := RuleCuts(r), |cuts| - 1;
      forall i | 0 <= i < |cuts| ensures i < |own| && own[i] == cuts[i] { BucketsAgree(r, cuts, own, i); }
      RisingToEnd(own, n);
    }
  }

  /**
   Every bucket of `Focus` that merges two or more rows holds only rows below the threshold, totals
   less than twice the threshold, spans at most `ratio` rows, and none of its rows starts across a
   border from its first key.
   */
  lemma {:induction false} MergedBucketsAreCold(r: Rule, a: nat, b: nat)
    requires r.Valid() && r.Full? && b <= |r.values|
    requires Bucket(r, a, b) && a + 2 <= b
    ensures forall j :: a < j < b ==> r.values[j] < r.threshold
    ensures r.values[a] < r.threshold
    ensures RangeSum(r.values, a, b) < 2 * r.threshold
    ensures b - a <= r.ratio
    ensures forall j :: a < j < b ==> !r.border(r.keys[a], r.keys[j])
  {
    assert r.values[a + 1] < r.threshold && r.values[b - 1] < r.threshold;
    assert RangeSum(r.values, a, a + 1) == RangeSum(r.values, a, a) + r.values[a];
    assert RangeSum(r.values, a, b) == RangeSum(r.values, a, b - 1) + r.values[b - 1];
  }

  lemma {:induction false} RuleBucketsAreCold(r: Rule, k: nat)
    requires r.Valid() && r.Full? && |r.values| >= 1 && k < RowsOf(RuleCuts(r))
    ensures var a, b := RuleCuts(r)[k], RuleCuts(r)[k + 1];
            && a < b <= |r.values|
            && (a + 1 < b ==>
                  && (forall j :: a <= j < b ==> r.values[j] < r.threshold)
                  && RangeSum(r.values, a, b) < 2 * r.threshold && b - a <= r.ratio
                  && (forall j :: a < j < b ==> !r.border(r.keys[a], r.keys[j])))
  {
    RuleCutsAreBuckets(r);
    var a, b := RuleCuts(r)[k], RuleCuts(r)[k + 1];
    assert BucketAt(r, RuleCuts(r), k);
    if a + 1 < b { MergedBucketsAreCold(r, a, b); }
  }

  // ---------- how many rows ----------

  /** The estimate of `GetFocusRows`. */
  function FocusRows(values: seq<nat>, threshold: nat): nat {
    |Ends(Plain(values, threshold), 0, 0)|
  }

  /**
   The estimate counts the parts of the one partition whose parts end where a row, or the part so far,
   reaches the threshold, and at no row inside them.
   */
  lemma {:induction false} FocusRowsCount(values: seq<nat>, threshold: nat, cuts: seq<nat>)
    requires |values| >= 1 && IsCuts(cuts, |values|) && forall k :: 0 <= k < |cuts| ==> cuts[k] <= |values|
    requires forall k :: 0 <= k < RowsOf(cuts) && cuts[k + 1] < |values| ==>
               (values[cuts[k + 1]] >= threshold || RangeSum(values, cuts[k], cuts[k + 1]) >= threshold)
    requires forall k, j :: 0 <= k < RowsOf(cuts) && cuts[k] < j < cuts[k + 1] ==>
               values[j] < threshold && RangeSum(values, cuts[k], j) < threshold
    ensures FocusRows(values, threshold) == RowsOf(cuts)
  {
    var rule := Plain(values, threshold);
    forall k: nat | k < RowsOf(cuts) ensures BucketAt(rule, cuts, k) { assert cuts[k] < cuts[k + 1]; }
    OnlyBuckets(rule, cuts);
  }

  /**
   Greedy stays ahead. A pass with the lower threshold whose bucket started no later never finishes
   with fewer buckets; and wherever its bucket started, it is at most one bucket short.
   */
  lemma {:induction false} LowerThresholdMoreRows(v: seq<nat>, lo: nat, hi: nat, i: nat, s: nat, t: nat)
    requires lo <= hi && s < i <= |v| && t < i
    ensures s <= t ==> |Ends(Plain(v, hi), i, t)| <= |Ends(Plain(v, lo), i, s)|
    ensures |Ends(Plain(v, hi), i, t)| <= 1 + |Ends(Plain(v, lo), i, s)|
    decreases |v| - i
  {
    if i < |v| {
      var p, q := Plain(v, lo), Plain(v, hi);
      if s <= t { RangeSumSplit(v, s, t, i); }
      LowerThresholdMoreRows(v, lo, hi, i + 1, if p.Cut(s, i) then i else s, if q.Cut(t, i) then i else t);
    }
  }

  /** The estimated number of rows does not increase with the threshold. */
  lemma {:induction false} FocusRowsAntitone(v: seq<nat>, lo: nat, hi: nat)
    requires lo <= hi
    ensures FocusRows(v, hi) <= FocusRows(v, lo)
  {
    if |v| > 0 { LowerThresholdMoreRows(v, lo, hi, 1, 0, 0); }
  }

  lemma {:induction false} RangeSumWithin(v: seq<nat>, i: nat, j: nat)
    requires i <= j <= |v|
    ensures RangeSum(v, i, j) <= Total(v)
    ensures i < j ==> v[i] <= RangeSum(v, i, j) && v[j - 1] <= RangeSum(v, i, j)
  {
    RangeSumSplit(v, 0, i, |v|);
    RangeSumSplit(v, i, j, |v|);
    if i < j {
      RangeSumSplit(v, i, i + 1, j);
      assert RangeSum(v, i, i + 1) == RangeSum(v, i, i) + v[i];
    }
  }

  /** Above the column total nothing is hot, and one bucket remains. */
  lemma {:induction false} OneRowAboveTotal(v: seq<nat>, i: nat)
    requires 0 < i <= |v|
    ensures |Ends(Plain(v, Total(v) + 1), i, 0)| == 1
    decreases |v| - i
  {
    if i < |v| {
      RangeSumWithin(v, 0, i);
      RangeSumWithin(v, i, i + 1);
      OneRowAboveTotal(v, i + 1);
    }
  }

  lemma {:induction false} FocusRowsBounds(v: seq<nat>, threshold: nat)
    requires |v| >= 1
    ensures FocusRows(v, threshold) >= 1
    ensures FocusRows(v, Total(v) + 1) == 1
  {
    EndsAscend(Plain(v, threshold), 0, 0);
    OneRowAboveTotal(v, 1);
  }

  /** Cuts of a `Focus` pass that only the ratio, or only a border, asked for. */
  function RatioCuts(r: Rule, i: nat, start: nat): nat
    requires r.Valid() && start < i <= |r.values|
    decreases |r.values| - i
  {
    if i == |r.values| then 0
    else if r.Cut(start, i) then
      RatioCuts(r, i + 1, i) + (if !r.HotCut(start, i) && r.RatioCut(start, i) then 1 else 0)
    else RatioCuts(r, i + 1, start)
  }

  function BorderCuts(r: Rule, i: nat, start: nat): nat
    requires r.Valid() && start < i <= |r.values|
    decreases |r.values| - i
  {
    if i == |r.values| then 0
    else if r.Cut(start, i) then
      BorderCuts(r, i + 1, i) + (if !r.HotCut(start, i) && !r.RatioCut(start, i) then 1 else 0)
    else BorderCuts(r, i + 1, start)
  }

  /** Each extra cut costs at most one row over the estimate. */
  lemma {:induction false} ExtraCutsCostOneRow(r: Rule, i: nat, start: nat)
    requires r.Valid() && start < i <= |r.values|
    ensures |Ends(r, i, start)| <=
            |Ends(Plain(r.values, r.threshold), i, start)| + RatioCuts(r, i, start) + BorderCuts(r, i, start)
    decreases |r.values| - i
  {
    if i < |r.values| {
      var p := Plain(r.values, r.threshold);
      assert p.Cut(start, i) <==> r.HotCut(start, i);
      if r.Cut(start, i) {
        ExtraCutsCostOneRow(r, i + 1, i);
        LowerThresholdMoreRows(r.values, r.threshold, r.threshold, i + 1, start, i);
      } else {
        ExtraCutsCostOneRow(r, i + 1, start);
      }
    }
  }

  /** Each ratio cut closes a bucket of `ratio` rows. */
  lemma {:induction false} RatioCutsAreSpaced(r: Rule, i: nat, start: nat)
    requires r.Valid() && r.Full? && r.ratio >= 1 && start < i <= |r.values|
    ensures RatioCuts(r, i, start) * r.ratio <= |r.values| - start
    decreases |r.values| - i
  {
    if i < |r.values| {
      if r.Cut(start, i) {
        RatioCutsAreSpaced(r, i + 1, i);
        var more := if !r.HotCut(start, i) && r.RatioCut(start, i) then 1 else 0;
        assert (RatioCuts(r, i + 1, i) + more) * r.ratio == RatioCuts(r, i + 1, i) * r.ratio + more * r.ratio;
      } else {
        RatioCutsAreSpaced(r, i + 1, start);
      }
    }
  }

  /** Not crossing a border is an equivalence. */
  ghost predicate IsClassBorder(border: Border) {
    && (forall a: Key :: !border(a, a))
    && (forall a: Key, b: Key, c: Key :: !border(a, b) && border(a, c) ==> border(b, c))
  }

  /** Row starts j in [i, n) whose logical range differs from the row before. */
  function Changes(border: Border, keys: seq<Key>, i: nat, n: nat): nat
    requires 0 < i <= n <= |keys|
    decreases n - i
  {
    if i == n then 0
    else (if border(keys[i - 1], keys[i]) then 1 else 0) + Changes(border, keys, i + 1, n)
  }

  /** A border cut falls exactly on a change of logical range. */
  lemma {:induction false} BorderCutsAreChanges(r: Rule, i: nat, start: nat)
    requires r.Valid() && r.Full? && start < i <= |r.values| && IsClassBorder(r.border)
    requires !r.border(r.keys[start], r.keys[i - 1])
    ensures BorderCuts(r, i, start) <= Changes(r.border, r.keys, i, |r.values|)
    decreases |r.values| - i
  {
    if i < |r.values| {
      BorderCutsAreChanges(r, i + 1, if r.Cut(start, i) then i else start);
    }
  }
}
