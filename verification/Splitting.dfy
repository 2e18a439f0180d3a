/**
 Splitting the rows of a chunk onto a finer key axis, and compacting several chunks into one.

 A splitter decides which share of a row each of its parts gets: an equal share, or one weighted by
 distance. Both are used through the same loop.
 */
module Splitting {
  import opened Keys
  import opened Cuts
  import opened Focus
  import opened KeyUnion

  /** The share of a row's value that the part at a position gets, given the number of parts. */
  type Share = (nat, nat, nat) -> nat

  datatype SplitTag = SplitTo | SplitAdd

  /** The check made before splitting; the source panics where it fails. */
  predicate CheckPartOf(src: seq<Key>, part: seq<Key>)
    requires |src| >= 1 && |part| >= 1
  {
    var srcLast, partLast := src[|src| - 1], part[|part| - 1];
    && !(Less(part[0], src[0]) || |src| < |part|)
    && !(srcLast != [] && (partLast == [] || Less(srcLast, partLast)))
  }

  /** The check is whether the part lies within the keys of the axis, and has no more boundaries. */
  lemma {:induction false} CheckPartMeans(src: seq<Key>, part: seq<Key>)
    requires ValidKeys(src) && ValidKeys(part)
    ensures CheckPartOf(src, part) <==>
            && AtMost(BoundAt(src, 0), BoundAt(part, 0))
            && AtMost(BoundAt(part, |part| - 1), BoundAt(src, |src| - 1)) && |part| <= |src|
  {
    var srcLast, partLast := src[|src| - 1], part[|part| - 1];
    BelowTotal(BoundAt(src, 0), BoundAt(part, 0));
    BelowTotal(BoundAt(src, |src| - 1), BoundAt(part, |part| - 1));
    if Less(part[0], src[0]) { LessAsymmetric(part[0], src[0]); }
    if Less(srcLast, partLast) { LessAsymmetric(srcLast, partLast); }
    LessIrreflexive(src[0]);
    LessIrreflexive(srcLast);
  }

  /** An axis embedded in another one passes the check. */
  lemma {:induction false} EmbedsPasses(dst: seq<Key>, src: seq<Key>, at: seq<nat>)
    requires ValidKeys(dst) && ValidKeys(src) && Embeds(dst, src, at)
    ensures CheckPartOf(dst, src)
    ensures |dst| == |src| ==> forall j :: 0 <= j < |at| ==> at[j] == j
  {
    var n, m := |dst| - 1, |src| - 1;
    RisingGrows(at, m);
    if at[0] > 0 { ValidKeysAscend(dst, 0, at[0]); }
    assert BoundAt(src, 0) == Fin(src[0]) == Fin(dst[at[0]]);
    if at[0] > 0 { LessAsymmetric(dst[0], src[0]); } else { LessIrreflexive(dst[0]); }
    if at[m] < n { ValidKeysAscend(dst, at[m], n); }
    if dst[n] != [] {
      assert BoundAt(dst, n).Fin? && BoundAt(src, m).Fin?;
      if at[m] < n { LessAsymmetric(src[m], dst[n]); } else { LessIrreflexive(dst[n]); }
    }
    if |dst| == |src| {
      forall j | 0 <= j < |at| ensures at[j] == j {
        RisingGrows(at, j);
        RisingToEnd(at, j);
      }
    }
  }

  /** The value of position p after row i, which covers it, has been split. */
  function SplitValue(share: Share, tag: SplitTag, before: nat, value: nat, p: nat, parts: nat): nat {
    (if tag == SplitAdd then before else 0) + share(value, p, parts)
  }

  /** `dst` holds the split rows [0, rows) of `src` over what it held before, and nothing else changed. */
  ghost predicate IsSplit(share: Share, tag: SplitTag, before: seq<nat>, after: seq<nat>, values: seq<nat>,
                          at: seq<nat>, rows: nat)
    requires Rising(at) && |at| == |values| + 1 && rows <= |values| && |before| == |after| && at[|values|] <= |after|
  {
    && (forall i, p {:trigger values[i], after[p]} :: 0 <= i < rows && at[i] <= p < at[i + 1] ==>
          after[p] == SplitValue(share, tag, before[p], values[i], p, at[i + 1] - at[i]))
    && (forall p :: 0 <= p < at[0] || at[rows] <= p < |after| ==> after[p] == before[p])
  }

  /** One row, from `start` to `end`. */
  method SplitRow(share: Share, dst: array<nat>, value: nat, tag: SplitTag, start: nat, end: nat)
    requires start < end <= dst.Length
    modifies dst
    ensures forall p :: start <= p < end ==> dst[p] == SplitValue(share, tag, old(dst[p]), value, p, end - start)
    ensures forall p :: 0 <= p < start || end <= p < dst.Length ==> dst[p] == old(dst[p])
  {
    for p := start to end
      invariant forall q :: start <= q < p ==> dst[q] == SplitValue(share, tag, old(dst[q]), value, q, end - start)
      invariant forall q :: 0 <= q < start || p <= q < dst.Length ==> dst[q] == old(dst[q])
    {
      dst[p] := (if tag == SplitAdd then dst[p] else 0) + share(value, p, end - start);
    }
  }

  /** Splitting one more row. */
  lemma {:induction false} SplitOneMore(share: Share, tag: SplitTag, before: seq<nat>, mid: seq<nat>, after: seq<nat>,
                                        values: seq<nat>, at: seq<nat>, r: nat)
    requires Rising(at) && |at| == |values| + 1 && r < |values|
    requires |before| == |mid| == |after| && at[|values|] <= |after|
    requires IsSplit(share, tag, before, mid, values, at, r)
    requires forall p :: at[r] <= p < at[r + 1] ==>
               after[p] == SplitValue(share, tag, mid[p], values[r], p, at[r + 1] - at[r])
    requires forall p :: 0 <= p < at[r] || at[r + 1] <= p < |after| ==> after[p] == mid[p]
    ensures IsSplit(share, tag, before, after, values, at, r + 1)
  {
    forall i, p | 0 <= i < r + 1 && at[i] <= p < at[i + 1]
      ensures after[p] == SplitValue(share, tag, before[p], values[i], p, at[i + 1] - at[i])
    {
      if i < r {
        assert at[i + 1] <= at[r];
        assert mid[p] == SplitValue(share, tag, before[p], values[i], p, at[i + 1] - at[i]);
      } else {
        assert mid[p] == before[p];
      }
    }
  }

  /** A row with a single part keeps its whole value. */
  predicate KeepsWhole(share: Share, values: seq<nat>, at: seq<nat>)
    requires |at| == |values| + 1
  {
    forall i {:trigger values[i]} :: 0 <= i < |values| && at[i + 1] == at[i] + 1 ==>
      share(values[i], at[i], 1) == values[i]
  }

  /** The path for axes of equal length. */
  method SplitWhole(share: Share, dst: array<nat>, values: seq<nat>, tag: SplitTag, ghost at: seq<nat>)
    requires dst.Length == |values| && |at| == |values| + 1 && (forall j :: 0 <= j < |at| ==> at[j] == j)
    requires KeepsWhole(share, values, at)
    modifies dst
    ensures IsSplit(share, tag, old(dst[..]), dst[..], values, at, |values|)
  {
    ghost var before := dst[..];
    for i := 0 to |values|
      invariant forall p :: 0 <= p < i ==> dst[p] == SplitValue(share, tag, before[p], values[p], p, 1)
      invariant forall p :: i <= p < dst.Length ==> dst[p] == before[p]
    {
      assert share(values[i], at[i], 1) == values[i];
      dst[i] := (if tag == SplitAdd then dst[i] else 0) + values[i];
    }
    forall i, p | 0 <= i < |values| && at[i] <= p < at[i + 1]
      ensures dst[p] == SplitValue(share, tag, before[p], values[i], p, at[i + 1] - at[i])
    {
      assert p == i;
    }
  }

  /**
   `Split` gives every part of every row its share, and changes nothing outside the rows. The path
   for axes of equal length agrees, as a row with a single part keeps its whole value.
   */
  method Split(share: Share, dstKeys: seq<Key>, dst: array<nat>, src: Chunk, tag: SplitTag, ghost at: seq<nat>)
    requires ValidKeys(dstKeys) && dst.Length + 1 == |dstKeys| && src.Valid() && Embeds(dstKeys, src.keys, at)
    requires KeepsWhole(share, src.values, at)
    modifies dst
    ensures CheckPartOf(dstKeys, src.keys)
    ensures IsSplit(share, tag, old(dst[..]), dst[..], src.values, at, |src.values|)
    ensures tag == SplitTo ==>
              forall i, p {:trigger src.values[i], dst[p]} :: 0 <= i < |src.values| && at[i] <= p < at[i + 1] ==>
                dst[p] == share(src.values[i], p, at[i + 1] - at[i])
    ensures tag == SplitAdd ==>
              forall i, p {:trigger src.values[i], dst[p]} :: 0 <= i < |src.values| && at[i] <= p < at[i + 1] ==>
                dst[p] == old(dst[p]) + share(src.values[i], p, at[i + 1] - at[i])
  {
    EmbedsPasses(dstKeys, src.keys, at);
    if |dstKeys| == |src.keys| {
      SplitWhole(share, dst, src.values, tag, at);
      return;
    }
    ghost var before := dst[..];
    var start := FindKey(dstKeys, src.keys, 0, 0, at);
    for i := 0 to |src.values|
      invariant start == at[i]
      invariant IsSplit(share, tag, before, dst[..], src.values, at, i)
    {
      ghost var mid := dst[..];
      var end := FindKey(dstKeys, src.keys, i + 1, start + 1, at);
      SplitRow(share, dst, src.values[i], tag, start, end);
      SplitOneMore(share, tag, before, mid, dst[..], src.values, at, i);
      start := end;
    }
  }

  // ---------- what splitting keeps ----------

  /** What the parts [lo, hi) of a row get together. */
  function ShareSum(share: Share, value: nat, lo: nat, hi: nat, parts: nat): nat
    requires lo <= hi
    decreases hi
  {
    if lo == hi then 0 else ShareSum(share, value, lo, hi - 1, parts) + share(value, hi - 1, parts)
  }

  /** Reducing a split row back gives what was there before plus the shares of its parts. */
  lemma {:induction false} ReduceSplitRow(share: Share, before: seq<nat>, after: seq<nat>, values: seq<nat>,
                                          at: seq<nat>, i: nat, hi: nat)
    requires Rising(at) && |at| == |values| + 1 && |before| == |after| && at[|values|] <= |after|
    requires IsSplit(share, SplitAdd, before, after, values, at, |values|)
    requires i < |values| && at[i] <= hi <= at[i + 1]
    ensures hi <= |after|
    ensures RangeSum(after, at[i], hi) ==
            RangeSum(before, at[i], hi) + ShareSum(share, values[i], at[i], hi, at[i + 1] - at[i])
    decreases hi
  {
    assert at[i + 1] <= at[|values|];
    if at[i] < hi {
      ReduceSplitRow(share, before, after, values, at, i, hi - 1);
      assert after[hi - 1] == SplitValue(share, SplitAdd, before[hi - 1], values[i], hi - 1, at[i + 1] - at[i]);
    }
  }

  /** No row is given out more than it has. */
  ghost predicate Frugal(share: Share, values: seq<nat>, at: seq<nat>)
    requires Rising(at) && |at| == |values| + 1
  {
    forall i {:trigger values[i]} :: 0 <= i < |values| ==>
      ShareSum(share, values[i], at[i], at[i + 1], at[i + 1] - at[i]) <= values[i]
  }

  /** Splitting onto a blank axis and reducing back onto the chunk's own keys never increases a value. */
  lemma {:induction false} SplitRoundTrip(share: Share, values: seq<nat>, at: seq<nat>, blank: seq<nat>,
                                          after: seq<nat>, i: nat)
    requires Rising(at) && |at| == |values| + 1 && |blank| == |after| && at[|values|] <= |after| && i < |values|
    requires forall p :: 0 <= p < |blank| ==> blank[p] == 0
    requires IsSplit(share, SplitAdd, blank, after, values, at, |values|) && Frugal(share, values, at)
    ensures at[i + 1] <= |after| && RangeSum(after, at[i], at[i + 1]) <= values[i]
  {
    assert at[i + 1] <= at[|values|];
    ReduceSplitRow(share, blank, after, values, at, i, at[i + 1]);
    ZeroSum(blank, at[i], at[i + 1]);
  }

  /** Splitting adds at most the rows' own total, over any number of rows. */
  lemma {:induction false} SplitTotal(share: Share, before: seq<nat>, after: seq<nat>, values: seq<nat>,
                                      at: seq<nat>, r: nat)
    requires Rising(at) && |at| == |values| + 1 && |before| == |after| && at[|values|] <= |after|
    requires IsSplit(share, SplitAdd, before, after, values, at, |values|) && Frugal(share, values, at)
    requires r <= |values|
    ensures at[r] <= |after|
    ensures RangeSum(after, 0, at[r]) <= RangeSum(before, 0, at[r]) + RangeSum(values, 0, r)
    decreases r
  {
    assert at[r] <= at[|values|];
    if r == 0 {
      RangeSumLocal(before, after, 0, at[0]);
    } else {
      SplitTotal(share, before, after, values, at, r - 1);
      ReduceSplitRow(share, before, after, values, at, r - 1, at[r]);
      assert ShareSum(share, values[r - 1], at[r - 1], at[r - 1 + 1], at[r] - at[r - 1]) <= values[r - 1];
      RangeSumSplit(after, 0, at[r - 1], at[r]);
      RangeSumSplit(before, 0, at[r - 1], at[r]);
    }
  }

  /** The total grows by at most the total of the split chunk. */
  lemma {:induction false} SplitNeverAdds(share: Share, before: seq<nat>, after: seq<nat>, values: seq<nat>,
                                          at: seq<nat>)
    requires Rising(at) && |at| == |values| + 1 && |before| == |after| && at[|values|] <= |after|
    requires IsSplit(share, SplitAdd, before, after, values, at, |values|) && Frugal(share, values, at)
    ensures Total(after) <= Total(before) + Total(values)
  {
    var n := at[|values|];
    SplitTotal(share, before, after, values, at, |values|);
    RangeSumLocal(before, after, n, |after|);
    RangeSumSplit(after, 0, n, |after|);
    RangeSumSplit(before, 0, n, |after|);
  }

  /** Every row is given out but for less than one for each of its parts. */
  ghost predicate LosesLittle(share: Share, values: seq<nat>, at: seq<nat>)
    requires Rising(at) && |at| == |values| + 1
  {
    forall i {:trigger values[i]} :: 0 <= i < |values| ==>
      values[i] < ShareSum(share, values[i], at[i], at[i + 1], at[i + 1] - at[i]) + (at[i + 1] - at[i])
  }

  /** Then splitting adds the rows' own total, but for less than one for each part. */
  lemma {:induction false} SplitTotalLoss(share: Share, before: seq<nat>, after: seq<nat>, values: seq<nat>,
                                          at: seq<nat>, r: nat)
    requires Rising(at) && |at| == |values| + 1 && |before| == |after| && at[|values|] <= |after|
    requires IsSplit(share, SplitAdd, before, after, values, at, |values|) && LosesLittle(share, values, at)
    requires r <= |values|
    ensures at[r] <= |after|
    ensures RangeSum(before, 0, at[r]) + RangeSum(values, 0, r) <= RangeSum(after, 0, at[r]) + at[r]
    decreases r
  {
    assert at[r] <= at[|values|];
    if r == 0 {
      RangeSumLocal(before, after, 0, at[0]);
    } else {
      SplitTotalLoss(share, before, after, values, at, r - 1);
      ReduceSplitRow(share, before, after, values, at, r - 1, at[r]);
      var given := ShareSum(share, values[r - 1], at[r - 1], at[r - 1 + 1], at[r - 1 + 1] - at[r - 1]);
      assert values[r - 1] < given + (at[r - 1 + 1] - at[r - 1]);
      RangeSumSplit(after, 0, at[r - 1], at[r]);
      RangeSumSplit(before, 0, at[r - 1], at[r]);
    }
  }

  /** The total grows by at least the total of the split chunk less one for each position. */
  lemma {:induction false} SplitLosesLittle(share: Share, before: seq<nat>, after: seq<nat>, values: seq<nat>,
                                            at: seq<nat>)
    requires Rising(at) && |at| == |values| + 1 && |before| == |after| && at[|values|] <= |after|
    requires IsSplit(share, SplitAdd, before, after, values, at, |values|) && LosesLittle(share, values, at)
    ensures Total(before) + Total(values) <= Total(after) + |after|
  {
    var n := at[|values|];
    SplitTotalLoss(share, before, after, values, at, |values|);
    RangeSumLocal(before, after, n, |after|);
    RangeSumSplit(after, 0, n, |after|);
    RangeSumSplit(before, 0, n, |after|);
  }

  // ---------- the equal share ----------

  function AverageShare(value: nat, p: nat, parts: nat): nat {
    if parts == 0 then 0 else value / parts
  }

  lemma {:induction false} AverageShareSum(value: nat, lo: nat, hi: nat, parts: nat)
    requires lo <= hi && parts >= 1
    ensures ShareSum(AverageShare, value, lo, hi, parts) == (hi - lo) * (value / parts)
    decreases hi
  {
    if lo < hi {
      AverageShareSum(value, lo, hi - 1, parts);
      assert (hi - lo) * (value / parts) == (hi - 1 - lo) * (value / parts) + value / parts;
    }
  }

  /** The parts of a row get its value back, less than one per part missing. */
  lemma {:induction false} AverageLoss(value: nat, lo: nat, hi: nat)
    requires lo < hi
    ensures ShareSum(AverageShare, value, lo, hi, hi - lo) <= value
    ensures value - ShareSum(AverageShare, value, lo, hi, hi - lo) < hi - lo
  {
    var k := hi - lo;
    AverageShareSum(value, lo, hi, k);
    assert value == k * (value / k) + value % k;
  }

  lemma {:induction false} AverageIsFrugal(values: seq<nat>, at: seq<nat>)
    requires Rising(at) && |at| == |values| + 1
    ensures Frugal(AverageShare, values, at) && KeepsWhole(AverageShare, values, at)
    ensures LosesLittle(AverageShare, values, at)
  {
    forall i | 0 <= i < |values|
      ensures var given := ShareSum(AverageShare, values[i], at[i], at[i + 1], at[i + 1] - at[i]);
              given <= values[i] < given + (at[i + 1] - at[i])
    {
      AverageLoss(values[i], at[i], at[i + 1]);
    }
  }

  /**
   Splitting a chunk onto a finer axis and reducing it back onto its own keys never increases a value,
   and the equal share loses less than the number of parts.
   */
  lemma {:induction false} AverageRoundTrip(values: seq<nat>, at: seq<nat>, blank: seq<nat>, after: seq<nat>, i: nat)
    requires Rising(at) && |at| == |values| + 1 && |blank| == |after| && at[|values|] <= |after| && i < |values|
    requires forall p :: 0 <= p < |blank| ==> blank[p] == 0
    requires IsSplit(AverageShare, SplitAdd, blank, after, values, at, |values|)
    ensures at[i + 1] <= |after|
    ensures RangeSum(after, at[i], at[i + 1]) <= values[i] < RangeSum(after, at[i], at[i + 1]) + (at[i + 1] - at[i])
  {
    assert at[i + 1] <= at[|values|];
    ReduceSplitRow(AverageShare, blank, after, values, at, i, at[i + 1]);
    AverageLoss(values[i], at[i], at[i + 1]);
    ZeroSum(blank, at[i], at[i + 1]);
  }

  lemma {:induction false} ZeroSum(v: seq<nat>, i: nat, j: nat)
    requires i <= j <= |v| && forall p :: i <= p < j ==> v[p] == 0
    ensures RangeSum(v, i, j) == 0
    decreases j
  {
    if i < j { ZeroSum(v, i, j - 1); }
  }
}
