/**
 The reduction of consecutive stored axes into one of the next layer: compaction onto the union of
 their keys, division to about the target number of rows, and the mean over the samples.
 */
module Reduction {
  import opened Basics
  import opened Keys
  import opened Cuts
  import opened Focus
  import opened Chunks
  import opened Axes
  import opened KeyUnion
  import opened Splitting
  import opened Distance
  import opened Scale
  import opened DistanceSplitter
  import opened Planes

  const STORED_COLUMNS: nat := 4

  /** A stored axis whose written and read bytes stay below the bound. */
  predicate Storable(axis: Axis, bound: nat) {
    && axis.Valid() && |axis.valuesList| == STORED_COLUMNS
    && Total(axis.valuesList[0]) + Total(axis.valuesList[1]) < bound
  }

  /** Axes stored one after the other. */
  predicate StorablePlane(axes: seq<Axis>, bound: nat) {
    && ValidPlane(axes) && |axes[0].valuesList| == STORED_COLUMNS
    && forall i :: 0 <= i < |axes| ==> Storable(axes[i], bound)
  }

  /** No column totals more than the mean over the axes. */
  predicate BelowMean(axes: seq<Axis>, r: Axis)
    requires ValidPlane(axes) && |axes[0].valuesList| == STORED_COLUMNS == |r.valuesList|
  {
    forall j :: 0 <= j < STORED_COLUMNS ==> Total(r.valuesList[j]) * |axes| <= TotalOfAll(ColumnOf(axes, j), |axes|)
  }

  /** The axis spans the same keys as the axes together. */
  ghost predicate SameSpan(axes: seq<Axis>, r: Axis)
    requires ValidPlane(axes) && |r.keys| >= 2
  {
    exists keys :: ValidKeys(keys) && BoundsOf(keys) == AllBounds(BaseChunks(axes)) && SameEnds(keys, r.keys)
  }

  predicate SameEnds(keys: seq<Key>, keys': seq<Key>)
    requires |keys| >= 2 && |keys'| >= 2
  {
    keys'[0] == keys[0] && keys'[|keys'| - 1] == keys[|keys| - 1]
  }

  function Quotients(v: seq<nat>, ratio: nat): (r: seq<nat>)
    requires ratio > 0
    ensures |r| == |v|
  {
    seq(|v|, i requires 0 <= i < |v| => v[i] / ratio)
  }

  lemma {:induction false} QuotientAdd(s: nat, total: nat, v: nat, ratio: nat)
    requires ratio > 0 && s * ratio <= total
    ensures (s + v / ratio) * ratio <= total + v
  {
    var q := v / ratio;
    assert v == ratio * q + v % ratio;
    assert (s + q) * ratio == s * ratio + ratio * q;
  }

  lemma {:induction false} QuotientSum(v: seq<nat>, ratio: nat, n: nat)
    requires ratio > 0 && n <= |v|
    ensures RangeSum(Quotients(v, ratio), 0, n) * ratio <= RangeSum(v, 0, n)
  {
    if n > 0 {
      QuotientSum(v, ratio, n - 1);
      QuotientAdd(RangeSum(Quotients(v, ratio), 0, n - 1), RangeSum(v, 0, n - 1), v[n - 1], ratio);
    }
  }

  /** The columns of an axis, in arrays of their own. */
  method OwnColumns(axis: Axis) returns (columns: seq<array<nat>>)
    ensures |columns| == |axis.valuesList| && forall h :: 0 <= h < |columns| ==> fresh(columns[h])
    ensures forall h :: 0 <= h < |columns| ==> columns[h][..] == axis.valuesList[h]
    ensures forall g, h :: 0 <= g < h < |columns| ==> columns[g] != columns[h]
  {
    columns := [];
    for j := 0 to |axis.valuesList|
      invariant |columns| == j && forall h :: 0 <= h < j ==> fresh(columns[h]) && columns[h][..] == axis.valuesList[h]
      invariant forall g, h :: 0 <= g < h < j ==> columns[g] != columns[h]
    {
      var values := axis.valuesList[j];
      var column := new nat[|values|](i requires 0 <= i < |values| => values[i]);
      assert column[..] == values;
      columns := columns + [column];
    }
  }

  lemma {:induction false} DividedOnce(value: nat, ratio: nat)
    requires ratio > 0
    ensures DividedTimes(value, ratio, 1) == value / ratio
  {
    assert DividedTimes(value, ratio, 0) == value;
  }

  lemma {:induction false} ColumnOnce(before: seq<nat>, after: seq<nat>, ratio: nat)
    requires ratio > 0 && |after| == |before|
    requires forall i :: 0 <= i < |before| ==> after[i] == DividedTimes(before[i], ratio, 1)
    ensures after == Quotients(before, ratio)
  {
    forall i | 0 <= i < |before| ensures after[i] == before[i] / ratio { DividedOnce(before[i], ratio); }
  }

  /** Every value of the axis divided by the ratio, in place. */
  method ShrinkAxis(axis: Axis, ratio: nat) returns (r: Axis)
    requires axis.Sized() && ratio > 0
    ensures r.Sized() && r.keys == axis.keys && |r.valuesList| == |axis.valuesList|
    ensures forall j :: 0 <= j < |axis.valuesList| ==> r.valuesList[j] == Quotients(axis.valuesList[j], ratio)
    ensures forall j, i :: 0 <= j < |axis.valuesList| && 0 <= i < |axis.valuesList[j]| ==>
              r.valuesList[j][i] == axis.valuesList[j][i] / ratio
  {
    var columns := OwnColumns(axis);
    assert forall j, i :: 0 <= j < |columns| && 0 <= i < columns[j].Length ==> columns[j][..][i] == columns[j][i];
    assert forall j, i :: 0 <= j < |columns| && 0 <= i < columns[j].Length ==> columns[j][i] == axis.valuesList[j][i];
    Shrink(columns, ratio);
    forall j | 0 <= j < |columns| ensures columns[j][..] == Quotients(axis.valuesList[j], ratio) {
      SharedByNone(columns, j, |columns|);
      ColumnOnce(axis.valuesList[j], columns[j][..], ratio);
    }
    var valuesList: seq<seq<nat>> := [];
    for j := 0 to |columns|
      invariant |valuesList| == j && forall h :: 0 <= h < j ==> valuesList[h] == Quotients(axis.valuesList[h], ratio)
    {
      valuesList := valuesList + [columns[j][..]];
    }
    r := Axis(axis.keys, valuesList);
  }

  /** Totals of columns 0 and 1 of the axes, added up. */
  lemma {:induction false} BytesBound(axes: seq<Axis>, bound: nat, k: nat)
    requires StorablePlane(axes, bound) && k <= |axes|
    ensures TotalOfAll(ColumnOf(axes, 0), k) + TotalOfAll(ColumnOf(axes, 1), k) <= k * bound
    ensures k > 0 ==> TotalOfAll(ColumnOf(axes, 0), k) + TotalOfAll(ColumnOf(axes, 1), k) < k * bound
  {
    if k > 0 {
      BytesBound(axes, bound, k - 1);
      assert Storable(axes[k - 1], bound);
      assert k * bound == (k - 1) * bound + bound;
    }
  }

  /** The displayed form has the integration column in front, which totals what its parts do. */
  lemma {:induction false} ResponseTotals(axis: Axis, r: Axis)
    requires Displays(axis, Integration, r)
    ensures Total(r.valuesList[0]) == Total(axis.valuesList[0]) + Total(axis.valuesList[1])
    ensures forall j :: 0 <= j < STORED_COLUMNS ==> r.valuesList[j + 1] == axis.valuesList[j]
  {
    RangeSumAdds(r.valuesList[0], axis.valuesList[0], axis.valuesList[1], 0, |axis.keys| - 1);
  }

  /** Storing keeps the total of every stored column. */
  lemma {:induction false} StorageTotals(axis: Axis, border: Border)
    requires axis.Valid() && |axis.valuesList| == STORED_COLUMNS + 1
    ensures var r := StorageAxis(axis, border);
            && |r.valuesList| == STORED_COLUMNS
            && r.keys[0] == axis.keys[0] && r.keys[|r.keys| - 1] == axis.keys[|axis.keys| - 1]
            && forall j :: 0 <= j < STORED_COLUMNS ==> Total(r.valuesList[j]) == Total(axis.valuesList[j + 1])
  {
    DivideKeeps(axis, border, PRE_TARGET);
  }

  /** The mean of a column is at most the mean over the axes. */
  lemma {:induction false} ShrunkMean(axes: seq<Axis>, stored: Axis, r: Axis)
    requires ValidPlane(axes) && |axes[0].valuesList| == STORED_COLUMNS == |stored.valuesList| == |r.valuesList|
    requires forall j :: 0 <= j < STORED_COLUMNS ==>
             Total(stored.valuesList[j]) <= TotalOfAll(ColumnOf(axes, j), |axes|)
    requires forall j :: 0 <= j < STORED_COLUMNS ==> r.valuesList[j] == Quotients(stored.valuesList[j], |axes|)
    ensures BelowMean(axes, r)
  {
    forall j | 0 <= j < STORED_COLUMNS
      ensures Total(r.valuesList[j]) * |axes| <= TotalOfAll(ColumnOf(axes, j), |axes|)
    {
      QuotientSum(stored.valuesList[j], |axes|, |stored.valuesList[j]|);
    }
  }

  lemma {:induction false} MeanBelow(a: nat, b: nat, n: nat, bound: nat)
    requires n >= 1 && a * n + b * n < n * bound
    ensures a + b < bound
  {
    assert (a + b) * n == a * n + b * n;
    assert a + b >= bound ==> (a + b) * n >= bound * n;
  }

  /** What stays below the mean stays below the bound. */
  lemma {:induction false} MeanStorable(axes: seq<Axis>, r: Axis, bound: nat)
    requires StorablePlane(axes, bound) && r.Valid() && |r.valuesList| == STORED_COLUMNS && BelowMean(axes, r)
    ensures Storable(r, bound)
  {
    BytesBound(axes, bound, |axes|);
    MeanBelow(Total(r.valuesList[0]), Total(r.valuesList[1]), |axes|, bound);
  }

  // ---------- the reduction ----------

  /** `c` is the compaction of the axes. */
  ghost predicate IsCompaction(strategy: Strategy, axes: seq<Axis>, c: Axis, splitter: Splitter, ats: seq<seq<nat>>)
    requires ValidPlane(axes)
  {
    && c.Valid() && |c.valuesList| == |axes[0].valuesList| && BoundsOf(c.keys) == AllBounds(BaseChunks(axes))
    && AllEmbed(c.keys, BaseChunks(axes), ats) && Fits(strategy, splitter, ats, |c.keys|)
    && (forall j :: 0 <= j < |c.valuesList| ==> IsCompact(splitter, ColumnOf(axes, j), ats, c.valuesList[j], |axes|))
    && (forall j :: 0 <= j < |c.valuesList| ==> Total(c.valuesList[j]) <= TotalOfAll(ColumnOf(axes, j), |axes|))
  }

  ghost predicate IsShrunk(axis: Axis, ratio: nat, r: Axis)
    requires ratio > 0
  {
    && r.keys == axis.keys && |r.valuesList| == |axis.valuesList|
    && forall j :: 0 <= j < |axis.valuesList| ==> r.valuesList[j] == Quotients(axis.valuesList[j], ratio)
  }

  /** The steps of a reduction: compacted, displayed with the integration column, stored again, and the mean taken. */
  ghost predicate ReducedBy(strategy: Strategy, border: Border, axes: seq<Axis>, r: Axis,
                            c: Axis, splitter: Splitter, ats: seq<seq<nat>>, response: Axis)
    requires ValidPlane(axes)
  {
    && IsCompaction(strategy, axes, c, splitter, ats) && Displays(c, Integration, response)
    && IsShrunk(StorageAxis(response, border), |axes|, r)
  }

  ghost predicate IsReduction(strategy: Strategy, border: Border, axes: seq<Axis>, r: Axis)
    requires ValidPlane(axes)
  {
    exists c, splitter, ats, response :: ReducedBy(strategy, border, axes, r, c, splitter, ats, response)
  }

  /** What displaying and storing a compacted axis again keeps: its ends, and the total of every column. */
  lemma {:induction false} StoredAgain(c: Axis, response: Axis, border: Border)
    requires c.Valid() && |c.valuesList| == STORED_COLUMNS && Displays(c, Integration, response)
    ensures var stored := StorageAxis(response, border);
            && stored.Valid() && |stored.valuesList| == STORED_COLUMNS && SameEnds(c.keys, stored.keys)
            && forall j :: 0 <= j < STORED_COLUMNS ==> Total(stored.valuesList[j]) == Total(c.valuesList[j])
  {
    ResponseTotals(c, response);
    StorageTotals(response, border);
    DivideKeeps(response, border, PRE_TARGET);
  }

  lemma {:induction false} ShrunkValid(axis: Axis, ratio: nat, r: Axis)
    requires axis.Valid() && ratio > 0 && IsShrunk(axis, ratio, r)
    ensures r.Valid()
  {
  }

  /**
   What a reduction gives: a valid axis that spans the same keys as the axes together, and no column of
   it totals more than the mean over the axes. So the bound that keeps the 64-bit sums from overflowing
   carries over to the next layer.
   */
  lemma {:induction false} ReductionMeans(strategy: Strategy, border: Border, axes: seq<Axis>, r: Axis, bound: nat)
    requires StorablePlane(axes, bound) && IsReduction(strategy, border, axes, r)
    ensures Storable(r, bound) && SameSpan(axes, r) && BelowMean(axes, r)
  {
    var c, splitter, ats, response :| ReducedBy(strategy, border, axes, r, c, splitter, ats, response);
    ReducedMeans(strategy, axes, r, c, splitter, ats, response, StorageAxis(response, border), border);
    MeanStorable(axes, r, bound);
  }

  lemma {:induction false} ReducedMeans(strategy: Strategy, axes: seq<Axis>, r: Axis, c: Axis, splitter: Splitter,
                                        ats: seq<seq<nat>>, response: Axis, stored: Axis, border: Border)
    requires ValidPlane(axes) && |axes[0].valuesList| == STORED_COLUMNS &&
             IsCompaction(strategy, axes, c, splitter, ats)
    requires Displays(c, Integration, response) && stored == StorageAxis(response, border)
    requires IsShrunk(stored, |axes|, r)
    ensures r.Valid() && |r.valuesList| == STORED_COLUMNS && SameSpan(axes, r) && BelowMean(axes, r)
  {
    StoredAgain(c, response, border);
    ShrunkValid(stored, |axes|, r);
    ShrunkMean(axes, stored, r);
    assert SameEnds(c.keys, r.keys);
  }

  /** The boundaries `kept` of an axis: all of them for up to 3072 rows, else of about as many rows. */
  ghost predicate FewRows(border: Border, keys: seq<Key>, kept: seq<Key>)
    requires |keys| >= 2
  {
    && (|keys| - 1 <= 3072 ==> kept == keys)
    && (IsClassBorder(border) ==> |kept| >= 1 && AboutTarget(keys, border, 3072, |kept| - 1))
  }

  /** A reduction has about 3072 rows, or exactly those of the union of the keys of the axes where these are no more. */
  lemma {:induction false} ReductionRows(strategy: Strategy, border: Border, axes: seq<Axis>, r: Axis, keys: seq<Key>)
    requires ValidPlane(axes) && |axes[0].valuesList| == STORED_COLUMNS && IsReduction(strategy, border, axes, r)
    requires ValidKeys(keys) && BoundsOf(keys) == AllBounds(BaseChunks(axes))
    ensures FewRows(border, keys, r.keys)
  {
    var c, splitter, ats, response :| ReducedBy(strategy, border, axes, r, c, splitter, ats, response);
    KeysUnique(c.keys, keys);
    StoredRows(c, response, border);
  }

  lemma {:induction false} StoredRows(c: Axis, response: Axis, border: Border)
    requires Displays(c, Integration, response)
    ensures FewRows(border, c.keys, StorageAxis(response, border).keys)
  {
    StorageMeans(response, border);
  }

  /** The axes compacted; the bytes of the result fit 63 bits. */
  method CompactStored(strategy: Strategy, axes: seq<Axis>, ghost bound: nat)
    returns (c: Axis, ghost splitter: Splitter, ghost ats: seq<seq<nat>>)
    requires StorablePlane(axes, bound) && |axes| * bound <= TWO_TO_63
    requires strategy.DistanceStrategy? ==> strategy.settings.Valid()
    ensures IsCompaction(strategy, axes, c, splitter, ats)
    ensures Total(c.valuesList[0]) + Total(c.valuesList[1]) < TWO_TO_63
  {
    var split;
    c, split, ats := CompactPlane(strategy, axes);
    splitter := split;
    BytesBound(axes, bound, |axes|);
  }

  /** The reduction of a full layer. */
  method ReduceAxes(strategy: Strategy, border: Border, axes: seq<Axis>, ghost bound: nat) returns (r: Axis)
    requires StorablePlane(axes, bound) && |axes| * bound <= TWO_TO_63
    requires strategy.DistanceStrategy? ==> strategy.settings.Valid()
    ensures IsReduction(strategy, border, axes, r)
    ensures Storable(r, bound) && SameSpan(axes, r) && BelowMean(axes, r)
    ensures forall keys :: ValidKeys(keys) && BoundsOf(keys) == AllBounds(BaseChunks(axes)) ==>
              FewRows(border, keys, r.keys)
  {
    var compacted;
    ghost var splitter, ats;
    compacted, splitter, ats := CompactStored(strategy, axes, bound);
    var response := IntoResponseAxis(compacted, Integration);
    ResponseTotals(compacted, response);
    var stored := IntoStorageAxis(response, border);
    r := ShrinkAxis(stored, |axes|);
    assert ReducedBy(strategy, border, axes, r, compacted, splitter, ats, response);
    ReductionMeans(strategy, border, axes, r, bound);
    forall keys | ValidKeys(keys) && BoundsOf(keys) == AllBounds(BaseChunks(axes))
      ensures FewRows(border, keys, r.keys)
    {
      ReductionRows(strategy, border, axes, r, keys);
    }
  }

  // ---------- the reduction is a function of the axes ----------

  /** An axis with no other boundaries is no longer. */
  lemma {:induction false} NoLonger(a: seq<Key>, b: seq<Key>)
    requires ValidKeys(a) && ValidKeys(b) && BoundsOf(b) <= BoundsOf(a)
    ensures |b| <= |a|
  {
    var at := EmbeddingExists(a, b);
    RisingGrows(at, |b| - 1);
  }

  /** A key axis is given by its boundaries. */
  lemma {:induction false} KeysUnique(a: seq<Key>, b: seq<Key>)
    requires ValidKeys(a) && ValidKeys(b) && BoundsOf(a) == BoundsOf(b)
    ensures a == b
  {
    NoLonger(a, b);
    NoLonger(b, a);
    var at := EmbeddingExists(a, b);
    EmbedsPasses(a, b, at);
    forall i | 0 <= i < |a| ensures a[i] == b[i] {
      assert BoundAt(a, i) == BoundAt(b, i);
    }
  }

  /** So are the places of the keys of one axis in another. */
  lemma {:induction false} EmbeddingUnique(dst: seq<Key>, src: seq<Key>, at: seq<nat>, bt: seq<nat>)
    requires ValidKeys(dst) && Embeds(dst, src, at) && Embeds(dst, src, bt)
    ensures at == bt
  {
    forall j | 0 <= j < |src| ensures at[j] == bt[j] { BoundsDistinct(dst, at[j], bt[j]); }
  }

  lemma {:induction false} EmbeddingsUnique(keys: seq<Key>, chunks: seq<Chunk>, ats: seq<seq<nat>>, bts: seq<seq<nat>>)
    requires AllEmbed(keys, chunks, ats) && AllEmbed(keys, chunks, bts)
    ensures ats == bts
  {
    forall i | 0 <= i < |chunks| ensures ats[i] == bts[i] {
      EmbeddingUnique(keys, chunks[i].keys, ats[i], bts[i]);
    }
  }

  lemma {:induction false} ShareUnique(x: real, y: real, t: real, w: real)
    requires t > 0.0 && IsShare(x, t, w) && IsShare(y, t, w)
    ensures x == y
  {
    assert (x - y) * t == x * t - y * t;
  }

  lemma {:induction false} ScaleUnique(c: Settings, dis: seq<nat>, v: seq<real>, w: seq<real>, lo: nat, hi: nat, p: nat)
    requires c.Valid() && lo <= p < hi <= |dis| == |v| == |w| && RowScaled(c, dis, v, lo, hi) &&
             RowScaled(c, dis, w, lo, hi)
    ensures v[p] == w[p]
  {
    var s := Ranked(dis[lo..hi]);
    var i := RankOf(dis, lo, hi, p);
    SumVersusTerms(c, s);
    assert IsShare(v[p], TermSum(c, s, |s|), Weights(c, s)[i]) && IsShare(w[p], TermSum(c, s, |s|), Weights(c, s)[i]);
    ShareUnique(v[p], w[p], TermSum(c, s, |s|), Weights(c, s)[i]);
  }

  /** Splitters that fit the same axes share alike, on all parts of all rows. */
  lemma {:induction false} SharesUnique(strategy: Strategy, s: Splitter, t: Splitter, ats: seq<seq<nat>>, n: nat,
                                        i: nat, r: nat, p: nat, value: nat)
    requires Fits(strategy, s, ats, n) && Fits(strategy, t, ats, n) && i < |ats| && r + 1 < |ats[i]|
    requires ats[i][r] <= p < ats[i][r + 1]
    ensures ShareOf(s, i)(value, p, ats[i][r + 1] - ats[i][r]) == ShareOf(t, i)(value, p, ats[i][r + 1] - ats[i][r])
  {
    match strategy
    case AverageStrategy =>
    case DistanceStrategy(c) =>
      var dis, at := BucketDistances(DisColumn(ats, i, n)), ats[i];
      assert AxisScaled(c, s.scale[i], ats, i, n) && AxisScaled(c, t.scale[i], ats, i, n);
      assert RowAt(c, dis, s.scale[i], at, r) && RowAt(c, dis, t.scale[i], at, r);
      ScaleUnique(c, dis, s.scale[i], t.scale[i], at[r], at[r + 1], p);
  }

  lemma {:induction false} GivenUnique(strategy: Strategy, s: Splitter, t: Splitter, ats: seq<seq<nat>>, n: nat,
                                       i: nat, values: seq<nat>, p: nat, r: nat)
    requires Fits(strategy, s, ats, n) && Fits(strategy, t, ats, n) && i < |ats|
    requires |ats[i]| == |values| + 1 && r <= |values|
    ensures Given(ShareOf(s, i), values, ats[i], p, r) == Given(ShareOf(t, i), values, ats[i], p, r)
    decreases r
  {
    if r > 0 {
      GivenUnique(strategy, s, t, ats, n, i, values, p, r - 1);
      if ats[i][r - 1] <= p < ats[i][r] { SharesUnique(strategy, s, t, ats, n, i, r - 1, p, values[r - 1]); }
    }
  }

  lemma {:induction false} GivenByAllUnique(strategy: Strategy, s: Splitter, t: Splitter, ats: seq<seq<nat>>, n: nat,
                                            columns: seq<seq<nat>>, p: nat, k: nat)
    requires Fits(strategy, s, ats, n) && Fits(strategy, t, ats, n) && k <= |columns| == |ats|
    requires forall i :: 0 <= i < |ats| ==> |ats[i]| == |columns[i]| + 1
    ensures GivenByAll(s, columns, ats, p, k) == GivenByAll(t, columns, ats, p, k)
    decreases k
  {
    if k > 0 {
      GivenByAllUnique(strategy, s, t, ats, n, columns, p, k - 1);
      GivenUnique(strategy, s, t, ats, n, k - 1, columns[k - 1], p, |columns[k - 1]|);
    }
  }

  /** Axes have one compaction. */
  lemma {:induction false} CompactionUnique(strategy: Strategy, axes: seq<Axis>, c: Axis, s: Splitter,
                                            ats: seq<seq<nat>>, d: Axis, t: Splitter, bts: seq<seq<nat>>)
    requires ValidPlane(axes) && IsCompaction(strategy, axes, c, s, ats) && IsCompaction(strategy, axes, d, t, bts)
    ensures c == d
  {
    KeysUnique(c.keys, d.keys);
    EmbeddingsUnique(c.keys, BaseChunks(axes), ats, bts);
    forall j | 0 <= j < |c.valuesList| ensures c.valuesList[j] == d.valuesList[j] {
      forall p | 0 <= p < |c.keys| - 1 ensures c.valuesList[j][p] == d.valuesList[j][p] {
        GivenByAllUnique(strategy, s, t, ats, |c.keys|, ColumnOf(axes, j), p, |axes|);
      }
    }
  }

  lemma {:induction false} ResponseUnique(c: Axis, x: Axis, y: Axis)
    requires Displays(c, Integration, x) && Displays(c, Integration, y)
    ensures x == y
  {
    assert TagIndex(Integration) == 0;
    assert |x.valuesList[0]| == |y.valuesList[0]|;
    forall i | 0 <= i < |c.keys| - 1 ensures x.valuesList[0][i] == y.valuesList[0][i] {
      assert x.valuesList[0][i] == c.valuesList[0][i] + c.valuesList[1][i];
      assert y.valuesList[0][i] == c.valuesList[0][i] + c.valuesList[1][i];
    }
    assert x.valuesList[0] == y.valuesList[0];
    forall j | 0 <= j < |RESPONSE_TAGS| ensures x.valuesList[j] == y.valuesList[j] {
      if j > 0 { assert x.valuesList[j] == c.valuesList[j - 1]; }
    }
  }

  lemma {:induction false} ShrunkUnique(axis: Axis, ratio: nat, q: Axis, r: Axis)
    requires ratio > 0 && IsShrunk(axis, ratio, q) && IsShrunk(axis, ratio, r)
    ensures q == r
  {
    forall j | 0 <= j < |axis.valuesList| ensures q.valuesList[j] == r.valuesList[j] {}
  }

  /** Axes have one reduction, so nothing is lost by taking the compaction of the layers as a function. */
  lemma {:induction false} ReductionUnique(strategy: Strategy, border: Border, axes: seq<Axis>, q: Axis, r: Axis)
    requires ValidPlane(axes) && IsReduction(strategy, border, axes, q) && IsReduction(strategy, border, axes, r)
    ensures q == r
  {
    var c, s, ats, x :| ReducedBy(strategy, border, axes, q, c, s, ats, x);
    var d, t, bts, y :| ReducedBy(strategy, border, axes, r, d, t, bts, y);
    CompactionUnique(strategy, axes, c, s, ats, d, t, bts);
    ResponseUnique(c, x, y);
    ShrunkUnique(StorageAxis(x, border), |axes|, q, r);
  }
}
