/**
 Every plane of stored axes has a reduction, so that the reduction of the key visualizer is one definite
 function of the axes.
 */
module Existence {
  import opened Keys
  import opened Cuts
  import opened Focus
  import opened Axes
  import opened KeyUnion
  import opened Splitting
  import opened Distance
  import opened Scale
  import opened DistanceSplitter
  import opened Planes
  import opened Reduction

  // ---------- the compact axis ----------

  lemma {:induction false} SortedExists(s: set<Key>) returns (keys: seq<Key>)
    ensures Ascending(keys) && forall k :: k in keys <==> k in s
    decreases s
  {
    if s == {} {
      keys := [];
    } else {
      var key :| key in s;
      keys := SortedExists(s - {key});
      InsertKeeps(key, keys);
      keys := InsertKey(key, keys);
    }
  }

  lemma {:induction false} CompactKeysExist(chunks: seq<Chunk>) returns (keys: seq<Key>)
    requires chunks != [] && forall i :: 0 <= i < |chunks| ==> chunks[i].Valid()
    ensures ValidKeys(keys) && BoundsOf(keys) == AllBounds(chunks)
  {
    var bounds := AllBounds(chunks);
    var finite := SortedExists(set b | b in bounds && b.Fin? :: b.key);
    forall k ensures k in finite <==> Fin(k) in bounds {
      if Fin(k) in bounds { assert Fin(k).key == k; }
    }
    FirstBounds(chunks);
    assert chunks[0].Valid();
    AxisOfBounds(finite, bounds, BoundAt(chunks[0].keys, 0), BoundAt(chunks[0].keys, 0 + 1));
    keys := if Inf in bounds then finite + [[]] else finite;
  }

  // ---------- the scale ----------

  /** The share of part p of the row [lo, hi). */
  lemma {:induction false} PartShareExists(c: Settings, dis: seq<nat>, lo: nat, hi: nat, p: nat) returns (x: real)
    requires c.Valid() && lo <= p < hi <= |dis|
    ensures var s := Ranked(dis[lo..hi]);
            forall i :: 0 <= i < |s| && s[i] == dis[p] ==> IsShare(x, TermSum(c, s, |s|), Weights(c, s)[i])
  {
    var s := Ranked(dis[lo..hi]);
    var r := RankOf(dis, lo, hi, p);
    RankedSorted(dis[lo..hi]);
    WeightsConsistent(c, s);
    SumVersusTerms(c, s);
    x := Weights(c, s)[r] / TermSum(c, s, |s|);
    DivideBack(Weights(c, s)[r], TermSum(c, s, |s|));
  }

  lemma {:induction false} RowSharesExist(c: Settings, dis: seq<nat>, v: seq<real>, lo: nat, hi: nat, n: nat)
    returns (w: seq<real>)
    requires c.Valid() && lo <= n <= hi <= |dis| == |v|
    ensures |w| == |v| && forall p :: 0 <= p < |v| && !(lo <= p < n) ==> w[p] == v[p]
    ensures var s := Ranked(dis[lo..hi]);
            forall p, i :: lo <= p < n && 0 <= i < |s| && s[i] == dis[p] ==>
              IsShare(w[p], TermSum(c, s, |s|), Weights(c, s)[i])
    decreases n
  {
    if lo == n {
      w := v;
    } else {
      w := RowSharesExist(c, dis, v, lo, hi, n - 1);
      var x := PartShareExists(c, dis, lo, hi, n - 1);
      w := w[n - 1 := x];
    }
  }

  /** Rows [0, r) of an axis can be scaled. */
  lemma {:induction false} ScaleExists(c: Settings, dis: seq<nat>, at: seq<nat>, r: nat) returns (scale: seq<real>)
    requires c.Valid() && Rising(at) && r < |at| && at[r] <= |dis|
    ensures |scale| == |dis| && RowsScaled(c, dis, scale, at, r)
    decreases r
  {
    if r == 0 {
      scale := seq(|dis|, _ => 0.0);
    } else {
      var before := ScaleExists(c, dis, at, r - 1);
      scale := RowSharesExist(c, dis, before, at[r - 1], at[r], at[r]);
      OneMoreRow(c, dis, before, scale, at, r - 1);
    }
  }

  lemma {:induction false} ScalesExist(c: Settings, keys: seq<Key>, chunks: seq<Chunk>, ats: seq<seq<nat>>, n: nat)
    returns (scales: seq<seq<real>>)
    requires c.Valid() && AllEmbed(keys, chunks, ats) && n <= |ats|
    ensures |scales| == n
    ensures forall i :: 0 <= i < n ==> |ats[i]| >= 1 && AxisScaled(c, scales[i], ats, i, |keys|)
    decreases n
  {
    if n == 0 {
      scales := [];
    } else {
      scales := ScalesExist(c, keys, chunks, ats, n - 1);
      var at := ats[n - 1];
      assert chunks[n - 1].Valid() && Embeds(keys, chunks[n - 1].keys, at);
      var scale := ScaleExists(c, BucketDistances(DisColumn(ats, n - 1, |keys|)), at, |at| - 1);
      assert AxisScaled(c, scale, ats, n - 1, |keys|);
      scales := scales + [scale];
    }
  }

  lemma {:induction false} SplitterExists(strategy: Strategy, keys: seq<Key>, chunks: seq<Chunk>, ats: seq<seq<nat>>)
    returns (splitter: Splitter)
    requires AllEmbed(keys, chunks, ats) && (strategy.DistanceStrategy? ==> strategy.settings.Valid())
    ensures Fits(strategy, splitter, ats, |keys|)
  {
    match strategy
    case AverageStrategy =>
      splitter := AverageSplitter;
    case DistanceStrategy(c) =>
      var scales := ScalesExist(c, keys, chunks, ats, |ats|);
      splitter := ScaleSplitter(scales);
  }

  // ---------- the columns ----------

  /** A column compacted from the first k axes. */
  function Gathered(splitter: Splitter, columns: seq<seq<nat>>, ats: seq<seq<nat>>, n: nat, k: nat): (r: seq<nat>)
    requires k <= |columns| == |ats| && forall i :: 0 <= i < |ats| ==> |ats[i]| == |columns[i]| + 1
    ensures |r| == n
  {
    seq(n, p requires 0 <= p => GivenByAll(splitter, columns, ats, p, k))
  }

  /** Adding what the rows give to every position is splitting. */
  lemma {:induction false} GivesSplit(share: Share, before: seq<nat>, after: seq<nat>, values: seq<nat>, at: seq<nat>)
    requires Rising(at) && |at| == |values| + 1 && |before| == |after| && at[|values|] <= |after|
    requires forall p :: 0 <= p < |after| ==> after[p] == before[p] + Given(share, values, at, p, |values|)
    ensures IsSplit(share, SplitAdd, before, after, values, at, |values|)
  {
    forall i, p | 0 <= i < |values| && at[i] <= p < at[i + 1]
      ensures after[p] == SplitValue(share, SplitAdd, before[p], values[i], p, at[i + 1] - at[i])
    {
      assert at[i + 1] <= at[|values|];
      GivenByRow(share, values, at, p, |values|, i);
    }
    forall p | 0 <= p < at[0] || at[|values|] <= p < |after| ensures after[p] == before[p] {
      GivenNothing(share, values, at, p, |values|);
    }
  }

  lemma {:induction false} GatheredTotal(strategy: Strategy, splitter: Splitter, keys: seq<Key>, chunks: seq<Chunk>,
                                         columns: seq<seq<nat>>, ats: seq<seq<nat>>, k: nat)
    requires ColumnsFit(keys, chunks, ats, columns) && Fits(strategy, splitter, ats, |keys|) && k <= |columns|
    requires forall i :: 0 <= i < |ats| ==> |ats[i]| == |columns[i]| + 1
    ensures Total(Gathered(splitter, columns, ats, |keys| - 1, k)) <= TotalOfAll(columns, k)
    decreases k
  {
    var n := |keys| - 1;
    if k == 0 {
      ZeroSum(Gathered(splitter, columns, ats, n, 0), 0, n);
    } else {
      GatheredTotal(strategy, splitter, keys, chunks, columns, ats, k - 1);
      FitsHere(keys, chunks, ats, columns, k - 1);
      FittingShares(strategy, splitter, ats, |keys|, k - 1, columns[k - 1]);
      var before, after := Gathered(splitter, columns, ats, n, k - 1), Gathered(splitter, columns, ats, n, k);
      GivesSplit(ShareOf(splitter, k - 1), before, after, columns[k - 1], ats[k - 1]);
      SplitNeverAdds(ShareOf(splitter, k - 1), before, after, columns[k - 1], ats[k - 1]);
    }
  }

  /** The columns of the compaction. */
  lemma {:induction false} ColumnsExist(strategy: Strategy, splitter: Splitter, keys: seq<Key>, axes: seq<Axis>,
                                        ats: seq<seq<nat>>, m: nat)
    returns (valuesList: seq<seq<nat>>)
    requires ValidPlane(axes) && AllEmbed(keys, BaseChunks(axes), ats) && Fits(strategy, splitter, ats, |keys|)
    requires m <= |axes[0].valuesList|
    ensures |valuesList| == m && forall j :: 0 <= j < m ==> |valuesList[j]| == |keys| - 1
    ensures forall j :: 0 <= j < m ==> IsCompact(splitter, ColumnOf(axes, j), ats, valuesList[j], |axes|)
    ensures forall j :: 0 <= j < m ==> Total(valuesList[j]) <= TotalOfAll(ColumnOf(axes, j), |axes|)
    decreases m
  {
    if m == 0 {
      valuesList := [];
    } else {
      valuesList := ColumnsExist(strategy, splitter, keys, axes, ats, m - 1);
      var columns := ColumnOf(axes, m - 1);
      PlaneFits(axes, keys, ats, m - 1);
      forall i | 0 <= i < |ats| ensures |ats[i]| == |columns[i]| + 1 {
        FitsHere(keys, BaseChunks(axes), ats, columns, i);
      }
      GatheredTotal(strategy, splitter, keys, BaseChunks(axes), columns, ats, |axes|);
      valuesList := valuesList + [Gathered(splitter, columns, ats, |keys| - 1, |axes|)];
    }
  }

  lemma {:induction false} CompactionExists(strategy: Strategy, axes: seq<Axis>)
    returns (c: Axis, splitter: Splitter, ats: seq<seq<nat>>)
    requires ValidPlane(axes) && (strategy.DistanceStrategy? ==> strategy.settings.Valid())
    ensures IsCompaction(strategy, axes, c, splitter, ats)
  {
    var chunks := BaseChunks(axes);
    forall i | 0 <= i < |chunks| ensures chunks[i].Valid() { assert axes[i].Valid(); }
    var keys := CompactKeysExist(chunks);
    ats := EmbedAll(keys, chunks, |chunks|);
    splitter := SplitterExists(strategy, keys, chunks, ats);
    var valuesList := ColumnsExist(strategy, splitter, keys, axes, ats, |axes[0].valuesList|);
    c := Axis(keys, valuesList);
  }

  // ---------- the reduction ----------

  lemma {:induction false} ResponseExists(c: Axis) returns (r: Axis)
    requires c.Sized() && |c.valuesList| == STORED_COLUMNS
    ensures Displays(c, Integration, r)
  {
    var n := |c.keys| - 1;
    var integration := seq(n, i requires 0 <= i < n => c.valuesList[0][i] + c.valuesList[1][i]);
    r := Axis(c.keys, [integration] + c.valuesList);
    assert TagIndex(Integration) == 0 && r.valuesList[0] == integration;
  }

  lemma {:induction false} ShrunkExists(axis: Axis, ratio: nat) returns (r: Axis)
    requires ratio > 0
    ensures IsShrunk(axis, ratio, r)
  {
    var n := |axis.valuesList|;
    r := Axis(axis.keys, seq(n, j requires 0 <= j < n => Quotients(axis.valuesList[j], ratio)));
  }

  /** Every plane of stored axes has a reduction. */
  lemma {:induction false} ReductionExists(strategy: Strategy, border: Border, axes: seq<Axis>)
    requires ValidPlane(axes) && |axes[0].valuesList| == STORED_COLUMNS
    requires strategy.DistanceStrategy? ==> strategy.settings.Valid()
    ensures exists r :: IsReduction(strategy, border, axes, r)
  {
    var c, splitter, ats := CompactionExists(strategy, axes);
    var response := ResponseExists(c);
    var r := ShrunkExists(StorageAxis(response, border), |axes|);
    assert ReducedBy(strategy, border, axes, r, c, splitter, ats, response);
    assert IsReduction(strategy, border, axes, r);
  }

  ghost predicate Reducible(strategy: Strategy, axes: seq<Axis>) {
    && ValidPlane(axes) && |axes[0].valuesList| == STORED_COLUMNS
    && (strategy.DistanceStrategy? ==> strategy.settings.Valid())
  }

  /** The reduction of the key visualizer, as a function. */
  ghost function ReductionOf(strategy: Strategy, border: Border, axes: seq<Axis>): (r: Axis)
    ensures Reducible(strategy, axes) ==> IsReduction(strategy, border, axes, r)
  {
    if Reducible(strategy, axes) then
      ReductionExists(strategy, border, axes);
      var r :| IsReduction(strategy, border, axes, r);
      r
    else Axis([], [])
  }
}
