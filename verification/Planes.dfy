/**
 Planes: consecutive axes compacted into one axis, or pixelated into a matrix of about `target` rows.
 */
module Planes {
  import opened Keys
  import opened Cuts
  import opened Focus
  import opened Axes
  import opened KeyUnion
  import opened Splitting
  import opened Distance
  import opened Scale
  import opened DistanceSplitter

  datatype Strategy = AverageStrategy | DistanceStrategy(settings: Settings)

  datatype Splitter = AverageSplitter | ScaleSplitter(scale: seq<seq<real>>)

  function ShareOf(splitter: Splitter, i: nat): Share {
    if splitter.ScaleSplitter? && i < |splitter.scale| then DistanceShare(splitter.scale[i]) else AverageShare
  }

  /** The key distances of axis i, for n compact keys. */
  function DisColumn(ats: seq<seq<nat>>, i: nat, n: nat): seq<nat>
    requires i < |ats|
  {
    seq(n, p requires 0 <= p => BothDis(ats, i, p))
  }

  /** They are the true distances: to the nearest axis with the key. */
  lemma {:induction false} ColumnNearest(ats: seq<seq<nat>>, n: nat, i: nat, p: nat)
    requires AllNearest(ats, n) && i < |ats| && p < n
    ensures IsNearest(ats, i, p, DisColumn(ats, i, n)[p])
  {
    assert IsNearest(ats, i, p, BothDis(ats, i, p));
  }

  /** Axis i is scaled by its distances. */
  ghost predicate AxisScaled(c: Settings, scale: seq<real>, ats: seq<seq<nat>>, i: nat, n: nat)
    requires i < |ats| && n >= 1 && |ats[i]| >= 1
  {
    RowsScaled(c, BucketDistances(DisColumn(ats, i, n)), scale, ats[i], |ats[i]| - 1)
  }

  /** The splitter belongs to the strategy and to the axes. */
  ghost predicate Fits(strategy: Strategy, splitter: Splitter, ats: seq<seq<nat>>, n: nat) {
    match strategy
    case AverageStrategy => splitter == AverageSplitter
    case DistanceStrategy(c) =>
      && splitter.ScaleSplitter? && |splitter.scale| == |ats| && n >= 1
      && forall i :: 0 <= i < |ats| ==> |ats[i]| >= 1 && AxisScaled(c, splitter.scale[i], ats, i, n)
  }

  /** Under either strategy no row is given out more than it has, and single parts get it all. */
  lemma {:induction false} FittingShares(strategy: Strategy, splitter: Splitter, ats: seq<seq<nat>>, n: nat, i: nat,
                                         values: seq<nat>)
    requires Fits(strategy, splitter, ats, n) && i < |ats| && Rising(ats[i]) && |ats[i]| == |values| + 1
    ensures Frugal(ShareOf(splitter, i), values, ats[i]) && KeepsWhole(ShareOf(splitter, i), values, ats[i])
  {
    match strategy
    case AverageStrategy => AverageIsFrugal(values, ats[i]);
    case DistanceStrategy(c) =>
      DistanceIsFrugal(c, BucketDistances(DisColumn(ats, i, n)), splitter.scale[i], values, ats[i]);
  }

  /** Under the distance strategy no level of any row of the axis is truncated. */
  ghost predicate Untruncated(strategy: Strategy, ats: seq<seq<nat>>, n: nat, i: nat)
    requires i < |ats| && n >= 1
  {
    match strategy
    case AverageStrategy => true
    case DistanceStrategy(c) =>
      var b := BucketDistances(DisColumn(ats, i, n));
      forall r: nat :: r + 1 < |ats[i]| ==> RowFull(c, b, ats[i], r)
  }

  predicate RowFull(c: Settings, b: seq<nat>, at: seq<nat>, r: nat)
    requires r + 1 < |at|
  {
    at[r] <= at[r + 1] <= |b| && Scale.Full(c, Ranked(b[at[r]..at[r + 1]]))
  }

  /** Then every row is given out but for less than one for each of its parts. */
  lemma {:induction false} FittingLoss(strategy: Strategy, splitter: Splitter, ats: seq<seq<nat>>, n: nat, i: nat,
                                       values: seq<nat>)
    requires Fits(strategy, splitter, ats, n) && i < |ats| && Rising(ats[i]) && |ats[i]| == |values| + 1 && n >= 1
    requires Untruncated(strategy, ats, n, i)
    ensures LosesLittle(ShareOf(splitter, i), values, ats[i])
  {
    match strategy
    case AverageStrategy => AverageIsFrugal(values, ats[i]);
    case DistanceStrategy(c) =>
      var b, at, scale := BucketDistances(DisColumn(ats, i, n)), ats[i], splitter.scale[i];
      forall r | 0 <= r < |values|
        ensures values[r] < ShareSum(DistanceShare(scale), values[r], at[r], at[r + 1], at[r + 1] - at[r])
                            + (at[r + 1] - at[r])
      {
        assert RowAt(c, b, scale, at, r) && RowFull(c, b, at, r);
        DistanceLoss(c, b, scale, values[r], at[r], at[r + 1]);
      }
  }

  /** The equal shares: a row's value over the number of its parts, rounded down. */
  lemma {:induction false} AverageGives(splitter: Splitter, ats: seq<seq<nat>>, n: nat, i: nat, value: nat, p: nat,
                                        parts: nat)
    requires Fits(AverageStrategy, splitter, ats, n) && parts >= 1
    ensures ShareOf(splitter, i)(value, p, parts) * parts <= value < (ShareOf(splitter, i)(value, p, parts) + 1) * parts
  {
    var q := value / parts;
    assert value == q * parts + value % parts && (q + 1) * parts == q * parts + parts;
  }

  lemma {:induction false} EntryShare(c: Settings, b: seq<nat>, scale: seq<real>, lo: nat, hi: nat, p: nat, h: nat)
    requires c.Valid() && lo <= p < hi <= |b| == |scale| && RowScaled(c, b, scale, lo, hi)
    requires h < |Ranked(b[lo..hi])| && Ranked(b[lo..hi])[h] == b[p]
    ensures var s := Ranked(b[lo..hi]);
            scale[p] >= 0.0 && TermSum(c, s, |s|) > 0.0 && IsShare(scale[p], TermSum(c, s, |s|), WeightAt(c, s, h))
  {
    var s := Ranked(b[lo..hi]);
    RowScaleOrder(c, b, scale, lo, hi, p, p);
    SumVersusTerms(c, s);
    assert IsShare(scale[p], TermSum(c, s, |s|), Weights(c, s)[h]);
  }

  /**
   The entries by distance: times the sum of the terms of its row, the entry of a part is the weight of its
   distance, both by the rank of that distance among the parts of the row.
   */
  lemma {:induction false} DistanceEntry(c: Settings, splitter: Splitter, ats: seq<seq<nat>>, n: nat, i: nat, r: nat,
                                         p: nat, h: nat)
    requires Fits(DistanceStrategy(c), splitter, ats, n) && i < |ats| && c.Valid()
    requires r + 1 < |ats[i]| && ats[i][r] <= p < ats[i][r + 1] < n
    requires var b := BucketDistances(DisColumn(ats, i, n));
             h < |Ranked(b[ats[i][r]..ats[i][r + 1]])| && Ranked(b[ats[i][r]..ats[i][r + 1]])[h] == b[p]
    ensures i < |splitter.scale| && p < |splitter.scale[i]| && splitter.scale[i][p] >= 0.0
    ensures var b := BucketDistances(DisColumn(ats, i, n));
            var s := Ranked(b[ats[i][r]..ats[i][r + 1]]);
            TermSum(c, s, |s|) > 0.0 && IsShare(splitter.scale[i][p], TermSum(c, s, |s|), WeightAt(c, s, h))
  {
    ScaledAt(c, splitter, ats, n, i, r);
    EntryShare(c, BucketDistances(DisColumn(ats, i, n)), splitter.scale[i], ats[i][r], ats[i][r + 1], p, h);
  }

  lemma {:induction false} ScaledAt(c: Settings, splitter: Splitter, ats: seq<seq<nat>>, n: nat, i: nat, r: nat)
    requires Fits(DistanceStrategy(c), splitter, ats, n) && i < |ats| && r + 1 < |ats[i]|
    ensures i < |splitter.scale| && RowAt(c, BucketDistances(DisColumn(ats, i, n)), splitter.scale[i], ats[i], r)
  {
  }

  /** A part gets its entry times the value of the row, rounded down. */
  lemma {:induction false} DistanceGives(c: Settings, splitter: Splitter, ats: seq<seq<nat>>, n: nat, i: nat, p: nat,
                                         value: nat, parts: nat)
    requires Fits(DistanceStrategy(c), splitter, ats, n) && i < |ats|
    requires p < |splitter.scale[i]| && splitter.scale[i][p] >= 0.0
    ensures ShareOf(splitter, i)(value, p, parts) == (value as real * splitter.scale[i][p]).Floor
  {
  }

  /** The scale of axis i, from its key distances. */
  method ScaleAxis(c: Settings, dis: array<nat>, chunks: seq<Chunk>, compactKeys: seq<Key>, table: array<real>,
                   i: nat, ghost ats: seq<seq<nat>>)
    returns (scale: seq<real>, newTable: array<real>)
    requires c.Valid() && AllEmbed(compactKeys, chunks, ats) && i < |chunks|
    requires dis.Length == |compactKeys| && table.Length >= 1 && IsBoth(dis[..], ats, i)
    modifies dis, table
    ensures newTable.Length >= 1 && (newTable == table || fresh(newTable))
    ensures |ats[i]| >= 1 && AxisScaled(c, scale, ats, i, |compactKeys|)
  {
    assert chunks[i].Valid() && Embeds(compactKeys, chunks[i].keys, ats[i]);
    assert dis[..] == DisColumn(ats, i, |compactKeys|);
    var column;
    column, newTable := ScaleColumn(c, dis, chunks[i].keys, compactKeys, table, ats[i]);
    scale := column[..];
  }

  /** `NewSplitter`. One scratch table serves all axes in turn. */
  method NewSplitter(strategy: Strategy, chunks: seq<Chunk>, compactKeys: seq<Key>, ghost ats: seq<seq<nat>>)
    returns (splitter: Splitter)
    requires AllEmbed(compactKeys, chunks, ats) && |chunks| >= 1
    requires strategy.DistanceStrategy? ==> strategy.settings.Valid()
    ensures Fits(strategy, splitter, ats, |compactKeys|)
    ensures BoundsOf(compactKeys) == AllBounds(chunks) ==> AllNearest(ats, |compactKeys|)
  {
    if BoundsOf(compactKeys) == AllBounds(chunks) { PassesFindNearest(compactKeys, chunks, ats); }
    if strategy.AverageStrategy? {
      return AverageSplitter;
    }
    var c := strategy.settings;
    var dis := DistanceMatrix(chunks, compactKeys, ats);
    ghost var n := |compactKeys|;
    var table := new real[256](_ => 0.0);
    var scale: seq<seq<real>> := [];
    for i := 0 to |chunks|
      invariant |scale| == i && table.Length >= 1 && fresh(table)
      invariant forall h :: i <= h < |chunks| ==> IsBoth(dis[h][..], ats, h)
      invariant forall h :: 0 <= h < i ==> |ats[h]| >= 1 && AxisScaled(c, scale[h], ats, h, n)
    {
      var entries;
      entries, table := ScaleAxis(c, dis[i], chunks, compactKeys, table, i, ats);
      scale := scale + [entries];
    }
    splitter := ScaleSplitter(scale);
  }

  // ---------- compaction ----------

  /** What the rows [0, r) of one split chunk give to position p. */
  function Given(share: Share, values: seq<nat>, at: seq<nat>, p: nat, r: nat): nat
    requires |at| == |values| + 1 && r <= |values|
    decreases r
  {
    if r == 0 then 0
    else Given(share, values, at, p, r - 1) +
         if at[r - 1] <= p < at[r] then share(values[r - 1], p, at[r] - at[r - 1]) else 0
  }

  lemma {:induction false} GivenNothing(share: Share, values: seq<nat>, at: seq<nat>, p: nat, r: nat)
    requires |at| == |values| + 1 && r <= |values| && Rising(at) && (p < at[0] || at[r] <= p)
    ensures Given(share, values, at, p, r) == 0
    decreases r
  {
    if r > 0 { GivenNothing(share, values, at, p, r - 1); }
  }

  lemma {:induction false} GivenByRow(share: Share, values: seq<nat>, at: seq<nat>, p: nat, r: nat, i: nat)
    requires |at| == |values| + 1 && r <= |values| && Rising(at) && i < r && at[i] <= p < at[i + 1]
    ensures Given(share, values, at, p, r) == share(values[i], p, at[i + 1] - at[i])
    decreases r
  {
    if i == r - 1 {
      GivenNothing(share, values, at, p, r - 1);
    } else {
      assert at[i + 1] <= at[r - 1];
      GivenByRow(share, values, at, p, r - 1, i);
    }
  }

  /** Splitting adds to every position what the rows give it. */
  lemma {:induction false} SplitGives(share: Share, before: seq<nat>, after: seq<nat>, values: seq<nat>,
                                      at: seq<nat>, p: nat)
    requires Rising(at) && |at| == |values| + 1 && |values| >= 1 && |before| == |after| && at[|values|] <= |after|
    requires IsSplit(share, SplitAdd, before, after, values, at, |values|) && p < |after|
    ensures after[p] == before[p] + Given(share, values, at, p, |values|)
  {
    var n := |values|;
    if at[0] <= p < at[n] {
      var i := RowWithin(at, p, n);
      GivenByRow(share, values, at, p, n, i);
      assert after[p] == SplitValue(share, SplitAdd, before[p], values[i], p, at[i + 1] - at[i]);
    } else {
      GivenNothing(share, values, at, p, n);
    }
  }

  lemma {:induction false} RowWithin(at: seq<nat>, p: nat, n: nat) returns (i: nat)
    requires n < |at| && at[0] <= p < at[n]
    ensures i < n && at[i] <= p < at[i + 1]
    decreases n
  {
    if at[n - 1] <= p { i := n - 1; } else { i := RowWithin(at, p, n - 1); }
  }

  /** What the first k columns give to position p together. */
  function GivenByAll(splitter: Splitter, columns: seq<seq<nat>>, ats: seq<seq<nat>>, p: nat, k: nat): nat
    requires k <= |columns| == |ats| && forall i :: 0 <= i < |ats| ==> |ats[i]| == |columns[i]| + 1
    decreases k
  {
    if k == 0 then 0
    else GivenByAll(splitter, columns, ats, p, k - 1) +
         Given(ShareOf(splitter, k - 1), columns[k - 1], ats[k - 1], p, |columns[k - 1]|)
  }

  function TotalOfAll(columns: seq<seq<nat>>, k: nat): nat
    requires k <= |columns|
    decreases k
  {
    if k == 0 then 0 else TotalOfAll(columns, k - 1) + Total(columns[k - 1])
  }

  /** A compacted column: the sum of what every axis gives to each bucket. */
  ghost predicate IsCompact(splitter: Splitter, columns: seq<seq<nat>>, ats: seq<seq<nat>>, values: seq<nat>, k: nat) {
    && k <= |columns| == |ats| && (forall i :: 0 <= i < |ats| ==> |ats[i]| == |columns[i]| + 1)
    && forall p :: 0 <= p < |values| ==> values[p] == GivenByAll(splitter, columns, ats, p, k)
  }

  /** What the first k columns give, position by position. */
  function GivenSeq(splitter: Splitter, columns: seq<seq<nat>>, ats: seq<seq<nat>>, n: nat, k: nat): (r: seq<nat>)
    requires k <= |columns| == |ats| && forall i :: 0 <= i < |ats| ==> |ats[i]| == |columns[i]| + 1
    ensures |r| == n
  {
    seq(n, p requires 0 <= p < n => GivenByAll(splitter, columns, ats, p, k))
  }

  lemma {:induction false} GivenIsSplit(splitter: Splitter, columns: seq<seq<nat>>, ats: seq<seq<nat>>, n: nat, k: nat)
    requires k < |columns| == |ats| && forall i :: 0 <= i < |ats| ==> |ats[i]| == |columns[i]| + 1
    requires Rising(ats[k]) && ats[k][|columns[k]|] <= n
    ensures IsSplit(ShareOf(splitter, k), SplitAdd, GivenSeq(splitter, columns, ats, n, k),
                    GivenSeq(splitter, columns, ats, n, k + 1), columns[k], ats[k], |columns[k]|)
  {
    var share, values, at := ShareOf(splitter, k), columns[k], ats[k];
    var before, after := GivenSeq(splitter, columns, ats, n, k), GivenSeq(splitter, columns, ats, n, k + 1);
    forall i, p {:trigger values[i], after[p]} | 0 <= i < |values| && at[i] <= p < at[i + 1]
      ensures p < n && after[p] == SplitValue(share, SplitAdd, before[p], values[i], p, at[i + 1] - at[i])
    {
      assert at[i + 1] <= at[|values|];
      GivenByRow(share, values, at, p, |values|, i);
    }
    forall p | 0 <= p < at[0] || at[|values|] <= p < n ensures after[p] == before[p] {
      GivenNothing(share, values, at, p, |values|);
    }
  }

  lemma {:induction false} GivenConserves(splitter: Splitter, columns: seq<seq<nat>>, ats: seq<seq<nat>>, n: nat,
                                          k: nat)
    requires k <= |columns| == |ats| && forall i :: 0 <= i < |ats| ==> |ats[i]| == |columns[i]| + 1
    requires forall i :: 0 <= i < k ==> Rising(ats[i]) && ats[i][|columns[i]|] <= n
    requires forall i {:trigger ShareOf(splitter, i)} :: 0 <= i < k ==>
               LosesLittle(ShareOf(splitter, i), columns[i], ats[i])
    ensures TotalOfAll(columns, k) <= Total(GivenSeq(splitter, columns, ats, n, k)) + k * n
    decreases k
  {
    if k > 0 {
      GivenConserves(splitter, columns, ats, n, k - 1);
      GivenIsSplit(splitter, columns, ats, n, k - 1);
      SplitLosesLittle(ShareOf(splitter, k - 1), GivenSeq(splitter, columns, ats, n, k - 1),
                       GivenSeq(splitter, columns, ats, n, k), columns[k - 1], ats[k - 1]);
      assert k * n == (k - 1) * n + n;
    }
  }

  /**
   Compaction loses next to nothing: where no level is truncated, what the axes hold in a column is in the
   compacted column, but for less than one for each bucket and axis.
   */
  lemma {:induction false} CompactionConserves(strategy: Strategy, splitter: Splitter, compactKeys: seq<Key>,
                                               chunks: seq<Chunk>, columns: seq<seq<nat>>, ats: seq<seq<nat>>,
                                               values: seq<nat>)
    requires ColumnsFit(compactKeys, chunks, ats, columns) && Fits(strategy, splitter, ats, |compactKeys|)
    requires |values| == |compactKeys| - 1 && IsCompact(splitter, columns, ats, values, |columns|)
    requires forall i :: 0 <= i < |ats| ==> Untruncated(strategy, ats, |compactKeys|, i)
    ensures TotalOfAll(columns, |columns|) <= Total(values) + |columns| * |values|
  {
    forall i | 0 <= i < |columns|
      ensures Rising(ats[i]) && ats[i][|columns[i]|] <= |values|
      ensures LosesLittle(ShareOf(splitter, i), columns[i], ats[i])
    {
      FitsHere(compactKeys, chunks, ats, columns, i);
      FittingLoss(strategy, splitter, ats, |compactKeys|, i, columns[i]);
    }
    assert values == GivenSeq(splitter, columns, ats, |values|, |columns|);
    GivenConserves(splitter, columns, ats, |values|, |columns|);
  }

  /** The columns fit the embedded axes. */
  ghost predicate ColumnsFit(compactKeys: seq<Key>, chunks: seq<Chunk>, ats: seq<seq<nat>>, columns: seq<seq<nat>>) {
    && AllEmbed(compactKeys, chunks, ats) && |columns| == |chunks|
    && forall i :: 0 <= i < |columns| ==> |columns[i]| == |chunks[i].values|
  }

  lemma {:induction false} FitsHere(compactKeys: seq<Key>, chunks: seq<Chunk>, ats: seq<seq<nat>>,
                                    columns: seq<seq<nat>>, i: nat)
    requires ColumnsFit(compactKeys, chunks, ats, columns) && i < |chunks|
    ensures Chunk(chunks[i].keys, columns[i]).Valid() && Embeds(compactKeys, chunks[i].keys, ats[i])
    ensures Rising(ats[i]) && |ats[i]| == |columns[i]| + 1 && ats[i][|columns[i]|] <= |compactKeys| - 1
  {
    assert chunks[i].Valid() && Embeds(compactKeys, chunks[i].keys, ats[i]);
  }

  lemma {:induction false} CompactStart(splitter: Splitter, compactKeys: seq<Key>, chunks: seq<Chunk>,
                                        ats: seq<seq<nat>>, columns: seq<seq<nat>>, blank: seq<nat>)
    requires ColumnsFit(compactKeys, chunks, ats, columns) && forall p :: 0 <= p < |blank| ==> blank[p] == 0
    ensures IsCompact(splitter, columns, ats, blank, 0) && Total(blank) == 0
  {
    ZeroSum(blank, 0, |blank|);
    forall i | 0 <= i < |ats| ensures |ats[i]| == |columns[i]| + 1 { FitsHere(compactKeys, chunks, ats, columns, i); }
  }

  lemma {:induction false} CompactStep(splitter: Splitter, columns: seq<seq<nat>>, ats: seq<seq<nat>>,
                                       before: seq<nat>, after: seq<nat>, i: nat)
    requires i < |columns| && IsCompact(splitter, columns, ats, before, i) && |columns[i]| >= 1
    requires Rising(ats[i]) && |before| == |after| && ats[i][|columns[i]|] <= |after|
    requires IsSplit(ShareOf(splitter, i), SplitAdd, before, after, columns[i], ats[i], |columns[i]|)
    ensures IsCompact(splitter, columns, ats, after, i + 1)
  {
    forall p | 0 <= p < |after| ensures after[p] == GivenByAll(splitter, columns, ats, p, i + 1) {
      SplitGives(ShareOf(splitter, i), before, after, columns[i], ats[i], p);
    }
  }

  /** One more column is added. */
  method AddColumn(strategy: Strategy, splitter: Splitter, compactKeys: seq<Key>, chunks: seq<Chunk>,
                   columns: seq<seq<nat>>, i: nat, dst: array<nat>, ghost ats: seq<seq<nat>>)
    requires ColumnsFit(compactKeys, chunks, ats, columns) && Fits(strategy, splitter, ats, |compactKeys|)
    requires i < |columns| && dst.Length == |compactKeys| - 1 && IsCompact(splitter, columns, ats, dst[..], i)
    modifies dst
    ensures IsCompact(splitter, columns, ats, dst[..], i + 1)
    ensures Total(dst[..]) <= old(Total(dst[..])) + Total(columns[i])
  {
    ghost var before := dst[..];
    FitsHere(compactKeys, chunks, ats, columns, i);
    FittingShares(strategy, splitter, ats, |compactKeys|, i, columns[i]);
    Split(ShareOf(splitter, i), compactKeys, dst, Chunk(chunks[i].keys, columns[i]), SplitAdd, ats[i]);
    SplitNeverAdds(ShareOf(splitter, i), before, dst[..], columns[i], ats[i]);
    CompactStep(splitter, columns, ats, before, dst[..], i);
  }

  /** Add up one column of every axis on the compact axis. */
  method AddColumns(strategy: Strategy, splitter: Splitter, compactKeys: seq<Key>, chunks: seq<Chunk>,
                    columns: seq<seq<nat>>, ghost ats: seq<seq<nat>>)
    returns (values: seq<nat>)
    requires ColumnsFit(compactKeys, chunks, ats, columns) && Fits(strategy, splitter, ats, |compactKeys|)
    ensures |values| == |compactKeys| - 1 && IsCompact(splitter, columns, ats, values, |columns|)
    ensures Total(values) <= TotalOfAll(columns, |columns|)
  {
    var dst := new nat[|compactKeys| - 1](_ => 0);
    CompactStart(splitter, compactKeys, chunks, ats, columns, dst[..]);
    for i := 0 to |columns|
      invariant IsCompact(splitter, columns, ats, dst[..], i)
      invariant Total(dst[..]) <= TotalOfAll(columns, i)
    {
      AddColumn(strategy, splitter, compactKeys, chunks, columns, i, dst, ats);
    }
    values := dst[..];
  }

  function ValuesOf(chunks: seq<Chunk>): seq<seq<nat>> {
    seq(|chunks|, i requires 0 <= i < |chunks| => chunks[i].values)
  }

  lemma {:induction false} EmbedAll(compactKeys: seq<Key>, chunks: seq<Chunk>, n: nat) returns (ats: seq<seq<nat>>)
    requires ValidKeys(compactKeys) && BoundsOf(compactKeys) == AllBounds(chunks) && n <= |chunks|
    requires forall i :: 0 <= i < |chunks| ==> chunks[i].Valid()
    ensures |ats| == n && forall i :: 0 <= i < n ==> Embeds(compactKeys, chunks[i].keys, ats[i])
  {
    if n == 0 {
      ats := [];
    } else {
      ats := EmbedAll(compactKeys, chunks, n - 1);
      ChunkWithin(chunks, n - 1);
      var at := EmbeddingExists(compactKeys, chunks[n - 1].keys);
      ats := ats + [at];
    }
  }

  /**
   `compact`: the chunks on their common key axis. Its boundaries are exactly theirs, every bucket holds
   the sum of what the chunks give it, and the total never exceeds theirs.
   */
  method Compact(strategy: Strategy, chunks: seq<Chunk>)
    returns (c: Chunk, splitter: Splitter, ghost ats: seq<seq<nat>>)
    requires |chunks| >= 1 && forall i :: 0 <= i < |chunks| ==> chunks[i].Valid()
    requires strategy.DistanceStrategy? ==> strategy.settings.Valid()
    ensures c.Valid() && BoundsOf(c.keys) == AllBounds(chunks)
    ensures AllEmbed(c.keys, chunks, ats) && Fits(strategy, splitter, ats, |c.keys|) && AllNearest(ats, |c.keys|)
    ensures IsCompact(splitter, ValuesOf(chunks), ats, c.values, |chunks|)
    ensures Total(c.values) <= TotalOfAll(ValuesOf(chunks), |chunks|)
  {
    var keys := CompactKeys(chunks);
    ats := EmbedAll(keys, chunks, |chunks|);
    splitter := NewSplitter(strategy, chunks, keys, ats);
    var values := AddColumns(strategy, splitter, keys, chunks, ValuesOf(chunks), ats);
    c := Chunk(keys, values);
  }

  /** The axes of a plane have the same columns. */
  predicate ValidPlane(axes: seq<Axis>) {
    && |axes| >= 1
    && forall i :: 0 <= i < |axes| ==> axes[i].Valid() && |axes[i].valuesList| == |axes[0].valuesList|
  }

  function BaseChunks(axes: seq<Axis>): seq<Chunk>
    requires ValidPlane(axes)
  {
    seq(|axes|, i requires 0 <= i < |axes| => axes[i].Column(0))
  }

  /** Column j of every axis. */
  function ColumnOf(axes: seq<Axis>, j: nat): seq<seq<nat>>
    requires ValidPlane(axes) && j < |axes[0].valuesList|
  {
    seq(|axes|, i requires 0 <= i < |axes| => axes[i].valuesList[j])
  }

  lemma {:induction false} PlaneFits(axes: seq<Axis>, compactKeys: seq<Key>, ats: seq<seq<nat>>, j: nat)
    requires ValidPlane(axes) && j < |axes[0].valuesList| && AllEmbed(compactKeys, BaseChunks(axes), ats)
    ensures ColumnsFit(compactKeys, BaseChunks(axes), ats, ColumnOf(axes, j))
  {
    forall i | 0 <= i < |axes| ensures |ColumnOf(axes, j)[i]| == |BaseChunks(axes)[i].values| {
      assert axes[i].Valid();
    }
  }

  /** `values` is column j of the axes, compacted onto n buckets. */
  ghost predicate IsColumn(splitter: Splitter, axes: seq<Axis>, ats: seq<seq<nat>>, n: nat, j: nat, values: seq<nat>)
    requires ValidPlane(axes)
  {
    && j < |axes[0].valuesList| && |values| == n
    && IsCompact(splitter, ColumnOf(axes, j), ats, values, |axes|)
    && Total(values) <= TotalOfAll(ColumnOf(axes, j), |axes|)
  }

  lemma {:induction false} ColumnsNext(splitter: Splitter, axes: seq<Axis>, ats: seq<seq<nat>>, n: nat,
                                       valuesList: seq<seq<nat>>, values: seq<nat>)
    requires ValidPlane(axes) && IsColumn(splitter, axes, ats, n, |valuesList|, values)
    requires forall h :: 0 <= h < |valuesList| ==> IsColumn(splitter, axes, ats, n, h, valuesList[h])
    ensures forall h :: 0 <= h <= |valuesList| ==> IsColumn(splitter, axes, ats, n, h, (valuesList + [values])[h])
  {
  }

  /** Column j of the axes on their common keys. */
  method CompactColumn(strategy: Strategy, splitter: Splitter, compactKeys: seq<Key>, axes: seq<Axis>, j: nat,
                       ghost ats: seq<seq<nat>>)
    returns (values: seq<nat>)
    requires ValidPlane(axes) && j < |axes[0].valuesList| && AllEmbed(compactKeys, BaseChunks(axes), ats)
    requires Fits(strategy, splitter, ats, |compactKeys|)
    ensures IsColumn(splitter, axes, ats, |compactKeys| - 1, j, values)
  {
    PlaneFits(axes, compactKeys, ats, j);
    values := AddColumns(strategy, splitter, compactKeys, BaseChunks(axes), ColumnOf(axes, j), ats);
  }

  /** `Plane.Compact`: every column is compacted with the splitter of the base column. */
  method CompactPlane(strategy: Strategy, axes: seq<Axis>)
    returns (axis: Axis, splitter: Splitter, ghost ats: seq<seq<nat>>)
    requires ValidPlane(axes) && (strategy.DistanceStrategy? ==> strategy.settings.Valid())
    ensures axis.Valid() && |axis.valuesList| == |axes[0].valuesList|
    ensures BoundsOf(axis.keys) == AllBounds(BaseChunks(axes))
    ensures AllEmbed(axis.keys, BaseChunks(axes), ats) && AllNearest(ats, |axis.keys|)
    ensures Fits(strategy, splitter, ats, |axis.keys|)
    ensures forall j :: 0 <= j < |axis.valuesList| ==>
              && IsCompact(splitter, ColumnOf(axes, j), ats, axis.valuesList[j], |axes|)
              && Total(axis.valuesList[j]) <= TotalOfAll(ColumnOf(axes, j), |axes|)
  {
    var base;
    base, splitter, ats := Compact(strategy, BaseChunks(axes));
    assert ValuesOf(BaseChunks(axes)) == ColumnOf(axes, 0);
    var valuesList := [base.values];
    for j := 1 to |axes[0].valuesList|
      invariant |valuesList| == j
      invariant forall h :: 0 <= h < j ==> IsColumn(splitter, axes, ats, |base.keys| - 1, h, valuesList[h])
    {
      var values := CompactColumn(strategy, splitter, base.keys, axes, j, ats);
      ColumnsNext(splitter, axes, ats, |base.keys| - 1, valuesList, values);
      valuesList := valuesList + [values];
    }
    axis := Axis(base.keys, valuesList);
  }
}
