/**
 The matrix shown to the user: a plane pixelated into about `target` rows, and cut to the key range
 that was asked for.
 */
module Matrices {
  import opened Basics
  import opened Keys
  import opened Cuts
  import opened Focus
  import opened Chunks
  import opened Axes
  import opened KeyUnion
  import opened Splitting
  import opened Distance
  import opened Planes

  /** data[j][i] is the row of column j of axis i. */
  datatype Matrix = Matrix(keys: seq<Key>, data: seq<seq<seq<nat>>>) {
    predicate Valid() {
      && ValidKeys(keys)
      && forall j, i :: 0 <= j < |data| && 0 <= i < |data[j]| ==> |data[j][i]| == |keys| - 1
    }
  }

  /** What one axis gives to the buckets of the compact axis. */
  function GivenRow(splitter: Splitter, i: nat, column: seq<nat>, at: seq<nat>, n: nat): (r: seq<nat>)
    requires |at| == |column| + 1
    ensures |r| == n
  {
    seq(n, p requires 0 <= p => Given(ShareOf(splitter, i), column, at, p, |column|))
  }

  /** Splitting onto a blank row is the same with either tag. */
  lemma {:induction false} BlankSplit(share: Share, blank: seq<nat>, after: seq<nat>, values: seq<nat>, at: seq<nat>)
    requires Rising(at) && |at| == |values| + 1 && |blank| == |after| && at[|values|] <= |after|
    requires (forall p :: 0 <= p < |blank| ==> blank[p] == 0) &&
             IsSplit(share, SplitTo, blank, after, values, at, |values|)
    ensures IsSplit(share, SplitAdd, blank, after, values, at, |values|)
  {
    forall i, p | 0 <= i < |values| && at[i] <= p < at[i + 1]
      ensures after[p] == SplitValue(share, SplitAdd, blank[p], values[i], p, at[i + 1] - at[i])
    {
      assert at[i + 1] <= at[|values|];
      assert after[p] == SplitValue(share, SplitTo, blank[p], values[i], p, at[i + 1] - at[i]);
    }
  }

  /**
   One row of the matrix: what the axis gives to the compact axis, summed onto the kept keys, and no more than
   the column.
   */
  ghost predicate RowShown(splitter: Splitter, i: nat, column: seq<nat>, at: seq<nat>, cuts: seq<nat>, n: nat,
                           row: seq<nat>)
    requires IsCuts(cuts, n)
  {
    && |at| == |column| + 1 && |row| == RowsOf(cuts) && (forall k :: 0 <= k < |cuts| ==> cuts[k] <= n)
    && row == SumsAt(GivenRow(splitter, i, column, at, n), cuts) && Total(row) <= Total(column)
  }

  /** What one axis gives is its column split onto a blank row. */
  lemma {:induction false} GivenRowIsSplit(splitter: Splitter, i: nat, column: seq<nat>, at: seq<nat>, n: nat)
    requires Rising(at) && |at| == |column| + 1 && at[|column|] <= n
    ensures var blank := seq(n, _ => 0);
            IsSplit(ShareOf(splitter, i), SplitAdd, blank, GivenRow(splitter, i, column, at, n), column, at, |column|)
  {
    var share, blank, after := ShareOf(splitter, i), seq(n, _ => 0), GivenRow(splitter, i, column, at, n);
    forall r, p {:trigger column[r], after[p]} | 0 <= r < |column| && at[r] <= p < at[r + 1]
      ensures p < n && after[p] == SplitValue(share, SplitAdd, blank[p], column[r], p, at[r + 1] - at[r])
    {
      assert at[r + 1] <= at[|column|];
      GivenByRow(share, column, at, p, |column|, r);
    }
    forall p | 0 <= p < at[0] || at[|column|] <= p < n ensures after[p] == blank[p] {
      GivenNothing(share, column, at, p, |column|);
    }
  }

  /**
   A row of the matrix shows all of the column, but for less than one for each bucket of the compact axis,
   where the axis is split without truncation.
   */
  lemma {:induction false} RowConserves(strategy: Strategy, splitter: Splitter, ats: seq<seq<nat>>, i: nat,
                                        column: seq<nat>, cuts: seq<nat>, n: nat, row: seq<nat>)
    requires Fits(strategy, splitter, ats, n + 1) && i < |ats| && Untruncated(strategy, ats, n + 1, i)
    requires IsCuts(cuts, n) && Rising(ats[i]) && |ats[i]| == |column| + 1 && ats[i][|column|] <= n
    requires RowShown(splitter, i, column, ats[i], cuts, n, row)
    ensures Total(column) <= Total(row) + n
  {
    var given := GivenRow(splitter, i, column, ats[i], n);
    GivenRowIsSplit(splitter, i, column, ats[i], n);
    FittingLoss(strategy, splitter, ats, n + 1, i, column);
    SplitLosesLittle(ShareOf(splitter, i), seq(n, _ => 0), given, column, ats[i]);
    ZeroSum(seq(n, _ => 0), 0, n);
    SumsKeepTotal(given, cuts);
  }

  /** One row of the matrix: the column split onto the compact axis, then reduced onto the kept keys. */
  method PixelRow(strategy: Strategy, splitter: Splitter, compactKeys: seq<Key>, baseKeys: seq<Key>,
                  chunks: seq<Chunk>, columns: seq<seq<nat>>, i: nat, ghost ats: seq<seq<nat>>,
                  ghost cuts: seq<nat>) returns (row: seq<nat>)
    requires ColumnsFit(compactKeys, chunks, ats, columns) && Fits(strategy, splitter, ats, |compactKeys|) &&
             i < |chunks|
    requires IsCuts(cuts, |compactKeys| - 1) && (forall k :: 0 <= k < |cuts| ==> cuts[k] < |compactKeys|)
    requires baseKeys == KeysAt(compactKeys, cuts)
    ensures RowShown(splitter, i, columns[i], ats[i], cuts, |compactKeys| - 1, row)
  {
    FitsHere(compactKeys, chunks, ats, columns, i);
    FittingShares(strategy, splitter, ats, |compactKeys|, i, columns[i]);
    var dst := new nat[|compactKeys| - 1](_ => 0);
    ghost var blank := dst[..];
    Split(ShareOf(splitter, i), compactKeys, dst, Chunk(chunks[i].keys, columns[i]), SplitTo, ats[i]);
    BlankSplit(ShareOf(splitter, i), blank, dst[..], columns[i], ats[i]);
    forall p | 0 <= p < dst.Length ensures dst[p] == GivenRow(splitter, i, columns[i], ats[i], dst.Length)[p] {
      SplitGives(ShareOf(splitter, i), blank, dst[..], columns[i], ats[i], p);
    }
    assert dst[..] == GivenRow(splitter, i, columns[i], ats[i], dst.Length);
    SplitNeverAdds(ShareOf(splitter, i), blank, dst[..], columns[i], ats[i]);
    ZeroSum(blank, 0, |blank|);
    SumsKeepTotal(dst[..], cuts);
    var reduced := Reduce(Chunk(compactKeys, dst[..]), baseKeys, cuts);
    row := reduced.values;
  }

  /** The keys the matrix keeps. */
  function PixelCuts(c: Chunk, border: Border, target: nat): (cuts: seq<nat>)
    requires c.Sized() && target != 1
    ensures IsCuts(cuts, |c.values|) && forall k :: 0 <= k < |cuts| ==> cuts[k] < |c.keys|
  {
    if target < |c.values| then
      CutsNeverAddRows(DivideCuts(c, border, target, NotMergeLogicalRange), |c.values|);
      DivideCuts(c, border, target, NotMergeLogicalRange)
    else AllCuts(|c.values|)
  }

  function AllCuts(n: nat): (cuts: seq<nat>)
    ensures IsCuts(cuts, n) && |cuts| == n + 1 && forall k :: 0 <= k <= n ==> cuts[k] == k
  {
    seq(n + 1, k requires 0 <= k => k)
  }

  /** The kept keys form a valid axis with the same ends. */
  lemma {:induction false} PixelKeys(c: Chunk, border: Border, target: nat)
    requires c.Valid() && target != 1
    ensures var keys := KeysAt(c.keys, PixelCuts(c, border, target));
            && ValidKeys(keys) && BoundAt(keys, 0) == BoundAt(c.keys, 0)
            && BoundAt(keys, |keys| - 1) == BoundAt(c.keys, |c.keys| - 1)
  {
    CoarsenKeeps(Axis(c.keys, [c.values]), PixelCuts(c, border, target));
  }

  /** `keys` are the boundaries `Divide` keeps of the compact chunk, a valid axis with the same ends. */
  ghost predicate IsKept(c: Chunk, border: Border, target: nat, keys: seq<Key>, cuts: seq<nat>)
    requires c.Valid() && target != 1
  {
    && cuts == PixelCuts(c, border, target) && IsCuts(cuts, |c.values|)
    && (forall k :: 0 <= k < |cuts| ==> cuts[k] < |c.keys|)
    && keys == KeysAt(c.keys, cuts) && ValidKeys(keys)
    && BoundAt(keys, 0) == BoundAt(c.keys, 0) && BoundAt(keys, |keys| - 1) == BoundAt(c.keys, |c.keys| - 1)
  }

  /** The matrix keeps all rows up to the target, and about as many where there are more. */
  lemma {:induction false} KeptRows(c: Chunk, border: Border, target: nat, keys: seq<Key>, cuts: seq<nat>)
    requires c.Valid() && target >= 2 && IsKept(c, border, target, keys, cuts)
    ensures |c.values| <= target ==> keys == c.keys
    ensures |c.values| > target ==> cuts == DivideCuts(c, border, target, NotMergeLogicalRange)
    ensures IsClassBorder(border) ==> AboutTarget(c.keys, border, target, |keys| - 1)
  {
    CutsNeverAddRows(cuts, |c.values|);
    if |c.values| > target && IsClassBorder(border) { DivideRowBound(c, border, target, NotMergeLogicalRange); }
  }

  method KeptKeys(c: Chunk, border: Border, target: nat) returns (keys: seq<Key>, ghost cuts: seq<nat>)
    requires c.Valid() && target != 1 && Total(c.values) < TWO_TO_63
    ensures IsKept(c, border, target, keys, cuts)
  {
    PixelKeys(c, border, target);
    var divided := Chunks.Divide(c, border, target, NotMergeLogicalRange);
    keys, cuts := divided.keys, PixelCuts(c, border, target);
    if target >= |c.values| {
      assert keys == KeysAt(c.keys, AllCuts(|c.values|));
    }
  }

  /** The rows of one column, axis by axis. */
  method PixelColumn(strategy: Strategy, splitter: Splitter, compactKeys: seq<Key>, baseKeys: seq<Key>,
                     chunks: seq<Chunk>, columns: seq<seq<nat>>, ghost ats: seq<seq<nat>>,
                     ghost cuts: seq<nat>) returns (rows: seq<seq<nat>>)
    requires ColumnsFit(compactKeys, chunks, ats, columns) && Fits(strategy, splitter, ats, |compactKeys|)
    requires IsCuts(cuts, |compactKeys| - 1) && (forall k :: 0 <= k < |cuts| ==> cuts[k] < |compactKeys|)
    requires baseKeys == KeysAt(compactKeys, cuts)
    ensures |rows| == |columns|
    ensures forall i :: 0 <= i < |rows| ==> RowShown(splitter, i, columns[i], ats[i], cuts, |compactKeys| - 1, rows[i])
  {
    rows := [];
    for i := 0 to |columns|
      invariant |rows| == i
      invariant forall h :: 0 <= h < i ==> RowShown(splitter, h, columns[h], ats[h], cuts, |compactKeys| - 1, rows[h])
    {
      var row := PixelRow(strategy, splitter, compactKeys, baseKeys, chunks, columns, i, ats, cuts);
      rows := rows + [row];
    }
  }

  /** The rows of column j are those of the plane's column, on the kept keys. */
  ghost predicate ColumnShown(splitter: Splitter, axes: seq<Axis>, ats: seq<seq<nat>>, cuts: seq<nat>, n: nat,
                              j: nat, rows: seq<seq<nat>>)
    requires ValidPlane(axes) && j < |axes[0].valuesList| && IsCuts(cuts, n)
  {
    && |rows| == |axes| == |ats|
    && forall i :: 0 <= i < |axes| ==> RowShown(splitter, i, axes[i].valuesList[j], ats[i], cuts, n, rows[i])
  }

  /** All columns are shown. */
  ghost predicate Shown(splitter: Splitter, axes: seq<Axis>, ats: seq<seq<nat>>, cuts: seq<nat>, n: nat,
                        data: seq<seq<seq<nat>>>)
    requires ValidPlane(axes) && IsCuts(cuts, n)
  {
    && |data| == |axes[0].valuesList|
    && forall j :: 0 <= j < |data| ==> ColumnShown(splitter, axes, ats, cuts, n, j, data[j])
  }

  /** `c` is the compaction of the base columns. */
  ghost predicate IsBase(strategy: Strategy, axes: seq<Axis>, c: Chunk, splitter: Splitter, ats: seq<seq<nat>>)
    requires ValidPlane(axes)
  {
    && c.Valid() && BoundsOf(c.keys) == AllBounds(BaseChunks(axes))
    && AllEmbed(c.keys, BaseChunks(axes), ats) && AllNearest(ats, |c.keys|) && Fits(strategy, splitter, ats, |c.keys|)
    && IsCompact(splitter, ColumnOf(axes, 0), ats, c.values, |axes|)
  }

  method CompactBase(strategy: Strategy, axes: seq<Axis>)
    returns (c: Chunk, splitter: Splitter, ghost ats: seq<seq<nat>>)
    requires ValidPlane(axes) && (strategy.DistanceStrategy? ==> strategy.settings.Valid())
    ensures IsBase(strategy, axes, c, splitter, ats)
    ensures Total(c.values) <= TotalOfAll(ColumnOf(axes, 0), |axes|)
  {
    c, splitter, ats := Compact(strategy, BaseChunks(axes));
    assert ValuesOf(BaseChunks(axes)) == ColumnOf(axes, 0);
  }

  /** One row for every axis in every column, none of which totals more than the column of the axis. */
  predicate NoMore(axes: seq<Axis>, data: seq<seq<seq<nat>>>)
    requires ValidPlane(axes)
  {
    && |data| == |axes[0].valuesList| && (forall j :: 0 <= j < |data| ==> |data[j]| == |axes|)
    && forall j, i :: 0 <= j < |data| && 0 <= i < |axes| ==> Total(data[j][i]) <= Total(axes[i].valuesList[j])
  }

  lemma {:induction false} ShownValid(splitter: Splitter, axes: seq<Axis>, ats: seq<seq<nat>>, cuts: seq<nat>,
                                      n: nat, m: Matrix)
    requires ValidPlane(axes) && IsCuts(cuts, n) && ValidKeys(m.keys) && |m.keys| == |cuts|
    requires Shown(splitter, axes, ats, cuts, n, m.data)
    ensures m.Valid() && NoMore(axes, m.data)
  {
    forall j, i | 0 <= j < |m.data| && 0 <= i < |axes|
      ensures |m.data[j]| == |axes| && |m.data[j][i]| == |m.keys| - 1 &&
              Total(m.data[j][i]) <= Total(axes[i].valuesList[j])
    {
      assert ColumnShown(splitter, axes, ats, cuts, n, j, m.data[j]);
    }
    forall j | 0 <= j < |m.data| ensures |m.data[j]| == |axes| {
      assert ColumnShown(splitter, axes, ats, cuts, n, j, m.data[j]);
    }
  }

  /**
   `Pixel`: every row of the matrix is one column of one axis, split onto the compact axis and reduced
   onto the kept keys. No row totals more than the column it comes from, and the matrix spans the same
   keys as the axes together.
   */
  method Pixel(strategy: Strategy, border: Border, axes: seq<Axis>, target: nat)
    returns (m: Matrix, ghost c: Chunk, ghost splitter: Splitter, ghost ats: seq<seq<nat>>, ghost cuts: seq<nat>)
    requires ValidPlane(axes) && (strategy.DistanceStrategy? ==> strategy.settings.Valid()) && target != 1
    requires TotalOfAll(ColumnOf(axes, 0), |axes|) < TWO_TO_63
    ensures IsBase(strategy, axes, c, splitter, ats)
    ensures IsKept(c, border, target, m.keys, cuts) && Shown(splitter, axes, ats, cuts, |c.values|, m.data)
    ensures m.Valid() && NoMore(axes, m.data)
  {
    var chunk, split, keys;
    chunk, split, ats := CompactBase(strategy, axes);
    c, splitter := chunk, split;
    keys, cuts := KeptKeys(chunk, border, target);
    var data := PixelData(strategy, split, chunk.keys, keys, axes, ats, cuts);
    m := Matrix(keys, data);
    ShownValid(splitter, axes, ats, cuts, |c.values|, m);
  }

  /** Column j of every axis. */
  method PixelPlaneColumn(strategy: Strategy, splitter: Splitter, compactKeys: seq<Key>, baseKeys: seq<Key>,
                          axes: seq<Axis>, j: nat, ghost ats: seq<seq<nat>>, ghost cuts: seq<nat>)
    returns (rows: seq<seq<nat>>)
    requires ValidPlane(axes) && j < |axes[0].valuesList| && AllEmbed(compactKeys, BaseChunks(axes), ats)
    requires Fits(strategy, splitter, ats, |compactKeys|)
    requires IsCuts(cuts, |compactKeys| - 1) && (forall k :: 0 <= k < |cuts| ==> cuts[k] < |compactKeys|)
    requires baseKeys == KeysAt(compactKeys, cuts)
    ensures ColumnShown(splitter, axes, ats, cuts, |compactKeys| - 1, j, rows)
  {
    PlaneFits(axes, compactKeys, ats, j);
    rows := PixelColumn(strategy, splitter, compactKeys, baseKeys, BaseChunks(axes), ColumnOf(axes, j), ats, cuts);
    assert forall i :: 0 <= i < |axes| ==> ColumnOf(axes, j)[i] == axes[i].valuesList[j];
  }

  /** The columns shown so far. */
  ghost predicate ShownSoFar(splitter: Splitter, axes: seq<Axis>, ats: seq<seq<nat>>, cuts: seq<nat>, n: nat,
                             data: seq<seq<seq<nat>>>)
    requires ValidPlane(axes) && IsCuts(cuts, n)
  {
    && |data| <= |axes[0].valuesList|
    && forall j :: 0 <= j < |data| ==> ColumnShown(splitter, axes, ats, cuts, n, j, data[j])
  }

  lemma {:induction false} ShownNext(splitter: Splitter, axes: seq<Axis>, ats: seq<seq<nat>>, cuts: seq<nat>, n: nat,
                                     data: seq<seq<seq<nat>>>, rows: seq<seq<nat>>)
    requires ValidPlane(axes) && IsCuts(cuts, n) && |data| < |axes[0].valuesList|
    requires ShownSoFar(splitter, axes, ats, cuts, n, data)
    requires ColumnShown(splitter, axes, ats, cuts, n, |data|, rows)
    ensures ShownSoFar(splitter, axes, ats, cuts, n, data + [rows])
  {
  }

  /** All columns. */
  method PixelData(strategy: Strategy, splitter: Splitter, compactKeys: seq<Key>, baseKeys: seq<Key>, axes: seq<Axis>,
                   ghost ats: seq<seq<nat>>, ghost cuts: seq<nat>)
    returns (data: seq<seq<seq<nat>>>)
    requires ValidPlane(axes) && AllEmbed(compactKeys, BaseChunks(axes), ats) &&
             Fits(strategy, splitter, ats, |compactKeys|)
    requires IsCuts(cuts, |compactKeys| - 1) && (forall k :: 0 <= k < |cuts| ==> cuts[k] < |compactKeys|)
    requires baseKeys == KeysAt(compactKeys, cuts)
    ensures Shown(splitter, axes, ats, cuts, |compactKeys| - 1, data)
  {
    data := [];
    for j := 0 to |axes[0].valuesList|
      invariant |data| == j && ShownSoFar(splitter, axes, ats, cuts, |compactKeys| - 1, data)
    {
      var rows := PixelPlaneColumn(strategy, splitter, compactKeys, baseKeys, axes, j, ats, cuts);
      ShownNext(splitter, axes, ats, cuts, |compactKeys| - 1, data, rows);
      data := data + [rows];
    }
  }

  // ---------- cutting to the key range ----------

  /** The axis as a whole has a key in common with the range. */
  predicate Touches(keys: seq<Key>, startKey: Key, endKey: Key)
    requires |keys| >= 2
  {
    Below(BoundAt(keys, 0), EndBound(endKey)) && Below(Fin(startKey), BoundAt(keys, |keys| - 1))
  }

  /** Some bucket intersects the range exactly when the axis as a whole touches it. */
  lemma {:induction false} TouchesMeans(keys: seq<Key>, startKey: Key, endKey: Key)
    requires ValidKeys(keys) && Below(Fin(startKey), EndBound(endKey))
    ensures Touches(keys, startKey, endKey) <==>
            exists i :: 0 <= i < |keys| - 1 && Intersects(keys, i, startKey, endKey)
  {
    var last := |keys| - 1;
    if i :| 0 <= i < last && Intersects(keys, i, startKey, endKey) {
      if i > 0 {
        ValidKeysAscend(keys, 0, i);
        BelowTransitive(BoundAt(keys, 0), BoundAt(keys, i), EndBound(endKey));
      }
      if i + 1 < last {
        ValidKeysAscend(keys, i + 1, last);
        BelowTransitive(Fin(startKey), BoundAt(keys, i + 1), BoundAt(keys, last));
      }
    }
    if Touches(keys, startKey, endKey) {
      var i := FirstPast(keys, startKey, last);
      if i > 0 {
        BelowTotal(BoundAt(keys, i), EndBound(endKey));
        if !Below(BoundAt(keys, i), EndBound(endKey)) {
          NotBelow(EndBound(endKey), BoundAt(keys, i), Fin(startKey));
        }
      }
      assert Intersects(keys, i, startKey, endKey);
    }
  }

  lemma {:induction false} FirstPast(keys: seq<Key>, startKey: Key, n: nat) returns (i: nat)
    requires ValidKeys(keys) && 0 < n < |keys| && Below(Fin(startKey), BoundAt(keys, n))
    ensures i < n && Below(Fin(startKey), BoundAt(keys, i + 1)) && (i == 0 || AtMost(BoundAt(keys, i), Fin(startKey)))
    decreases n
  {
    BelowTotal(Fin(startKey), BoundAt(keys, n - 1));
    if n > 1 && Below(Fin(startKey), BoundAt(keys, n - 1)) {
      i := FirstPast(keys, startKey, n - 1);
    } else {
      i := n - 1;
    }
  }

  /** A key axis that holds another one's boundaries reaches at least as far. */
  lemma {:induction false} WiderTouches(keys: seq<Key>, part: seq<Key>, startKey: Key, endKey: Key)
    requires ValidKeys(keys) && ValidKeys(part) && BoundsOf(part) <= BoundsOf(keys)
    requires Touches(part, startKey, endKey)
    ensures Touches(keys, startKey, endKey)
  {
    var at := EmbeddingExists(keys, part);
    var m := |part| - 1;
    if at[0] > 0 {
      ValidKeysAscend(keys, 0, at[0]);
      BelowTransitive(BoundAt(keys, 0), BoundAt(keys, at[0]), EndBound(endKey));
    }
    if at[m] < |keys| - 1 {
      ValidKeysAscend(keys, at[m], |keys| - 1);
      BelowTransitive(Fin(startKey), BoundAt(keys, at[m]), BoundAt(keys, |keys| - 1));
    }
  }

  /** `Matrix.Range`: exactly the rows that intersect the range. Where none does, the source panics. */
  method Range(m: Matrix, startKey: Key, endKey: Key) returns (r: Matrix, ghost lo: nat, ghost hi: nat)
    requires m.Valid() && Below(Fin(startKey), EndBound(endKey)) && Touches(m.keys, startKey, endKey)
    ensures r.Valid() && lo + 1 < hi <= |m.keys| && r.keys == m.keys[lo..hi] && |r.data| == |m.data|
    ensures forall i :: 0 <= i < |m.keys| - 1 ==> (lo <= i < hi - 1 <==> Intersects(m.keys, i, startKey, endKey))
    ensures forall j :: 0 <= j < |m.data| ==> |r.data[j]| == |m.data[j]|
    ensures forall j, i :: 0 <= j < |m.data| && 0 <= i < |m.data[j]| ==> r.data[j][i] == m.data[j][i][lo..hi - 1]
  {
    TouchesMeans(m.keys, startKey, endKey);
    var start, end, ok := KeysRange(m.keys, startKey, endKey);
    assert ok;
    lo, hi := start, end;
    SliceValid(m.keys, start, end);
    var data: seq<seq<seq<nat>>> := [];
    for j := 0 to |m.data|
      invariant |data| == j && forall h :: 0 <= h < j ==> |data[h]| == |m.data[h]|
      invariant forall h, i :: 0 <= h < j && 0 <= i < |m.data[h]| ==> data[h][i] == m.data[h][i][start..end - 1]
    {
      var rows: seq<seq<nat>> := [];
      for i := 0 to |m.data[j]|
        invariant |rows| == i && forall h :: 0 <= h < i ==> rows[h] == m.data[j][h][start..end - 1]
      {
        rows := rows + [m.data[j][i][start..end - 1]];
      }
      data := data + [rows];
    }
    r := Matrix(m.keys[start..end], data);
  }

  // ---------- a whole request ----------

  lemma {:induction false} SliceIntersects(keys: seq<Key>, startKey: Key, endKey: Key, lo: nat, hi: nat)
    requires ValidKeys(keys) && lo + 1 < hi <= |keys|
    requires forall i :: 0 <= i < |keys| - 1 ==> (lo <= i < hi - 1 <==> Intersects(keys, i, startKey, endKey))
    ensures forall i :: 0 <= i < hi - lo - 1 ==> Intersects(keys[lo..hi], i, startKey, endKey)
  {
    SliceValid(keys, lo, hi);
    forall i | 0 <= i < hi - lo - 1 ensures Intersects(keys[lo..hi], i, startKey, endKey) {
      assert Intersects(keys, lo + i, startKey, endKey);
    }
  }

  lemma {:induction false} SliceTotal(v: seq<nat>, lo: nat, hi: nat, n: nat)
    requires lo <= hi <= |v| && n <= hi - lo
    ensures RangeSum(v[lo..hi], 0, n) == RangeSum(v, lo, lo + n)
    decreases n
  {
    if n > 0 { SliceTotal(v, lo, hi, n - 1); }
  }

  lemma {:induction false} SlicedTotal(v: seq<nat>, lo: nat, hi: nat)
    requires lo <= hi <= |v|
    ensures Total(v[lo..hi]) <= Total(v)
  {
    SliceTotal(v, lo, hi, hi - lo);
    RangeSumWithin(v, lo, hi);
  }

  lemma {:induction false} SlicedNoMore(plane: seq<Axis>, m: Matrix, r: Matrix, lo: nat, hi: nat)
    requires ValidPlane(plane) && m.Valid() && NoMore(plane, m.data) && lo + 1 < hi <= |m.keys| && |r.data| == |m.data|
    requires forall j :: 0 <= j < |m.data| ==> |r.data[j]| == |m.data[j]|
    requires forall j, i :: 0 <= j < |m.data| && 0 <= i < |m.data[j]| ==> r.data[j][i] == m.data[j][i][lo..hi - 1]
    ensures NoMore(plane, r.data)
  {
    forall j, i | 0 <= j < |r.data| && 0 <= i < |plane| ensures Total(r.data[j][i]) <= Total(plane[i].valuesList[j]) {
      SlicedTotal(m.data[j][i], lo, hi - 1);
    }
  }

  /** Cutting an axis to a key range adds nothing to any column. */
  lemma {:induction false} RangedTotal(axis: Axis, r: Axis, startKey: Key, endKey: Key, j: nat)
    requires axis.Sized() && r.Sized() && InRange(axis, startKey, endKey, r) && j < |axis.valuesList|
    ensures |r.valuesList| == |axis.valuesList| && Total(r.valuesList[j]) <= Total(axis.valuesList[j])
  {
    if exists i :: 0 <= i < |axis.keys| - 1 && Intersects(axis.keys, i, startKey, endKey) {
      var lo: nat, hi: nat :| RangedAt(axis, startKey, endKey, r, lo, hi);
      SlicedTotal(axis.valuesList[j], lo, hi - 1);
    } else {
      ZeroSum(EmptyAxis(startKey, endKey, |axis.valuesList|).valuesList[j], 0, 1);
    }
  }

  predicate Stored(axis: Axis) {
    axis.Valid() && |axis.valuesList| == |RESPONSE_TAGS| - 1
  }

  /** The total of the column that is shown for a tag. */
  function ShownTotal(axis: Axis, tag: StatTag): nat
    requires Stored(axis)
  {
    if tag == Integration then Total(axis.valuesList[0]) + Total(axis.valuesList[1])
    else Total(axis.valuesList[TagIndex(tag) - 1])
  }

  lemma {:induction false} DisplayedTotal(axis: Axis, tag: StatTag, r: Axis)
    requires Stored(axis) && Displays(axis, tag, r)
    ensures Total(r.valuesList[0]) == ShownTotal(axis, tag)
  {
    if tag == Integration {
      RangeSumAdds(r.valuesList[0], axis.valuesList[0], axis.valuesList[1], 0, |axis.keys| - 1);
    }
  }

  lemma {:induction false} RangedShown(axis: Axis, r: Axis, startKey: Key, endKey: Key, tag: StatTag)
    requires Stored(axis) && Stored(r) && InRange(axis, startKey, endKey, r)
    ensures ShownTotal(r, tag) <= ShownTotal(axis, tag)
  {
    if tag == Integration {
      RangedTotal(axis, r, startKey, endKey, 0);
      RangedTotal(axis, r, startKey, endKey, 1);
    } else {
      RangedTotal(axis, r, startKey, endKey, TagIndex(tag) - 1);
    }
  }

  /** `r` shows exactly the part of the stored axis that intersects the key range. */
  ghost predicate ShowsRange(axis: Axis, startKey: Key, endKey: Key, tag: StatTag, r: Axis)
    requires Stored(axis)
  {
    exists ranged :: InRange(axis, startKey, endKey, ranged) && Displays(ranged, tag, r)
  }

  ghost predicate IsDisplay(axis: Axis, startKey: Key, endKey: Key, tag: StatTag, r: Axis)
    requires Stored(axis)
  {
    && r.Valid() && |r.valuesList| == |RESPONSE_TAGS| && ShowsRange(axis, startKey, endKey, tag, r)
    && Total(r.valuesList[0]) <= ShownTotal(axis, tag)
  }

  method DisplayAxis(axis: Axis, startKey: Key, endKey: Key, tag: StatTag) returns (r: Axis)
    requires Stored(axis) && Below(Fin(startKey), EndBound(endKey))
    ensures IsDisplay(axis, startKey, endKey, tag, r) && Touches(r.keys, startKey, endKey)
  {
    var ranged := Axes.Range(axis, startKey, endKey);
    TouchesMeans(ranged.keys, startKey, endKey);
    RangedShown(axis, ranged, startKey, endKey, tag);
    r := IntoResponseAxis(ranged, tag);
    DisplayedTotal(ranged, tag, r);
  }

  function ShownTotals(axes: seq<Axis>, tag: StatTag): nat
    requires forall i :: 0 <= i < |axes| ==> Stored(axes[i])
  {
    if axes == [] then 0 else ShownTotals(axes[..|axes| - 1], tag) + ShownTotal(axes[|axes| - 1], tag)
  }

  lemma {:induction false} PlaneTotal(axes: seq<Axis>, plane: seq<Axis>, tag: StatTag, k: nat)
    requires (forall i :: 0 <= i < |axes| ==> Stored(axes[i])) && ValidPlane(plane) && |plane| == |axes| && k <= |axes|
    requires forall i :: 0 <= i < |axes| ==> Total(plane[i].valuesList[0]) <= ShownTotal(axes[i], tag)
    ensures TotalOfAll(ColumnOf(plane, 0), k) <= ShownTotals(axes[..k], tag)
    decreases k
  {
    if k > 0 {
      PlaneTotal(axes, plane, tag, k - 1);
      assert axes[..k][..k - 1] == axes[..k - 1];
    }
  }

  /** The plane shows the stored axes one by one. */
  ghost predicate ShowsAll(axes: seq<Axis>, startKey: Key, endKey: Key, tag: StatTag, plane: seq<Axis>)
    requires forall i :: 0 <= i < |axes| ==> Stored(axes[i])
  {
    |plane| == |axes| && forall i :: 0 <= i < |axes| ==> ShowsRange(axes[i], startKey, endKey, tag, plane[i])
  }

  lemma {:induction false} EmptyPlane(startKey: Key, endKey: Key)
    requires Below(Fin(startKey), EndBound(endKey))
    ensures var plane := [EmptyAxis(startKey, endKey, |RESPONSE_TAGS|)];
            ValidPlane(plane) && Touches(plane[0].keys, startKey, endKey) && TotalOfAll(ColumnOf(plane, 0), 1) == 0
  {
    var plane := [EmptyAxis(startKey, endKey, |RESPONSE_TAGS|)];
    ZeroSum(plane[0].valuesList[0], 0, 1);
    assert TotalOfAll(ColumnOf(plane, 0), 0) == 0;
  }

  method DisplayAll(axes: seq<Axis>, startKey: Key, endKey: Key, tag: StatTag) returns (plane: seq<Axis>)
    requires axes != [] && (forall i :: 0 <= i < |axes| ==> Stored(axes[i])) && Below(Fin(startKey), EndBound(endKey))
    ensures ValidPlane(plane) && |plane[0].valuesList| == |RESPONSE_TAGS| && Touches(plane[0].keys, startKey, endKey)
    ensures ShowsAll(axes, startKey, endKey, tag, plane)
    ensures forall i :: 0 <= i < |axes| ==> Total(plane[i].valuesList[0]) <= ShownTotal(axes[i], tag)
  {
    plane := [];
    for i := 0 to |axes|
      invariant |plane| == i
      invariant forall h :: 0 <= h < i ==> IsDisplay(axes[h], startKey, endKey, tag, plane[h])
      invariant i > 0 ==> Touches(plane[0].keys, startKey, endKey)
    {
      var axis := DisplayAxis(axes[i], startKey, endKey, tag);
      plane := plane + [axis];
    }
  }

  /** The plane shown for the stored axes. */
  ghost predicate IsPlaneOf(axes: seq<Axis>, startKey: Key, endKey: Key, tag: StatTag, plane: seq<Axis>)
    requires forall i :: 0 <= i < |axes| ==> Stored(axes[i])
  {
    && ValidPlane(plane)
    && if axes == [] then plane == [EmptyAxis(startKey, endKey, |RESPONSE_TAGS|)]
       else ShowsAll(axes, startKey, endKey, tag, plane)
  }

  /** `Stat.Range`: the plane shown for the stored axes, or an empty one where none are found. */
  method DisplayPlane(times: seq<int>, axes: seq<Axis>, startKey: Key, endKey: Key,
                      tag: StatTag)
    returns (plane: seq<Axis>)
    requires (forall i :: 0 <= i < |axes| ==> Stored(axes[i])) && Below(Fin(startKey), EndBound(endKey))
    requires if times == [] then axes == [] else |times| == |axes| + 1
    ensures ValidPlane(plane) && |plane[0].valuesList| == |RESPONSE_TAGS| && Touches(plane[0].keys, startKey, endKey)
    ensures IsPlaneOf(axes, startKey, endKey, tag, plane)
    ensures forall i :: 0 <= i < |axes| ==> Total(plane[i].valuesList[0]) <= ShownTotal(axes[i], tag)
    ensures TotalOfAll(ColumnOf(plane, 0), |plane|) <= ShownTotals(axes, tag)
  {
    if |times| <= 1 {
      EmptyPlane(startKey, endKey);
      return [EmptyAxis(startKey, endKey, |RESPONSE_TAGS|)];
    }
    plane := DisplayAll(axes, startKey, endKey, tag);
    PlaneTotal(axes, plane, tag, |axes|);
    assert axes[..|axes|] == axes;
  }

  /** `r` is the matrix `m` cut to exactly the rows that intersect the range, [lo, hi - 1). */
  ghost predicate IsCutOf(m: Matrix, startKey: Key, endKey: Key, r: Matrix, lo: nat, hi: nat) {
    && lo + 1 < hi <= |m.keys| && r.keys == m.keys[lo..hi] && |r.data| == |m.data|
    && (forall i :: 0 <= i < |m.keys| - 1 ==> (lo <= i < hi - 1 <==> Intersects(m.keys, i, startKey, endKey)))
    && (forall j :: 0 <= j < |m.data| ==> |r.data[j]| == |m.data[j]|)
    && (forall j, i :: 0 <= j < |m.data| && 0 <= i < |m.data[j]| ==>
          hi - 1 <= |m.data[j][i]| && r.data[j][i] == m.data[j][i][lo..hi - 1])
  }

  /** `m` shows every column of every axis of the plane on the kept keys. */
  ghost predicate IsPixelated(strategy: Strategy, border: Border, plane: seq<Axis>, target: nat, m: Matrix,
                              c: Chunk, splitter: Splitter, ats: seq<seq<nat>>, cuts: seq<nat>)
    requires ValidPlane(plane) && target != 1
  {
    && IsBase(strategy, plane, c, splitter, ats) && IsKept(c, border, target, m.keys, cuts)
    && Shown(splitter, plane, ats, cuts, |c.values|, m.data)
  }

  /** The cells of `r`: those of the pixelated plane, on the kept keys that intersect the range. */
  ghost predicate ShowsPlane(strategy: Strategy, border: Border, plane: seq<Axis>, startKey: Key, endKey: Key,
                             target: nat, r: Matrix)
    requires ValidPlane(plane) && target != 1
  {
    exists m, c, splitter, ats, cuts, lo, hi ::
      && IsPixelated(strategy, border, plane, target, m, c, splitter, ats, cuts)
      && IsCutOf(m, startKey, endKey, r, lo, hi)
  }

  /** A matrix of the plane, cut to a range it touches. */
  method CutRange(plane: seq<Axis>, m: Matrix, startKey: Key, endKey: Key)
    returns (r: Matrix, ghost lo: nat, ghost hi: nat)
    requires ValidPlane(plane) && m.Valid() && NoMore(plane, m.data)
    requires Below(Fin(startKey), EndBound(endKey)) && Touches(m.keys, startKey, endKey)
    ensures r.Valid() && NoMore(plane, r.data) && IsCutOf(m, startKey, endKey, r, lo, hi)
    ensures forall i :: 0 <= i < |r.keys| - 1 ==> Intersects(r.keys, i, startKey, endKey)
  {
    r, lo, hi := Range(m, startKey, endKey);
    SliceIntersects(m.keys, startKey, endKey, lo, hi);
    SlicedNoMore(plane, m, r, lo, hi);
  }

  /** The keys of the pixelated plane reach at least as far as those of its first axis. */
  lemma {:induction false} PixelTouches(strategy: Strategy, border: Border, plane: seq<Axis>, target: nat, m: Matrix,
                                        c: Chunk, splitter: Splitter, ats: seq<seq<nat>>, cuts: seq<nat>,
                                        startKey: Key, endKey: Key)
    requires ValidPlane(plane) && target != 1 && Touches(plane[0].keys, startKey, endKey)
    requires IsPixelated(strategy, border, plane, target, m, c, splitter, ats, cuts)
    ensures Touches(m.keys, startKey, endKey)
  {
    ChunkWithin(BaseChunks(plane), 0);
    WiderTouches(c.keys, plane[0].keys, startKey, endKey);
  }

  /** The pixelated plane, cut to the key range: the cut never panics. */
  method Cut(strategy: Strategy, border: Border, plane: seq<Axis>, startKey: Key, endKey: Key, target: nat)
    returns (r: Matrix)
    requires ValidPlane(plane) && (strategy.DistanceStrategy? ==> strategy.settings.Valid()) && target != 1
    requires Below(Fin(startKey), EndBound(endKey)) && Touches(plane[0].keys, startKey, endKey)
    requires TotalOfAll(ColumnOf(plane, 0), |plane|) < TWO_TO_63
    ensures r.Valid() && NoMore(plane, r.data)
    ensures ShowsPlane(strategy, border, plane, startKey, endKey, target, r)
    ensures forall i :: 0 <= i < |r.keys| - 1 ==> Intersects(r.keys, i, startKey, endKey)
  {
    var m;
    ghost var c, splitter, ats, cuts;
    m, c, splitter, ats, cuts := Pixel(strategy, border, plane, target);
    assert IsPixelated(strategy, border, plane, target, m, c, splitter, ats, cuts);
    PixelTouches(strategy, border, plane, target, m, c, splitter, ats, cuts, startKey, endKey);
    ghost var lo, hi;
    r, lo, hi := CutRange(plane, m, startKey, endKey);
  }

  /** The cells of a request: the stored axes cut to the range and displayed, pixelated, and cut again. */
  ghost predicate IsHeatmap(strategy: Strategy, border: Border, axes: seq<Axis>, startKey: Key, endKey: Key,
                            tag: StatTag, target: nat, r: Matrix)
    requires (forall i :: 0 <= i < |axes| ==> Stored(axes[i])) && target != 1
  {
    exists plane :: IsPlaneOf(axes, startKey, endKey, tag, plane)
                    && ShowsPlane(strategy, border, plane, startKey, endKey, target, r)
  }

  /**
   A valid matrix with one row for every axis in every column: every bucket intersects the range, and the
   wanted column never shows more than is stored.
   */
  predicate WithinRequest(axes: seq<Axis>, startKey: Key, endKey: Key, tag: StatTag, r: Matrix)
    requires forall i :: 0 <= i < |axes| ==> Stored(axes[i])
  {
    && r.Valid() && |r.data| == |RESPONSE_TAGS|
    && (forall j :: 0 <= j < |r.data| ==> |r.data[j]| == if axes == [] then 1 else |axes|)
    && (forall i :: 0 <= i < |axes| ==> Total(r.data[0][i]) <= ShownTotal(axes[i], tag))
    && (forall i :: 0 <= i < |r.keys| - 1 ==> Intersects(r.keys, i, startKey, endKey))
  }

  lemma {:induction false} PlaneWithin(axes: seq<Axis>, plane: seq<Axis>, startKey: Key, endKey: Key, tag: StatTag,
                                       r: Matrix)
    requires (forall i :: 0 <= i < |axes| ==> Stored(axes[i])) && IsPlaneOf(axes, startKey, endKey, tag, plane)
    requires |plane[0].valuesList| == |RESPONSE_TAGS| && r.Valid() && NoMore(plane, r.data)
    requires |plane| >= |axes|
    requires forall i :: 0 <= i < |axes| ==> Total(plane[i].valuesList[0]) <= ShownTotal(axes[i], tag)
    requires forall i :: 0 <= i < |r.keys| - 1 ==> Intersects(r.keys, i, startKey, endKey)
    ensures WithinRequest(axes, startKey, endKey, tag, r)
  {
  }

  /**
   A whole request, from the stored axes to the matrix: the axes cut to the key range and displayed,
   pixelated, and the matrix cut to the same range. It never panics, every row of the result intersects
   the range, its cells are those of the pixelated plane, and the wanted column never shows more than is
   stored.
   */
  method Heatmap(strategy: Strategy, border: Border, times: seq<int>, axes: seq<Axis>, startKey: Key, endKey: Key,
                 tag: StatTag, target: nat)
    returns (r: Matrix)
    requires forall i :: 0 <= i < |axes| ==> Stored(axes[i])
    requires if times == [] then axes == [] else |times| == |axes| + 1
    requires (strategy.DistanceStrategy? ==> strategy.settings.Valid()) && target != 1
    requires Below(Fin(startKey), EndBound(endKey)) && ShownTotals(axes, tag) < TWO_TO_63
    ensures WithinRequest(axes, startKey, endKey, tag, r)
    ensures IsHeatmap(strategy, border, axes, startKey, endKey, tag, target, r)
  {
    var plane := DisplayPlane(times, axes, startKey, endKey, tag);
    r := Cut(strategy, border, plane, startKey, endKey, target);
    PlaneWithin(axes, plane, startKey, endKey, tag, r);
  }
}
