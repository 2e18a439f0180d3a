/**
 Axes: several columns over one key axis, the conversions between the stored and the displayed form
 of an axis, and the selection of a key range.
 */
module Axes {
  import opened Basics
  import opened Keys
  import opened Cuts
  import opened Focus
  import opened Chunks

  /** Column 0 is the base column. */
  datatype Axis = Axis(keys: seq<Key>, valuesList: seq<seq<nat>>) {
    predicate Sized() {
      && |keys| >= 2 && |valuesList| >= 1
      && forall j :: 0 <= j < |valuesList| ==> |valuesList[j]| + 1 == |keys|
    }

    predicate Valid() {
      Sized() && ValidKeys(keys)
    }

    function Column(j: nat): Chunk
      requires j < |valuesList|
    {
      Chunk(keys, valuesList[j])
    }
  }

  function CoarsenColumns(columns: seq<seq<nat>>, cuts: seq<nat>, n: nat): seq<seq<nat>>
    requires IsCuts(cuts, n) && (forall j :: 0 <= j < |columns| ==> |columns[j]| == n)
  {
    CutsNeverAddRows(cuts, n);
    seq(|columns|, j requires 0 <= j < |columns| => SumsAt(columns[j], cuts))
  }

  /** Every column reduced onto the same boundaries. */
  function CoarsenAxis(axis: Axis, cuts: seq<nat>): (r: Axis)
    requires axis.Sized() && IsCuts(cuts, |axis.keys| - 1)
    ensures r.Sized() && |r.valuesList| == |axis.valuesList|
    ensures forall j :: 0 <= j < |axis.valuesList| ==> r.Column(j) == Coarsen(axis.Column(j), cuts)
  {
    CutsNeverAddRows(cuts, |axis.keys| - 1);
    assert |cuts| >= 2;
    Axis(KeysAt(axis.keys, cuts), CoarsenColumns(axis.valuesList, cuts, |axis.keys| - 1))
  }

  /** Reduce the columns after the first onto the boundaries the base column picked. */
  method ReduceOthers(axis: Axis, base: Chunk, ghost cuts: seq<nat>) returns (r: Axis)
    requires axis.Valid() && IsCuts(cuts, |axis.keys| - 1) && base == Coarsen(axis.Column(0), cuts)
    ensures r == CoarsenAxis(axis, cuts)
  {
    ghost var goal := CoarsenAxis(axis, cuts);
    var newValuesList := [base.values];
    assert base == goal.Column(0);
    for i := 1 to |axis.valuesList|
      invariant newValuesList == goal.valuesList[..i]
    {
      var reduced := Reduce(axis.Column(i), base.keys, cuts);
      assert reduced == goal.Column(i);
      newValuesList := newValuesList + [reduced.values];
    }
    assert goal.valuesList[..|axis.valuesList|] == goal.valuesList;
    r := Axis(base.keys, newValuesList);
  }

  function DivideAxis(axis: Axis, border: Border, target: nat): (r: Axis)
    requires axis.Sized() && target != 1
    ensures r.Sized() && |r.valuesList| == |axis.valuesList|
  {
    if target >= |axis.keys| - 1 then axis
    else CoarsenAxis(axis, DivideCuts(axis.Column(0), border, target, MergeColdLogicalRange))
  }

  /** Every column of `r` is the column of the axis, coarsened onto the same boundaries. */
  ghost predicate CoarsenedTo(axis: Axis, cuts: seq<nat>, r: Axis)
    requires axis.Sized() && IsCuts(cuts, |axis.keys| - 1)
  {
    && |r.valuesList| == |axis.valuesList|
    && forall j :: 0 <= j < |axis.valuesList| ==> r.Column(j) == Coarsen(axis.Column(j), cuts)
  }

  /**
   `Axis.Divide`: the base column picks the boundaries, every other column is reduced onto them; an axis
   with no more rows than the target stays as it is.
   */
  method Divide(axis: Axis, border: Border, target: nat) returns (r: Axis)
    requires axis.Valid() && target != 1 && Total(axis.valuesList[0]) < TWO_TO_63
    ensures r == DivideAxis(axis, border, target)
    ensures |axis.keys| - 1 <= target ==> r == axis
    ensures |axis.keys| - 1 > target ==>
              CoarsenedTo(axis, DivideCuts(axis.Column(0), border, target, MergeColdLogicalRange), r)
  {
    if target >= |axis.keys| - 1 {
      return axis;
    }
    var base := Chunks.Divide(axis.Column(0), border, target, MergeColdLogicalRange);
    r := ReduceOthers(axis, base, DivideCuts(axis.Column(0), border, target, MergeColdLogicalRange));
  }

  function FocusAxis(axis: Axis, border: Border, threshold: nat, ratio: int, target: nat): (r: Axis)
    requires axis.Sized()
  {
    if target >= |axis.keys| - 1 then axis
    else CoarsenAxis(axis, FocusCuts(axis.Column(0), border, threshold, ratio, target, MergeColdLogicalRange))
  }

  /** `Axis.Focus`: the same, for a given threshold and ratio. */
  method FocusOn(axis: Axis, border: Border, threshold: nat, ratio: int, target: nat) returns (r: Axis)
    requires axis.Valid()
    ensures r == FocusAxis(axis, border, threshold, ratio, target)
    ensures |axis.keys| - 1 <= target ==> r == axis
    ensures |axis.keys| - 1 > target ==>
              CoarsenedTo(axis, FocusCuts(axis.Column(0), border, threshold, ratio, target, MergeColdLogicalRange), r)
  {
    if target >= |axis.keys| - 1 {
      return axis;
    }
    var base := FocusChunk(axis.Column(0), border, threshold, ratio, target, MergeColdLogicalRange);
    r := ReduceOthers(axis, base,
                      FocusCuts(axis.Column(0), border, threshold, ratio, target, MergeColdLogicalRange));
  }

  /** Coarsening an axis keeps its ends, its validity and every column total. */
  lemma {:induction false} CoarsenKeeps(axis: Axis, cuts: seq<nat>)
    requires axis.Valid() && IsCuts(cuts, |axis.keys| - 1)
    ensures var r := CoarsenAxis(axis, cuts);
            && r.Valid()
            && r.keys[0] == axis.keys[0] && r.keys[|r.keys| - 1] == axis.keys[|axis.keys| - 1]
            && forall j :: 0 <= j < |axis.valuesList| ==> Total(r.valuesList[j]) == Total(axis.valuesList[j])
  {
    var r := CoarsenAxis(axis, cuts);
    CutsNeverAddRows(cuts, |axis.keys| - 1);
    forall i | 0 <= i < |r.keys| - 1 ensures Below(BoundAt(r.keys, i), BoundAt(r.keys, i + 1)) {
      assert cuts[i] < cuts[i + 1];
      ValidKeysAscend(axis.keys, cuts[i], cuts[i + 1]);
      assert i + 1 < |r.keys| - 1 ==> cuts[i + 1] < cuts[|cuts| - 1];
    }
    forall j | 0 <= j < |axis.valuesList| ensures Total(r.valuesList[j]) == Total(axis.valuesList[j]) {
      assert r.Column(j) == Coarsen(axis.Column(j), cuts);
      SumsKeepTotal(axis.valuesList[j], cuts);
    }
  }

  lemma {:induction false} DivideKeeps(axis: Axis, border: Border, target: nat)
    requires axis.Valid() && target != 1
    ensures var r := DivideAxis(axis, border, target);
            && r.Valid()
            && r.keys[0] == axis.keys[0] && r.keys[|r.keys| - 1] == axis.keys[|axis.keys| - 1]
            && forall j :: 0 <= j < |axis.valuesList| ==> Total(r.valuesList[j]) == Total(axis.valuesList[j])
  {
    if target < |axis.keys| - 1 {
      CoarsenKeeps(axis, DivideCuts(axis.Column(0), border, target, MergeColdLogicalRange));
    }
  }

  /** As many rows as the axis has, or the target and one more for every change of logical range. */
  ghost predicate AboutTarget(keys: seq<Key>, border: Border, target: nat, rows: nat)
    requires |keys| >= 2
  {
    rows <= |keys| - 1 && (rows <= target || rows <= target - 1 + Changes(border, keys, 1, |keys| - 1))
  }

  /** The divided axis has about as many rows as asked for, and the same ones where it had no more. */
  lemma {:induction false} DividedRows(axis: Axis, border: Border, target: nat)
    requires axis.Sized() && target >= 2
    ensures var r := DivideAxis(axis, border, target);
            && (|axis.keys| - 1 <= target ==> r == axis)
            && (|axis.keys| - 1 > target ==>
                  CoarsenedTo(axis, DivideCuts(axis.Column(0), border, target, MergeColdLogicalRange), r))
            && (IsClassBorder(border) ==> AboutTarget(axis.keys, border, target, |r.keys| - 1))
  {
    if |axis.keys| - 1 > target {
      var cuts := DivideCuts(axis.Column(0), border, target, MergeColdLogicalRange);
      CutsNeverAddRows(cuts, |axis.keys| - 1);
      if IsClassBorder(border) { DivideRowBound(axis.Column(0), border, target, MergeColdLogicalRange); }
    }
  }

  // ---------- stored and displayed axes ----------

  /** The tags of a displayed axis, in column order. */
  datatype StatTag = Integration | WrittenBytes | ReadBytes | WrittenKeys | ReadKeys

  const RESPONSE_TAGS := [Integration, WrittenBytes, ReadBytes, WrittenKeys, ReadKeys]
  const PRE_TARGET: nat := 3072
  const DIRTY_WRITTEN_BYTES: nat := 0x1_0000_0000

  /** The integration column is written bytes plus read bytes. */
  predicate Integrated(axis: Axis) {
    && axis.Sized() && |axis.valuesList| == |RESPONSE_TAGS|
    && forall i :: 0 <= i < |axis.keys| - 1 ==>
         axis.valuesList[0][i] == axis.valuesList[1][i] + axis.valuesList[2][i]
  }

  function StorageAxis(axis: Axis, border: Border): Axis
    requires axis.Sized() && |axis.valuesList| >= 2
  {
    var r := DivideAxis(axis, border, PRE_TARGET);
    Axis(r.keys, r.valuesList[1..])
  }

  /**
   A stored axis has the columns after the base column: as they are for up to 3072 rows, else coarsened
   onto the boundaries that the base column picks for a target of 3072.
   */
  ghost predicate StoredFrom(axis: Axis, border: Border, r: Axis)
    requires axis.Sized() && |axis.valuesList| >= 2
  {
    && |r.valuesList| == |axis.valuesList| - 1
    && (|axis.keys| - 1 <= 3072 ==> r == Axis(axis.keys, axis.valuesList[1..]))
    && (|axis.keys| - 1 > 3072 ==>
          forall j :: 1 <= j < |axis.valuesList| ==>
            r.Column(j - 1) ==
            Coarsen(axis.Column(j), DivideCuts(axis.Column(0), border, 3072, MergeColdLogicalRange)))
    && (IsClassBorder(border) ==> |r.keys| >= 1 && AboutTarget(axis.keys, border, 3072, |r.keys| - 1))
  }

  lemma {:induction false} StorageMeans(axis: Axis, border: Border)
    requires axis.Sized() && |axis.valuesList| >= 2
    ensures StoredFrom(axis, border, StorageAxis(axis, border))
  {
    DividedRows(axis, border, PRE_TARGET);
    var divided, r := DivideAxis(axis, border, PRE_TARGET), StorageAxis(axis, border);
    forall j | 1 <= j < |axis.valuesList| ensures r.Column(j - 1) == divided.Column(j) {}
  }

  /** `IntoStorageAxis`: divide, then drop the base column. */
  method IntoStorageAxis(axis: Axis, border: Border) returns (r: Axis)
    requires axis.Valid() && |axis.valuesList| >= 2 && Total(axis.valuesList[0]) < TWO_TO_63
    ensures r == StorageAxis(axis, border) && StoredFrom(axis, border, r)
    ensures r.Valid() && |r.valuesList| == |axis.valuesList| - 1
  {
    var divided := Divide(axis, border, PRE_TARGET);
    DivideKeeps(axis, border, PRE_TARGET);
    StorageMeans(axis, border);
    r := Axis(divided.keys, divided.valuesList[1..]);
  }

  function TagIndex(tag: StatTag): (i: nat)
    ensures i < |RESPONSE_TAGS| && RESPONSE_TAGS[i] == tag
    ensures forall j :: 0 <= j < |RESPONSE_TAGS| && RESPONSE_TAGS[j] == tag ==> j == i
  {
    match tag
    case Integration => 0
    case WrittenBytes => 1
    case ReadBytes => 2
    case WrittenKeys => 3
    case ReadKeys => 4
  }

  /** `r` displays the stored columns: the integration column in front, swapped with the wanted one. */
  predicate Displays(axis: Axis, baseTag: StatTag, r: Axis) {
    && axis.Sized() && |axis.valuesList| == |RESPONSE_TAGS| - 1
    && r.Sized() && r.keys == axis.keys && |r.valuesList| == |RESPONSE_TAGS|
    && (forall i :: 0 <= i < |axis.keys| - 1 ==>
          r.valuesList[TagIndex(baseTag)][i] == axis.valuesList[0][i] + axis.valuesList[1][i])
    && (baseTag != Integration ==> r.valuesList[0] == axis.valuesList[TagIndex(baseTag) - 1])
    && (forall j :: 1 <= j < |RESPONSE_TAGS| && j != TagIndex(baseTag) ==>
          r.valuesList[j] == axis.valuesList[j - 1])
  }

  /** The column in front: the one that is stored for the tag, or the bytes written and read together. */
  predicate ShowsTag(axis: Axis, tag: StatTag, r: Axis) {
    && axis.Sized() && |axis.valuesList| == 4 && r.Sized() && |r.valuesList| == 5 && r.keys == axis.keys
    && match tag
       case Integration =>
         forall i :: 0 <= i < |axis.keys| - 1 ==>
           r.valuesList[0][i] == axis.valuesList[0][i] + axis.valuesList[1][i]
       case WrittenBytes => r.valuesList[0] == axis.valuesList[0]
       case ReadBytes => r.valuesList[0] == axis.valuesList[1]
       case WrittenKeys => r.valuesList[0] == axis.valuesList[2]
       case ReadKeys => r.valuesList[0] == axis.valuesList[3]
  }

  /** `IntoResponseAxis`: add the integration column, then swap the wanted column to the front. */
  method IntoResponseAxis(axis: Axis, baseTag: StatTag) returns (r: Axis)
    requires axis.Valid() && |axis.valuesList| == |RESPONSE_TAGS| - 1
    ensures r.Valid() && Displays(axis, baseTag, r) && ShowsTag(axis, baseTag, r)
  {
    var n := |axis.valuesList[0]|;
    var integration: seq<nat> := [];
    for i := 0 to n
      invariant |integration| == i
      invariant forall k :: 0 <= k < i ==> integration[k] == axis.valuesList[0][k] + axis.valuesList[1][k]
    {
      integration := integration + [axis.valuesList[0][i] + axis.valuesList[1][i]];
    }
    var valuesList := [integration] + axis.valuesList;
    var i := 0;
    while RESPONSE_TAGS[i] != baseTag
      invariant 0 <= i <= TagIndex(baseTag)
      decreases TagIndex(baseTag) - i
    {
      i := i + 1;
    }
    r := Axis(axis.keys, valuesList[0 := valuesList[i]][i := valuesList[0]]);
  }

  lemma {:induction false} DisplaysSwapped(goal: Axis, stored: Axis, tag: StatTag, r: Axis)
    requires Integrated(goal) && stored == Axis(goal.keys, goal.valuesList[1..])
    requires Displays(stored, tag, r)
    ensures var k := TagIndex(tag);
            r.valuesList == goal.valuesList[0 := goal.valuesList[k]][k := goal.valuesList[0]]
  {
    var k := TagIndex(tag);
    var want := goal.valuesList[0 := goal.valuesList[k]][k := goal.valuesList[0]];
    assert stored.valuesList[0] == goal.valuesList[1] && stored.valuesList[1] == goal.valuesList[2];
    assert r.valuesList[k] == goal.valuesList[0];
    forall j | 0 <= j < |want| ensures r.valuesList[j] == want[j] {
      if j != k && j > 0 { assert r.valuesList[j] == stored.valuesList[j - 1]; }
    }
  }

  /**
   The integration column is not stored, and nothing is lost: storing an integrated axis and
   displaying it for a tag gives back the divided axis with the tag's column in front.
   */
  lemma {:induction false} IntegrationRecovered(axis: Axis, border: Border, tag: StatTag, r: Axis)
    requires axis.Valid() && Integrated(axis)
    requires Displays(StorageAxis(axis, border), tag, r)
    ensures var goal, k := DivideAxis(axis, border, PRE_TARGET), TagIndex(tag);
            && r.keys == goal.keys
            && r.valuesList == goal.valuesList[0 := goal.valuesList[k]][k := goal.valuesList[0]]
  {
    var goal := DivideAxis(axis, border, PRE_TARGET);
    DivideIntegrates(axis, border, PRE_TARGET);
    DisplaysSwapped(goal, Axis(goal.keys, goal.valuesList[1..]), tag, r);
  }

  /** Dividing keeps the integration column equal to the sum of its parts. */
  lemma {:induction false} DivideIntegrates(axis: Axis, border: Border, target: nat)
    requires axis.Valid() && Integrated(axis) && target != 1
    ensures Integrated(DivideAxis(axis, border, target))
  {
    if target < |axis.keys| - 1 {
      var cuts := DivideCuts(axis.Column(0), border, target, MergeColdLogicalRange);
      var r := CoarsenAxis(axis, cuts);
      SumsAdd(axis.valuesList[0], axis.valuesList[1], axis.valuesList[2], cuts);
      assert forall j :: 0 <= j < 3 ==> r.Column(j) == Coarsen(axis.Column(j), cuts);
    }
  }

  /** Columns held in arrays of one length, as they are while being filled; some may share an array. */
  ghost predicate OneLength(columns: seq<array<nat>>) {
    forall i, j :: 0 <= i < j < |columns| ==> columns[i].Length == columns[j].Length
  }

  /** `wash` zeroes, in every column, the rows whose written bytes are implausible. */
  method Wash(columns: seq<array<nat>>)
    requires |columns| == |RESPONSE_TAGS| && OneLength(columns)
    modifies columns
    ensures forall j, i :: 0 <= j < |columns| && 0 <= i < columns[j].Length ==>
              columns[j][i] == if old(columns[1][i]) >= 0x1_0000_0000 then 0 else old(columns[j][i])
  {
    for i := 0 to columns[1].Length
      invariant forall j, k :: 0 <= j < |columns| && 0 <= k < i ==>
                  columns[j][k] == if old(columns[1][k]) >= DIRTY_WRITTEN_BYTES then 0 else old(columns[j][k])
      invariant forall j, k :: 0 <= j < |columns| && i <= k < columns[j].Length ==>
                  columns[j][k] == old(columns[j][k])
    {
      label Row:
      if columns[1][i] >= DIRTY_WRITTEN_BYTES {
        for j := 0 to |columns|
          invariant forall h, k :: 0 <= h < |columns| && 0 <= k < columns[h].Length && k != i ==>
                      columns[h][k] == old@Row(columns[h][k])
          invariant forall h :: 0 <= h < j ==> columns[h][i] == 0
        {
          columns[j][i] := 0;
        }
      }
    }
  }

  /** How many of the first n columns are held in the array. */
  ghost function Sharing(columns: seq<array<nat>>, column: array<nat>, n: nat): nat
    requires n <= |columns|
  {
    if n == 0 then 0 else Sharing(columns, column, n - 1) + if columns[n - 1] == column then 1 else 0
  }

  /** A value divided by the ratio k times. */
  function DividedTimes(value: nat, ratio: nat, k: nat): nat
    requires ratio > 0
  {
    if k == 0 then value else DividedTimes(value, ratio, k - 1) / ratio
  }

  /**
   `Shrink` divides every value by the ratio, in place; an array that columns share is divided once for each of
   them.
   */
  method Shrink(columns: seq<array<nat>>, ratio: nat)
    requires ratio > 0
    modifies columns
    ensures forall j, i :: 0 <= j < |columns| && 0 <= i < columns[j].Length ==>
              columns[j][i] == DividedTimes(old(columns[j][i]), ratio, Sharing(columns, columns[j], |columns|))
  {
    for j := 0 to |columns|
      invariant forall h, i :: 0 <= h < |columns| && 0 <= i < columns[h].Length ==>
                  columns[h][i] == DividedTimes(old(columns[h][i]), ratio, Sharing(columns, columns[h], j))
    {
      for i := 0 to columns[j].Length
        invariant forall h, k :: 0 <= h < |columns| && 0 <= k < columns[h].Length ==>
                    var times := if columns[h] == columns[j] && k < i then j + 1 else j;
                    columns[h][k] == DividedTimes(old(columns[h][k]), ratio, Sharing(columns, columns[h], times))
      {
        columns[j][i] := columns[j][i] / ratio;
      }
    }
  }

  /** Separate columns are divided once. */
  lemma {:induction false} SharedByNone(columns: seq<array<nat>>, j: nat, n: nat)
    requires j < |columns| && n <= |columns| && forall g, h :: 0 <= g < h < |columns| ==> columns[g] != columns[h]
    ensures Sharing(columns, columns[j], n) == if j < n then 1 else 0
    decreases n
  {
    if n > 0 { SharedByNone(columns, j, n - 1); }
  }

  /** Washing keeps the integration column equal to the sum of its parts. */
  lemma {:induction false} WashIntegrates(before: Axis, after: Axis)
    requires Integrated(before) && after.Sized()
    requires after.keys == before.keys && |after.valuesList| == |before.valuesList|
    requires forall j, i :: 0 <= j < |before.valuesList| && 0 <= i < |before.keys| - 1 ==>
               after.valuesList[j][i] ==
               if before.valuesList[1][i] >= DIRTY_WRITTEN_BYTES then 0 else before.valuesList[j][i]
    ensures Integrated(after)
  {
    forall i | 0 <= i < |after.keys| - 1
      ensures after.valuesList[0][i] == after.valuesList[1][i] + after.valuesList[2][i]
    {
      assert before.valuesList[0][i] == before.valuesList[1][i] + before.valuesList[2][i];
    }
  }

  // ---------- key ranges ----------

  /** The least axis over a key range, all zero. */
  function EmptyAxis(startKey: Key, endKey: Key, columns: nat): (r: Axis)
    requires columns >= 1
    ensures r.Sized() && |r.valuesList| == columns
  {
    Axis([startKey, endKey], seq(columns, _ => [0]))
  }

  /** `r` holds buckets [lo, hi - 1) of the axis, and these are the ones that intersect the range. */
  ghost predicate RangedAt(axis: Axis, startKey: Key, endKey: Key, r: Axis, lo: nat, hi: nat)
    requires axis.Sized()
  {
    && lo + 1 < hi <= |axis.keys|
    && (forall i :: 0 <= i < |axis.keys| - 1 ==>
          (lo <= i < hi - 1 <==> Intersects(axis.keys, i, startKey, endKey)))
    && r.keys == axis.keys[lo..hi]
    && |r.valuesList| == |axis.valuesList|
    && forall j :: 0 <= j < |axis.valuesList| ==> r.valuesList[j] == axis.valuesList[j][lo..hi - 1]
  }

  /** `r` holds exactly the buckets of the axis that intersect the range, or is the empty axis. */
  ghost predicate InRange(axis: Axis, startKey: Key, endKey: Key, r: Axis)
    requires axis.Sized()
  {
    if exists i :: 0 <= i < |axis.keys| - 1 && Intersects(axis.keys, i, startKey, endKey) then
      exists lo: nat, hi: nat :: RangedAt(axis, startKey, endKey, r, lo, hi)
    else r == EmptyAxis(startKey, endKey, |axis.valuesList|)
  }

  /** `Axis.Range` always builds a valid axis. */
  method Range(axis: Axis, startKey: Key, endKey: Key) returns (r: Axis)
    requires axis.Valid() && Below(Fin(startKey), EndBound(endKey))
    ensures r.Valid() && |r.valuesList| == |axis.valuesList|
    ensures InRange(axis, startKey, endKey, r)
    ensures exists i :: 0 <= i < |r.keys| - 1 && Intersects(r.keys, i, startKey, endKey)
    ensures (forall i :: 0 <= i < |axis.keys| - 1 ==> !Intersects(axis.keys, i, startKey, endKey)) ==>
              r.keys == [startKey, endKey] && forall j :: 0 <= j < |r.valuesList| ==> r.valuesList[j] == [0]
  {
    var start, end, ok := KeysRange(axis.keys, startKey, endKey);
    if !ok {
      r := EmptyAxis(startKey, endKey, |axis.valuesList|);
      assert Intersects(r.keys, 0, startKey, endKey);
      return;
    }
    var valuesList := [];
    for i := 0 to |axis.valuesList|
      invariant |valuesList| == i
      invariant forall j :: 0 <= j < i ==> valuesList[j] == axis.valuesList[j][start..end - 1]
    {
      valuesList := valuesList + [axis.valuesList[i][start..end - 1]];
    }
    r := Axis(axis.keys[start..end], valuesList);
    SliceValid(axis.keys, start, end);
    assert RangedAt(axis, startKey, endKey, r, start, end);
    assert Intersects(axis.keys, start, startKey, endKey);
    assert Intersects(r.keys, 0, startKey, endKey);
  }

  lemma {:induction false} SliceValid(keys: seq<Key>, lo: nat, hi: nat)
    requires ValidKeys(keys) && lo + 1 < hi <= |keys|
    ensures ValidKeys(keys[lo..hi])
    ensures forall i :: 0 <= i < hi - lo ==> BoundAt(keys[lo..hi], i) == BoundAt(keys, lo + i)
  {
    var s := keys[lo..hi];
    forall i | 0 <= i < |s| ensures BoundAt(s, i) == BoundAt(keys, lo + i) {
      if lo + i < |keys| - 1 && lo + i > 0 { InnerKeyNonEmpty(keys, lo + i); }
    }
    forall i | 0 <= i < |s| - 1 ensures Below(BoundAt(s, i), BoundAt(s, i + 1)) {
      assert Below(BoundAt(keys, lo + i), BoundAt(keys, lo + i + 1));
    }
  }
}
