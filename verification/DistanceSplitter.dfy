/**
 The distance strategy as a splitter: scale columns computed with scratch memory that is reused from
 one axis to the next, and the shares they give.
 */
module DistanceSplitter {
  import opened Keys
  import opened Cuts
  import opened KeyUnion
  import opened Splitting
  import opened Distance
  import opened Scale

  /** The weight of every distance of a ranking goes into the table; what the table held does not matter. */
  method RankWeights(c: Settings, s: seq<nat>, table: array<real>) returns (sum: real)
    requires c.Valid() && |s| >= 1 && Sorted(s) && forall i :: 0 <= i < |s| ==> s[i] < table.Length
    modifies table
    ensures sum == TermSum(c, s, |s|)
    ensures forall i :: 0 <= i < |s| ==> table[s[i]] == WeightAt(c, s, i)
  {
    var level := 0;
    table[s[0]] := 1.0;
    var value := 1.0;
    sum := 1.0;
    assert TermSum(c, s, 1) == TermSum(c, s, 0) + TermAt(c, s, 0);
    for i := 1 to |s|
      invariant level == LevelAt(s, i - 1) && value == TermAt(c, s, i - 1) && sum == TermSum(c, s, i)
      invariant forall k :: 0 <= k < i ==> table[s[k]] == WeightAt(c, s, k)
    {
      var d := s[i];
      if d != s[i - 1] {
        assert forall k :: 0 <= k < i ==> s[k] < d;
        level := level + 1;
        if level >= c.level || i >= c.count {
          table[d] := 0.0;
        } else {
          value := c.pow[level];
          table[d] := value;
        }
      }
      sum := sum + value;
    }
  }

  lemma {:induction false} DivideBack(w: real, t: real)
    requires t > 0.0
    ensures IsShare(w / t, t, w)
  {
  }

  /** Divide the weights of the parts by the sum. */
  method FillShares(dis: seq<nat>, lo: nat, hi: nat, table: array<real>, sum: real, scale: array<real>)
    requires lo <= hi <= |dis| == scale.Length && table != scale && sum > 0.0
    requires forall p :: lo <= p < hi ==> dis[p] < table.Length
    modifies scale
    ensures forall p :: lo <= p < hi ==> IsShare(scale[p], sum, table[dis[p]])
    ensures forall p :: 0 <= p < lo || hi <= p < scale.Length ==> scale[p] == old(scale[p])
  {
    for p := lo to hi
      invariant forall q :: lo <= q < p ==> IsShare(scale[q], sum, table[dis[q]])
      invariant forall q :: 0 <= q < lo || p <= q < scale.Length ==> scale[q] == old(scale[q])
    {
      DivideBack(table[dis[p]], sum);
      scale[p] := table[dis[p]] / sum;
    }
  }

  /** A row with one part gets it all, as the general rule says. */
  lemma {:induction false} SingleScaled(c: Settings, dis: seq<nat>, scale: seq<real>, lo: nat)
    requires c.Valid() && lo < |dis| == |scale| && scale[lo] == 1.0
    ensures RowScaled(c, dis, scale, lo, lo + 1)
  {
    SinglePart(c, dis, lo);
    var s := Ranked(dis[lo..lo + 1]);
    assert IsShare(1.0, 1.0, 1.0);
    forall p, i | lo <= p < lo + 1 && 0 <= i < |s| && s[i] == dis[p]
      ensures IsShare(scale[p], TermSum(c, s, |s|), Weights(c, s)[i])
    {
      assert p == lo && i == 0;
    }
  }

  /** The entries of one row. */
  method ScaleRow(c: Settings, dis: seq<nat>, lo: nat, hi: nat, table: array<real>, scale: array<real>)
    requires c.Valid() && lo < hi <= |dis| == scale.Length && table != scale
    requires forall p :: lo <= p < hi ==> dis[p] < table.Length
    modifies table, scale
    ensures RowScaled(c, dis, scale[..], lo, hi)
    ensures forall p :: 0 <= p < lo || hi <= p < scale.Length ==> scale[p] == old(scale[p])
  {
    if lo + 1 == hi {
      scale[lo] := 1.0;
      SingleScaled(c, dis, scale[..], lo);
      return;
    }
    var s := Ranked(dis[lo..hi]);
    RankedSorted(dis[lo..hi]);
    forall i | 0 <= i < |s| ensures s[i] < table.Length {
      SameElements(s, dis[lo..hi], s[i]);
    }
    var sum := RankWeights(c, s, table);
    assert sum > 0.0 by { SumVersusTerms(c, s); }
    FillShares(dis, lo, hi, table, sum, scale);
    ghost var w := Weights(c, s);
    forall p, i | lo <= p < hi && 0 <= i < |s| && s[i] == dis[p] ensures IsShare(scale[p], sum, w[i]) {
      assert table[s[i]] == w[i];
    }
  }

  ghost predicate RowAt(c: Settings, dis: seq<nat>, scale: seq<real>, at: seq<nat>, j: nat) {
    && c.Valid() && j + 1 < |at| && at[j] < at[j + 1] <= |dis| == |scale|
    && RowScaled(c, dis, scale, at[j], at[j + 1])
  }

  /** Rows [0, r) of an axis are scaled. */
  ghost predicate RowsScaled(c: Settings, dis: seq<nat>, scale: seq<real>, at: seq<nat>, r: nat) {
    forall j: nat :: j < r ==> RowAt(c, dis, scale, at, j)
  }

  lemma {:induction false} RowScaledLocal(c: Settings, dis: seq<nat>, v: seq<real>, w: seq<real>, lo: nat, hi: nat)
    requires c.Valid() && lo <= hi <= |dis| == |v| == |w| && RowScaled(c, dis, v, lo, hi)
    requires forall p :: lo <= p < hi ==> v[p] == w[p]
    ensures RowScaled(c, dis, w, lo, hi)
  {
  }

  lemma {:induction false} OneMoreRow(c: Settings, dis: seq<nat>, v: seq<real>, w: seq<real>, at: seq<nat>, r: nat)
    requires c.Valid() && Rising(at) && r + 1 < |at| && at[r + 1] <= |dis| == |v| == |w|
    requires RowsScaled(c, dis, v, at, r) && RowScaled(c, dis, w, at[r], at[r + 1])
    requires forall p :: 0 <= p < at[r] ==> v[p] == w[p]
    ensures RowsScaled(c, dis, w, at, r + 1)
  {
    forall j: nat | j < r + 1 ensures RowAt(c, dis, w, at, j) {
      if j < r {
        assert RowAt(c, dis, v, at, j) && at[j + 1] <= at[r];
        RowScaledLocal(c, dis, v, w, at[j], at[j + 1]);
      }
    }
  }

  /** The distance of every bucket of the compact axis from an axis. */
  function BucketDistances(dis: seq<nat>): (b: seq<nat>)
    requires |dis| >= 1
    ensures |b| == |dis| - 1
  {
    seq(|dis| - 1, p requires 0 <= p < |dis| - 1 => BucketDis(dis, p + 1))
  }

  /** Bucket p lies between keys p and p + 1, and is as far as the farther one. */
  lemma {:induction false} BucketIsFarther(dis: seq<nat>, p: nat)
    requires p + 1 < |dis|
    ensures dis[p] <= BucketDistances(dis)[p] && dis[p + 1] <= BucketDistances(dis)[p]
    ensures BucketDistances(dis)[p] == dis[p] || BucketDistances(dis)[p] == dis[p + 1]
  {
    assert BucketDistances(dis)[p] == BucketDis(dis, p + 1);
  }

  /**
   The scale column of one axis. The scratch table grows when a distance does not fit; the column does
   not depend on what the table held.
   */
  method ScaleColumn(c: Settings, dis: array<nat>, keys: seq<Key>, compactKeys: seq<Key>, table: array<real>,
                     ghost at: seq<nat>)
    returns (scale: array<real>, newTable: array<real>)
    requires c.Valid() && ValidKeys(compactKeys) && ValidKeys(keys) && Embeds(compactKeys, keys, at)
    requires dis.Length == |compactKeys| && table.Length >= 1
    modifies dis, table
    ensures scale.Length == |compactKeys| - 1 && fresh(scale) && newTable.Length >= table.Length
    ensures newTable == table || fresh(newTable)
    ensures RowsScaled(c, BucketDistances(old(dis[..])), scale[..], at, |keys| - 1)
  {
    ghost var b := BucketDistances(dis[..]);
    var maxDis := ToBucketDis(dis);
    var buckets := dis[1..];
    assert buckets == b;
    assert forall p :: 0 <= p < |b| ==> b[p] == dis[p + 1] <= maxDis;
    scale := new real[|buckets|](_ => 0.0);
    newTable := table;
    var capacity := table.Length;
    while capacity <= maxDis
      invariant capacity == newTable.Length >= table.Length && newTable != scale
      invariant newTable == table || fresh(newTable)
      decreases maxDis - capacity
    {
      capacity := capacity * 2;
      newTable := new real[capacity](_ => 0.0);
    }
    var start := FindKey(compactKeys, keys, 0, 0, at);
    for i := 0 to |keys| - 1
      invariant start == at[i] <= |b|
      invariant RowsScaled(c, b, scale[..], at, i)
    {
      ghost var before := scale[..];
      var end := FindKey(compactKeys, keys, i + 1, start + 1, at);
      ScaleRow(c, buckets, start, end, newTable, scale);
      OneMoreRow(c, b, before, scale[..], at, i);
      start := end;
    }
  }

  // ---------- the shares ----------

  function DistanceShare(scale: seq<real>): Share {
    (value: nat, p: nat, parts: nat) =>
      if p < |scale| && scale[p] >= 0.0 then (value as real * scale[p]).Floor else 0
  }

  lemma {:induction false} ShareFloor(value: nat, x: real)
    requires x >= 0.0
    ensures 0 <= (value as real * x).Floor && ((value as real * x).Floor) as real <= value as real * x
  {
    assert value as real * x >= 0.0;
  }

  lemma {:induction false} DistanceShareSum(scale: seq<real>, value: nat, lo: nat, hi: nat, parts: nat)
    requires lo <= hi <= |scale| && forall p :: lo <= p < hi ==> scale[p] >= 0.0
    ensures ShareSum(DistanceShare(scale), value, lo, hi, parts) as real <= value as real * RealSum(scale, lo, hi)
    decreases hi
  {
    if lo < hi {
      DistanceShareSum(scale, value, lo, hi - 1, parts);
      ShareFloor(value, scale[hi - 1]);
      assert value as real * (RealSum(scale, lo, hi - 1) + scale[hi - 1]) ==
             value as real * RealSum(scale, lo, hi - 1) + value as real * scale[hi - 1];
    }
  }

  lemma {:induction false} AtMostWhole(v: real, x: real)
    requires 0.0 <= v && x <= 1.0
    ensures v * x <= v
  {
    assert v * (1.0 - x) >= 0.0;
  }

  /** A row with one part keeps its whole value. */
  lemma {:induction false} SingleWhole(c: Settings, dis: seq<nat>, scale: seq<real>, value: nat, lo: nat)
    requires c.Valid() && lo < |dis| == |scale| && RowScaled(c, dis, scale, lo, lo + 1)
    ensures DistanceShare(scale)(value, lo, 1) == value
  {
    SinglePart(c, dis, lo);
    assert IsShare(scale[lo], 1.0, Weights(c, Ranked(dis[lo..lo + 1]))[0]);
    assert scale[lo] == 1.0;
  }

  lemma {:induction false} RowNotNegative(c: Settings, dis: seq<nat>, scale: seq<real>, lo: nat, hi: nat)
    requires c.Valid() && lo < hi <= |dis| == |scale| && RowScaled(c, dis, scale, lo, hi)
    ensures forall p :: lo <= p < hi ==> scale[p] >= 0.0
  {
    forall p | lo <= p < hi ensures scale[p] >= 0.0 { RowScaleOrder(c, dis, scale, lo, hi, p, p); }
  }

  lemma {:induction false} ShareWithin(s: nat, v: nat, x: real)
    requires s as real <= v as real * x && x <= 1.0
    ensures s <= v
  {
    AtMostWhole(v as real, x);
  }

  lemma {:induction false} SharesWithin(scale: seq<real>, value: nat, lo: nat, hi: nat)
    requires lo <= hi <= |scale| && (forall p :: lo <= p < hi ==> scale[p] >= 0.0) && RealSum(scale, lo, hi) <= 1.0
    ensures ShareSum(DistanceShare(scale), value, lo, hi, hi - lo) <= value
  {
    DistanceShareSum(scale, value, lo, hi, hi - lo);
    ShareWithin(ShareSum(DistanceShare(scale), value, lo, hi, hi - lo), value, RealSum(scale, lo, hi));
  }

  /** The parts of a row never get more than its value. */
  lemma {:induction false} RowIsFrugal(c: Settings, dis: seq<nat>, scale: seq<real>, value: nat, lo: nat, hi: nat)
    requires c.Valid() && lo < hi <= |dis| == |scale| && RowScaled(c, dis, scale, lo, hi)
    ensures ShareSum(DistanceShare(scale), value, lo, hi, hi - lo) <= value
  {
    RowNotNegative(c, dis, scale, lo, hi);
    RowScaleSums(c, dis, scale, lo, hi);
    SharesWithin(scale, value, lo, hi);
  }

  lemma {:induction false} DistanceIsFrugal(c: Settings, dis: seq<nat>, scale: seq<real>, values: seq<nat>,
                                            at: seq<nat>)
    requires Rising(at) && |at| == |values| + 1 && RowsScaled(c, dis, scale, at, |values|)
    ensures Frugal(DistanceShare(scale), values, at) && KeepsWhole(DistanceShare(scale), values, at)
  {
    forall i | 0 <= i < |values|
      ensures ShareSum(DistanceShare(scale), values[i], at[i], at[i + 1], at[i + 1] - at[i]) <= values[i]
      ensures at[i + 1] == at[i] + 1 ==> DistanceShare(scale)(values[i], at[i], 1) == values[i]
    {
      assert RowAt(c, dis, scale, at, i);
      RowIsFrugal(c, dis, scale, values[i], at[i], at[i + 1]);
      if at[i + 1] == at[i] + 1 { SingleWhole(c, dis, scale, values[i], at[i]); }
    }
  }

  /** Rounding down loses less than one for each part. */
  lemma {:induction false} DistanceShareLoss(scale: seq<real>, value: nat, lo: nat, hi: nat, parts: nat)
    requires lo <= hi <= |scale| && forall p :: lo <= p < hi ==> scale[p] >= 0.0
    ensures var kept := ShareSum(DistanceShare(scale), value, lo, hi, parts) + (hi - lo);
            && value as real * RealSum(scale, lo, hi) <= kept as real
            && (lo < hi ==> value as real * RealSum(scale, lo, hi) < kept as real)
    decreases hi
  {
    if lo < hi {
      DistanceShareLoss(scale, value, lo, hi - 1, parts);
      assert value as real * (RealSum(scale, lo, hi - 1) + scale[hi - 1]) ==
             value as real * RealSum(scale, lo, hi - 1) + value as real * scale[hi - 1];
      ShareFloor(value, scale[hi - 1]);
    }
  }

  /** The parts of a row together miss less than one each of its value. */
  predicate MissesLittle(scale: seq<real>, value: nat, lo: nat, hi: nat)
    requires lo <= hi
  {
    value < ShareSum(DistanceShare(scale), value, lo, hi, hi - lo) + (hi - lo)
  }

  lemma {:induction false} WholeMissesLittle(scale: seq<real>, value: nat, lo: nat, hi: nat)
    requires lo < hi <= |scale| && (forall p :: lo <= p < hi ==> scale[p] >= 0.0) && RealSum(scale, lo, hi) == 1.0
    ensures MissesLittle(scale, value, lo, hi)
  {
    DistanceShareLoss(scale, value, lo, hi, hi - lo);
  }

  /** Where no level is truncated, the parts of a row miss less than one each. */
  lemma {:induction false} DistanceLoss(c: Settings, dis: seq<nat>, scale: seq<real>, value: nat, lo: nat, hi: nat)
    requires c.Valid() && lo < hi <= |dis| == |scale| && RowScaled(c, dis, scale, lo, hi)
    requires Full(c, Ranked(dis[lo..hi]))
    ensures MissesLittle(scale, value, lo, hi)
  {
    RowNotNegative(c, dis, scale, lo, hi);
    RowScaleSums(c, dis, scale, lo, hi);
    WholeMissesLittle(scale, value, lo, hi);
  }

  lemma {:induction false} Distributes(a: real, b: real, t: real)
    ensures (a + b) * t == a * t + b * t
  {
  }

  lemma {:induction false} NotNegative(a: real, t: real)
    requires a >= 0.0 && t >= 0.0
    ensures a * t >= 0.0
  {
  }

  lemma {:induction false} MoreIsMore(v: real, q: real, t: real)
    requires v >= q && t > 0.0
    ensures v * t >= q * t
  {
    NotNegative(v - q, t);
    Distributes(v - q, q, t);
  }

  lemma {:induction false} Complement(v: real, x: real, t: real)
    requires x + t == 1.0
    ensures v * x + v * t == v
  {
    Distributes(x, t, v);
  }

  lemma {:induction false} LargeEnough(v: real, x: real, t: real, q: real, n: real)
    requires v >= q && t > 0.0 && x + t == 1.0 && IsShare(q, t, n)
    ensures v * x <= v - n
  {
    MoreIsMore(v, q, t);
    Complement(v, x, t);
  }

  lemma {:induction false} ShareMisses(s: nat, v: nat, x: real, n: nat)
    requires s as real <= v as real * x <= v as real - n as real
    ensures s + n <= v
  {
  }

  /** A share below one, of a large enough value, misses any amount. */
  lemma {:induction false} EnoughValue(x: real, n: nat) returns (value: nat)
    requires x < 1.0
    ensures value as real * x <= value as real - n as real
  {
    var q := n as real / (1.0 - x);
    DivideBack(n as real, 1.0 - x);
    assert q >= 0.0;
    value := q.Floor + 1;
    LargeEnough(value as real, x, 1.0 - x, q, n as real);
  }

  lemma {:induction false} LargeLoss(scale: seq<real>, lo: nat, hi: nat) returns (value: nat)
    requires lo <= hi <= |scale| && (forall p :: lo <= p < hi ==> scale[p] >= 0.0) && RealSum(scale, lo, hi) < 1.0
    ensures !MissesLittle(scale, value, lo, hi)
  {
    value := EnoughValue(RealSum(scale, lo, hi), hi - lo);
    DistanceShareSum(scale, value, lo, hi, hi - lo);
    ShareMisses(ShareSum(DistanceShare(scale), value, lo, hi, hi - lo), value, RealSum(scale, lo, hi), hi - lo);
  }

  /** Where a level is truncated, some value misses as much as there are parts. */
  lemma {:induction false} TruncationLoss(c: Settings, dis: seq<nat>, scale: seq<real>, lo: nat, hi: nat)
    returns (value: nat)
    requires c.Valid() && lo < hi <= |dis| == |scale| && RowScaled(c, dis, scale, lo, hi)
    requires !Full(c, Ranked(dis[lo..hi]))
    ensures !MissesLittle(scale, value, lo, hi)
  {
    RowNotNegative(c, dis, scale, lo, hi);
    RowScaleSums(c, dis, scale, lo, hi);
    value := LargeLoss(scale, lo, hi);
  }

  /** The parts of a row always miss less than one each if and only if no level is truncated. */
  lemma {:induction false} DistanceLossExact(c: Settings, dis: seq<nat>, scale: seq<real>, lo: nat, hi: nat)
    requires c.Valid() && lo < hi <= |dis| == |scale| && RowScaled(c, dis, scale, lo, hi)
    ensures (forall value: nat :: MissesLittle(scale, value, lo, hi)) <==> Full(c, Ranked(dis[lo..hi]))
  {
    if Full(c, Ranked(dis[lo..hi])) {
      forall value: nat ensures MissesLittle(scale, value, lo, hi) {
        DistanceLoss(c, dis, scale, value, lo, hi);
      }
    } else {
      var value := TruncationLoss(c, dis, scale, lo, hi);
    }
  }

  /**
   Splitting by distance and reducing back never increases a value, and loses less than the number of
   parts where no level is truncated.
   */
  lemma {:induction false} DistanceRoundTrip(c: Settings, dis: seq<nat>, scale: seq<real>, values: seq<nat>,
                                             at: seq<nat>, blank: seq<nat>, after: seq<nat>, i: nat)
    requires Rising(at) && |at| == |values| + 1 && RowsScaled(c, dis, scale, at, |values|)
    requires |blank| == |after| && at[|values|] <= |after| && i < |values| &&
             forall p :: 0 <= p < |blank| ==> blank[p] == 0
    requires IsSplit(DistanceShare(scale), SplitAdd, blank, after, values, at, |values|)
    ensures RowAt(c, dis, scale, at, i) && at[i + 1] <= |after| && RangeSum(after, at[i], at[i + 1]) <= values[i]
    ensures Full(c, Ranked(dis[at[i]..at[i + 1]])) ==>
              values[i] < RangeSum(after, at[i], at[i + 1]) + (at[i + 1] - at[i])
  {
    DistanceIsFrugal(c, dis, scale, values, at);
    SplitRoundTrip(DistanceShare(scale), values, at, blank, after, i);
    assert RowAt(c, dis, scale, at, i);
    ReduceSplitRow(DistanceShare(scale), blank, after, values, at, i, at[i + 1]);
    ZeroSum(blank, at[i], at[i + 1]);
    if Full(c, Ranked(dis[at[i]..at[i + 1]])) { DistanceLoss(c, dis, scale, values[i], at[i], at[i + 1]); }
  }
}
