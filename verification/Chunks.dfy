/**
 The operations of a chunk (one column of an axis): `Reduce`, `GetFocusRows`, `Focus`,
 `MergeColdLogicalRange` and `Divide`, each proved against the partition it picks, and the bound on
 the number of rows `Divide` returns.
 */
module Chunks {
  import opened Basics
  import opened Keys
  import opened Cuts
  import opened Focus
  import opened ColdRanges

  datatype FocusMode = NotMergeLogicalRange | MergeColdLogicalRange

  /** The check made before reducing; the source panics where it fails. */
  predicate CheckReduceOf(src: seq<Key>, part: seq<Key>)
    requires |src| >= 1 && |part| >= 1
  {
    src[0] == part[0] && src[|src| - 1] == part[|part| - 1] && |src| >= |part|
  }

  /**
   `Reduce` sums the rows onto sparser keys: for the keys a partition picks, it returns exactly the
   row sums of that partition. The scan compares raw strings, and is right because inner boundaries
   are never `""`.
   */
  method Reduce(c: Chunk, newKeys: seq<Key>, ghost cuts: seq<nat>) returns (r: Chunk)
    requires c.Valid() && IsCuts(cuts, |c.values|)
    requires newKeys == Coarsen(c, cuts).keys
    ensures CheckReduceOf(c.keys, newKeys)
    ensures newKeys[0] == c.keys[0] && newKeys[|newKeys| - 1] == c.keys[|c.keys| - 1] && |newKeys| <= |c.keys|
    ensures r == Coarsen(c, cuts)
  {
    CutsNeverAddRows(cuts, |c.values|);
    ghost var goal := Coarsen(c, cuts);
    if |c.keys| == |newKeys| {
      FinestCoarsening(c, cuts);
      return Chunk(newKeys, c.values);
    }
    var newValues: seq<nat> := seq(|newKeys| - 1, _ => 0);
    var j := 0;
    for i := 0 to |c.values|
      invariant 0 <= j < |newKeys| - 1 == |newValues|
      invariant cuts[j] <= i <= cuts[j + 1]
      invariant i > 0 ==> cuts[j] < i
      invariant forall k :: 0 <= k < j ==> newValues[k] == goal.values[k]
      invariant newValues[j] == RangeSum(c.values, cuts[j], i)
      invariant forall k :: j < k < |newValues| ==> newValues[k] == 0
    {
      if i > 0 && c.keys[i] == newKeys[j + 1] {
        RawKeysDistinct(c.keys, i, cuts[j + 1]);
        j := j + 1;
        assert j + 1 < |cuts|;
      }
      assert i < cuts[j + 1];
      newValues := newValues[j := newValues[j] + c.values[i]];
    }
    assert cuts[j + 1] == |c.values| && j + 1 == |cuts| - 1;
    assert newValues == goal.values;
    r := Chunk(newKeys, newValues);
  }

  /** Keeping all boundaries changes nothing. */
  lemma {:induction false} FinestCoarsening(c: Chunk, cuts: seq<nat>)
    requires c.Sized() && IsCuts(cuts, |c.values|) && |cuts| == |c.keys|
    ensures Coarsen(c, cuts).values == c.values
  {
    FinestCuts(cuts, |c.values|);
    CutsNeverAddRows(cuts, |c.values|);
    forall i | 0 <= i < |c.values| ensures c.values[i] == Coarsen(c, cuts).values[i] {
      RangeSumOne(c.values, i);
    }
  }

  lemma {:induction false} RangeSumOne(v: seq<nat>, i: nat)
    requires i < |v|
    ensures RangeSum(v, i, i + 1) == v[i]
  {
    assert RangeSum(v, i, i + 1) == RangeSum(v, i, i) + v[i];
  }

  /** A partition with as many parts as rows keeps every boundary. */
  lemma {:induction false} FinestCuts(cuts: seq<nat>, n: nat)
    requires IsCuts(cuts, n) && |cuts| == n + 1
    ensures forall i :: 0 <= i <= n ==> cuts[i] == i
  {
    forall i | 0 <= i <= n ensures cuts[i] == i {
      RisingGrows(cuts, i);
      RisingToEnd(cuts, i);
    }
  }

  /** `GetFocusRows` counts the buckets a threshold alone would make. */
  method GetFocusRows(values: seq<nat>, threshold: nat) returns (count: nat)
    ensures count == FocusRows(values, threshold)
  {
    ghost var rule := Plain(values, threshold);
    var start := 0;
    var bucketSum := 0;
    count := 0;
    for i := 0 to |values|
      invariant 0 <= start <= i && (start == i ==> i == 0)
      invariant bucketSum == RangeSum(values, start, i)
      invariant count + |Ends(rule, i, start)| == FocusRows(values, threshold)
    {
      if values[i] >= threshold || bucketSum >= threshold {
        if i > start {
          count := count + 1;
          start := i;
          bucketSum := 0;
        }
      }
      bucketSum := bucketSum + values[i];
    }
    if |values| > start {
      count := count + 1;
    }
  }

  /** The keys and values put out so far, for the boundaries kept so far. */
  ghost predicate Built(c: Chunk, done: seq<nat>, keys: seq<Key>, values: seq<nat>) {
    && c.Sized() && Rising(done) && |keys| == |done| == |values| + 1
    && (forall k :: 0 <= k < |done| ==> done[k] <= |c.values| && keys[k] == c.keys[done[k]])
    && (forall k {:trigger values[k]} :: 0 <= k < |values| ==> values[k] == RangeSum(c.values, done[k], done[k + 1]))
  }

  lemma {:induction false} PutBucket(c: Chunk, done: seq<nat>, keys: seq<Key>, values: seq<nat>, end: nat)
    requires Built(c, done, keys, values) && done[|done| - 1] < end <= |c.values|
    ensures Built(c, done + [end], keys + [c.keys[end]], values + [RangeSum(c.values, done[|done| - 1], end)])
  {
  }

  lemma {:induction false} BuiltAll(c: Chunk, done: seq<nat>, keys: seq<Key>, values: seq<nat>)
    requires Built(c, done, keys, values) && done[0] == 0 && done[|done| - 1] == |c.values|
    ensures IsCuts(done, |c.values|) && Chunk(keys, values) == Coarsen(c, done)
  {
    var r := Coarsen(c, done);
    assert keys == r.keys && values == r.values;
  }

  /** The first pass of `Focus` keeps the boundaries of its rule. */
  method FocusPass(c: Chunk, border: Border, threshold: nat, ratio: int) returns (r: Chunk)
    requires c.Sized()
    ensures IsCuts(RuleCuts(Full(c.values, threshold, c.keys, ratio, border)), |c.values|)
    ensures r == Coarsen(c, RuleCuts(Full(c.values, threshold, c.keys, ratio, border)))
  {
    ghost var rule := Full(c.values, threshold, c.keys, ratio, border);
    ghost var done: seq<nat> := [0];
    var newKeys: seq<Key>, newValues: seq<nat> := [c.keys[0]], [];
    var start, bucketSum := 0, 0;
    for i := 0 to |c.values|
      invariant 0 <= start <= i && (start == i ==> i == 0)
      invariant bucketSum == RangeSum(c.values, start, i)
      invariant Built(c, done, newKeys, newValues) && done[0] == 0 && done[|done| - 1] == start
      invariant done + Ends(rule, i, start) == RuleCuts(rule)
    {
      var value := c.values[i];
      if value >= threshold || bucketSum >= threshold || i - start >= ratio || border(c.keys[start], c.keys[i]) {
        if i > start {
          PutBucket(c, done, newKeys, newValues, i);
          assert done + Ends(rule, i, start) == done + [i] + Ends(rule, i + 1, i);
          newKeys := newKeys + [c.keys[i]];
          newValues := newValues + [bucketSum];
          done := done + [i];
          start, bucketSum := i, 0;
        }
      }
      bucketSum := bucketSum + value;
    }
    var n := |c.values|;
    if n > start {
      PutBucket(c, done, newKeys, newValues, n);
      newKeys := newKeys + [c.keys[n]];
      newValues := newValues + [bucketSum];
      done := done + [n];
      assert done == RuleCuts(rule);
    }
    BuiltAll(c, done, newKeys, newValues);
    r := Chunk(newKeys, newValues);
  }

  /** The output so far of the cold-range merge: the boundaries `done`, and where it stands. */
  datatype Progress = Progress(newKeys: seq<Key>, newValues: seq<nat>, coldStart: nat, coldEnd: nat, coldRangeSum: nat)

  ghost predicate Tracks(m: Merge, p: Progress, done: seq<nat>)
    requires m.Valid()
  {
    && p.coldStart <= p.coldEnd <= m.N()
    && p.coldRangeSum == m.Sum(p.coldStart, p.coldEnd)
    && Built(m.chunk, done, p.newKeys, p.newValues) && done[0] == 0 && done[|done| - 1] == p.coldStart
  }

  lemma {:induction false} PutRows(c: Chunk, done: seq<nat>, keys: seq<Key>, values: seq<nat>, end: nat)
    requires Built(c, done, keys, values) && done[|done| - 1] <= end <= |c.values|
    ensures var from := done[|done| - 1];
            Built(c, done + RowEnds(from, end), keys + c.keys[from + 1..end + 1], values + c.values[from..end])
  {
    var from := done[|done| - 1];
    var p := |done| - 1;
    var d, vs := done + RowEnds(from, end), values + c.values[from..end];
    assert forall k :: p <= k < |d| ==> d[k] == from + (k - p);
    forall k | p <= k < |vs| ensures vs[k] == RangeSum(c.values, d[k], d[k + 1]) {
      RangeSumOne(c.values, d[k]);
    }
  }

  /** `mergeColdRange`: the pending cold rows go out as one bucket. */
  function MergePending(c: Chunk, p: Progress): Progress
    requires p.coldEnd < |c.keys|
  {
    if p.coldEnd <= p.coldStart then p
    else Progress(p.newKeys + [c.keys[p.coldEnd]], p.newValues + [p.coldRangeSum], p.coldEnd, p.coldEnd, 0)
  }

  /** A hot range goes out row by row. */
  function Hot(c: Chunk, q: Progress, end: nat): Progress
    requires c.Sized() && q.coldEnd <= end <= |c.values|
  {
    Progress(q.newKeys + c.keys[q.coldEnd + 1..end + 1], q.newValues + c.values[q.coldEnd..end],
             end, end, q.coldRangeSum)
  }

  /** A cold range joins the pending rows. */
  function Cold(q: Progress, end: nat, rangeSum: nat): Progress {
    Progress(q.newKeys, q.newValues, q.coldStart, end, q.coldRangeSum + rangeSum)
  }

  /** `generateRange`: the logical range [coldEnd, end) is met. */
  function MeetRange(c: Chunk, limit: nat, p: Progress, end: nat): Progress
    requires c.Sized() && p.coldEnd < end <= |c.values|
  {
    var rangeSum := RangeSum(c.values, p.coldEnd, end);
    var q := if p.coldRangeSum > limit || rangeSum > limit then MergePending(c, p) else p;
    if rangeSum > limit then Hot(c, q, end) else Cold(q, end, rangeSum)
  }

  function Generated(c: Chunk, limit: nat, p: Progress, end: nat): Progress
    requires c.Sized() && end <= |c.values|
  {
    if end <= p.coldEnd then p else MeetRange(c, limit, p, end)
  }

  method GenerateRange(c: Chunk, limit: nat, p: Progress, end: nat) returns (q: Progress)
    requires c.Sized() && end <= |c.values|
    ensures q == Generated(c, limit, p, end)
  {
    if end <= p.coldEnd {
      return p;
    }
    var rangeSum := 0;
    for i := p.coldEnd to end
      invariant rangeSum == RangeSum(c.values, p.coldEnd, i)
    {
      rangeSum := rangeSum + c.values[i];
    }
    q := p;
    if q.coldRangeSum > limit || rangeSum > limit {
      q := MergePending(c, q);
    }
    if rangeSum > limit {
      q := Hot(c, q, end);
    } else {
      q := Cold(q, end, rangeSum);
    }
  }

  lemma {:induction false} PendingTracks(m: Merge, p: Progress, done: seq<nat>)
    requires m.Valid() && Tracks(m, p, done)
    ensures Tracks(m, MergePending(m.chunk, p), if p.coldStart < p.coldEnd then done + [p.coldEnd] else done)
    ensures MergePending(m.chunk, p).coldStart == MergePending(m.chunk, p).coldEnd == p.coldEnd
  {
    if p.coldStart < p.coldEnd { PutBucket(m.chunk, done, p.newKeys, p.newValues, p.coldEnd); }
  }

  lemma {:induction false} HotTracks(m: Merge, q: Progress, end: nat, done: seq<nat>)
    requires m.Valid() && Tracks(m, q, done) && q.coldStart == q.coldEnd < end <= m.N()
    ensures Tracks(m, Hot(m.chunk, q, end), done + RowEnds(q.coldEnd, end))
  {
    PutRows(m.chunk, done, q.newKeys, q.newValues, end);
  }

  lemma {:induction false} ColdTracks(m: Merge, q: Progress, end: nat, done: seq<nat>)
    requires m.Valid() && Tracks(m, q, done) && q.coldEnd < end <= m.N()
    ensures Tracks(m, Cold(q, end, m.Sum(q.coldEnd, end)), done)
  {
    RangeSumSplit(m.chunk.values, q.coldStart, q.coldEnd, end);
  }

  /** After a range is met, `out` is put out and the progress is q. */
  ghost predicate Met(m: Merge, p: Progress, end: nat, q: Progress, out: seq<nat>)
    requires m.Valid() && p.coldStart <= p.coldEnd <= end <= m.N()
  {
    Tracks(m, q, out) && q.coldEnd == end && q.coldStart == NextStart(m, p.coldStart, p.coldEnd, end)
  }

  /** A hot range: the pending rows go out, then its own rows. */
  lemma {:induction false} MeetHot(m: Merge, p: Progress, end: nat, done: seq<nat>)
    requires m.Valid() && Tracks(m, p, done) && p.coldEnd < end <= m.N() && m.Sum(p.coldEnd, end) > m.limit
    ensures Met(m, p, end, Hot(m.chunk, MergePending(m.chunk, p), end), done + Emitted(m, p.coldStart, p.coldEnd, end))
  {
    var merged := if p.coldStart < p.coldEnd then done + [p.coldEnd] else done;
    assert done + Emitted(m, p.coldStart, p.coldEnd, end) == merged + RowEnds(p.coldEnd, end);
    PendingTracks(m, p, done);
    HotTracks(m, MergePending(m.chunk, p), end, merged);
  }

  /** A cold range after enough cold rows: these go out. */
  lemma {:induction false} MeetFull(m: Merge, p: Progress, end: nat, done: seq<nat>)
    requires m.Valid() && Tracks(m, p, done) && p.coldEnd < end <= m.N()
    requires m.Sum(p.coldEnd, end) <= m.limit && p.coldRangeSum > m.limit
    ensures Met(m, p, end, Cold(MergePending(m.chunk, p), end, m.Sum(p.coldEnd, end)),
                done + Emitted(m, p.coldStart, p.coldEnd, end))
  {
    var merged := if p.coldStart < p.coldEnd then done + [p.coldEnd] else done;
    assert done + Emitted(m, p.coldStart, p.coldEnd, end) == merged;
    PendingTracks(m, p, done);
    ColdTracks(m, MergePending(m.chunk, p), end, merged);
  }

  /** A cold range that joins the pending rows. */
  lemma {:induction false} MeetCold(m: Merge, p: Progress, end: nat, done: seq<nat>)
    requires m.Valid() && Tracks(m, p, done) && p.coldEnd < end <= m.N()
    requires m.Sum(p.coldEnd, end) <= m.limit && p.coldRangeSum <= m.limit
    ensures Met(m, p, end, Cold(p, end, m.Sum(p.coldEnd, end)), done + Emitted(m, p.coldStart, p.coldEnd, end))
  {
    assert done + Emitted(m, p.coldStart, p.coldEnd, end) == done;
    ColdTracks(m, p, end, done);
  }

  /** Meeting a range puts out the boundaries the partition keeps. */
  lemma {:induction false} MeetTracks(m: Merge, p: Progress, end: nat, done: seq<nat>)
    requires m.Valid() && Tracks(m, p, done) && p.coldEnd < end <= m.N()
    ensures Met(m, p, end, MeetRange(m.chunk, m.limit, p, end), done + Emitted(m, p.coldStart, p.coldEnd, end))
  {
    if m.Sum(p.coldEnd, end) > m.limit {
      MeetHot(m, p, end, done);
    } else if p.coldRangeSum > m.limit {
      MeetFull(m, p, end, done);
    } else {
      MeetCold(m, p, end, done);
    }
  }

  /** Before row i, with the boundaries `done` put out. */
  ghost predicate At(m: Merge, i: nat, p: Progress, done: seq<nat>) {
    && m.Valid() && i <= m.N() && Tracks(m, p, done) && p.coldEnd <= i
    && done + MergeEnds(m, i, p.coldStart, p.coldEnd) == MergeCuts(m)
  }

  lemma {:induction false} AtStart(m: Merge)
    requires m.Valid()
    ensures At(m, 0, Progress([m.chunk.keys[0]], [], 0, 0, 0), [0])
  {
  }

  lemma {:induction false} AtBorder(m: Merge, i: nat, p: Progress, done: seq<nat>)
    requires At(m, i, p, done) && i < m.N() && m.border(m.chunk.keys[i], m.chunk.keys[i + 1])
    ensures At(m, i + 1, Generated(m.chunk, m.limit, p, i + 1), done + Emitted(m, p.coldStart, p.coldEnd, i + 1))
  {
    MeetTracks(m, p, i + 1, done);
    var e, s := Emitted(m, p.coldStart, p.coldEnd, i + 1), NextStart(m, p.coldStart, p.coldEnd, i + 1);
    assert done + (e + MergeEnds(m, i + 1, s, i + 1)) == done + e + MergeEnds(m, i + 1, s, i + 1);
  }

  lemma {:induction false} AtInside(m: Merge, i: nat, p: Progress, done: seq<nat>)
    requires At(m, i, p, done) && i < m.N() && !m.border(m.chunk.keys[i], m.chunk.keys[i + 1])
    ensures At(m, i + 1, p, done)
  {
  }

  lemma {:induction false} Finish(m: Merge, q: Progress, done: seq<nat>)
    requires m.Valid() && Tracks(m, q, done) && q.coldEnd == m.N()
    ensures var last := done + if q.coldStart < m.N() then [m.N()] else [];
            var r := MergePending(m.chunk, q);
            IsCuts(last, m.N()) && Chunk(r.newKeys, r.newValues) == Coarsen(m.chunk, last)
  {
    PendingTracks(m, q, done);
    var r := MergePending(m.chunk, q);
    if q.coldStart < m.N() {
      BuiltAll(m.chunk, done + [m.N()], r.newKeys, r.newValues);
    } else {
      assert done + [] == done;
      BuiltAll(m.chunk, done, r.newKeys, r.newValues);
    }
  }

  /** The last range has been met. */
  lemma {:induction false} AtEndMet(m: Merge, p: Progress, done: seq<nat>)
    requires At(m, m.N(), p, done) && p.coldEnd == m.N()
    ensures var q := MergePending(m.chunk, p);
            IsCuts(MergeCuts(m), m.N()) && Chunk(q.newKeys, q.newValues) == Coarsen(m.chunk, MergeCuts(m))
  {
    var n := m.N();
    Finish(m, p, done);
    assert MergeEnds(m, n, p.coldStart, p.coldEnd) == [] + if p.coldStart < n then [n] else [];
    assert done + (if p.coldStart < n then [n] else []) == MergeCuts(m);
  }

  /** The last range is still to be met. */
  lemma {:induction false} AtEndOpen(m: Merge, p: Progress, done: seq<nat>)
    requires At(m, m.N(), p, done) && p.coldEnd < m.N()
    ensures var q := MergePending(m.chunk, MeetRange(m.chunk, m.limit, p, m.N()));
            IsCuts(MergeCuts(m), m.N()) && Chunk(q.newKeys, q.newValues) == Coarsen(m.chunk, MergeCuts(m))
  {
    var n := m.N();
    MeetTracks(m, p, n, done);
    var e, s := Emitted(m, p.coldStart, p.coldEnd, n), NextStart(m, p.coldStart, p.coldEnd, n);
    var last := if s < n then [n] else [];
    Finish(m, MeetRange(m.chunk, m.limit, p, n), done + e);
    assert MergeCuts(m) == done + (e + last) == done + e + last;
  }

  lemma {:induction false} AtEnd(m: Merge, p: Progress, done: seq<nat>)
    requires At(m, m.N(), p, done)
    ensures var q := MergePending(m.chunk, Generated(m.chunk, m.limit, p, m.N()));
            IsCuts(MergeCuts(m), m.N()) && Chunk(q.newKeys, q.newValues) == Coarsen(m.chunk, MergeCuts(m))
  {
    if p.coldEnd < m.N() { AtEndOpen(m, p, done); } else { AtEndMet(m, p, done); }
  }

  /** Row i: a logical range that ends with it is met. */
  method MeetRow(c: Chunk, border: Border, limit: nat, p: Progress, i: nat, ghost done: seq<nat>)
    returns (q: Progress, ghost out: seq<nat>)
    requires c.Sized() && i < |c.values| && At(Merge(c, border, limit), i, p, done)
    ensures At(Merge(c, border, limit), i + 1, q, out)
  {
    ghost var m := Merge(c, border, limit);
    if border(c.keys[i], c.keys[i + 1]) {
      AtBorder(m, i, p, done);
      out := done + Emitted(m, p.coldStart, p.coldEnd, i + 1);
      q := GenerateRange(c, limit, p, i + 1);
    } else {
      AtInside(m, i, p, done);
      q, out := p, done;
    }
  }

  /** Every logical range that ends at a border is met. */
  method MeetRanges(c: Chunk, border: Border, limit: nat) returns (p: Progress, ghost done: seq<nat>)
    requires c.Sized()
    ensures At(Merge(c, border, limit), |c.values|, p, done)
  {
    done := [0];
    p := Progress([c.keys[0]], [], 0, 0, 0);
    AtStart(Merge(c, border, limit));
    for i := 0 to |c.values|
      invariant At(Merge(c, border, limit), i, p, done)
    {
      p, done := MeetRow(c, border, limit, p, i, done);
    }
  }

  /** `MergeColdLogicalRange` keeps the boundaries of its partition. */
  method MergeCold(c: Chunk, border: Border, threshold: nat) returns (r: Chunk)
    requires c.Sized()
    ensures IsCuts(MergeCuts(Merge(c, border, threshold / 4)), |c.values|)
    ensures r == Coarsen(c, MergeCuts(Merge(c, border, threshold / 4)))
  {
    var limit := threshold / 4;
    var p;
    ghost var done;
    p, done := MeetRanges(c, border, limit);
    AtEnd(Merge(c, border, limit), p, done);
    p := GenerateRange(c, limit, p, |c.values|);
    p := MergePending(c, p);
    r := Chunk(p.newKeys, p.newValues);
  }

  // ---------- Focus ----------

  /** The boundaries `Focus` keeps. */
  function FocusCuts(c: Chunk, border: Border, threshold: nat, ratio: int, target: nat,
                     mode: FocusMode): (cuts: seq<nat>)
    requires c.Sized()
    ensures IsCuts(cuts, |c.values|)
  {
    var rule := Full(c.values, threshold, c.keys, ratio, border);
    var first := RuleCuts(rule);
    RuleCutsAreCuts(rule);
    if mode == MergeColdLogicalRange && RowsOf(first) >= target then
      var m := Merge(Coarsen(c, first), border, threshold / 4);
      MergeCutsAreGood(m);
      CoarsenTwice(c.keys, c.values, first, MergeCuts(m));
      Compose(first, MergeCuts(m))
    else first
  }

  /**
   Without merging of cold ranges, a bucket `Focus` makes of two or more rows holds only rows below the
   threshold, totals less than twice the threshold, spans at most `ratio` rows, and none of its rows
   starts across a border from its first key.
   */
  lemma {:induction false} FocusBuckets(c: Chunk, border: Border, threshold: nat, ratio: int, target: nat, k: nat)
    requires c.Sized() && k < RowsOf(FocusCuts(c, border, threshold, ratio, target, NotMergeLogicalRange))
    ensures var cuts := FocusCuts(c, border, threshold, ratio, target, NotMergeLogicalRange);
            var a, b := cuts[k], cuts[k + 1];
            && a < b <= |c.values|
            && (a + 1 < b ==>
                  && (forall j :: a <= j < b ==> c.values[j] < threshold)
                  && RangeSum(c.values, a, b) < 2 * threshold && b - a <= ratio
                  && (forall j :: a < j < b ==> !border(c.keys[a], c.keys[j])))
  {
    RuleBucketsAreCold(Full(c.values, threshold, c.keys, ratio, border), k);
  }

  /** Without merging, `Focus` keeps the boundaries of the one partition of the rows into finished buckets. */
  lemma {:induction false} FocusExactly(c: Chunk, border: Border, threshold: nat, ratio: int, target: nat,
                                        cuts: seq<nat>)
    requires c.Sized() && IsCuts(cuts, |c.values|)
    ensures cuts == FocusCuts(c, border, threshold, ratio, target, NotMergeLogicalRange) <==>
            AllBuckets(Full(c.values, threshold, c.keys, ratio, border), cuts)
  {
    OnlyBuckets(Full(c.values, threshold, c.keys, ratio, border), cuts);
  }

  /**
   With merging, `Focus` keeps these boundaries where they make fewer rows than the target. Otherwise it
   keeps those of the one good partition of these rows, with a quarter of the threshold as the limit.
   */
  lemma {:induction false} FocusMerges(c: Chunk, border: Border, threshold: nat, ratio: int, target: nat,
                                       first: seq<nat>, merged: seq<nat>)
    requires c.Sized() && IsCuts(first, |c.values|) && IsCuts(merged, RowsOf(first))
    requires AllBuckets(Full(c.values, threshold, c.keys, ratio, border), first)
    ensures var cuts := FocusCuts(c, border, threshold, ratio, target, MergeColdLogicalRange);
            && (RowsOf(first) < target ==> cuts == first)
            && (RowsOf(first) >= target && Good(Merge(Coarsen(c, first), border, threshold / 4), merged) ==>
                  |cuts| == |merged| &&
                  forall k :: 0 <= k < |merged| ==> merged[k] < |first| && cuts[k] == first[merged[k]])
  {
    OnlyBuckets(Full(c.values, threshold, c.keys, ratio, border), first);
    OnlyGood(Merge(Coarsen(c, first), border, threshold / 4), merged);
    CutsNeverAddRows(merged, RowsOf(first));
  }

  /** `Focus` equals `Reduce` onto the keys it keeps, in both modes. */
  method FocusChunk(c: Chunk, border: Border, threshold: nat, ratio: int, target: nat, mode: FocusMode)
    returns (r: Chunk)
    requires c.Sized()
    ensures r == Coarsen(c, FocusCuts(c, border, threshold, ratio, target, mode))
  {
    var first := FocusPass(c, border, threshold, ratio);
    r := first;
    if mode == MergeColdLogicalRange && |first.values| >= target {
      r := MergeCold(first, border, threshold);
      ghost var cuts := RuleCuts(Full(c.values, threshold, c.keys, ratio, border));
      CoarsenTwice(c.keys, c.values, cuts, MergeCuts(Merge(first, border, threshold / 4)));
    }
  }

  // ---------- Divide ----------

  function FocusLimit(target: nat): nat {
    target * 2 / 3
  }

  /** The threshold by linear search: the least one from `from` on that leaves few enough rows. */
  function LeastThreshold(values: seq<nat>, limit: nat, from: nat): (t: nat)
    requires from <= Total(values) + 1
    ensures from <= t <= Total(values) + 1
    ensures FocusRows(values, t) <= limit || t == Total(values) + 1
    ensures forall u :: from <= u < t ==> FocusRows(values, u) > limit
    decreases Total(values) + 1 - from
  {
    if from == Total(values) + 1 || FocusRows(values, from) <= limit then from
    else LeastThreshold(values, limit, from + 1)
  }

  function Threshold(values: seq<nat>, target: nat): nat {
    LeastThreshold(values, FocusLimit(target), 1)
  }

  /** The threshold is the least one that leaves at most two thirds of the target, or one above the total. */
  lemma {:induction false} ThresholdExactly(values: seq<nat>, target: nat, t: nat)
    requires 1 <= t <= Total(values) + 1
    ensures t == Threshold(values, target) <==>
            && (FocusRows(values, t) <= target * 2 / 3 || t == Total(values) + 1)
            && forall u :: 1 <= u < t ==> FocusRows(values, u) > target * 2 / 3
  {
    var least := Threshold(values, target);
    if t < least { assert FocusRows(values, t) > target * 2 / 3; }
  }

  /** The divisor in the ratio: the rows the estimate leaves free. */
  function FreeRows(values: seq<nat>, target: nat): int {
    target - FocusRows(values, Threshold(values, target))
  }

  /** With a target of two or more, the threshold meets its row limit and rows are left free. */
  lemma {:induction false} FreeRowsPositive(values: seq<nat>, target: nat)
    requires target >= 2 && |values| >= 1
    ensures 1 <= FocusRows(values, Threshold(values, target)) <= FocusLimit(target)
    ensures FreeRows(values, target) >= 1
  {
    FocusRowsBounds(values, Threshold(values, target));
  }

  /** The division by the free rows fails exactly for target 1. */
  lemma {:induction false} DivideFailsOnlyAtOne(values: seq<nat>, target: nat)
    requires target < |values|
    ensures FreeRows(values, target) == 0 <==> target == 1
  {
    FocusRowsBounds(values, Threshold(values, target));
    if target >= 2 { FreeRowsPositive(values, target); }
  }

  function Ratio(values: seq<nat>, target: nat): int
    requires target < |values| && target != 1
  {
    DivideFailsOnlyAtOne(values, target);
    |values| / FreeRows(values, target) + 1
  }

  /** The ratio is the least one of which the free rows take more than all rows. */
  lemma {:induction false} RatioExactly(values: seq<nat>, target: nat, ratio: int)
    requires 2 <= target < |values|
    ensures var free := target - FocusRows(values, Threshold(values, target));
            free >= 1 && (ratio == Ratio(values, target) <==> (ratio - 1) * free <= |values| < ratio * free)
  {
    FreeRowsPositive(values, target);
    QuotientExactly(|values|, FreeRows(values, target), ratio - 1);
  }

  lemma {:induction false} QuotientExactly(n: nat, d: nat, q: int)
    requires d >= 1
    ensures q == n / d <==> q * d <= n < (q + 1) * d
  {
    var p := n / d;
    assert n == p * d + n % d;
    assert (q + 1) * d == q * d + d && (p + 1) * d == p * d + d;
    if q < p { assert (q + 1) * d <= p * d by { MulGrows(q + 1, p, d); } }
    if q > p { assert (p + 1) * d <= q * d by { MulGrows(p + 1, q, d); } }
  }

  lemma {:induction false} MulGrows(a: int, b: int, d: nat)
    requires a <= b
    ensures a * d <= b * d
  {
  }

  /** The boundaries `Divide` keeps. */
  function DivideCuts(c: Chunk, border: Border, target: nat, mode: FocusMode): (cuts: seq<nat>)
    requires c.Sized() && target != 1 && target < |c.values|
    ensures IsCuts(cuts, |c.values|)
  {
    FocusCuts(c, border, Threshold(c.values, target), Ratio(c.values, target), target, mode)
  }

  /** They are those of `Focus` for the least threshold that leaves few enough rows and the ratio that goes with it. */
  lemma {:induction false} DivideExactly(c: Chunk, border: Border, target: nat, mode: FocusMode, t: nat, ratio: int)
    requires c.Sized() && 2 <= target < |c.values| && 1 <= t <= Total(c.values) + 1
    requires FocusRows(c.values, t) <= target * 2 / 3 || t == Total(c.values) + 1
    requires forall u :: 1 <= u < t ==> FocusRows(c.values, u) > target * 2 / 3
    requires var free := target - FocusRows(c.values, t); (ratio - 1) * free <= |c.values| < ratio * free
    ensures DivideCuts(c, border, target, mode) == FocusCuts(c, border, t, ratio, target, mode)
  {
    ThresholdExactly(c.values, target, t);
    RatioExactly(c.values, target, ratio);
  }

  /**
   The binary search of `Divide` finds the same threshold as the linear search, because the estimate
   does not increase with the threshold; below 2^63 its midpoint sum does not overflow 64 bits.
   */
  method FindThreshold(values: seq<nat>, target: nat) returns (threshold: nat)
    requires Total(values) < TWO_TO_63
    ensures threshold == Threshold(values, target)
  {
    var upper := 1;
    for i := 0 to |values|
      invariant upper == 1 + RangeSum(values, 0, i)
    {
      upper := upper + values[i];
    }
    var lower := 1;
    var limit := FocusLimit(target);
    while lower < upper
      invariant 1 <= lower <= upper <= Total(values) + 1
      invariant forall u :: 1 <= u < lower ==> FocusRows(values, u) > limit
      invariant upper <= Total(values) ==> FocusRows(values, upper) <= limit
    {
      assert lower + upper < TWO_TO_64;
      var mid := (lower + upper) / 2;
      var rows := GetFocusRows(values, mid);
      if rows > limit {
        forall u | 1 <= u <= mid ensures FocusRows(values, u) > limit {
          FocusRowsAntitone(values, u, mid);
        }
        lower := mid + 1;
      } else {
        upper := mid;
      }
    }
    threshold := lower;
    assert threshold == Threshold(values, target);
  }

  /** `Divide` returns the chunk itself, or its coarsening onto the boundaries it keeps. */
  method Divide(c: Chunk, border: Border, target: nat, mode: FocusMode) returns (r: Chunk)
    requires c.Sized() && target != 1 && Total(c.values) < TWO_TO_63
    ensures target >= |c.values| ==> r == c
    ensures target < |c.values| ==> r == Coarsen(c, DivideCuts(c, border, target, mode))
  {
    if target >= |c.values| {
      return c;
    }
    var threshold := FindThreshold(c.values, target);
    var focusRows := GetFocusRows(c.values, threshold);
    DivideFailsOnlyAtOne(c.values, target);
    assert target - focusRows == FreeRows(c.values, target);
    var ratio := |c.values| / (target - focusRows) + 1;
    assert ratio == Ratio(c.values, target);
    r := FocusChunk(c, border, threshold, ratio, target, mode);
  }

  lemma {:induction false} DivisionStep(n: nat, d: nat, k: nat)
    requires d >= 1 && k * (n / d + 1) <= n
    ensures k < d
  {
    var q := n / d + 1;
    assert d * q == d * (n / d) + d > n;
    assert k >= d ==> k * q >= d * q;
  }

  /** Ratio cuts are fewer than the rows left free. */
  lemma {:induction false} FewRatioCuts(c: Chunk, border: Border, target: nat)
    requires c.Sized() && 2 <= target < |c.values|
    ensures var rule := Full(c.values, Threshold(c.values, target), c.keys, Ratio(c.values, target), border);
            RatioCuts(rule, 1, 0) < FreeRows(c.values, target)
  {
    FreeRowsPositive(c.values, target);
    var free := FreeRows(c.values, target);
    var rule := Full(c.values, Threshold(c.values, target), c.keys, Ratio(c.values, target), border);
    assert |c.values| / free >= 0;
    RatioCutsAreSpaced(rule, 1, 0);
    DivisionStep(|c.values|, free, RatioCuts(rule, 1, 0));
  }

  /**
   The row bound: for a labeler whose logical ranges are the classes of an equivalence, `Divide`
   returns at most target - 1 rows plus the changes of logical range between adjacent rows, in
   either mode.
   */
  lemma {:induction false} DivideRowBound(c: Chunk, border: Border, target: nat, mode: FocusMode)
    requires c.Sized() && 2 <= target < |c.values| && IsClassBorder(border)
    ensures RowsOf(DivideCuts(c, border, target, mode)) <=
            target - 1 + Changes(border, c.keys, 1, |c.values|)
  {
    var threshold, ratio := Threshold(c.values, target), Ratio(c.values, target);
    var rule := Full(c.values, threshold, c.keys, ratio, border);
    FewRatioCuts(c, border, target);
    ExtraCutsCostOneRow(rule, 1, 0);
    BorderCutsAreChanges(rule, 1, 0);
    var first := RuleCuts(rule);
    assert RowsOf(first) == |Ends(rule, 1, 0)|;
    RuleCutsAreCuts(rule);
    if mode == MergeColdLogicalRange && RowsOf(first) >= target {
      var m := Merge(Coarsen(c, first), border, threshold / 4);
      MergeCutsAreGood(m);
      CutsNeverAddRows(MergeCuts(m), RowsOf(first));
    }
  }

  lemma {:induction false} NoChanges(border: Border, keys: seq<Key>, i: nat, n: nat)
    requires 0 < i <= n <= |keys| && forall a: Key, b: Key :: !border(a, b)
    ensures Changes(border, keys, i, n) == 0
    decreases n - i
  {
    if i < n { NoChanges(border, keys, i + 1, n); }
  }

  /** With a labeler that never reports a border, `Divide` returns fewer rows than the target. */
  lemma {:induction false} DivideBelowTarget(c: Chunk, border: Border, target: nat, mode: FocusMode)
    requires c.Sized() && 2 <= target < |c.values|
    requires forall a: Key, b: Key :: !border(a, b)
    ensures RowsOf(DivideCuts(c, border, target, mode)) < target
  {
    DivideRowBound(c, border, target, mode);
    NoChanges(border, c.keys, 1, |c.values|);
  }
}
