/**
 The distance of every compact key from every axis: how many axes away the nearest axis is that has
 the key as a boundary. Two passes over the axes compute it in place, column by column.
 */
module Distance {
  import opened Basics
  import opened Keys
  import opened Focus
  import opened KeyUnion

  /** Axis i has the compact key p; `ats` gives the positions of each axis's own keys. */
  predicate Has(ats: seq<seq<nat>>, i: nat, p: nat)
    requires i < |ats|
  {
    p in ats[i]
  }

  function Apart(i: nat, j: nat): nat { if i < j then j - i else i - j }

  /** After the left pass. */
  function LeftDis(ats: seq<seq<nat>>, i: nat, p: nat): nat
    requires i < |ats|
    decreases i
  {
    if Has(ats, i, p) then 0 else (if i == 0 then |ats| else LeftDis(ats, i - 1, p)) + 1
  }

  /** After both passes. */
  function BothDis(ats: seq<seq<nat>>, i: nat, p: nat): nat
    requires i < |ats|
    decreases |ats| - i
  {
    if Has(ats, i, p) then 0
    else Min(LeftDis(ats, i, p), (if i == |ats| - 1 then |ats| else BothDis(ats, i + 1, p)) + 1)
  }

  /** The left pass finds the nearest axis at or before i, or knows that there is none. */
  lemma {:induction false} LeftNearest(ats: seq<seq<nat>>, i: nat, p: nat)
    requires i < |ats|
    ensures forall j :: 0 <= j <= i && Has(ats, j, p) ==> LeftDis(ats, i, p) <= i - j
    ensures || (exists j :: 0 <= j <= i && Has(ats, j, p) && LeftDis(ats, i, p) == i - j)
            || ((forall j :: 0 <= j <= i ==> !Has(ats, j, p)) && LeftDis(ats, i, p) == |ats| + i + 1)
    decreases i
  {
    if Has(ats, i, p) {
      assert LeftDis(ats, i, p) == i - i;
    } else if i > 0 {
      LeftNearest(ats, i - 1, p);
      if j :| 0 <= j <= i - 1 && Has(ats, j, p) && LeftDis(ats, i - 1, p) == i - 1 - j {
        assert LeftDis(ats, i, p) == i - j;
      }
    }
  }

  /**
   Both passes together compute the true distance to the nearest axis with the key; the virtual
   columns beyond the ends never win.
   */
  lemma {:induction false} BothNearest(ats: seq<seq<nat>>, i: nat, p: nat)
    requires i < |ats| && exists j :: 0 <= j < |ats| && Has(ats, j, p)
    ensures forall j :: 0 <= j < |ats| && Has(ats, j, p) ==> BothDis(ats, i, p) <= Apart(i, j)
    ensures exists j :: 0 <= j < |ats| && Has(ats, j, p) && BothDis(ats, i, p) == Apart(i, j)
    decreases |ats| - i
  {
    LeftNearest(ats, i, p);
    if Has(ats, i, p) {
      assert BothDis(ats, i, p) == Apart(i, i);
    } else if i == |ats| - 1 {
      var j :| 0 <= j <= i && Has(ats, j, p) && LeftDis(ats, i, p) == i - j;
      assert BothDis(ats, i, p) == Apart(i, j);
    } else {
      BothNearest(ats, i + 1, p);
      var k :| 0 <= k < |ats| && Has(ats, k, p) && BothDis(ats, i + 1, p) == Apart(i + 1, k);
      forall j | 0 <= j < |ats| && Has(ats, j, p) ensures BothDis(ats, i, p) <= Apart(i, j) {
        if j > i { assert BothDis(ats, i + 1, p) <= Apart(i + 1, j); }
      }
      if k > i {
        assert BothDis(ats, i + 1, p) + 1 == Apart(i, k);
      }
      if j :| 0 <= j <= i && Has(ats, j, p) && LeftDis(ats, i, p) == i - j {
        assert LeftDis(ats, i, p) == Apart(i, j);
      }
    }
  }

  /** d is the distance of axis i from the nearest axis that has the key. */
  ghost predicate IsNearest(ats: seq<seq<nat>>, i: nat, p: nat, d: nat) {
    && (forall j :: 0 <= j < |ats| && Has(ats, j, p) ==> d <= Apart(i, j))
    && (exists j :: 0 <= j < |ats| && Has(ats, j, p) && d == Apart(i, j))
  }

  /** The merge scan of one pass: it meets the boundaries of the axis in turn. */
  lemma {:induction false} ScanMeets(compactKeys: seq<Key>, keys: seq<Key>, at: seq<nat>, i: nat, j: nat)
    requires ValidKeys(compactKeys) && ValidKeys(keys) && Embeds(compactKeys, keys, at)
    requires i < |compactKeys| && j <= |keys|
    requires (forall h :: 0 <= h < j ==> at[h] < i) && (j < |keys| ==> i <= at[j])
    ensures j < |keys| && compactKeys[i] == keys[j] <==> i in at
    ensures i in at ==> j < |keys| && at[j] == i
  {
    if j < |keys| {
      assert j > 0 ==> at[j - 1] < i;
      RawMatch(compactKeys, keys, at, j, i);
    }
    assert j < |keys| ==> forall g :: j < g < |at| ==> i < at[g];
    if i in at {
      var h :| 0 <= h < |at| && at[h] == i;
      assert h == j;
    }
  }

  /** `updateLeftDis`: zero where the axis has the key, else one more than the column to the left. */
  method UpdateLeftDis(dis: array<nat>, left: array<nat>, keys: seq<Key>, compactKeys: seq<Key>, ghost at: seq<nat>)
    requires ValidKeys(compactKeys) && ValidKeys(keys) && Embeds(compactKeys, keys, at)
    requires dis != left && dis.Length == left.Length == |compactKeys|
    modifies dis
    ensures forall p :: 0 <= p < dis.Length ==> dis[p] == if p in at then 0 else left[p] + 1
  {
    var j := 0;
    for i := 0 to dis.Length
      invariant 0 <= j <= |keys|
      invariant (forall h :: 0 <= h < j ==> at[h] < i) && (j < |keys| ==> i <= at[j])
      invariant forall p :: 0 <= p < i ==> dis[p] == if p in at then 0 else left[p] + 1
    {
      ScanMeets(compactKeys, keys, at, i, j);
      if j < |keys| && compactKeys[i] == keys[j] {
        dis[i] := 0;
        j := j + 1;
      } else {
        dis[i] := left[i] + 1;
      }
    }
  }

  /** `updateRightDis`: zero where the axis has the key, else no more than one over the right column. */
  method UpdateRightDis(dis: array<nat>, right: array<nat>, keys: seq<Key>, compactKeys: seq<Key>, ghost at: seq<nat>)
    requires ValidKeys(compactKeys) && ValidKeys(keys) && Embeds(compactKeys, keys, at)
    requires dis != right && dis.Length == right.Length == |compactKeys|
    modifies dis
    ensures forall p :: 0 <= p < dis.Length ==>
              dis[p] == if p in at then 0 else Min(old(dis[p]), right[p] + 1)
  {
    var j := 0;
    for i := 0 to dis.Length
      invariant 0 <= j <= |keys|
      invariant (forall h :: 0 <= h < j ==> at[h] < i) && (j < |keys| ==> i <= at[j])
      invariant forall p :: 0 <= p < i ==> dis[p] == if p in at then 0 else Min(old(dis[p]), right[p] + 1)
      invariant forall p :: i <= p < dis.Length ==> dis[p] == old(dis[p])
    {
      ScanMeets(compactKeys, keys, at, i, j);
      if j < |keys| && compactKeys[i] == keys[j] {
        dis[i] := 0;
        j := j + 1;
      } else {
        dis[i] := Min(dis[i], right[i] + 1);
      }
    }
  }

  /** Every chunk's keys stand in the compact keys at the given positions. */
  ghost predicate AllEmbed(compactKeys: seq<Key>, chunks: seq<Chunk>, ats: seq<seq<nat>>) {
    && ValidKeys(compactKeys) && |ats| == |chunks|
    && forall i :: 0 <= i < |chunks| ==> chunks[i].Valid() && Embeds(compactKeys, chunks[i].keys, ats[i])
  }

  lemma {:induction false} BoundHasChunk(chunks: seq<Chunk>, b: Bound) returns (i: nat, k: nat)
    requires b in AllBounds(chunks)
    ensures i < |chunks| && k < |chunks[i].keys| && BoundAt(chunks[i].keys, k) == b
    decreases |chunks|
  {
    var n := |chunks| - 1;
    if b in BoundsOf(chunks[n].keys) {
      i := n;
      k :| 0 <= k < |chunks[n].keys| && BoundAt(chunks[n].keys, k) == b;
    } else {
      i, k := BoundHasChunk(chunks[..n], b);
    }
  }

  /** Every key of the compact axis is a key of some axis. */
  lemma {:induction false} KeyHasAxis(compactKeys: seq<Key>, chunks: seq<Chunk>, ats: seq<seq<nat>>, p: nat)
    requires AllEmbed(compactKeys, chunks, ats) && BoundsOf(compactKeys) == AllBounds(chunks) && p < |compactKeys|
    ensures exists i :: 0 <= i < |ats| && Has(ats, i, p)
  {
    assert BoundAt(compactKeys, p) in BoundsOf(compactKeys);
    var i, k := BoundHasChunk(chunks, BoundAt(compactKeys, p));
    assert Embeds(compactKeys, chunks[i].keys, ats[i]);
    BoundsDistinct(compactKeys, ats[i][k], p);
    assert Has(ats, i, p);
  }

  /** What both passes give is the distance from the nearest axis with the key, for all n keys of all axes. */
  ghost predicate AllNearest(ats: seq<seq<nat>>, n: nat) {
    forall i: nat, p: nat :: i < |ats| && p < n ==> IsNearest(ats, i, p, BothDis(ats, i, p))
  }

  /** On the compact axis every distance is the true one; the virtual columns never win. */
  lemma {:induction false} PassesFindNearest(compactKeys: seq<Key>, chunks: seq<Chunk>, ats: seq<seq<nat>>)
    requires AllEmbed(compactKeys, chunks, ats) && BoundsOf(compactKeys) == AllBounds(chunks)
    ensures AllNearest(ats, |compactKeys|)
  {
    forall i: nat, p: nat | i < |ats| && p < |compactKeys| ensures IsNearest(ats, i, p, BothDis(ats, i, p)) {
      KeyHasAxis(compactKeys, chunks, ats, p);
      BothNearest(ats, i, p);
    }
  }

  /** Separate columns of the matrix. */
  ghost predicate Columns(dis: seq<array<nat>>, n: nat) {
    && (forall i :: 0 <= i < |dis| ==> dis[i].Length == n)
    && (forall i, j :: 0 <= i < j < |dis| ==> dis[i] != dis[j])
  }

  /** Column i as the left pass leaves it, and as both passes leave it. */
  ghost predicate IsLeft(column: seq<nat>, ats: seq<seq<nat>>, i: nat) {
    i < |ats| && forall p :: 0 <= p < |column| ==> column[p] == LeftDis(ats, i, p)
  }

  ghost predicate IsBoth(column: seq<nat>, ats: seq<seq<nat>>, i: nat) {
    i < |ats| && forall p :: 0 <= p < |column| ==> column[p] == BothDis(ats, i, p)
  }

  lemma {:induction false} LeftStep(column: seq<nat>, left: seq<nat>, ats: seq<seq<nat>>, i: nat)
    requires i < |ats| && |column| == |left|
    requires if i == 0 then forall p :: 0 <= p < |left| ==> left[p] == |ats| else IsLeft(left, ats, i - 1)
    requires forall p :: 0 <= p < |column| ==> column[p] == if p in ats[i] then 0 else left[p] + 1
    ensures IsLeft(column, ats, i)
  {
  }

  lemma {:induction false} RightStep(column: seq<nat>, before: seq<nat>, right: seq<nat>, ats: seq<seq<nat>>, i: nat)
    requires i < |ats| && |column| == |right| == |before| && IsLeft(before, ats, i)
    requires if i == |ats| - 1 then forall p :: 0 <= p < |right| ==> right[p] == |ats| else IsBoth(right, ats, i + 1)
    requires forall p :: 0 <= p < |column| ==> column[p] == if p in ats[i] then 0 else Min(before[p], right[p] + 1)
    ensures IsBoth(column, ats, i)
  {
  }

  /** The left pass. */
  method LeftPass(dis: seq<array<nat>>, virtualColumn: array<nat>, chunks: seq<Chunk>, compactKeys: seq<Key>,
                  ghost ats: seq<seq<nat>>)
    requires AllEmbed(compactKeys, chunks, ats) && |chunks| >= 1 && |dis| == |chunks|
    requires Columns(dis, |compactKeys|) && virtualColumn !in dis && virtualColumn.Length == |compactKeys|
    requires forall p :: 0 <= p < virtualColumn.Length ==> virtualColumn[p] == |chunks|
    modifies dis
    ensures forall i :: 0 <= i < |dis| ==> IsLeft(dis[i][..], ats, i)
  {
    for i := 0 to |dis|
      invariant forall h :: 0 <= h < i ==> IsLeft(dis[h][..], ats, h)
      invariant virtualColumn[..] == old(virtualColumn[..])
    {
      var left := if i == 0 then virtualColumn else dis[i - 1];
      UpdateLeftDis(dis[i], left, chunks[i].keys, compactKeys, ats[i]);
      LeftStep(dis[i][..], left[..], ats, i);
    }
  }

  /** The right pass, over what the left pass has left. */
  method RightPass(dis: seq<array<nat>>, virtualColumn: array<nat>, chunks: seq<Chunk>, compactKeys: seq<Key>,
                   ghost ats: seq<seq<nat>>)
    requires AllEmbed(compactKeys, chunks, ats) && |chunks| >= 1 && |dis| == |chunks|
    requires Columns(dis, |compactKeys|) && virtualColumn !in dis && virtualColumn.Length == |compactKeys|
    requires forall p :: 0 <= p < virtualColumn.Length ==> virtualColumn[p] == |chunks|
    requires forall i :: 0 <= i < |dis| ==> IsLeft(dis[i][..], ats, i)
    modifies dis
    ensures forall i :: 0 <= i < |dis| ==> IsBoth(dis[i][..], ats, i)
  {
    for i := |dis| downto 0
      invariant forall h :: i <= h < |dis| ==> IsBoth(dis[h][..], ats, h)
      invariant forall h :: 0 <= h < i ==> IsLeft(dis[h][..], ats, h)
      invariant virtualColumn[..] == old(virtualColumn[..])
    {
      ghost var before := dis[i][..];
      var right := if i == |dis| - 1 then virtualColumn else dis[i + 1];
      UpdateRightDis(dis[i], right, chunks[i].keys, compactKeys, ats[i]);
      RightStep(dis[i][..], before, right[..], ats, i);
    }
  }

  /** The key distance matrix of `NewSplitter`. */
  method DistanceMatrix(chunks: seq<Chunk>, compactKeys: seq<Key>,
                        ghost ats: seq<seq<nat>>)
    returns (dis: seq<array<nat>>)
    requires AllEmbed(compactKeys, chunks, ats) && |chunks| >= 1
    ensures |dis| == |chunks| && Columns(dis, |compactKeys|) && (forall i :: 0 <= i < |dis| ==> fresh(dis[i]))
    ensures forall i :: 0 <= i < |dis| ==> IsBoth(dis[i][..], ats, i)
    ensures BoundsOf(compactKeys) == AllBounds(chunks) ==>
              forall i, p :: 0 <= i < |dis| && 0 <= p < |compactKeys| ==> IsNearest(ats, i, p, dis[i][p])
  {
    dis := [];
    for i := 0 to |chunks|
      invariant |dis| == i && Columns(dis, |compactKeys|) && (forall h :: 0 <= h < i ==> fresh(dis[h]))
    {
      var column := new nat[|compactKeys|];
      dis := dis + [column];
    }
    var virtualColumn := new nat[|compactKeys|](_ => |chunks|);
    LeftPass(dis, virtualColumn, chunks, compactKeys, ats);
    RightPass(dis, virtualColumn, chunks, compactKeys, ats);
    if BoundsOf(compactKeys) == AllBounds(chunks) {
      PassesFindNearest(compactKeys, chunks, ats);
      forall i, p | 0 <= i < |dis| && 0 <= p < |compactKeys| ensures IsNearest(ats, i, p, dis[i][p]) {
        assert dis[i][..][p] == BothDis(ats, i, p);
      }
    }
  }

  /** A bucket is as far as the farther of its two boundaries. */
  function BucketDis(dis: seq<nat>, p: nat): nat
    requires 0 < p < |dis|
  {
    Max(dis[p], dis[p - 1])
  }

  /** `toBucketDis`, in place, with the largest bucket distance. */
  method ToBucketDis(dis: array<nat>) returns (maxDis: nat)
    modifies dis
    ensures forall p :: 0 < p < dis.Length ==> dis[p] == BucketDis(old(dis[..]), p) <= maxDis
    ensures forall p :: 0 < p < dis.Length ==>
              dis[p] == if old(dis[p - 1]) <= old(dis[p]) then old(dis[p]) else old(dis[p - 1])
    ensures maxDis == 0 || exists p :: 0 < p < dis.Length && dis[p] == maxDis
  {
    maxDis := 0;
    var i := dis.Length - 1;
    while i > 0
      invariant i < dis.Length
      invariant forall p :: 0 < p < dis.Length && i < p ==> dis[p] == BucketDis(old(dis[..]), p) <= maxDis
      invariant forall p :: 0 <= p <= i ==> dis[p] == old(dis[p])
      invariant maxDis == 0 || exists p :: 0 < p < dis.Length && i < p && dis[p] == maxDis
    {
      dis[i] := Max(dis[i], dis[i - 1]);
      maxDis := Max(maxDis, dis[i]);
      i := i - 1;
    }
  }
}
