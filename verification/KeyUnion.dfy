/**
 The common key axis of several chunks: the sorted, duplicate-free union of their boundaries, and the
 place of each chunk's own boundaries in it.
 */
module KeyUnion {
  import opened Keys
  import opened Cuts
  import opened Focus

  predicate Ascending(keys: seq<Key>) {
    forall i, j :: 0 <= i < j < |keys| ==> Less(keys[i], keys[j])
  }

  function InsertKey(key: Key, keys: seq<Key>): seq<Key> {
    if keys == [] || Less(key, keys[0]) then [key] + keys else [keys[0]] + InsertKey(key, keys[1..])
  }

  lemma {:induction false} InsertKeeps(key: Key, keys: seq<Key>)
    requires Ascending(keys) && key !in keys
    ensures Ascending(InsertKey(key, keys)) && |InsertKey(key, keys)| == |keys| + 1
    ensures forall k :: k in InsertKey(key, keys) <==> k == key || k in keys
  {
    if keys == [] {
    } else if Less(key, keys[0]) {
      forall j | 0 <= j < |keys| ensures Less(key, keys[j]) {
        if j > 0 { LessTransitive(key, keys[0], keys[j]); }
      }
    } else {
      LessTotal(key, keys[0]);
      InsertKeeps(key, keys[1..]);
      var r := InsertKey(key, keys[1..]);
      forall k | k in r ensures Less(keys[0], k) {}
    }
  }

  /** `MakeKeys`: the keys of a set, sorted. */
  method MakeKeys(keySet: set<Key>) returns (keys: seq<Key>)
    ensures Ascending(keys) && |keys| == |keySet| && forall k :: k in keys <==> k in keySet
  {
    keys := [];
    var left := keySet;
    while left != {}
      invariant left <= keySet && Ascending(keys) && |keys| + |left| == |keySet|
      invariant forall k :: k in keys <==> k in keySet && k !in left
      decreases left
    {
      var key :| key in left;
      InsertKeeps(key, keys);
      keys := InsertKey(key, keys);
      left := left - {key};
    }
  }

  ghost function BoundsOf(keys: seq<Key>): set<Bound> {
    set i | 0 <= i < |keys| :: BoundAt(keys, i)
  }

  /** The boundaries of all chunks. */
  ghost function AllBounds(chunks: seq<Chunk>): set<Bound> {
    if chunks == [] then {} else AllBounds(chunks[..|chunks| - 1]) + BoundsOf(chunks[|chunks| - 1].keys)
  }

  /** Collect the boundaries of one chunk. */
  method CollectKeys(keys: seq<Key>, keySet: set<Key>, unlimited: bool) returns (newSet: set<Key>, newUnlimited: bool)
    requires ValidKeys(keys)
    ensures forall k :: k in newSet <==> k in keySet || Fin(k) in BoundsOf(keys)
    ensures newUnlimited <==> unlimited || Inf in BoundsOf(keys)
  {
    var end := |keys| - 1;
    newSet, newUnlimited := keySet, unlimited;
    if keys[end] == [] {
      newUnlimited := true;
    } else {
      newSet := newSet + {keys[end]};
    }
    ghost var last := newSet;
    for i := 0 to end
      invariant forall k :: k in newSet <==> k in last || exists j :: 0 <= j < i && keys[j] == k
    {
      newSet := newSet + {keys[i]};
    }
    assert BoundAt(keys, end) in BoundsOf(keys);
    forall k ensures k in newSet <==> k in keySet || Fin(k) in BoundsOf(keys) {
      if j :| 0 <= j < end && keys[j] == k { assert BoundAt(keys, j) == Fin(k); }
    }
  }

  lemma {:induction false} FirstBounds(chunks: seq<Chunk>)
    requires chunks != [] && chunks[0].Valid()
    ensures BoundAt(chunks[0].keys, 0) in AllBounds(chunks) && BoundAt(chunks[0].keys, 1) in AllBounds(chunks)
    decreases |chunks|
  {
    if |chunks| > 1 { FirstBounds(chunks[..|chunks| - 1]); }
  }

  /** The sorted finite boundaries, and the unlimited end if there is one, form a valid key axis. */
  lemma {:induction false} AxisOfBounds(keys: seq<Key>, bounds: set<Bound>, a: Bound, b: Bound)
    requires Ascending(keys) && forall k :: k in keys <==> Fin(k) in bounds
    requires a in bounds && b in bounds && Below(a, b)
    ensures var r := if Inf in bounds then keys + [[]] else keys;
            ValidKeys(r) && BoundsOf(r) == bounds
  {
    var r := if Inf in bounds then keys + [[]] else keys;
    BelowAsymmetric(a, b);
    assert a.key in keys && (b.Fin? ==> b.key in keys);
    assert |r| >= 2;
    if Inf !in bounds {
      assert Less(keys[0], keys[|keys| - 1]);
    }
    assert forall i :: 0 <= i < |r| ==> BoundAt(r, i) == if i < |keys| then Fin(keys[i]) else Inf;
    forall x | x in bounds ensures x in BoundsOf(r) {
      if x.Inf? {
        assert BoundAt(r, |keys|) == x;
      } else {
        assert x.key in keys;
        var i :| 0 <= i < |keys| && keys[i] == x.key;
        assert BoundAt(r, i) == x;
      }
    }
  }

  /** The key axis of the compact chunk has exactly the boundaries of the chunks. */
  method CompactKeys(chunks: seq<Chunk>) returns (keys: seq<Key>)
    requires chunks != [] && forall i :: 0 <= i < |chunks| ==> chunks[i].Valid()
    ensures ValidKeys(keys) && BoundsOf(keys) == AllBounds(chunks)
  {
    var keySet: set<Key>, unlimitedEnd := {}, false;
    for i := 0 to |chunks|
      invariant forall k :: k in keySet <==> Fin(k) in AllBounds(chunks[..i])
      invariant unlimitedEnd <==> Inf in AllBounds(chunks[..i])
    {
      assert chunks[..i + 1][..i] == chunks[..i];
      keySet, unlimitedEnd := CollectKeys(chunks[i].keys, keySet, unlimitedEnd);
    }
    assert chunks[..|chunks|] == chunks;
    keys := MakeKeys(keySet);
    FirstBounds(chunks);
    assert chunks[0].Valid();
    ghost var first := chunks[0].keys;
    AxisOfBounds(keys, AllBounds(chunks), BoundAt(first, 0), BoundAt(first, 0 + 1));
    if unlimitedEnd {
      keys := keys + [[]];
    }
  }

  // ---------- the boundaries of one axis within another ----------

  /** Boundary j of `src` stands at at[j] of `dst`. */
  ghost predicate Embeds(dst: seq<Key>, src: seq<Key>, at: seq<nat>) {
    && |at| == |src| && Rising(at)
    && forall j :: 0 <= j < |src| ==> at[j] < |dst| && BoundAt(dst, at[j]) == BoundAt(src, j)
  }

  /** An axis whose boundaries are all in another one embeds into it. */
  lemma {:induction false} EmbeddingExists(dst: seq<Key>, src: seq<Key>) returns (at: seq<nat>)
    requires ValidKeys(dst) && ValidKeys(src) && BoundsOf(src) <= BoundsOf(dst)
    ensures Embeds(dst, src, at)
  {
    at := [];
    while |at| < |src|
      invariant |at| <= |src|
      invariant forall j :: 0 <= j < |at| ==> at[j] < |dst| && BoundAt(dst, at[j]) == BoundAt(src, j)
    {
      assert BoundAt(src, |at|) in BoundsOf(src);
      var p :| 0 <= p < |dst| && BoundAt(dst, p) == BoundAt(src, |at|);
      at := at + [p];
    }
    forall i, j | 0 <= i < j < |at| ensures at[i] < at[j] {
      ValidKeysAscend(src, i, j);
      BelowAsymmetric(BoundAt(src, i), BoundAt(src, j));
      if at[j] < at[i] { ValidKeysAscend(dst, at[j], at[i]); }
    }
  }

  lemma {:induction false} ChunkWithin(chunks: seq<Chunk>, i: nat)
    requires i < |chunks|
    ensures BoundsOf(chunks[i].keys) <= AllBounds(chunks)
    decreases |chunks|
  {
    if i < |chunks| - 1 { ChunkWithin(chunks[..|chunks| - 1], i); }
  }

  /** Raw strings agree with boundaries from the first boundary on, up to the matching one. */
  lemma {:induction false} RawMatch(dst: seq<Key>, src: seq<Key>, at: seq<nat>, j: nat, e: nat)
    requires ValidKeys(dst) && ValidKeys(src) && Embeds(dst, src, at) && j < |src|
    requires e <= at[j] && (j > 0 ==> e > 0)
    ensures dst[e] == src[j] <==> e == at[j]
  {
    if e < at[j] {
      if e > 0 { InnerKeyNonEmpty(dst, e); }
      if dst[e] == src[j] {
        assert BoundAt(dst, e) == BoundAt(src, j);
        BoundsDistinct(dst, e, at[j]);
      }
    }
  }

  /** Scan forward to a boundary of the embedded axis. */
  method FindKey(dst: seq<Key>, src: seq<Key>, j: nat, from: nat, ghost at: seq<nat>) returns (e: nat)
    requires ValidKeys(dst) && ValidKeys(src) && Embeds(dst, src, at) && j < |src|
    requires from <= at[j] && (j > 0 ==> from > 0)
    ensures e == at[j]
  {
    e := from;
    RawMatch(dst, src, at, j, e);
    while dst[e] != src[j]
      invariant from <= e <= at[j]
      invariant dst[e] == src[j] <==> e == at[j]
      decreases at[j] - e
    {
      e := e + 1;
      RawMatch(dst, src, at, j, e);
    }
  }
}
