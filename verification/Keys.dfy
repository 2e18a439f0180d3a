/**
 Keys and key axes.

 A key is a byte string, compared lexicographically as Go compares strings. The boundaries of a key
 axis are strictly ascending, except that a last key `""` stands for plus infinity; the first key may
 be `""` as well, so the same string can stand at both ends with two meanings. `Bound` gives each
 boundary its meaning.
 */
module Keys {

  type Byte = x: int | 0 <= x < 256
  type Key = seq<Byte>

  /** Lexicographic order, of byte strings and of the code points of any string. */
  predicate Less(a: seq<int>, b: seq<int>)
    decreases |a|
  {
    b != [] && (a == [] || a[0] < b[0] || (a[0] == b[0] && Less(a[1..], b[1..])))
  }

  predicate LessEq(a: Key, b: Key) {
    a == b || Less(a, b)
  }

  lemma {:induction false} LessIrreflexive(a: seq<int>)
    ensures !Less(a, a)
    decreases |a|
  {
    if a != [] { LessIrreflexive(a[1..]); }
  }

  lemma {:induction false} LessTransitive(a: seq<int>, b: seq<int>, c: seq<int>)
    requires Less(a, b) && Less(b, c)
    ensures Less(a, c)
    decreases |a|
  {
    if a != [] && a[0] == b[0] == c[0] { LessTransitive(a[1..], b[1..], c[1..]); }
  }

  lemma {:induction false} LessTotal(a: seq<int>, b: seq<int>)
    ensures Less(a, b) || a == b || Less(b, a)
    decreases |a|
  {
    if a != [] && b != [] && a[0] == b[0] {
      LessTotal(a[1..], b[1..]);
      assert a[1..] == b[1..] ==> a == [a[0]] + a[1..] == b;
    }
  }

  /** The order is asymmetric: at most one of the three relations holds. */
  lemma {:induction false} LessAsymmetric(a: seq<int>, b: seq<int>)
    requires Less(a, b)
    ensures a != b && !Less(b, a)
  {
    LessIrreflexive(a);
    if Less(b, a) { LessTransitive(a, b, a); }
  }

  /** The strings agree before position n, where the first one ends or has the smaller element. */
  predicate DiffersAt(a: seq<int>, b: seq<int>, n: nat) {
    n <= |a| && n < |b| && a[..n] == b[..n] && (n == |a| || a[n] < b[n])
  }

  /** The order is lexicographic: the first difference decides, and a prefix comes first. */
  lemma {:induction false} LessMeans(a: seq<int>, b: seq<int>)
    ensures Less(a, b) <==> exists n: nat :: DiffersAt(a, b, n)
    decreases |a|
  {
    if a == [] {
      assert b != [] ==> DiffersAt(a, b, 0);
    } else if b != [] {
      LessMeans(a[1..], b[1..]);
      if a[0] < b[0] { assert DiffersAt(a, b, 0); }
      if n: nat :| a[0] == b[0] && DiffersAt(a[1..], b[1..], n) {
        assert a[..n + 1] == [a[0]] + a[1..][..n] && b[..n + 1] == [b[0]] + b[1..][..n];
        assert DiffersAt(a, b, n + 1);
      }
      if n: nat :| DiffersAt(a, b, n) && n > 0 {
        assert a[1..][..n - 1] == a[..n][1..] && b[1..][..n - 1] == b[..n][1..];
        assert a[..n][0] == a[0] && b[..n][0] == b[0];
        assert DiffersAt(a[1..], b[1..], n - 1);
      }
    }
  }

  /** What a boundary means: a key, or the unlimited end. */
  datatype Bound = Fin(key: Key) | Inf

  predicate Below(a: Bound, b: Bound) {
    a.Fin? && (b.Inf? || Less(a.key, b.key))
  }

  predicate AtMost(a: Bound, b: Bound) {
    a == b || Below(a, b)
  }

  lemma {:induction false} BelowTransitive(a: Bound, b: Bound, c: Bound)
    requires Below(a, b) && Below(b, c)
    ensures Below(a, c)
  {
    if c.Fin? { LessTransitive(a.key, b.key, c.key); }
  }

  lemma {:induction false} BelowTotal(a: Bound, b: Bound)
    ensures Below(a, b) || a == b || Below(b, a)
  {
    if a.Fin? && b.Fin? { LessTotal(a.key, b.key); }
  }

  lemma {:induction false} BelowAsymmetric(a: Bound, b: Bound)
    requires Below(a, b)
    ensures a != b && !Below(b, a)
  {
    if b.Fin? { LessAsymmetric(a.key, b.key); }
  }

  /** The meaning of an end key given by a caller: `""` is unlimited. */
  function EndBound(key: Key): Bound {
    if key == [] then Inf else Fin(key)
  }

  function BoundAt(keys: seq<Key>, i: nat): Bound
    requires i < |keys|
  {
    if i + 1 == |keys| then EndBound(keys[i]) else Fin(keys[i])
  }

  /** A well-formed key axis: at least one bucket, and ascending boundaries. */
  predicate ValidKeys(keys: seq<Key>) {
    && |keys| >= 2
    && forall i :: 0 <= i < |keys| - 1 ==> Below(BoundAt(keys, i), BoundAt(keys, i + 1))
  }

  lemma {:induction false} ValidKeysAscend(keys: seq<Key>, i: nat, j: nat)
    requires ValidKeys(keys) && i < j < |keys|
    ensures Below(BoundAt(keys, i), BoundAt(keys, j))
    decreases j - i
  {
    if i + 1 < j {
      ValidKeysAscend(keys, i, j - 1);
      assert Below(BoundAt(keys, j - 1), BoundAt(keys, j - 1 + 1));
      BelowTransitive(BoundAt(keys, i), BoundAt(keys, j - 1), BoundAt(keys, j));
    }
  }

  /** Boundaries of one axis are told apart by their meaning. */
  lemma {:induction false} BoundsDistinct(keys: seq<Key>, i: nat, j: nat)
    requires ValidKeys(keys) && i < |keys| && j < |keys|
    requires BoundAt(keys, i) == BoundAt(keys, j)
    ensures i == j
  {
    if i < j {
      ValidKeysAscend(keys, i, j);
      BelowAsymmetric(BoundAt(keys, i), BoundAt(keys, j));
    } else if j < i {
      ValidKeysAscend(keys, j, i);
      BelowAsymmetric(BoundAt(keys, j), BoundAt(keys, i));
    }
  }

  /** An inner boundary is never `""`, so it cannot be mistaken for either end. */
  lemma {:induction false} InnerKeyNonEmpty(keys: seq<Key>, i: nat)
    requires ValidKeys(keys) && 0 < i < |keys| - 1
    ensures keys[i] != []
  {
    ValidKeysAscend(keys, 0, i);
  }

  /** As raw strings, two boundaries agree only where they mean the same, except for `""` at both ends. */
  lemma {:induction false} RawKeysDistinct(keys: seq<Key>, i: nat, j: nat)
    requires ValidKeys(keys) && 0 < i < |keys| && 0 < j < |keys|
    requires keys[i] == keys[j]
    ensures i == j
  {
    if i < |keys| - 1 { InnerKeyNonEmpty(keys, i); }
    if j < |keys| - 1 { InnerKeyNonEmpty(keys, j); }
    assert BoundAt(keys, i) == BoundAt(keys, j);
    BoundsDistinct(keys, i, j);
  }

  /** Go's `sort.Search`: the least index where a monotone predicate turns true, or n. */
  method Search(n: nat, p: nat --> bool) returns (r: nat)
    requires forall i :: 0 <= i < n ==> p.requires(i)
    requires forall i, j :: 0 <= i <= j < n && p(i) ==> p(j)
    ensures r <= n
    ensures forall i :: 0 <= i < r ==> !p(i)
    ensures forall i :: r <= i < n ==> p(i)
  {
    var hi := n;
    r := 0;
    while r < hi
      invariant 0 <= r <= hi <= n
      invariant forall i :: 0 <= i < r ==> !p(i)
      invariant forall i :: hi <= i < n ==> p(i)
    {
      var h := (r + hi) / 2;
      if !p(h) { r := h + 1; } else { hi := h; }
    }
  }

  /** Bucket i of the axis has a key in common with [startKey, endKey). */
  predicate Intersects(keys: seq<Key>, i: nat, startKey: Key, endKey: Key)
    requires i + 1 < |keys|
  {
    && Below(BoundAt(keys, i), EndBound(endKey))
    && Below(Fin(startKey), BoundAt(keys, i + 1))
  }

  /** Why `Intersects` is the right test: it holds exactly when some key lies in both ranges. */
  lemma {:induction false} IntersectsMeans(keys: seq<Key>, i: nat, startKey: Key, endKey: Key)
    requires ValidKeys(keys) && i + 1 < |keys|
    requires Below(Fin(startKey), EndBound(endKey))
    ensures Intersects(keys, i, startKey, endKey) <==>
            exists k: Key ::
              && LessEq(keys[i], k) && Below(Fin(k), BoundAt(keys, i + 1))
              && LessEq(startKey, k) && Below(Fin(k), EndBound(endKey))
  {
    assert Below(BoundAt(keys, i), BoundAt(keys, i + 1));
    if Intersects(keys, i, startKey, endKey) {
      LessTotal(startKey, keys[i]);
      var k := if Less(startKey, keys[i]) then keys[i] else startKey;
      assert LessEq(keys[i], k) && LessEq(startKey, k);
    }
    forall k: Key |
      && LessEq(keys[i], k) && Below(Fin(k), BoundAt(keys, i + 1))
      && LessEq(startKey, k) && Below(Fin(k), EndBound(endKey))
      ensures Intersects(keys, i, startKey, endKey)
    {
      if keys[i] != k { BelowTransitive(Fin(keys[i]), Fin(k), EndBound(endKey)); }
      if startKey != k { BelowTransitive(Fin(startKey), Fin(k), BoundAt(keys, i + 1)); }
    }
  }

  lemma {:induction false} NotBelow(a: Bound, b: Bound, c: Bound)
    requires AtMost(a, b) && AtMost(b, c)
    ensures !Below(c, a)
  {
    if Below(c, a) {
      if a != b { BelowTransitive(c, a, b); }
      if b != c { BelowTransitive(c, b, c); }
      BelowAsymmetric(c, c);
    }
  }

  /** No bucket intersects a range that ends at or before the axis, or starts at or after it. */
  lemma {:induction false} NothingIntersects(keys: seq<Key>, i: nat, startKey: Key, endKey: Key)
    requires ValidKeys(keys) && i + 1 < |keys|
    requires || (endKey != [] && LessEq(endKey, keys[0]))
             || (keys[|keys| - 1] != [] && LessEq(keys[|keys| - 1], startKey))
    ensures !Intersects(keys, i, startKey, endKey)
  {
    var last := |keys| - 1;
    if i > 0 { ValidKeysAscend(keys, 0, i); }
    if i + 1 < last { ValidKeysAscend(keys, i + 1, last); }
    if endKey != [] && LessEq(endKey, keys[0]) {
      NotBelow(Fin(endKey), Fin(keys[0]), BoundAt(keys, i));
    } else {
      NotBelow(BoundAt(keys, i + 1), Fin(keys[last]), Fin(startKey));
    }
  }

  /** The finite boundaries: all of them, or all but an unlimited end. */
  function SortedLen(keys: seq<Key>): (n: nat)
    requires |keys| >= 2
    ensures |keys| - 1 <= n <= |keys|
  {
    if keys[|keys| - 1] == [] then |keys| - 1 else |keys|
  }

  /** Both search predicates are monotone on the finite boundaries. */
  lemma {:induction false} SearchMonotone(keys: seq<Key>, key: Key, i: nat, j: nat)
    requires ValidKeys(keys) && i <= j < SortedLen(keys)
    ensures Less(key, keys[i]) ==> Less(key, keys[j])
    ensures LessEq(key, keys[i]) ==> LessEq(key, keys[j])
  {
    if i < j {
      ValidKeysAscend(keys, i, j);
      if Less(key, keys[i]) { LessTransitive(key, keys[i], keys[j]); }
    }
  }

  /**
   `KeysRange` finds the buckets of an axis that intersect [startKey, endKey). When ok, the range
   [start, end) of boundaries holds at least one bucket, and its buckets are exactly the intersecting
   ones; when not ok there are none.
   */
  method KeysRange(keys: seq<Key>, startKey: Key, endKey: Key) returns (start: int, end: int, ok: bool)
    requires ValidKeys(keys)
    requires Below(Fin(startKey), EndBound(endKey))
    ensures ok <==> exists i :: 0 <= i < |keys| - 1 && Intersects(keys, i, startKey, endKey)
    ensures ok ==> 0 <= start && start + 2 <= end <= |keys|
    ensures ok ==> forall i :: 0 <= i < |keys| - 1 ==>
                     (start <= i < end - 1 <==> Intersects(keys, i, startKey, endKey))
    ensures !ok ==> start == -1 && end == -1
  {
    var last := |keys| - 1;
    if endKey != [] && LessEq(endKey, keys[0]) {
      forall i | 0 <= i < last ensures !Intersects(keys, i, startKey, endKey) {
        NothingIntersects(keys, i, startKey, endKey);
      }
      return -1, -1, false;
    }
    if keys[last] != [] && LessEq(keys[last], startKey) {
      forall i | 0 <= i < last ensures !Intersects(keys, i, startKey, endKey) {
        NothingIntersects(keys, i, startKey, endKey);
      }
      return -1, -1, false;
    }
    var sorted := SortedLen(keys);
    forall i, j | 0 <= i <= j < sorted
      ensures Less(startKey, keys[i]) ==> Less(startKey, keys[j])
      ensures LessEq(endKey, keys[i]) ==> LessEq(endKey, keys[j])
    {
      SearchMonotone(keys, startKey, i, j);
      SearchMonotone(keys, endKey, i, j);
    }
    var after := (i: nat) requires i < sorted => Less(startKey, keys[i]);
    var above := Search(sorted, after);
    assert forall i :: 0 <= i < sorted ==> (Less(startKey, keys[i]) <==> after(i));
    start := if above > 0 then above - 1 else above;
    end := |keys|;
    if endKey != [] {
      var notBefore := (i: nat) requires i < sorted => LessEq(endKey, keys[i]);
      end := Search(sorted, notBefore);
      assert forall i :: 0 <= i < sorted ==> (LessEq(endKey, keys[i]) <==> notBefore(i));
      if end < |keys| { end := end + 1; }
    }
    ok := true;
    RangeIsExact(keys, startKey, endKey, above, start, end);
  }

  /** The two search results delimit exactly the intersecting buckets. */
  lemma {:induction false} RangeIsExact(keys: seq<Key>, startKey: Key, endKey: Key, above: nat, start: nat, end: nat)
    requires ValidKeys(keys) && Below(Fin(startKey), EndBound(endKey))
    requires !(endKey != [] && LessEq(endKey, keys[0]))
    requires !(keys[|keys| - 1] != [] && LessEq(keys[|keys| - 1], startKey))
    requires above <= SortedLen(keys) && end <= |keys|
    requires start == if above > 0 then above - 1 else above
    requires forall i :: 0 <= i < SortedLen(keys) ==> (Less(startKey, keys[i]) <==> above <= i)
    requires if endKey == [] then end == |keys|
             else forall i :: 0 <= i < |keys| - 1 ==> (LessEq(endKey, keys[i]) <==> end - 1 <= i)
    ensures start + 2 <= end
    ensures forall i :: 0 <= i < |keys| - 1 ==>
                     (start <= i < end - 1 <==> Intersects(keys, i, startKey, endKey))
    ensures Intersects(keys, start, startKey, endKey)
  {
    var last := |keys| - 1;
    assert above <= last by { if keys[last] != [] { LessTotal(startKey, keys[last]); } }
    assert end >= 2;
    forall i | 0 <= i < last
      ensures start <= i < end - 1 <==> Intersects(keys, i, startKey, endKey)
    {
      assert start <= i <==> Below(Fin(startKey), BoundAt(keys, i + 1)) by {
        assert above <= i + 1 <==> start <= i;
      }
      if endKey != [] {
        LessTotal(endKey, keys[i]);
        if Less(keys[i], endKey) { LessAsymmetric(keys[i], endKey); }
      }
    }
    if endKey != [] {
      if above > 0 {
        assert !Less(startKey, keys[start]);
        LessTotal(startKey, keys[start]);
        NotBelow(Fin(keys[start]), Fin(startKey), Fin(startKey));
        if LessEq(endKey, keys[start]) {
          NotBelow(Fin(endKey), Fin(keys[start]), Fin(startKey));
        }
      }
    }
  }
}
