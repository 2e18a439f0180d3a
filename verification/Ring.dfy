/**
 The contents of a ring buffer, on values: `times` and `axes` are the two arrays of a layer, `head`
 the position of the oldest sample.
 */
module Ring {
  import opened Layers
  import Keys

  lemma {:induction false} ModWraps(x: nat, n: nat)
    requires x < 2 * n
    ensures x % n == if x < n then x else x - n
  {
    var q, r := x / n, x % n;
    assert x == q * n + r && 0 <= r < n;
    assert q >= 2 ==> q * n >= 2 * n;
  }

  /** The position of sample i; the code computes it as (head + i) % len. */
  function Slot(head: nat, len: nat, i: nat): (j: nat)
    requires head < len && i <= len
    ensures j < len
  {
    if head + i < len then head + i else head + i - len
  }

  lemma {:induction false} SlotIsMod(head: nat, len: nat, i: nat)
    requires head < len && i <= len
    ensures Slot(head, len, i) == (head + i) % len
  {
    ModWraps(head + i, len);
  }

  /** The n oldest samples, oldest first. */
  function Held<A>(times: seq<int>, axes: seq<A>, head: nat, n: nat): seq<Sample<A>>
    requires |times| == |axes| && head < |times| && n <= |times|
  {
    seq(n, i requires 0 <= i < n => Sample(times[Slot(head, |times|, i)], axes[Slot(head, |times|, i)]))
  }

  /** Moving the head on, and clearing what it leaves behind, drops the oldest sample. */
  lemma {:induction false} HeadMoved<A>(times: seq<int>, axes: seq<A>, head: nat, n: nat, blank: A)
    requires |times| == |axes| && head < |times| && 0 < n <= |times|
    ensures Held(times, axes[head := blank], Slot(head, |times|, 1), n - 1) == Held(times, axes, head, n)[1..]
    ensures Held(times, axes, head, n)[0] == Sample(times[head], axes[head])
  {
    var s := Held(times, axes[head := blank], Slot(head, |times|, 1), n - 1);
    forall i | 0 <= i < n - 1 ensures s[i] == Held(times, axes, head, n)[i + 1] {
      assert Slot(Slot(head, |times|, 1), |times|, i) == Slot(head, |times|, i + 1) != head;
    }
  }

  /** Writing at the tail adds a newest sample. */
  lemma {:induction false} TailWritten<A>(times: seq<int>, axes: seq<A>, head: nat, n: nat, x: Sample<A>)
    requires |times| == |axes| && head < |times| && n < |times|
    ensures var tail := Slot(head, |times|, n);
            Held(times[tail := x.time], axes[tail := x.axis], head, n + 1) == Held(times, axes, head, n) + [x]
  {
    var tail := Slot(head, |times|, n);
    var s := Held(times[tail := x.time], axes[tail := x.axis], head, n + 1);
    forall i | 0 <= i < n ensures s[i] == Held(times, axes, head, n)[i] {
      assert Slot(head, |times|, i) != tail;
    }
  }

  /** m elements from `start` on, read as one slice, or as two where they wrap. */
  function Wrapped<T>(v: seq<T>, start: nat, m: nat): (r: seq<T>)
    requires start < |v| && m <= |v|
    ensures |r| == m
    ensures forall i :: 0 <= i < m ==> r[i] == v[Slot(start, |v|, i)]
  {
    if start + m <= |v| then v[start..start + m] else v[start..|v|] + v[0..start + m - |v|]
  }

  /** A stretch of samples is such a piece of each array. */
  lemma {:induction false} HeldSlice<A>(times: seq<int>, axes: seq<A>, head: nat, n: nat, a: nat, b: nat)
    requires |times| == |axes| && head < |times| && n <= |times| && a < b <= n
    ensures TimesOf(Held(times, axes, head, n)[a..b]) == Wrapped(times, Slot(head, |times|, a), b - a)
    ensures AxesOf(Held(times, axes, head, n)[a..b]) == Wrapped(axes, Slot(head, |times|, a), b - a)
  {
    var len, start := |times|, Slot(head, |times|, a);
    var s := Held(times, axes, head, n)[a..b];
    var t, x := Wrapped(times, start, b - a), Wrapped(axes, start, b - a);
    forall i | 0 <= i < b - a ensures s[i] == Sample(t[i], x[i]) {
      assert Slot(head, len, a + i) == Slot(start, len, i);
    }
    assert TimesOf(s) == t && AxesOf(s) == x;
  }

  /** Binary search in a ring: the first sample later than t, or not earlier than t. */
  method SearchTimes<A>(times: seq<int>, head: nat, size: nat, t: int, later: bool, ghost s: seq<Sample<A>>)
    returns (r: nat)
    requires head < |times| && size <= |times| && |s| == size
    requires forall i :: 0 <= i < size ==> s[i].time == times[Slot(head, |times|, i)]
    requires forall i, j :: 0 <= i < j < size ==> s[i].time < s[j].time
    ensures r <= size
    ensures forall i :: 0 <= i < size ==> (r <= i <==> if later then s[i].time > t else s[i].time >= t)
  {
    forall i | 0 <= i < size ensures times[(head + i) % |times|] == s[i].time { SlotIsMod(head, |times|, i); }
    var p := (i: nat) requires i < size =>
      if later then times[(head + i) % |times|] > t else times[(head + i) % |times|] >= t;
    assert forall i :: 0 <= i < size ==> (p(i) <==> if later then s[i].time > t else s[i].time >= t);
    r := Keys.Search(size, p);
  }
}
