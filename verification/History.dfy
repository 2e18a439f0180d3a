/**
 What a run of appends leaves in the layers, in closed form.

 Let layer k have received the sequence s. Its oldest samples, a multiple of its step, are gone, and
 the rest is its ring; the next layer has received the compactions of consecutive groups of the gone
 samples. This determines every layer from the history alone.
 */
module History {
  import opened Layers

  /** Every layer has room, and all but the last pass on between one and all of their samples. */
  predicate ValidConfigs(confs: seq<LayerConfig>) {
    && confs != []
    && (forall k :: 0 <= k < |confs| ==> 1 <= confs[k].len)
    && (forall k :: 0 <= k < |confs| - 1 ==> 1 <= confs[k].ratio <= confs[k].len)
  }

  function ConfStep(confs: seq<LayerConfig>): nat
    requires confs != []
  {
    if |confs| == 1 then 1 else confs[0].ratio
  }

  /** How often a layer of `len` has given up `step` samples after receiving n. */
  function Pops(len: nat, step: nat, n: nat): nat
    requires step >= 1
  {
    if n <= len then 0 else (n - len + step - 1) / step
  }

  /** Occupancy: once it has been full, a layer holds between len-step+1 and len samples. */
  lemma {:induction false} Occupancy(len: nat, step: nat, n: nat)
    requires 1 <= step <= len
    ensures var q := Pops(len, step, n);
            && 0 <= q * step <= n && n - q * step <= len
            && (q > 0 ==> len - step < n - q * step)
  {
    if n > len {
      var m := n - len + step - 1;
      var q := m / step;
      assert m == q * step + m % step;
    }
  }

  lemma {:induction false} MulGap(p: nat, q: nat, step: nat)
    requires p < q
    ensures p * step + step <= q * step
  {
    assert q * step == (q - 1) * step + step;
    if p < q - 1 { MulGap(p, q - 1, step); }
  }

  /** The count of pops is the only one within the occupancy bounds. */
  lemma {:induction false} PopsUnique(len: nat, step: nat, n: nat, q: nat)
    requires 1 <= step <= len
    requires n - q * step <= len && (q > 0 ==> len - step < n - q * step)
    ensures q == Pops(len, step, n)
  {
    Occupancy(len, step, n);
    var p := Pops(len, step, n);
    if p < q { MulGap(p, q, step); }
    if q < p { MulGap(q, p, step); }
  }

  /** One more sample: a pop exactly when the layer is full. */
  lemma {:induction false} PopsNext(len: nat, step: nat, n: nat)
    requires 1 <= step <= len
    ensures var q := Pops(len, step, n);
            Pops(len, step, n + 1) == if n - q * step == len then q + 1 else q
  {
    Occupancy(len, step, n);
    var q := Pops(len, step, n);
    assert (q + 1) * step == q * step + step;
    PopsUnique(len, step, n + 1, if n - q * step == len then q + 1 else q);
  }

  /** The number of samples a layer has given up. */
  function Gone(len: nat, step: nat, n: nat): (g: nat)
    requires 1 <= step <= len
    ensures g <= n && n - g <= len && (g > 0 ==> len - step < n - g)
  {
    Occupancy(len, step, n);
    Pops(len, step, n) * step
  }

  lemma {:induction false} GoneNext(len: nat, step: nat, n: nat)
    requires 1 <= step <= len
    ensures var gone := Gone(len, step, n);
            Gone(len, step, n + 1) == if n - gone == len then gone + step else gone
  {
    PopsNext(len, step, n);
    assert (Pops(len, step, n) + 1) * step == Pops(len, step, n) * step + step;
  }

  lemma {:induction false} GroupBounds(r: nat, k: nat, n: nat)
    requires k >= 1 && k * r <= n
    ensures 0 <= (k - 1) * r <= k * r <= n && k * r - (k - 1) * r == r
  {
    assert k * r == (k - 1) * r + r;
  }

  /** The compactions of the first k groups of r consecutive samples. */
  function Groups<A>(f: Compaction<A>, s: seq<Sample<A>>, r: nat, k: nat): (g: seq<Sample<A>>)
    requires r >= 1 && k * r <= |s|
    ensures |g| == k
    decreases k
  {
    if k == 0 then []
    else
      GroupBounds(r, k, |s|);
      Groups(f, s, r, k - 1) + [Compacted(f, s[(k - 1) * r..k * r])]
  }

  /** The first layer once it has received s. */
  function Head<A>(conf: LayerConfig, step: nat, start: int, s: seq<Sample<A>>): Layer<A>
    requires 1 <= step <= conf.len
  {
    var gone := Gone(conf.len, step, |s|);
    Layer(conf, if gone == 0 then start else s[gone - 1].time, s[gone..])
  }

  /** What it has passed on. */
  function Passed<A>(f: Compaction<A>, conf: LayerConfig, step: nat, s: seq<Sample<A>>): seq<Sample<A>>
    requires 1 <= step <= conf.len
  {
    Occupancy(conf.len, step, |s|);
    Groups(f, s, step, Pops(conf.len, step, |s|))
  }

  /** The state of the layers `confs` once the first of them has received s. */
  function Closed<A>(f: Compaction<A>, confs: seq<LayerConfig>, start: int, s: seq<Sample<A>>): (c: Chain<A>)
    requires ValidConfigs(confs)
    ensures c.Length() == |confs| && Sized(c)
    decreases |confs|
  {
    var step := ConfStep(confs);
    var top := Head(confs[0], step, start, s);
    if |confs| == 1 then Last(top) else Link(top, Closed(f, confs[1..], start, Passed(f, confs[0], step, s)))
  }

  function Initial<A>(confs: seq<LayerConfig>, start: int): (c: Chain<A>)
    requires ValidConfigs(confs)
    ensures c.Length() == |confs| && Sized(c)
    decreases |confs|
  {
    var top := Layer(confs[0], start, []);
    if |confs| == 1 then Last(top) else Link(top, Initial(confs[1..], start))
  }

  /** A whole run: the samples of the history appended in order. */
  function Run<A>(f: Compaction<A>, confs: seq<LayerConfig>, start: int, history: seq<Sample<A>>): (c: Chain<A>)
    requires ValidConfigs(confs)
    ensures c.Length() == |confs| && Sized(c)
    decreases |history|
  {
    if history == [] then Initial(confs, start)
    else Append(f, Run(f, confs, start, history[..|history| - 1]), history[|history| - 1])
  }

  lemma {:induction false} ClosedEmpty<A>(f: Compaction<A>, confs: seq<LayerConfig>, start: int)
    requires ValidConfigs(confs)
    ensures Closed(f, confs, start, []) == Initial(confs, start)
    decreases |confs|
  {
    if |confs| > 1 { ClosedEmpty(f, confs[1..], start); }
  }

  /** Groups depend only on the samples they cover. */
  lemma {:induction false} GroupsLocal<A>(f: Compaction<A>, s: seq<Sample<A>>, t: seq<Sample<A>>, r: nat, k: nat)
    requires r >= 1 && k * r <= |s| && k * r <= |t| && s[..k * r] == t[..k * r]
    ensures Groups(f, s, r, k) == Groups(f, t, r, k)
    decreases k
  {
    if k > 0 {
      GroupBounds(r, k, |s|);
      var lo, hi := (k - 1) * r, k * r;
      assert s[lo..hi] == s[..hi][lo..] == t[..hi][lo..] == t[lo..hi];
      assert s[..lo] == s[..hi][..lo] == t[..hi][..lo] == t[..lo];
      GroupsLocal(f, s, t, r, k - 1);
    }
  }

  /** The next group of the samples already there. */
  lemma {:induction false} GroupsNext<A>(f: Compaction<A>, s: seq<Sample<A>>, x: Sample<A>, r: nat, k: nat)
    requires r >= 1 && k * r + r <= |s|
    ensures (k + 1) * r == k * r + r
    ensures Groups(f, s + [x], r, k) == Groups(f, s, r, k)
    ensures Groups(f, s + [x], r, k + 1) == Groups(f, s, r, k) + [Compacted(f, s[k * r..][..r])]
  {
    assert (k + 1) * r == k * r + r;
    assert s[..k * r] == (s + [x])[..k * r];
    GroupsLocal(f, s, s + [x], r, k);
    assert s[k * r..][..r] == (s + [x])[k * r..(k + 1) * r];
  }

  lemma {:induction false} HeadRing<A>(conf: LayerConfig, step: nat, start: int, s: seq<Sample<A>>, x: Sample<A>)
    requires 1 <= step <= conf.len
    ensures var l, l' := Head(conf, step, start, s), Head(conf, step, start, s + [x]);
            && |l.ring| <= conf.len
            && (|l.ring| < conf.len ==> l' == Pushed(l, x))
            && (|l.ring| == conf.len ==> l' == Pushed(Popped(l, step), x))
  {
    GoneNext(conf.len, step, |s|);
    var gone := Gone(conf.len, step, |s|);
    if |s| - gone == conf.len {
      assert (s + [x])[gone + step..] == s[gone..][step..] + [x];
    } else {
      assert (s + [x])[gone..] == s[gone..] + [x];
    }
  }

  lemma {:induction false} PassedNext<A>(f: Compaction<A>, conf: LayerConfig, step: nat, start: int,
                                         s: seq<Sample<A>>, x: Sample<A>)
    requires 1 <= step <= conf.len
    ensures var l := Head(conf, step, start, s);
            var g, g' := Passed(f, conf, step, s), Passed(f, conf, step, s + [x]);
            && (|l.ring| < conf.len ==> g' == g)
            && (|l.ring| == conf.len ==> g' == g + [Compacted(f, l.ring[..step])])
  {
    PopsNext(conf.len, step, |s|);
    var q, gone := Pops(conf.len, step, |s|), Gone(conf.len, step, |s|);
    if |s| - gone == conf.len {
      GroupsNext(f, s, x, step, q);
    } else {
      assert s[..gone] == (s + [x])[..gone];
      GroupsLocal(f, s, s + [x], step, q);
    }
  }

  /** The first layer takes one more sample as the closed form says. */
  lemma {:induction false} HeadStep<A>(f: Compaction<A>, conf: LayerConfig, step: nat, start: int, s: seq<Sample<A>>,
                                       x: Sample<A>)
    requires 1 <= step <= conf.len
    ensures var l, l' := Head(conf, step, start, s), Head(conf, step, start, s + [x]);
            var g, g' := Passed(f, conf, step, s), Passed(f, conf, step, s + [x]);
            && |l.ring| <= conf.len
            && (|l.ring| < conf.len ==> l' == Pushed(l, x) && g' == g)
            && (|l.ring| == conf.len ==>
                  l' == Pushed(Popped(l, step), x) && g' == g + [Compacted(f, l.ring[..step])])
  {
    HeadRing(conf, step, start, s, x);
    PassedNext(f, conf, step, start, s, x);
  }

  /** Appending commutes with the closed form. */
  lemma {:induction false} AppendClosed<A>(f: Compaction<A>, confs: seq<LayerConfig>, start: int, s: seq<Sample<A>>,
                                           x: Sample<A>)
    requires ValidConfigs(confs)
    ensures Append(f, Closed(f, confs, start, s), x) == Closed(f, confs, start, s + [x])
    decreases |confs|
  {
    var step := ConfStep(confs);
    HeadStep(f, confs[0], step, start, s, x);
    var l := Head(confs[0], step, start, s);
    if |confs| > 1 && |l.ring| == confs[0].len {
      AppendClosed(f, confs[1..], start, Passed(f, confs[0], step, s), Compacted(f, l.ring[..step]));
    }
  }

  /** Every run leaves the layers in the state the closed form gives for its history. */
  lemma {:induction false} RunIsClosed<A>(f: Compaction<A>, confs: seq<LayerConfig>, start: int,
                                          history: seq<Sample<A>>)
    requires ValidConfigs(confs)
    ensures Run(f, confs, start, history) == Closed(f, confs, start, history)
    decreases |history|
  {
    if history == [] {
      ClosedEmpty(f, confs, start);
    } else {
      var before, x := history[..|history| - 1], history[|history| - 1];
      assert history == before + [x];
      RunIsClosed(f, confs, start, before);
      AppendClosed(f, confs, start, before, x);
    }
  }

  lemma {:induction false} InitialChained<A>(confs: seq<LayerConfig>, start: int)
    requires ValidConfigs(confs)
    ensures Chained(Initial<A>(confs, start)) && Initial<A>(confs, start).top == Layer(confs[0], start, [])
    decreases |confs|
  {
    if |confs| > 1 { InitialChained<A>(confs[1..], start); }
  }

  /** The history is later than the start, and its times ascend. */
  lemma {:induction false} RunChained<A>(f: Compaction<A>, confs: seq<LayerConfig>, start: int, history: seq<Sample<A>>)
    requires ValidConfigs(confs) && Ascends(start, history)
    ensures var c := Run(f, confs, start, history);
            Chained(c) && c.top.End() == if history == [] then start else history[|history| - 1].time
    decreases |history|
  {
    if history == [] {
      InitialChained<A>(confs, start);
    } else {
      RunChained(f, confs, start, history[..|history| - 1]);
      AppendChained(f, Run(f, confs, start, history[..|history| - 1]), history[|history| - 1]);
    }
  }

  // ---------- what layer k holds ----------

  /** Everything layer k has received. */
  function Received<A>(f: Compaction<A>, confs: seq<LayerConfig>, k: nat, s: seq<Sample<A>>): seq<Sample<A>>
    requires ValidConfigs(confs) && k < |confs|
    decreases k
  {
    if k == 0 then s else Received(f, confs[1..], k - 1, Passed(f, confs[0], confs[0].ratio, s))
  }

  /** Layer k holds the newest of what it has received, from a multiple of its step on. */
  lemma {:induction false} LayerOfRun<A>(f: Compaction<A>, confs: seq<LayerConfig>, start: int, s: seq<Sample<A>>,
                                         k: nat)
    requires ValidConfigs(confs) && k < |confs|
    ensures Closed(f, confs, start, s).Nth(k) ==
            Head(confs[k], ConfStep(confs[k..]), start, Received(f, confs, k, s))
    decreases k
  {
    if k > 0 {
      LayerOfRun(f, confs[1..], start, Passed(f, confs[0], confs[0].ratio, s), k - 1);
      assert confs[1..][k - 1..] == confs[k..];
    } else {
      assert confs[0..] == confs;
    }
  }

  /**
   Occupancy after any run. A layer gives up its oldest samples `ratio` at a time, the last layer one at a
   time, and only when it is full: it holds the newest it has received, all of it until it has been full, and
   from then on between len - step + 1 and len samples.
   */
  lemma {:induction false} RunOccupancy<A>(f: Compaction<A>, confs: seq<LayerConfig>, start: int,
                                           history: seq<Sample<A>>, k: nat)
    requires ValidConfigs(confs) && k < |confs|
    ensures var ring, all := Run(f, confs, start, history).Nth(k).ring, Received(f, confs, k, history);
            var size, received := |ring|, |all|;
            var step := if k + 1 < |confs| then confs[k].ratio else 1;
            && size <= confs[k].len && (exists pops: nat :: received == size + pops * step)
            && size <= received && ring == all[received - size..]
            && (received < confs[k].len ==> size == received)
            && (received >= confs[k].len ==> confs[k].len - step + 1 <= size)
  {
    RunIsClosed(f, confs, start, history);
    LayerOfRun(f, confs, start, history, k);
    var step, received := ConfStep(confs[k..]), |Received(f, confs, k, history)|;
    assert received == |Run(f, confs, start, history).Nth(k).ring| + Pops(confs[k].len, step, received) * step;
  }

  /** What a layer has given up is what the next one has received, `ratio` samples as one. */
  lemma {:induction false} RunPassesOn<A>(f: Compaction<A>, confs: seq<LayerConfig>, start: int,
                                          history: seq<Sample<A>>, k: nat)
    requires ValidConfigs(confs) && k + 1 < |confs|
    ensures var size := |Run(f, confs, start, history).Nth(k).ring|;
            |Received(f, confs, k, history)| == size + |Received(f, confs, k + 1, history)| * confs[k].ratio
  {
    RunIsClosed(f, confs, start, history);
    LayerOfRun(f, confs, start, history, k);
    NextReceived(f, confs, k, history);
  }

  lemma {:induction false} NextReceived<A>(f: Compaction<A>, confs: seq<LayerConfig>, k: nat, s: seq<Sample<A>>)
    requires ValidConfigs(confs) && k + 1 < |confs|
    ensures Received(f, confs, k + 1, s) == Passed(f, confs[k], confs[k].ratio, Received(f, confs, k, s))
    decreases k
  {
    if k > 0 { NextReceived(f, confs[1..], k - 1, Passed(f, confs[0], confs[0].ratio, s)); }
  }

  /** How many samples of the history one sample of layer k stands for. */
  function Span(confs: seq<LayerConfig>, k: nat): nat
    requires k < |confs|
    decreases k
  {
    if k == 0 then 1 else confs[0].ratio * Span(confs[1..], k - 1)
  }

  /** The sample of layer k that stands for a block of the history. */
  function Cover<A>(f: Compaction<A>, confs: seq<LayerConfig>, k: nat, block: seq<Sample<A>>): Sample<A>
    requires ValidConfigs(confs) && k < |confs| && |block| == Span(confs, k) >= 1
    decreases k
  {
    if k == 0 then block[0]
    else
      var n := Span(confs[1..], k - 1);
      assert n >= 1 && n * confs[0].ratio == |block|;
      Cover(f, confs[1..], k - 1, Groups(f, block, confs[0].ratio, n))
  }

  lemma {:induction false} GroupAt<A>(f: Compaction<A>, s: seq<Sample<A>>, r: nat, k: nat, j: nat)
    requires r >= 1 && k * r <= |s| && j < k
    ensures 0 <= j * r <= (j + 1) * r <= |s| && (j + 1) * r - j * r == r
    ensures Groups(f, s, r, k)[j] == Compacted(f, s[j * r..(j + 1) * r])
    decreases k
  {
    GroupBounds(r, k, |s|);
    if j + 1 < k {
      GroupAt(f, s, r, k - 1, j);
    }
  }

  lemma {:induction false} MulOrder(a: nat, b: nat, r: nat)
    requires a <= b
    ensures a * r <= b * r && (b - a) * r == b * r - a * r
  {
  }

  /** A stretch of groups is the groups of a stretch. */
  lemma {:induction false} GroupsSlice<A>(f: Compaction<A>, s: seq<Sample<A>>, r: nat, k: nat, a: nat, b: nat)
    requires r >= 1 && k * r <= |s| && a <= b <= k
    ensures a * r <= b * r <= |s| && (b - a) * r == b * r - a * r
    ensures Groups(f, s, r, k)[a..b] == Groups(f, s[a * r..b * r], r, b - a)
  {
    MulOrder(b, k, r);
    MulOrder(a, b, r);
    var t := s[a * r..b * r];
    var g, h := Groups(f, s, r, k)[a..b], Groups(f, t, r, b - a);
    forall j | 0 <= j < b - a ensures g[j] == h[j] {
      GroupShift(f, s, r, k, a, b, j);
    }
  }

  lemma {:induction false} MulShift(a: nat, j: nat, r: nat)
    ensures (a + j) * r == a * r + j * r
  {
  }

  /** Group j starts at lo, for lo == j * r. */
  lemma {:induction false} GroupFrom<A>(f: Compaction<A>, s: seq<Sample<A>>, r: nat, k: nat, j: nat, lo: nat)
    requires r >= 1 && k * r <= |s| && j < k && lo == j * r
    ensures lo + r <= |s| && Groups(f, s, r, k)[j] == Compacted(f, s[lo..lo + r])
  {
    GroupAt(f, s, r, k, j);
  }

  lemma {:induction false} GroupShift<A>(f: Compaction<A>, s: seq<Sample<A>>, r: nat, k: nat, a: nat, b: nat, j: nat)
    requires r >= 1 && k * r <= |s| && a <= b <= k && j < b - a
    requires a * r <= b * r <= |s| && (b - a) * r == b * r - a * r
    ensures Groups(f, s, r, k)[a + j] == Groups(f, s[a * r..b * r], r, b - a)[j]
  {
    var p, q, x := a * r, b * r, j * r;
    MulShift(a, j, r);
    GroupFrom(f, s, r, k, a + j, p + x);
    GroupFrom(f, s[p..q], r, b - a, j, x);
    SliceOfSlice(s, p, q, x, x + r);
  }

  lemma {:induction false} SliceOfSlice<T>(s: seq<T>, p: nat, q: nat, x: nat, y: nat)
    requires p <= q <= |s| && x <= y <= q - p
    ensures s[p..q][x..y] == s[p + x..p + y]
  {
    var t := s[p..q];
    assert forall i :: 0 <= i < |t| ==> t[i] == s[p + i];
    forall i | 0 <= i < y - x ensures t[x..y][i] == s[p + x..p + y][i] {}
    assert t[x..y] == s[p + x..p + y];
  }

  lemma {:induction false} SpanPositive(confs: seq<LayerConfig>, k: nat)
    requires ValidConfigs(confs) && k < |confs|
    ensures Span(confs, k) >= 1
    decreases k
  {
    if k > 0 {
      SpanPositive(confs[1..], k - 1);
      MulOrder(1, confs[0].ratio, Span(confs[1..], k - 1));
    }
  }

  lemma {:induction false} SpanStep(i: nat, n: nat, r: nat)
    ensures i * n * r == i * (r * n)
    ensures (i * n + n) * r == i * (r * n) + r * n
  {
    assert i * n * r == i * (n * r) == i * (r * n);
    assert (i * n + n) * r == i * n * r + n * r;
  }

  /**
   Sample i of layer k stands for exactly Span(k) consecutive samples of the history, and for no
   others.
   */
  lemma {:induction false} ReceivedCovers<A>(f: Compaction<A>, confs: seq<LayerConfig>, k: nat, s: seq<Sample<A>>,
                                             i: nat)
    requires ValidConfigs(confs) && k < |confs| && i < |Received(f, confs, k, s)|
    ensures Span(confs, k) >= 1
    ensures 0 <= i * Span(confs, k) && i * Span(confs, k) + Span(confs, k) <= |s|
    ensures Received(f, confs, k, s)[i] ==
            Cover(f, confs, k, s[i * Span(confs, k)..i * Span(confs, k) + Span(confs, k)])
    decreases k
  {
    SpanPositive(confs, k);
    if k > 0 {
      var r := confs[0].ratio;
      var g := Passed(f, confs[0], r, s);
      var n := Span(confs[1..], k - 1);
      ReceivedCovers(f, confs[1..], k - 1, g, i);
      SpanStep(i, n, r);
      PassedSlice(f, confs[0], r, s, i * n, n);
    }
  }

  lemma {:induction false} PassedSlice<A>(f: Compaction<A>, conf: LayerConfig, r: nat, s: seq<Sample<A>>, a: nat,
                                          n: nat)
    requires 1 <= r <= conf.len && a + n <= |Passed(f, conf, r, s)|
    ensures 0 <= a * r && (a + n) * r <= |s| && n * r == (a + n) * r - a * r
    ensures Passed(f, conf, r, s)[a..a + n] == Groups(f, s[a * r..(a + n) * r], r, n)
  {
    Occupancy(conf.len, r, |s|);
    GroupsStretch(f, s, r, Pops(conf.len, r, |s|), a, n);
  }

  lemma {:induction false} GroupsStretch<A>(f: Compaction<A>, s: seq<Sample<A>>, r: nat, k: nat, a: nat, n: nat)
    requires r >= 1 && k * r <= |s| && a + n <= k
    ensures a * r <= (a + n) * r <= |s| && n * r == (a + n) * r - a * r
    ensures Groups(f, s, r, k)[a..a + n] == Groups(f, s[a * r..(a + n) * r], r, n)
  {
    GroupsSlice(f, s, r, k, a, a + n);
    assert a + n - a == n;
  }

  /** The interval of a covering sample ends with the last sample it covers. */
  lemma {:induction false} CoverTime<A>(f: Compaction<A>, confs: seq<LayerConfig>, k: nat, block: seq<Sample<A>>)
    requires ValidConfigs(confs) && k < |confs| && |block| == Span(confs, k) >= 1
    ensures Cover(f, confs, k, block).time == block[|block| - 1].time
    decreases k
  {
    if k > 0 {
      var n, r := Span(confs[1..], k - 1), confs[0].ratio;
      assert n >= 1 && n * r == |block|;
      CoverTime(f, confs[1..], k - 1, Groups(f, block, r, n));
      GroupAt(f, block, r, n, n - 1);
    }
  }

  // ---------- conservation ----------

  /** Samples of the history that the rings stand for. */
  function Kept<A>(c: Chain<A>): nat {
    |c.top.ring| + if c.Last? then 0 else c.top.conf.ratio * Kept(c.rest)
  }

  /** Samples of the history that the last layer has dropped. */
  function Dropped(confs: seq<LayerConfig>, n: nat): nat
    requires ValidConfigs(confs)
    decreases |confs|
  {
    if |confs| == 1 then Gone(confs[0].len, 1, n)
    else confs[0].ratio * Dropped(confs[1..], Pops(confs[0].len, confs[0].ratio, n))
  }

  lemma {:induction false} Distribute(r: nat, a: nat, b: nat)
    ensures r * a + r * b == (a + b) * r
  {
  }

  /** No sample is lost or counted twice on the way down the layers. */
  lemma {:induction false} SamplesConserved<A>(f: Compaction<A>, confs: seq<LayerConfig>, start: int, s: seq<Sample<A>>)
    requires ValidConfigs(confs)
    ensures Kept(Closed(f, confs, start, s)) + Dropped(confs, |s|) == |s|
    decreases |confs|
  {
    if |confs| > 1 {
      var r := confs[0].ratio;
      var g := Passed(f, confs[0], r, s);
      SamplesConserved(f, confs[1..], start, g);
      Distribute(r, Kept(Closed(f, confs[1..], start, g)), Dropped(confs[1..], |g|));
    }
  }
}
