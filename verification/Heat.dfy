/**
 The heat in the layers. A sample of a coarser layer stands for several of the finer one, so its value
 counts that many times. Reductions to at most the mean never make heat, over any run.
 */
module Heat {
  import opened Basics
  import opened Layers
  import opened History
  import opened Focus
  import opened Axes
  import opened Cuts
  import opened Planes
  import opened Reduction
  import opened Existence

  function SumOf<A>(w: A -> nat, s: seq<A>): nat {
    if s == [] then 0 else SumOf(w, s[..|s| - 1]) + w(s[|s| - 1])
  }

  function RingHeat<A>(w: A -> nat, s: seq<Sample<A>>): nat {
    SumOf(w, AxesOf(s))
  }

  /** What the layers hold, each sample counted for as many samples of the history as it stands for. */
  function ChainHeat<A>(w: A -> nat, c: Chain<A>): nat {
    RingHeat(w, c.top.ring) + if c.Last? then 0 else c.top.conf.ratio * ChainHeat(w, c.rest)
  }

  predicate AllOk<A>(ok: A -> bool, s: seq<A>) {
    forall i :: 0 <= i < |s| ==> ok(s[i])
  }

  predicate ChainOk<A>(ok: A -> bool, c: Chain<A>) {
    AllOk(ok, AxesOf(c.top.ring)) && (c.Link? ==> ChainOk(ok, c.rest))
  }

  /** Up to `most` good axes are reduced to a good axis of at most their mean. */
  ghost predicate Averages<A(!new)>(f: Compaction<A>, w: A -> nat, ok: A -> bool, most: nat) {
    forall s: seq<A> :: 1 <= |s| <= most && AllOk(ok, s) ==> ok(f(s)) && w(f(s)) * |s| <= SumOf(w, s)
  }

  predicate RatiosWithin<A>(c: Chain<A>, most: nat) {
    c.Link? ==> 1 <= c.top.conf.ratio <= most && RatiosWithin(c.rest, most)
  }

  lemma {:induction false} SumSplit<A>(w: A -> nat, s: seq<A>, n: nat)
    requires n <= |s|
    ensures SumOf(w, s) == SumOf(w, s[..n]) + SumOf(w, s[n..])
    decreases |s|
  {
    if n == |s| {
      assert s[..n] == s && s[n..] == [];
    } else {
      var m := |s| - 1;
      SumSplit(w, s[..m], n);
      assert s[..m][..n] == s[..n] && s[..m][n..] == s[n..][..|s[n..]| - 1];
    }
  }

  lemma {:induction false} RingSplit<A>(w: A -> nat, s: seq<Sample<A>>, n: nat)
    requires n <= |s|
    ensures RingHeat(w, s) == RingHeat(w, s[..n]) + RingHeat(w, s[n..])
  {
    SumSplit(w, AxesOf(s), n);
    assert AxesOf(s)[..n] == AxesOf(s[..n]) && AxesOf(s)[n..] == AxesOf(s[n..]);
  }

  lemma {:induction false} RingPush<A>(w: A -> nat, s: seq<Sample<A>>, x: Sample<A>)
    ensures RingHeat(w, s + [x]) == RingHeat(w, s) + w(x.axis)
  {
    assert AxesOf(s + [x]) == AxesOf(s) + [x.axis];
    assert (AxesOf(s) + [x.axis])[..|s|] == AxesOf(s);
  }

  lemma {:induction false} OkPush<A>(ok: A -> bool, s: seq<Sample<A>>, n: nat, x: Sample<A>)
    requires n <= |s| && AllOk(ok, AxesOf(s)) && ok(x.axis)
    ensures AllOk(ok, AxesOf(s[..n])) && AllOk(ok, AxesOf(s[n..] + [x]))
  {
    var a := AxesOf(s);
    forall i | 0 <= i < n ensures ok(AxesOf(s[..n])[i]) { assert ok(a[i]); }
    forall i | 0 <= i <= |s| - n ensures ok(AxesOf(s[n..] + [x])[i]) {
      if i < |s| - n { assert ok(a[n + i]); }
    }
  }

  /** The top layer takes a sample and gives up its n oldest. */
  lemma {:induction false} TopHeat<A>(w: A -> nat, ok: A -> bool, s: seq<Sample<A>>, n: nat, x: Sample<A>)
    requires n <= |s| && AllOk(ok, AxesOf(s)) && ok(x.axis)
    ensures RingHeat(w, s[n..] + [x]) + RingHeat(w, s[..n]) == RingHeat(w, s) + w(x.axis)
    ensures AllOk(ok, AxesOf(s[n..] + [x])) && AllOk(ok, AxesOf(s[..n]))
  {
    RingSplit(w, s, n);
    RingPush(w, s[n..], x);
    OkPush(ok, s, n, x);
  }

  /** What the given up samples are reduced to counts for no more than they did. */
  lemma {:induction false} GroupHeat<A(!new)>(f: Compaction<A>, w: A -> nat, ok: A -> bool, most: nat,
                                       s: seq<Sample<A>>)
    requires Averages(f, w, ok, most) && 1 <= |s| <= most && AllOk(ok, AxesOf(s))
    ensures ok(Compacted(f, s).axis) && |s| * w(Compacted(f, s).axis) <= RingHeat(w, s)
  {
    assert ok(f(AxesOf(s)));
  }

  lemma {:induction false} MulAdd(r: nat, a: nat, b: nat, c: nat)
    requires a <= b + c
    ensures r * a <= r * b + r * c
  {
    assert r * (b + c) == r * b + r * c;
    assert r * a <= r * (b + c);
  }

  /** An append adds at most the heat of its sample. */
  lemma {:induction false} AppendHeat<A(!new)>(f: Compaction<A>, w: A -> nat, ok: A -> bool, most: nat, c: Chain<A>,
                                        x: Sample<A>)
    requires Averages(f, w, ok, most) && Sized(c) && RatiosWithin(c, most) && ChainOk(ok, c) && ok(x.axis)
    ensures ChainHeat(w, Append(f, c, x)) <= ChainHeat(w, c) + w(x.axis)
    ensures ChainOk(ok, Append(f, c, x)) && RatiosWithin(Append(f, c, x), most)
    decreases c, 1
  {
    var s := c.top.ring;
    if |s| < c.top.conf.len {
      TopHeat(w, ok, s, 0, x);
      assert s[0..] == s && AxesOf(s[..0]) == [];
    } else {
      var n := Step(c);
      TopHeat(w, ok, s, n, x);
      if c.Link? { ReducedHeat(f, w, ok, most, c, x); }
    }
  }

  lemma {:induction false} ReducedHeat<A(!new)>(f: Compaction<A>, w: A -> nat, ok: A -> bool, most: nat, c: Chain<A>,
                                         x: Sample<A>)
    requires Averages(f, w, ok, most) && Sized(c) && RatiosWithin(c, most) && ChainOk(ok, c) && ok(x.axis)
    requires c.Link? && |c.top.ring| == c.top.conf.len
    ensures var n := c.top.conf.ratio;
            var rest := Append(f, c.rest, Compacted(f, c.top.ring[..n]));
            && n * ChainHeat(w, rest) <= n * ChainHeat(w, c.rest) + RingHeat(w, c.top.ring[..n])
            && ChainOk(ok, rest) && RatiosWithin(rest, most)
    decreases c, 0
  {
    var n := c.top.conf.ratio;
    var y := Compacted(f, c.top.ring[..n]);
    OkPush(ok, c.top.ring, n, x);
    GroupHeat(f, w, ok, most, c.top.ring[..n]);
    AppendHeat(f, w, ok, most, c.rest, y);
    MulAdd(n, ChainHeat(w, Append(f, c.rest, y)), ChainHeat(w, c.rest), w(y.axis));
  }

  lemma {:induction false} InitialHeat<A>(w: A -> nat, ok: A -> bool, most: nat, confs: seq<LayerConfig>, start: int)
    requires ValidConfigs(confs) && forall k :: 0 <= k < |confs| - 1 ==> confs[k].ratio <= most
    ensures var c := Initial<A>(confs, start);
            ChainHeat(w, c) == 0 && ChainOk(ok, c) && RatiosWithin(c, most)
    decreases |confs|
  {
    if |confs| > 1 { InitialHeat(w, ok, most, confs[1..], start); }
  }

  /** Over any run, the layers never hold more heat than was appended, and every axis they hold is good. */
  lemma {:induction false} HeatNeverMade<A(!new)>(f: Compaction<A>, w: A -> nat, ok: A -> bool, most: nat,
                                           confs: seq<LayerConfig>, start: int, history: seq<Sample<A>>)
    requires ValidConfigs(confs) && (forall k :: 0 <= k < |confs| - 1 ==> confs[k].ratio <= most)
    requires Averages(f, w, ok, most) && AllOk(ok, AxesOf(history))
    ensures var c := Run(f, confs, start, history);
            ChainHeat(w, c) <= RingHeat(w, history) && ChainOk(ok, c) && RatiosWithin(c, most)
    decreases |history|
  {
    if history == [] {
      InitialHeat(w, ok, most, confs, start);
    } else {
      var n := |history| - 1;
      var before, x := history[..n], history[n];
      assert AxesOf(history)[n] == x.axis;
      OkPush(ok, history, n, x);
      HeatNeverMade(f, w, ok, most, confs, start, before);
      AppendHeat(f, w, ok, most, Run(f, confs, start, before), x);
      RingPush(w, before, x);
      assert history == before + [x];
    }
  }

  // ---------- the reduction of the key visualizer ----------

  /** The heat of one column of an axis. */
  function ColumnHeat(j: nat): Axis -> nat {
    (a: Axis) => if j < |a.valuesList| then Total(a.valuesList[j]) else 0
  }

  function IsStorable(bound: nat): Axis -> bool {
    (a: Axis) => Storable(a, bound)
  }

  /** A function that reduces up to `most` stored axes as the key visualizer does. */
  ghost predicate Reduces(f: Compaction<Axis>, strategy: Strategy, border: Border, bound: nat, most: nat) {
    forall axes: seq<Axis> ::
      StorablePlane(axes, bound) && |axes| <= most ==> IsReduction(strategy, border, axes, f(axes))
  }

  lemma {:induction false} ColumnSum(axes: seq<Axis>, bound: nat, j: nat, k: nat)
    requires StorablePlane(axes, bound) && j < STORED_COLUMNS && k <= |axes|
    ensures SumOf(ColumnHeat(j), axes[..k]) == TotalOfAll(ColumnOf(axes, j), k)
    decreases k
  {
    if k > 0 {
      ColumnSum(axes, bound, j, k - 1);
      assert axes[..k][..k - 1] == axes[..k - 1];
      assert axes[k - 1].Valid();
    }
  }

  lemma {:induction false} MeanHeat(bound: nat, s: seq<Axis>, r: Axis, j: nat)
    requires StorablePlane(s, bound) && Storable(r, bound) && BelowMean(s, r) && j < STORED_COLUMNS
    ensures ColumnHeat(j)(r) * |s| <= SumOf(ColumnHeat(j), s)
  {
    ColumnSum(s, bound, j, |s|);
    assert s[..|s|] == s;
  }

  lemma {:induction false} ReductionAverage(strategy: Strategy, border: Border, bound: nat, s: seq<Axis>, r: Axis,
                                            j: nat)
    requires StorablePlane(s, bound) && IsReduction(strategy, border, s, r) && j < STORED_COLUMNS
    ensures Storable(r, bound) && ColumnHeat(j)(r) * |s| <= SumOf(ColumnHeat(j), s)
  {
    ReductionMeans(strategy, border, s, r, bound);
    MeanHeat(bound, s, r, j);
  }

  lemma {:induction false} ReductionAverages(f: Compaction<Axis>, strategy: Strategy, border: Border, bound: nat,
                                             most: nat, j: nat)
    requires Reduces(f, strategy, border, bound, most) && j < STORED_COLUMNS
    ensures Averages(f, ColumnHeat(j), IsStorable(bound), most)
  {
    forall s: seq<Axis> | 1 <= |s| <= most && AllOk(IsStorable(bound), s)
      ensures IsStorable(bound)(f(s)) && ColumnHeat(j)(f(s)) * |s| <= SumOf(ColumnHeat(j), s)
    {
      assert forall i :: 0 <= i < |s| ==> IsStorable(bound)(s[i]);
      assert StorablePlane(s, bound);
      ReductionAverage(strategy, border, bound, s, f(s), j);
    }
  }

  /**
   Where the layers are reduced as the key visualizer does, no column ever shows more traffic than was
   recorded, and every stored axis stays valid and within the bound under which `ReduceAxes` computes the
   reduction without overflow.
   */
  lemma {:induction false} TrafficNeverMade(f: Compaction<Axis>, strategy: Strategy, border: Border, bound: nat,
                                            most: nat, confs: seq<LayerConfig>, start: int, history: seq<Sample<Axis>>,
                                            j: nat)
    requires ValidConfigs(confs) && (forall k :: 0 <= k < |confs| - 1 ==> confs[k].ratio <= most)
    requires Reduces(f, strategy, border, bound, most) && most * bound <= TWO_TO_63 && j < STORED_COLUMNS
    requires forall i :: 0 <= i < |history| ==> Storable(history[i].axis, bound)
    ensures var c := Run(f, confs, start, history);
            && ChainHeat(ColumnHeat(j), c) <= RingHeat(ColumnHeat(j), history)
            && ChainOk(IsStorable(bound), c) && RatiosWithin(c, most)
    ensures forall n :: 0 <= n <= most ==> n * bound <= TWO_TO_63
  {
    ReductionAverages(f, strategy, border, bound, most, j);
    HeatNeverMade(f, ColumnHeat(j), IsStorable(bound), most, confs, start, history);
    forall n | 0 <= n <= most ensures n * bound <= TWO_TO_63 { MulOrder(n, most, bound); }
  }

  /** The compaction of the key visualizer. */
  ghost function KeyVisual(strategy: Strategy, border: Border): Compaction<Axis> {
    (axes: seq<Axis>) => ReductionOf(strategy, border, axes)
  }

  /** It is the one function that reduces as the key visualizer does, on all stored axes. */
  lemma {:induction false} KeyVisualReduces(strategy: Strategy, border: Border, bound: nat, most: nat)
    requires strategy.DistanceStrategy? ==> strategy.settings.Valid()
    ensures Reduces(KeyVisual(strategy, border), strategy, border, bound, most)
    ensures forall f: Compaction<Axis>, axes: seq<Axis> ::
              Reduces(f, strategy, border, bound, most) && StorablePlane(axes, bound) && |axes| <= most ==>
              f(axes) == KeyVisual(strategy, border)(axes)
  {
    var g := KeyVisual(strategy, border);
    forall axes: seq<Axis> | StorablePlane(axes, bound) && |axes| <= most
      ensures IsReduction(strategy, border, axes, g(axes))
    {
      assert Reducible(strategy, axes);
    }
    forall f: Compaction<Axis>, axes: seq<Axis> |
      Reduces(f, strategy, border, bound, most) && StorablePlane(axes, bound) && |axes| <= most
      ensures f(axes) == g(axes)
    {
      ReductionUnique(strategy, border, axes, f(axes), g(axes));
    }
  }

  /** A reduction is what it gives. */
  lemma {:induction false} KeyVisualIs(strategy: Strategy, border: Border, axes: seq<Axis>, bound: nat, r: Axis)
    requires StorablePlane(axes, bound) && (strategy.DistanceStrategy? ==> strategy.settings.Valid())
    requires IsReduction(strategy, border, axes, r)
    ensures r == KeyVisual(strategy, border)(axes)
  {
    assert Reducible(strategy, axes);
    ReductionUnique(strategy, border, axes, r, ReductionOf(strategy, border, axes));
  }

  /** The oldest samples of a layer of stored axes can be reduced. */
  lemma {:induction false} OldestStorable(s: seq<Sample<Axis>>, bound: nat, n: nat)
    requires AllOk(IsStorable(bound), AxesOf(s)) && 1 <= n <= |s|
    ensures StorablePlane(AxesOf(s[..n]), bound)
  {
    var axes := AxesOf(s[..n]);
    forall i | 0 <= i < n ensures Storable(axes[i], bound) {
      assert IsStorable(bound)(AxesOf(s)[i]);
    }
  }

  /** An append of a stored axis keeps all axes stored. */
  lemma {:induction false} AppendStorable(strategy: Strategy, border: Border, bound: nat, most: nat, c: Chain<Axis>,
                                          x: Sample<Axis>)
    requires strategy.DistanceStrategy? ==> strategy.settings.Valid()
    requires Sized(c) && RatiosWithin(c, most) && ChainOk(IsStorable(bound), c) && Storable(x.axis, bound)
    ensures ChainOk(IsStorable(bound), Append(KeyVisual(strategy, border), c, x))
    ensures RatiosWithin(Append(KeyVisual(strategy, border), c, x), most)
  {
    KeyVisualReduces(strategy, border, bound, most);
    ReductionAverages(KeyVisual(strategy, border), strategy, border, bound, most, 0);
    AppendHeat(KeyVisual(strategy, border), ColumnHeat(0), IsStorable(bound), most, c, x);
  }

  /** The traffic in the layers of the key visualizer: never more than was recorded, over any run. */
  lemma {:induction false} KeyVisualTraffic(strategy: Strategy, border: Border, bound: nat, most: nat,
                                            confs: seq<LayerConfig>, start: int, history: seq<Sample<Axis>>, j: nat)
    requires strategy.DistanceStrategy? ==> strategy.settings.Valid()
    requires ValidConfigs(confs) && (forall k :: 0 <= k < |confs| - 1 ==> confs[k].ratio <= most)
    requires most * bound <= TWO_TO_63 && j < STORED_COLUMNS
    requires forall i :: 0 <= i < |history| ==> Storable(history[i].axis, bound)
    ensures var c := Run(KeyVisual(strategy, border), confs, start, history);
            && ChainHeat(ColumnHeat(j), c) <= RingHeat(ColumnHeat(j), history)
            && ChainOk(IsStorable(bound), c) && RatiosWithin(c, most)
  {
    KeyVisualReduces(strategy, border, bound, most);
    TrafficNeverMade(KeyVisual(strategy, border), strategy, border, bound, most, confs, start, history, j);
  }
}
