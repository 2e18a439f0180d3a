/**
 The layered time series, on values.

 A chain of layers stores samples (an axis and the time its interval ends). A layer holds at most
 `len` samples. When it is full, its oldest `ratio` samples are compacted into one and appended to
 the next layer; the last layer drops its oldest sample instead. The model is generic in the axis
 and in the compaction.
 */
module Layers {

  datatype Sample<A> = Sample(time: int, axis: A)

  datatype LayerConfig = LayerConfig(len: nat, ratio: nat)

  /** A layer: its configuration, the time its oldest sample starts, and its samples, oldest first. */
  datatype Layer<A> = Layer(conf: LayerConfig, start: int, ring: seq<Sample<A>>) {
    function End(): int {
      if ring == [] then start else ring[|ring| - 1].time
    }
  }

  type Compaction<!A> = seq<A> -> A

  function AxesOf<A>(s: seq<Sample<A>>): seq<A> {
    seq(|s|, i requires 0 <= i < |s| => s[i].axis)
  }

  function TimesOf<A>(s: seq<Sample<A>>): seq<int> {
    seq(|s|, i requires 0 <= i < |s| => s[i].time)
  }

  /** One sample in place of consecutive ones. */
  function Compacted<A>(f: Compaction<A>, s: seq<Sample<A>>): Sample<A>
    requires s != []
  {
    Sample(s[|s| - 1].time, f(AxesOf(s)))
  }

  /** The layers from one on, finest first. */
  datatype Chain<A> = Last(top: Layer<A>) | Link(top: Layer<A>, rest: Chain<A>) {
    function Length(): nat {
      if Last? then 1 else 1 + rest.Length()
    }

    function Nth(k: nat): Layer<A>
      requires k < Length()
    {
      if k == 0 then top else rest.Nth(k - 1)
    }
  }

  /** How many samples a full layer gives up. */
  function Step<A>(c: Chain<A>): nat {
    if c.Last? || c.top.conf.ratio == 0 then 1 else c.top.conf.ratio
  }

  predicate Sized<A>(c: Chain<A>) {
    && |c.top.ring| <= c.top.conf.len && 1 <= c.top.conf.len
    && (c.Link? ==> c.top.conf.ratio <= c.top.conf.len && Sized(c.rest))
  }

  /** The oldest samples leave a full layer. */
  function Popped<A>(l: Layer<A>, step: nat): Layer<A>
    requires 1 <= step <= |l.ring|
  {
    Layer(l.conf, l.ring[step - 1].time, l.ring[step..])
  }

  function Without<A>(l: Layer<A>, n: nat): Layer<A>
    requires n <= |l.ring|
  {
    if n == 0 then l else Popped(l, n)
  }

  lemma {:induction false} WithoutNext<A>(l: Layer<A>, n: nat)
    requires n < |l.ring|
    ensures Popped(Without(l, n), 1) == Without(l, n + 1) && Without(l, n).ring[0] == l.ring[n]
    ensures AxesOf(l.ring[..n + 1]) == AxesOf(l.ring[..n]) + [l.ring[n].axis]
  {
    assert l.ring[n..][1..] == l.ring[n + 1..];
    assert AxesOf(l.ring[..n + 1]) == AxesOf(l.ring[..n]) + [l.ring[n].axis];
  }

  function Pushed<A>(l: Layer<A>, x: Sample<A>): Layer<A> {
    Layer(l.conf, l.start, l.ring + [x])
  }

  /** A full layer makes room: its oldest samples go on, compacted, or for good. */
  function Reduced<A>(f: Compaction<A>, c: Chain<A>): (r: Chain<A>)
    requires Sized(c) && |c.top.ring| == c.top.conf.len
    ensures Sized(r) && r.Length() == c.Length() && r.top == Popped(c.top, Step(c))
    decreases c, 0
  {
    var top := Popped(c.top, Step(c));
    if c.Last? then Last(top)
    else if c.top.conf.ratio == 0 then Link(top, c.rest)
    else Link(top, Append(f, c.rest, Compacted(f, c.top.ring[..Step(c)])))
  }

  /** Append a sample to a chain. */
  function Append<A>(f: Compaction<A>, c: Chain<A>, x: Sample<A>): (r: Chain<A>)
    requires Sized(c)
    ensures Sized(r) && r.Length() == c.Length()
    ensures r.top.conf == c.top.conf && r.top.ring != [] && r.top.End() == x.time
    decreases c, 1
  {
    var room := if |c.top.ring| < c.top.conf.len then c else Reduced(f, c);
    room.(top := Pushed(room.top, x))
  }

  // ---------- the invariant of one step ----------

  /** Times ascend, from the start of the layer on. */
  predicate Ascends<A>(start: int, s: seq<Sample<A>>) {
    && (s != [] ==> start < s[0].time)
    && forall i, j :: 0 <= i < j < |s| ==> s[i].time < s[j].time
  }

  /** Layers are contiguous: each starts where the next, coarser one ends. */
  predicate Chained<A>(c: Chain<A>) {
    && |c.top.ring| <= c.top.conf.len && 1 <= c.top.conf.len
    && Ascends(c.top.start, c.top.ring)
    && (c.Link? ==> 1 <= c.top.conf.ratio <= c.top.conf.len && c.top.start == c.rest.top.End() && Chained(c.rest))
  }

  lemma {:induction false} PushedAscends<A>(l: Layer<A>, x: Sample<A>)
    requires Ascends(l.start, l.ring) && l.End() < x.time
    ensures Ascends(l.start, Pushed(l, x).ring)
  {
  }

  lemma {:induction false} PoppedAscends<A>(l: Layer<A>, step: nat)
    requires Ascends(l.start, l.ring) && 1 <= step <= |l.ring|
    ensures Ascends(Popped(l, step).start, Popped(l, step).ring)
    ensures l.start < Popped(l, step).start <= Popped(l, step).End() == l.End()
  {
  }

  /** Appending a later sample keeps the chain contiguous and ascending. */
  lemma {:induction false} AppendChained<A>(f: Compaction<A>, c: Chain<A>, x: Sample<A>)
    requires Chained(c) && Sized(c) && c.top.End() < x.time
    ensures Chained(Append(f, c, x))
    decreases c
  {
    var l := c.top;
    if |l.ring| < l.conf.len {
      PushedAscends(l, x);
    } else {
      PoppedAscends(l, Step(c));
      PushedAscends(Popped(l, Step(c)), x);
      if c.Link? { AppendChained(f, c.rest, Compacted(f, l.ring[..Step(c)])); }
    }
  }
}
