/**
 The layers as one timeline, and the part of it a time range selects.

 Read from the coarsest layer to the finest, the rings form one ascending timeline of contiguous
 intervals: sample i covers the time from the sample before it (or the origin) up to its own time.
 */
module Timeline {
  import opened Layers

  function Samples<A>(c: Chain<A>): seq<Sample<A>> {
    if c.Last? then c.top.ring else Samples(c.rest) + c.top.ring
  }

  function Origin<A>(c: Chain<A>): int {
    if c.Last? then c.top.start else Origin(c.rest)
  }

  /** Where interval i starts. */
  function Since<A>(origin: int, s: seq<Sample<A>>, i: nat): int
    requires i <= |s|
  {
    if i == 0 then origin else s[i - 1].time
  }

  lemma {:induction false} SampleOfLayer<A>(c: Chain<A>, x: Sample<A>, k: nat)
    requires k < c.Length() && x in c.Nth(k).ring
    ensures x in Samples(c)
    decreases k
  {
    if k > 0 { SampleOfLayer(c.rest, x, k - 1); }
  }

  lemma {:induction false} LayerOfSample<A>(c: Chain<A>, x: Sample<A>) returns (k: nat)
    requires x in Samples(c)
    ensures k < c.Length() && x in c.Nth(k).ring
    decreases c
  {
    k := 0;
    if c.Link? && x !in c.top.ring {
      k := LayerOfSample(c.rest, x);
      k := k + 1;
    }
  }

  /** The samples of the timeline are those of all layers, and it starts where the coarsest layer does. */
  lemma {:induction false} SamplesOfAll<A>(c: Chain<A>, x: Sample<A>)
    ensures x in Samples(c) <==> exists k: nat :: k < c.Length() && x in c.Nth(k).ring
    ensures Origin(c) == c.Nth(c.Length() - 1).start
    decreases c
  {
    if k: nat :| k < c.Length() && x in c.Nth(k).ring { SampleOfLayer(c, x, k); }
    if x in Samples(c) { var k := LayerOfSample(c, x); }
    if c.Link? { SamplesOfAll(c.rest, x); }
  }

  /** The timeline ascends from its origin, and ends where the first layer ends. */
  lemma {:induction false} SamplesAscend<A>(c: Chain<A>)
    requires Chained(c)
    ensures Ascends(Origin(c), Samples(c))
    ensures c.top.End() == Since(Origin(c), Samples(c), |Samples(c)|)
    decreases c
  {
    if c.Link? {
      SamplesAscend(c.rest);
      AscendsJoin(Origin(c), Samples(c.rest), c.top.start, c.top.ring);
    }
  }

  lemma {:induction false} AscendsJoin<A>(origin: int, s: seq<Sample<A>>, start: int, t: seq<Sample<A>>)
    requires Ascends(origin, s) && Ascends(start, t) && start == Since(origin, s, |s|)
    ensures Ascends(origin, s + t)
  {
    var u := s + t;
    forall i, j | 0 <= i < j < |u| ensures u[i].time < u[j].time {
      if i < |s| <= j { assert s[i].time <= start < t[0].time <= t[j - |s|].time; }
    }
    if s == [] { assert u == t; }
  }

  /** Interval i has a moment in common with the time range. */
  predicate Meets<A>(origin: int, s: seq<Sample<A>>, from: int, to: int, i: nat)
    requires i < |s|
  {
    s[i].time > from && Since(origin, s, i) < to
  }

  predicate Within(t: int, start: int, end: int) {
    start <= t < end
  }

  /** Why this is the right test: it holds exactly when some moment lies in the interval and in the time range. */
  lemma {:induction false} MeetsMeans<A>(origin: int, s: seq<Sample<A>>, from: int, to: int, i: nat)
    requires Ascends(origin, s) && i < |s| && from < to
    ensures Meets(origin, s, from, to, i) <==>
            exists t: int :: Within(t, if i == 0 then origin else s[i - 1].time, s[i].time) && Within(t, from, to)
  {
    var since := if i == 0 then origin else s[i - 1].time;
    var t := if since < from then from else since;
    if Meets(origin, s, from, to, i) { assert Within(t, since, s[i].time) && Within(t, from, to); }
  }

  /** [lo, hi) are exactly the intervals that meet the time range. */
  predicate Selects<A>(origin: int, s: seq<Sample<A>>, from: int, to: int, lo: nat, hi: nat) {
    && lo <= hi <= |s|
    && forall i :: 0 <= i < |s| ==> (lo <= i < hi <==> Meets(origin, s, from, to, i))
  }

  /** The boundary times of the selected intervals. */
  function Boundaries<A>(origin: int, s: seq<Sample<A>>, lo: nat, hi: nat): (t: seq<int>)
    requires lo <= hi <= |s|
    ensures |t| == if lo == hi then 0 else hi - lo + 1
  {
    if lo == hi then [] else [Since(origin, s, lo)] + TimesOf(s[lo..hi])
  }

  predicate Shows<A(==)>(origin: int, s: seq<Sample<A>>, lo: nat, hi: nat, times: seq<int>, axes: seq<A>) {
    lo <= hi <= |s| && times == Boundaries(origin, s, lo, hi) && axes == AxesOf(s[lo..hi])
  }

  /** The answer to a range query over a timeline. */
  ghost predicate Answers<A>(origin: int, s: seq<Sample<A>>, from: int, to: int, times: seq<int>, axes: seq<A>) {
    exists lo: nat, hi: nat :: Selects(origin, s, from, to, lo, hi) && Shows(origin, s, lo, hi, times, axes)
  }

  /** What one layer adds to the answer: the intervals of its own ring that meet the range. */
  ghost predicate LayerSelects<A>(l: Layer<A>, from: int, to: int, a: nat, b: nat) {
    Selects(l.start, l.ring, from, to, a, b) && (a < b <==> l.ring != [] && from < l.End() && to > l.start)
  }

  lemma {:induction false} MeetsJoined<A>(origin: int, s: seq<Sample<A>>, start: int, t: seq<Sample<A>>, from: int,
                                          to: int, i: nat)
    requires start == Since(origin, s, |s|) && i < |s| + |t|
    ensures Meets(origin, s + t, from, to, i) <==>
            if i < |s| then Meets(origin, s, from, to, i) else Meets(start, t, from, to, i - |s|)
  {
  }

  /** If both select something, the coarser selection reaches its end and the finer one begins at its start. */
  lemma {:induction false} SelectionsTouch<A>(origin: int, s: seq<Sample<A>>, l: Layer<A>, from: int, to: int,
                                              lo: nat, hi: nat, a: nat, b: nat)
    requires Ascends(origin, s) && Ascends(l.start, l.ring) && l.start == Since(origin, s, |s|)
    requires Selects(origin, s, from, to, lo, hi) && LayerSelects(l, from, to, a, b)
    requires lo < hi && a < b
    ensures hi == |s| && a == 0
  {
    assert Meets(origin, s, from, to, lo);
    assert from < s[lo].time <= s[|s| - 1].time == l.start < to;
    assert Meets(origin, s, from, to, |s| - 1) by {
      if |s| >= 2 { assert s[|s| - 2].time < s[|s| - 1].time; }
    }
    assert Meets(l.start, l.ring, from, to, 0);
  }

  lemma {:induction false} JoinSelects<A>(origin: int, s: seq<Sample<A>>, start: int, t: seq<Sample<A>>, from: int,
                                          to: int, lo: nat, hi: nat, a: nat, b: nat)
    requires start == Since(origin, s, |s|)
    requires Selects(origin, s, from, to, lo, hi) && Selects(start, t, from, to, a, b)
    requires lo < hi && a < b ==> hi == |s| && a == 0
    ensures var lo' := if lo < hi || a == b then lo else |s| + a;
            var hi' := if a < b then |s| + b else hi;
            Selects(origin, s + t, from, to, lo', hi')
  {
    var lo' := if lo < hi || a == b then lo else |s| + a;
    var hi' := if a < b then |s| + b else hi;
    forall i | 0 <= i < |s + t| ensures lo' <= i < hi' <==> Meets(origin, s + t, from, to, i) {
      MeetsJoined(origin, s, start, t, from, to, i);
    }
  }

  lemma {:induction false} TimesJoin<A>(s: seq<Sample<A>>, t: seq<Sample<A>>)
    ensures TimesOf(s + t) == TimesOf(s) + TimesOf(t)
    ensures AxesOf(s + t) == AxesOf(s) + AxesOf(t)
  {
    assert TimesOf(s + t) == TimesOf(s) + TimesOf(t);
    assert AxesOf(s + t) == AxesOf(s) + AxesOf(t);
  }

  /** What one layer adds to the boundary times of the coarser layers. */
  function AddedTimes<A>(l: Layer<A>, a: nat, b: nat, first: bool): seq<int>
    requires a <= b <= |l.ring|
  {
    if a == b then [] else (if first then [Since(l.start, l.ring, a)] else []) + TimesOf(l.ring[a..b])
  }

  lemma {:induction false} SlicesJoined<T>(s: seq<T>, t: seq<T>, lo: nat, hi: nat, a: nat, b: nat)
    requires lo <= hi <= |s| && a <= b <= |t|
    ensures (s + t)[lo..hi] == s[lo..hi]
    ensures (s + t)[|s| + a..|s| + b] == t[a..b]
    ensures (s + t)[lo..|s| + b] == s[lo..|s|] + t[0..b]
  {
    assert (s + t)[lo..hi] == s[lo..hi];
    assert (s + t)[|s| + a..|s| + b] == t[a..b];
    assert (s + t)[lo..|s| + b] == s[lo..|s|] + t[0..b];
  }

  /** Both layers are shown. */
  lemma {:induction false} BothShown<A>(origin: int, s: seq<Sample<A>>, t: seq<Sample<A>>, lo: nat, b: nat)
    requires lo < |s| && 0 < b <= |t|
    ensures Boundaries(origin, s + t, lo, |s| + b) == Boundaries(origin, s, lo, |s|) + TimesOf(t[0..b])
    ensures AxesOf((s + t)[lo..|s| + b]) == AxesOf(s[lo..|s|]) + AxesOf(t[0..b])
  {
    SlicesJoined(s, t, lo, |s|, 0, b);
    TimesJoin(s[lo..|s|], t[0..b]);
    var x, y, z := [Since(origin, s, lo)], TimesOf(s[lo..|s|]), TimesOf(t[0..b]);
    assert x + (y + z) == x + y + z;
  }

  /** Only the finer layer is shown. */
  lemma {:induction false} FinerShown<A>(origin: int, s: seq<Sample<A>>, l: Layer<A>, a: nat, b: nat)
    requires l.start == Since(origin, s, |s|) && a < b <= |l.ring|
    ensures Boundaries(origin, s + l.ring, |s| + a, |s| + b) == AddedTimes(l, a, b, true)
    ensures AxesOf((s + l.ring)[|s| + a..|s| + b]) == AxesOf(l.ring[a..b])
  {
    SlicesJoined(s, l.ring, 0, 0, a, b);
  }

  lemma {:induction false} JoinShows<A>(origin: int, s: seq<Sample<A>>, l: Layer<A>, times: seq<int>, axes: seq<A>,
                                        lo: nat, hi: nat, a: nat, b: nat)
    requires l.start == Since(origin, s, |s|) && Shows(origin, s, lo, hi, times, axes) && a <= b <= |l.ring|
    requires lo < hi && a < b ==> hi == |s| && a == 0
    ensures var lo' := if lo < hi || a == b then lo else |s| + a;
            var hi' := if a < b then |s| + b else hi;
            Shows(origin, s + l.ring, lo', hi',
                  times + AddedTimes(l, a, b, times == []), axes + AxesOf(l.ring[a..b]))
  {
    if a == b {
      SlicesJoined(s, l.ring, lo, hi, a, b);
      assert times + [] == times && axes + [] == axes;
    } else if lo < hi {
      BothShown(origin, s, l.ring, lo, b);
      assert [] + TimesOf(l.ring[0..b]) == TimesOf(l.ring[0..b]);
    } else {
      FinerShown(origin, s, l, a, b);
      var t, x := AddedTimes(l, a, b, true), AxesOf(l.ring[a..b]);
      assert [] + t == t && [] + x == x;
    }
  }

  /** The answer over coarser layers joins up with what a finer layer adds. */
  lemma {:induction false} JoinAnswers<A>(origin: int, s: seq<Sample<A>>, l: Layer<A>, from: int, to: int,
                                          times: seq<int>, axes: seq<A>, a: nat, b: nat)
    requires Ascends(origin, s) && Ascends(l.start, l.ring) && l.start == Since(origin, s, |s|)
    requires Answers(origin, s, from, to, times, axes) && LayerSelects(l, from, to, a, b)
    ensures Answers(origin, s + l.ring, from, to,
                    times + AddedTimes(l, a, b, times == []), axes + AxesOf(l.ring[a..b]))
  {
    var lo: nat, hi: nat :| Selects(origin, s, from, to, lo, hi) && Shows(origin, s, lo, hi, times, axes);
    if lo < hi && a < b { SelectionsTouch(origin, s, l, from, to, lo, hi, a, b); }
    JoinSelects(origin, s, l.start, l.ring, from, to, lo, hi, a, b);
    JoinShows(origin, s, l, times, axes, lo, hi, a, b);
  }

  /** What an answer is: the selected intervals in order, each between the times before and after its axis. */
  lemma {:induction false} AnswerMeans<A>(origin: int, s: seq<Sample<A>>, from: int, to: int, times: seq<int>,
                                          axes: seq<A>)
    returns (lo: nat)
    requires Answers(origin, s, from, to, times, axes) && axes != []
    ensures lo + |axes| <= |s| && |times| == |axes| + 1
    ensures forall i :: 0 <= i < |s| ==> (lo <= i < lo + |axes| <==> Meets(origin, s, from, to, i))
    ensures times[0] == if lo == 0 then origin else s[lo - 1].time
    ensures forall i :: 0 <= i < |axes| ==> axes[i] == s[lo + i].axis && times[i + 1] == s[lo + i].time
  {
    var hi: nat;
    lo, hi :| Selects(origin, s, from, to, lo, hi) && Shows(origin, s, lo, hi, times, axes);
    forall i | 0 <= i < |axes| ensures axes[i] == s[lo + i].axis && times[i + 1] == s[lo + i].time {
      assert s[lo..hi][i] == s[lo + i];
      assert times[i + 1] == TimesOf(s[lo..hi])[i];
    }
  }

  /** A timeline has one answer: its times are one more than its axes, or both are empty. */
  lemma {:induction false} AnswerShape<A>(origin: int, s: seq<Sample<A>>, from: int, to: int, times: seq<int>,
                                          axes: seq<A>)
    requires Answers(origin, s, from, to, times, axes)
    ensures times == [] <==> axes == []
    ensures times != [] ==> |times| == |axes| + 1
    ensures times == [] <==> forall i :: 0 <= i < |s| ==> !Meets(origin, s, from, to, i)
  {
    var lo: nat, hi: nat :| Selects(origin, s, from, to, lo, hi) && Shows(origin, s, lo, hi, times, axes);
    if lo < hi { assert Meets(origin, s, from, to, lo); }
  }
}
