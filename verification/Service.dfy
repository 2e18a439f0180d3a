/**
 A request for the heat map, answered from the store.
 */
module Service {
  import opened Basics
  import opened Keys
  import opened Layers
  import opened Timeline
  import opened Axes
  import opened Matrices
  import opened Heat
  import opened Stats

  /** Every sample of a chain of stored axes is one. */
  lemma {:induction false} SamplesStored(c: Chain<Axis>, bound: nat)
    requires ChainOk(IsStorable(bound), c)
    ensures forall i :: 0 <= i < |Samples(c)| ==> Stored(Samples(c)[i].axis)
    decreases c
  {
    forall i | 0 <= i < |c.top.ring| ensures Stored(c.top.ring[i].axis) {
      assert IsStorable(bound)(AxesOf(c.top.ring)[i]);
    }
    if c.Link? { SamplesStored(c.rest, bound); }
  }

  /** What all stored axes among the samples show for a tag. */
  function AllShown(s: seq<Sample<Axis>>, tag: StatTag): nat {
    if s == [] then 0
    else
      var axis := s[|s| - 1].axis;
      AllShown(s[..|s| - 1], tag) + if Stored(axis) then ShownTotal(axis, tag) else 0
  }

  /** Consecutive samples show no more than all. */
  lemma {:induction false} SliceShown(s: seq<Sample<Axis>>, lo: nat, hi: nat, tag: StatTag)
    requires (forall i :: 0 <= i < |s| ==> Stored(s[i].axis)) && lo <= hi <= |s|
    ensures forall i :: 0 <= i < hi - lo ==> Stored(AxesOf(s[lo..hi])[i])
    ensures ShownTotals(AxesOf(s[lo..hi]), tag) <= AllShown(s, tag)
    decreases |s|
  {
    if lo == hi {
      assert AxesOf(s[lo..hi]) == [];
    } else if hi < |s| {
      SliceShown(s[..|s| - 1], lo, hi, tag);
      assert s[..|s| - 1][lo..hi] == s[lo..hi];
    } else {
      SliceShown(s[..hi - 1], lo, hi - 1, tag);
      LastShown(s, lo, hi, tag);
    }
  }

  lemma {:induction false} LastShown(s: seq<Sample<Axis>>, lo: nat, hi: nat, tag: StatTag)
    requires lo < hi == |s| && forall i :: 0 <= i < |s| ==> Stored(s[i].axis)
    ensures var axes, before := AxesOf(s[lo..hi]), AxesOf(s[..hi - 1][lo..hi - 1]);
            && (forall i :: 0 <= i < |axes| ==> Stored(axes[i]))
            && (forall i :: 0 <= i < |before| ==> Stored(before[i]))
            && ShownTotals(axes, tag) == ShownTotals(before, tag) + ShownTotal(s[hi - 1].axis, tag)
  {
    var axes, before := AxesOf(s[lo..hi]), AxesOf(s[..hi - 1][lo..hi - 1]);
    assert axes[..|axes| - 1] == before;
  }

  /** The answer of the store to a time range can be displayed. */
  lemma {:induction false} AnswerStored(origin: int, s: seq<Sample<Axis>>, from: int, to: int, times: seq<int>,
                                        axes: seq<Axis>, tag: StatTag)
    requires (forall i :: 0 <= i < |s| ==> Stored(s[i].axis)) && Answers(origin, s, from, to, times, axes)
    ensures (forall i :: 0 <= i < |axes| ==> Stored(axes[i])) && ShownTotals(axes, tag) <= AllShown(s, tag)
    ensures if times == [] then axes == [] else |times| == |axes| + 1
  {
    var lo: nat, hi: nat :| Selects(origin, s, from, to, lo, hi) && Shows(origin, s, lo, hi, times, axes);
    SliceShown(s, lo, hi, tag);
    AnswerShape(origin, s, from, to, times, axes);
  }

  /**
   A whole request, from the store to the matrix: in every state the store can be in, it never panics, the
   matrix shows exactly the stored intervals that meet the time range, and of them the keys that intersect
   the key range.
   */
  method Request(s: Stat, from: int, to: int, startKey: Key, endKey: Key, tag: StatTag, target: nat)
    returns (m: Matrix, ghost times: seq<int>, ghost axes: seq<Axis>)
    requires s.Built() && s.Valid() && s.Consistent() && s.Good()
    requires from < to && Below(Fin(startKey), EndBound(endKey)) && target != 1
    requires AllShown(Samples(s.Views()), tag) < TWO_TO_63
    ensures Answers(Origin(s.Views()), Samples(s.Views()), from, to, times, axes)
    ensures (forall i :: 0 <= i < |axes| ==> Stored(axes[i])) && WithinRequest(axes, startKey, endKey, tag, m)
    ensures IsHeatmap(s.strategy, s.border, axes, startKey, endKey, tag, target, m)
  {
    var found, shown := s.RangeRoot(from, to);
    times, axes := found, shown;
    SamplesStored(s.Views(), s.bound);
    AnswerStored(Origin(s.Views()), Samples(s.Views()), from, to, times, axes, tag);
    m := Heatmap(s.strategy, s.border, found, shown, startKey, endKey, tag, target);
  }
}
