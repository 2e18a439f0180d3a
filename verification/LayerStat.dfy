/**
 One layer of the time series: a ring buffer of fixed length, mirrored row by row in the database,
 that passes compacted samples on to the next layer.
 */
module LayerStats {
  import opened Layers
  import opened Ring
  import opened Timeline
  import opened Axes
  import opened Database
  import opened Basics
  import opened Focus
  import opened Planes
  import opened Reduction
  import opened Heat

  class LayerStat {
    var startTime: int
    var endTime: int
    const ringAxes: array<Axis>
    const ringTimes: array<int>
    const layerNum: nat
    var head: nat
    var tail: nat
    var empty: bool
    const len: nat
    const db: Db
    const strategy: Strategy
    const border: Border
    const ratio: nat
    const next: LayerStat?

    /** The number of samples in the ring, which `head`, `tail` and `empty` encode. */
    ghost var count: nat
    /** This layer and the ones after it, with their arrays. */
    ghost const repr: set<object>
    /** How many layers follow. */
    ghost const depth: nat
    /** What the written and read bytes of every stored axis stay below. */
    ghost const bound: nat

    /** The reduction of a full layer, as a function of its axes. */
    ghost function Compact(): Compaction<Axis> {
      KeyVisual(strategy, border)
    }

    /** The fixed structure of the chain. */
    ghost predicate Linked()
      decreases depth
    {
      && {this, ringAxes, ringTimes} <= repr && db !in repr
      && ringAxes.Length == ringTimes.Length == len >= 1
      && (next == null <==> depth == 0) && (strategy.DistanceStrategy? ==> strategy.settings.Valid())
      && (next != null ==>
            && next.depth < depth && next.repr <= repr && {this, ringAxes, ringTimes} !! next.repr
            && next.layerNum == layerNum + 1 && next.db == db && next.SameReduction(strategy, border, bound)
            && 1 <= ratio <= len && ratio * bound <= TWO_TO_63 && next.Linked())
    }

    ghost predicate SameReduction(strategy: Strategy, border: Border, bound: nat) {
      this.strategy == strategy && this.border == border && this.bound == bound
    }

    /** `head` and `tail` delimit the samples. */
    ghost predicate RingOk()
      reads this
    {
      && ringAxes.Length == ringTimes.Length == len
      && head < len && count <= len && tail == Slot(head, len, count)
    }

    /** This layer, as a value. */
    ghost function View(): (l: Layer<Axis>)
      requires RingOk()
      reads this, ringAxes, ringTimes
    {
      Layer(LayerConfig(len, ratio), startTime, Held(ringTimes[..], ringAxes[..], head, count))
    }

    /** Between operations the flag tells an empty ring from a full one, and the end time is up to date. */
    ghost predicate Stable()
      reads this, ringAxes, ringTimes
    {
      RingOk() && (empty <==> count == 0) && endTime == View().End()
    }

    ghost predicate Valid()
      requires Linked()
      reads repr
      decreases depth
    {
      Stable() && (next != null ==> next.Valid())
    }

    /** This layer and the ones after it, as values. */
    ghost function Views(): (c: Chain<Axis>)
      requires Linked() && Valid()
      reads repr
      ensures Sized(c) && c.top == View()
      decreases depth
    {
      if next == null then Last(View()) else Link(View(), next.Views())
    }

    /** Every axis in the layers is a stored axis within the bound. */
    ghost predicate Good()
      requires Linked() && Valid()
      reads repr
    {
      ChainOk(IsStorable(bound), Views())
    }

    constructor (layerNum: nat, conf: LayerConfig, strategy: Strategy, border: Border, startTime: int, db: Db,
                 next: LayerStat?, ghost bound: nat)
      requires conf.len >= 1 && (strategy.DistanceStrategy? ==> strategy.settings.Valid())
      requires next != null ==>
                 && next.Linked() && next.layerNum == layerNum + 1 && next.db == db
                 && next.SameReduction(strategy, border, bound)
                 && 1 <= conf.ratio <= conf.len && conf.ratio * bound <= TWO_TO_63
      ensures Linked() && Stable() && fresh(repr - (if next == null then {} else next.repr))
      ensures View() == Layer(conf, startTime, []) && SameReduction(strategy, border, bound)
      ensures this.next == next && this.layerNum == layerNum && this.db == db
    {
      this.startTime, this.endTime := startTime, startTime;
      this.ringAxes := new Axis[conf.len](_ => Axis([], []));
      this.ringTimes := new int[conf.len](_ => 0);
      this.layerNum := layerNum;
      this.head, this.tail, this.empty := 0, 0, true;
      this.len, this.ratio := conf.len, conf.ratio;
      this.db, this.strategy, this.border, this.next := db, strategy, border, next;
      this.bound := bound;
      this.count := 0;
      this.repr := {this, this.ringAxes, this.ringTimes} + if next == null then {} else next.repr;
      this.depth := if next == null then 0 else next.depth + 1;
    }

    /** The ring part of giving up the oldest sample. */
    method DropOldest() returns (s: Sample<Axis>)
      requires RingOk() && count > 0
      modifies this, ringAxes
      ensures RingOk() && View() == Popped(old(View()), 1) && s == old(View().ring[0])
      ensures count == old(count) - 1 && tail == old(tail) && empty == old(empty) && endTime == old(endTime)
    {
      HeadMoved(ringTimes[..], ringAxes[..], head, count, Axis([], []));
      SlotIsMod(head, len, 1);
      ghost var axes := ringAxes[..][head := Axis([], [])];
      startTime := ringTimes[head];
      s := Sample(ringTimes[head], ringAxes[head]);
      ringAxes[head] := Axis([], []);
      assert ringAxes[..] == axes;
      head := (head + 1) % len;
      count := count - 1;
    }

    /** The ring part of `Append`. */
    method Push(axis: Axis, end: int)
      requires RingOk() && count < len
      modifies this, ringAxes, ringTimes
      ensures Stable() && View() == Pushed(old(View()), Sample(end, axis))
    {
      TailWritten(ringTimes[..], ringAxes[..], head, count, Sample(end, axis));
      SlotIsMod(head, len, count);
      SlotIsMod(tail, len, 1);
      ghost var times, axes := ringTimes[..][tail := end], ringAxes[..][tail := axis];
      ringAxes[tail] := axis;
      ringTimes[tail] := end;
      assert ringTimes[..] == times && ringAxes[..] == axes;
      empty := false;
      endTime := end;
      tail := (tail + 1) % len;
      count := count + 1;
    }

    /** A newest sample, and its row. */
    method PushRow(axis: Axis, end: int)
      requires RingOk() && count < len
      modifies this, ringAxes, ringTimes, db
      ensures Stable() && View() == Pushed(old(View()), Sample(end, axis))
      ensures db.rows == InsertRow(old(db.rows), RowId(layerNum, end), axis) && db.hasTable == old(db.hasTable)
    {
      var _ := db.Insert(layerNum, end, axis);
      Push(axis, end);
    }

    /** After i of the oldest samples of l have left, with n - i still to leave the ring and the table. */
    ghost predicate Popping(l: Layer<Axis>, rows: Rows, i: nat, n: nat, axes: seq<Axis>)
      reads this, ringAxes, ringTimes, db
    {
      && RingOk() && i <= n <= |l.ring| && count == |l.ring| - i && View() == Without(l, i)
      && axes == AxesOf(l.ring[..i]) && DropRows(db.rows, layerNum, View(), n - i) == rows
    }

    /** The oldest sample leaves, and its row becomes the marker. */
    method PopOne(before: seq<Axis>, ghost l: Layer<Axis>, ghost rows: Rows, ghost i: nat, ghost n: nat)
      returns (axes: seq<Axis>)
      requires db as object !in {this, ringAxes} && i < n && Popping(l, rows, i, n, before)
      modifies this, ringAxes, db
      ensures Popping(l, rows, i + 1, n, axes)
      ensures tail == old(tail) && empty == old(empty) && db.hasTable == old(db.hasTable)
    {
      WithoutNext(l, i);
      db.Delete(layerNum, startTime);
      var s := DropOldest();
      axes := before + [s.axis];
    }

    /** The n oldest samples leave one by one, and each time the next row becomes the marker. */
    method PopMany(n: nat) returns (axes: seq<Axis>)
      requires RingOk() && 1 <= n <= count && db as object !in {this, ringAxes}
      modifies this, ringAxes, db
      ensures RingOk() && View() == Popped(old(View()), n) && axes == AxesOf(old(View()).ring[..n])
      ensures count == old(count) - n && tail == old(tail) && empty == old(empty)
      ensures db.rows == DropRows(old(db.rows), layerNum, old(View()), n) && db.hasTable == old(db.hasTable)
    {
      ghost var l, rows := View(), DropRows(db.rows, layerNum, View(), n);
      axes := [];
      assert AxesOf(l.ring[..0]) == [];
      for i := 0 to n
        invariant Popping(l, rows, i, n, axes)
        invariant tail == old(tail) && empty == old(empty) && db.hasTable == old(db.hasTable)
      {
        axes := PopOne(axes, l, rows, i, n);
      }
    }

    /** This layer, with whatever follows it, between the steps of an append. */
    ghost function Now(): Chain<Axis>
      requires Linked() && RingOk() && (next != null ==> next.Valid())
      reads repr
    {
      if next == null then Last(View()) else Link(View(), next.Views())
    }

    /** A full layer gives up its oldest samples: into one sample of the next layer, or for good. */
    method Reduce()
      requires Linked() && Valid() && Good() && count == len
      modifies repr, db
      ensures RingOk() && count < len && (next != null ==> next.Valid())
      ensures Now() == Reduced(Compact(), old(Views()))
      ensures db.rows == ReducedRows(Compact(), old(db.rows), layerNum, old(Views()))
      ensures db.hasTable == old(db.hasTable)
      decreases depth, 1
    {
      if ratio == 0 || next == null {
        var s := PopMany(1);
        return;
      }
      ghost var l, rest, rows := View(), next.Views(), db.rows;
      PassOn();
      ReducedLink(Compact(), rows, layerNum, l, rest);
    }

    /** The sample a full layer passes on. */
    ghost function Passed(l: Layer<Axis>): Sample<Axis>
      requires 1 <= ratio <= |l.ring|
    {
      Sample(Popped(l, ratio).start, Compact()(AxesOf(l.ring[..ratio])))
    }

    /** The oldest axes of a full layer, reduced to one. */
    method ReduceOldest(axes: seq<Axis>, ghost l: Layer<Axis>) returns (newAxis: Axis)
      requires (strategy.DistanceStrategy? ==> strategy.settings.Valid()) && ratio * bound <= TWO_TO_63
      requires 1 <= ratio <= |l.ring| && axes == AxesOf(l.ring[..ratio]) && AllOk(IsStorable(bound), AxesOf(l.ring))
      ensures newAxis == Compact()(axes) && Storable(newAxis, bound)
    {
      OldestStorable(l.ring, bound, ratio);
      newAxis := ReduceAxes(strategy, border, axes, bound);
      KeyVisualIs(strategy, border, axes, bound, newAxis);
    }

    /** The oldest samples go on to the next layer as one. */
    method PassOn()
      requires Linked() && Valid() && Good() && count == len && ratio != 0 && next != null
      modifies repr, db
      ensures RingOk() && count < len && View() == Popped(old(View()), ratio) && next.Valid()
      ensures next.Views() == Layers.Append(Compact(), old(next.Views()), Passed(old(View())))
      ensures db.rows == AppendRows(Compact(), DropRows(old(db.rows), layerNum, old(View()), ratio), layerNum + 1,
                                    old(next.Views()), Passed(old(View())))
      ensures db.hasTable == old(db.hasTable)
      decreases depth, 0
    {
      ghost var l, rest := View(), next.Views();
      var axes := PopMany(ratio);
      assert next.Valid() && next.Views() == rest;
      var newAxis := ReduceOldest(axes, l);
      next.Append(newAxis, startTime);
      assert View() == Popped(l, ratio);
    }

    /** A full layer makes room. */
    method MakeRoom()
      requires Linked() && Valid() && Good()
      modifies repr, db
      ensures RingOk() && count < len && (next != null ==> next.Valid())
      ensures Now() == if old(count) < len then old(Views()) else Reduced(Compact(), old(Views()))
      ensures db.rows == if old(count) < len then old(db.rows)
                         else ReducedRows(Compact(), old(db.rows), layerNum, old(Views()))
      ensures db.hasTable == old(db.hasTable)
      decreases depth, 2
    {
      if head == tail && !empty {
        Reduce();
      }
    }

    /** `Append` acts on the chain and on the table as the value model says. */
    method Append(axis: Axis, end: int)
      requires Linked() && Valid() && Good()
      modifies repr, db
      ensures Valid()
      ensures Views() == Layers.Append(Compact(), old(Views()), Sample(end, axis))
      ensures db.rows == AppendRows(Compact(), old(db.rows), layerNum, old(Views()), Sample(end, axis))
      ensures db.hasTable == old(db.hasTable)
      decreases depth, 3
    {
      MakeRoom();
      PushTop(axis, end);
    }

    /** A newest sample in a layer with room, and its row. */
    method PushTop(axis: Axis, end: int)
      requires Linked() && RingOk() && count < len && (next != null ==> next.Valid())
      modifies repr, db
      ensures Valid() && Views() == old(Now()).(top := Pushed(old(Now()).top, Sample(end, axis)))
      ensures db.rows == InsertRow(old(db.rows), RowId(layerNum, end), axis) && db.hasTable == old(db.hasTable)
    {
      ghost var room := Now();
      PushRow(axis, end);
      assert Views() == room.(top := View());
    }

    /** Load a layer from its rows in time order; the first row only marks the start. */
    method Load(found: seq<Sample<Axis>>)
      requires RingOk() && empty && count == 0 && len >= 1 && |found| >= 1
      modifies this, ringAxes, ringTimes, db
      ensures Stable() && db.hasTable == old(db.hasTable)
      ensures var n := if |found| - 1 <= len then |found| - 1 else len;
              View() == Layer(LayerConfig(len, ratio), found[0].time, found[1..n + 1])
      ensures forall id :: id in db.rows <==>
                id in old(db.rows) && forall i :: len + 1 <= i < |found| ==> id != RowId(layerNum, found[i].time)
      ensures forall id :: id in db.rows ==> db.rows[id] == old(db.rows)[id]
    {
      if |found| > 1 { empty := false; }
      startTime := found[0].time;
      head := 0;
      var n := |found| - 1;
      if n > len {
        TrimRows(found);
        n := len;
      }
      endTime := found[n].time;
      ModWraps(n, len);
      tail := (head + n) % len;
      FillRing(found[1..n + 1]);
      count := n;
      assert View().ring == found[1..n + 1];
    }

    /** Delete the rows that do not fit the layer. */
    method TrimRows(found: seq<Sample<Axis>>)
      requires |found| > len
      modifies db
      ensures db.hasTable == old(db.hasTable)
      ensures forall id :: id in db.rows <==>
                id in old(db.rows) && forall i :: len + 1 <= i < |found| ==> id != RowId(layerNum, found[i].time)
      ensures forall id :: id in db.rows ==> db.rows[id] == old(db.rows)[id]
    {
      for j := len + 1 to |found|
        invariant db.hasTable == old(db.hasTable)
        invariant forall id :: id in db.rows <==>
                    id in old(db.rows) && forall i :: len + 1 <= i < j ==> id != RowId(layerNum, found[i].time)
        invariant forall id :: id in db.rows ==> db.rows[id] == old(db.rows)[id]
      {
        db.Delete(layerNum, found[j].time);
      }
    }

    /** Copy samples to the front of the ring. */
    method FillRing(s: seq<Sample<Axis>>)
      requires ringAxes.Length == ringTimes.Length && |s| <= ringTimes.Length
      modifies ringAxes, ringTimes
      ensures forall i :: 0 <= i < |s| ==> ringTimes[i] == s[i].time && ringAxes[i] == s[i].axis
    {
      for i := 0 to |s|
        invariant forall j :: 0 <= j < i ==> ringTimes[j] == s[j].time && ringAxes[j] == s[j].axis
      {
        ringTimes[i] := s[i].time;
        ringAxes[i] := s[i].axis;
      }
    }

    /** The samples of this ring whose intervals meet the time range, found by two binary searches. */
    method SelectOwn(from: int, to: int) returns (a: nat, b: nat)
      requires Stable() && Ascends(View().start, View().ring) && from < to
      requires !empty && from < endTime && to > startTime
      ensures a < b <= count && LayerSelects(View(), from, to, a, b)
    {
      var size := tail - head;
      if size <= 0 { size := size + len; }
      ghost var l := View();
      a := SearchTimes(ringTimes[..], head, size, from, true, l.ring);
      b := SearchTimes(ringTimes[..], head, size, to, false, l.ring);
      if b != size { b := b + 1; }
      SearchSelects(l, from, to, a, b);
    }

    /** The time at which sample a starts. */
    method TimeBefore(a: nat) returns (t: int)
      requires RingOk() && a < count
      ensures t == Since(View().start, View().ring, a)
    {
      SlotIsMod(head, len, a);
      var start := (head + a) % len;
      if start == head {
        t := startTime;
      } else {
        SlotBefore(head, len, a);
        t := ringTimes[(start - 1 + len) % len];
      }
    }

    /** The samples [a, b), read out of the ring in one slice, or in two where they wrap. */
    method ReadRing(a: nat, b: nat) returns (times: seq<int>, axes: seq<Axis>)
      requires RingOk() && a < b <= count
      ensures times == TimesOf(View().ring[a..b]) && axes == AxesOf(View().ring[a..b])
    {
      SlotIsMod(head, len, a);
      HeldSlice(ringTimes[..], ringAxes[..], head, count, a, b);
      var start, n := (head + a) % len, b - a;
      if start + n <= len {
        times, axes := ringTimes[start..start + n], ringAxes[start..start + n];
      } else {
        times := ringTimes[start..len] + ringTimes[0..start + n - len];
        axes := ringAxes[start..len] + ringAxes[0..start + n - len];
      }
    }

    /** What this layer adds to the answer; the start time only where it comes first. */
    method ReadOwn(a: nat, b: nat, first: bool) returns (times: seq<int>, axes: seq<Axis>)
      requires RingOk() && a < b <= count
      ensures times == AddedTimes(View(), a, b, first) && axes == AxesOf(View().ring[a..b])
    {
      times, axes := ReadRing(a, b);
      if first {
        var t := TimeBefore(a);
        times := [t] + times;
      }
    }

    /**
     `Range` answers for the whole chain: exactly the intervals of the timeline that meet the time
     range, coarsest first, contiguous across layers and across the wrap of each ring.
     */
    method Range(from: int, to: int) returns (times: seq<int>, axes: seq<Axis>)
      requires Linked() && Valid() && Chained(Views()) && from < to
      ensures Answers(Origin(Views()), Samples(Views()), from, to, times, axes)
      decreases depth
    {
      times, axes := [], [];
      if next != null {
        times, axes := next.Range(from, to);
      }
      times, axes := AddOwn(from, to, times, axes);
    }

    /** The answer of the coarser layers, with what this layer adds. */
    method AddOwn(from: int, to: int, before: seq<int>, axesBefore: seq<Axis>)
      returns (times: seq<int>, axes: seq<Axis>)
      requires Linked() && Valid() && Chained(Views()) && from < to
      requires AnswersRest(Views(), from, to, before, axesBefore)
      ensures Answers(Origin(Views()), Samples(Views()), from, to, times, axes)
    {
      if empty || !(from < endTime && to > startTime) {
        SkipLayer(Views(), from, to, before, axesBefore);
        return before, axesBefore;
      }
      times, axes := AddSelected(from, to, before, axesBefore);
    }

    /** The samples of this ring that meet the time range are added. */
    method AddSelected(from: int, to: int, before: seq<int>, axesBefore: seq<Axis>)
      returns (times: seq<int>, axes: seq<Axis>)
      requires Linked() && Valid() && Chained(Views()) && from < to
      requires AnswersRest(Views(), from, to, before, axesBefore)
      requires !empty && from < endTime && to > startTime
      ensures Answers(Origin(Views()), Samples(Views()), from, to, times, axes)
    {
      var a, b := SelectOwn(from, to);
      AddLayer(Views(), from, to, before, axesBefore, a, b);
      var ts, xs := ReadOwn(a, b, before == []);
      times, axes := before + ts, axesBefore + xs;
    }
  }

  /** What the coarser layers answer. */
  ghost predicate AnswersRest(c: Chain<Axis>, from: int, to: int, times: seq<int>, axes: seq<Axis>) {
    if c.Last? then times == [] && axes == [] else Answers(Origin(c.rest), Samples(c.rest), from, to, times, axes)
  }

  /** What a full layer passes on, and what that does to the rows. */
  lemma {:induction false} ReducedLink(f: Compaction<Axis>, rows: Rows, k: nat, l: Layer<Axis>, rest: Chain<Axis>)
    requires Sized(Link(l, rest)) && |l.ring| == l.conf.len && l.conf.ratio != 0
    ensures var n := l.conf.ratio;
            var x := Sample(Popped(l, n).start, f(AxesOf(l.ring[..n])));
            && Reduced(f, Link(l, rest)) == Link(Popped(l, n), Layers.Append(f, rest, x))
            && ReducedRows(f, rows, k, Link(l, rest)) == AppendRows(f, DropRows(rows, k, l, n), k + 1, rest, x)
  {
    assert l.ring[..l.conf.ratio][l.conf.ratio - 1] == l.ring[l.conf.ratio - 1];
  }

  lemma {:induction false} SlotBefore(head: nat, len: nat, a: nat)
    requires head < len && 0 < a < len
    ensures Slot(head, len, a) != head
    ensures (Slot(head, len, a) - 1 + len) % len == Slot(head, len, a - 1)
  {
    ModWraps(Slot(head, len, a) - 1 + len, len);
  }

  /** The least sample after `from`, and the one past the first not before `to`, delimit the selection. */
  lemma {:induction false} SearchSelects(l: Layer<Axis>, from: int, to: int, a: nat, b: nat)
    requires Ascends(l.start, l.ring) && l.ring != [] && from < l.End() && to > l.start && from < to
    requires a <= |l.ring| && forall i :: 0 <= i < |l.ring| ==> (l.ring[i].time > from <==> a <= i)
    requires b <= |l.ring| && 0 < b
    requires forall i :: 0 <= i < |l.ring| - 1 ==> (l.ring[i].time >= to <==> b <= i + 1)
    ensures a < b && LayerSelects(l, from, to, a, b)
  {
    var n := |l.ring|;
    assert a < n by { assert l.ring[n - 1].time > from; }
    assert b < n ==> l.ring[b - 1].time >= to;
    forall i | 0 <= i < n ensures a <= i < b <==> Meets(l.start, l.ring, from, to, i) {
      if i > 0 { assert l.ring[i - 1].time >= to <==> b <= i; }
    }
  }

  lemma {:induction false} SkipLayer(c: Chain<Axis>, from: int, to: int, times: seq<int>, axes: seq<Axis>)
    requires Chained(c) && (c.top.ring == [] || !(from < c.top.End() && to > c.top.start))
    requires AnswersRest(c, from, to, times, axes)
    ensures Answers(Origin(c), Samples(c), from, to, times, axes)
  {
    assert LayerSelects(c.top, from, to, 0, 0);
    AddLayer(c, from, to, times, axes, 0, 0);
    assert times + [] == times && axes + AxesOf(c.top.ring[0..0]) == axes;
  }

  lemma {:induction false} AddLayer(c: Chain<Axis>, from: int, to: int, times: seq<int>, axes: seq<Axis>, a: nat,
                                    b: nat)
    requires Chained(c) && LayerSelects(c.top, from, to, a, b)
    requires AnswersRest(c, from, to, times, axes)
    ensures Answers(Origin(c), Samples(c), from, to,
                    times + AddedTimes(c.top, a, b, times == []), axes + AxesOf(c.top.ring[a..b]))
  {
    if c.Last? {
      var t, x := AddedTimes(c.top, a, b, true), AxesOf(c.top.ring[a..b]);
      assert [] + t == t && [] + x == x;
      assert Shows(c.top.start, c.top.ring, a, b, t, x);
    } else {
      SamplesAscend(c.rest);
      JoinAnswers(Origin(c.rest), Samples(c.rest), c.top, from, to, times, axes, a, b);
    }
  }
}
