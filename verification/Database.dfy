/**
 The table that mirrors the layers: one row per stored axis, keyed by layer and time, and in each
 layer one more row, the oldest, whose time marks where the layer starts.
 */
module Database {
  import opened Layers
  import opened Axes

  datatype RowId = RowId(layer: nat, time: int)

  type Rows = map<RowId, Axis>

  /** The rows of layer k are its start marker and the samples of its ring, no others. */
  ghost predicate Mirrors(rows: Rows, k: nat, l: Layer<Axis>) {
    && RowId(k, l.start) in rows
    && (forall i :: 0 <= i < |l.ring| ==>
          RowId(k, l.ring[i].time) in rows && rows[RowId(k, l.ring[i].time)] == l.ring[i].axis)
    && (forall id :: id in rows && id.layer == k ==>
          id.time == l.start || exists i :: 0 <= i < |l.ring| && l.ring[i].time == id.time)
  }

  /** The table mirrors a chain of layers, numbered from k on. */
  ghost predicate MirrorsAll(rows: Rows, k: nat, c: Chain<Axis>)
    decreases c
  {
    Mirrors(rows, k, c.top) && (c.Link? ==> MirrorsAll(rows, k + 1, c.rest))
  }

  // ---------- what the operations of a layer do to the table ----------

  /** Inserting under a unique index. */
  function InsertRow(rows: Rows, id: RowId, axis: Axis): Rows {
    if id in rows then rows else rows[id := axis]
  }

  /** Deleting the marker row n times, as the marker moves on. */
  function DropRows(rows: Rows, k: nat, l: Layer<Axis>, n: nat): Rows
    requires n <= |l.ring|
    decreases n
  {
    if n == 0 then rows else DropRows(rows - {RowId(k, l.start)}, k, Popped(l, 1), n - 1)
  }

  /** The table after a full layer has made room. */
  function ReducedRows(f: Compaction<Axis>, rows: Rows, k: nat, c: Chain<Axis>): Rows
    requires Sized(c) && |c.top.ring| == c.top.conf.len
    decreases c, 0
  {
    var dropped := DropRows(rows, k, c.top, Step(c));
    if c.Last? || c.top.conf.ratio == 0 then dropped
    else AppendRows(f, dropped, k + 1, c.rest, Compacted(f, c.top.ring[..Step(c)]))
  }

  /** The table after a sample is appended to the chain. */
  function AppendRows(f: Compaction<Axis>, rows: Rows, k: nat, c: Chain<Axis>, x: Sample<Axis>): Rows
    requires Sized(c)
    decreases c, 1
  {
    var room := if |c.top.ring| < c.top.conf.len then rows else ReducedRows(f, rows, k, c);
    InsertRow(room, RowId(k, x.time), x.axis)
  }

  // ---------- the table follows the layers ----------

  /** Two tables agree on the rows of the layers in [lo, hi). */
  predicate SameRows(rows: Rows, rows': Rows, lo: nat, hi: nat) {
    && (forall id :: id in rows && lo <= id.layer < hi ==> id in rows' && rows'[id] == rows[id])
    && (forall id :: id in rows' && lo <= id.layer < hi ==> id in rows)
  }

  lemma {:induction false} MirrorsSame(rows: Rows, rows': Rows, k: nat, l: Layer<Axis>, lo: nat, hi: nat)
    requires Mirrors(rows, k, l) && SameRows(rows, rows', lo, hi) && lo <= k < hi
    ensures Mirrors(rows', k, l)
  {
  }

  lemma {:induction false} MirrorsAllSame(rows: Rows, rows': Rows, k: nat, c: Chain<Axis>, lo: nat, hi: nat)
    requires MirrorsAll(rows, k, c) && SameRows(rows, rows', lo, hi) && lo <= k && k + c.Length() <= hi
    ensures MirrorsAll(rows', k, c)
    decreases c
  {
    MirrorsSame(rows, rows', k, c.top, lo, hi);
    if c.Link? { MirrorsAllSame(rows, rows', k + 1, c.rest, lo, hi); }
  }

  /** Inserting a later sample: its key is new, and the mirror follows. */
  lemma {:induction false} MirrorsPushed(rows: Rows, k: nat, l: Layer<Axis>, x: Sample<Axis>)
    requires Mirrors(rows, k, l) && Ascends(l.start, l.ring) && l.End() < x.time
    ensures RowId(k, x.time) !in rows
    ensures Mirrors(InsertRow(rows, RowId(k, x.time), x.axis), k, Pushed(l, x))
  {
    var id := RowId(k, x.time);
    var rows', l' := rows[id := x.axis], Pushed(l, x);
    assert l'.ring[|l.ring|] == x;
    forall d | d in rows' && d.layer == k
      ensures d.time == l'.start || exists i :: 0 <= i < |l'.ring| && l'.ring[i].time == d.time
    {
      if d != id && d.time != l.start {
        var i :| 0 <= i < |l.ring| && l.ring[i].time == d.time;
        assert l'.ring[i] == l.ring[i];
      }
    }
  }

  /** Deleting the marker: the row of the oldest sample becomes the marker. */
  lemma {:induction false} MirrorsPopped(rows: Rows, k: nat, l: Layer<Axis>)
    requires Mirrors(rows, k, l) && Ascends(l.start, l.ring) && l.ring != []
    ensures Mirrors(rows - {RowId(k, l.start)}, k, Popped(l, 1))
  {
    var rows', l' := rows - {RowId(k, l.start)}, Popped(l, 1);
    assert forall i :: 0 <= i < |l.ring| ==> l.start < l.ring[i].time;
    forall d | d in rows' && d.layer == k
      ensures d.time == l'.start || exists i :: 0 <= i < |l'.ring| && l'.ring[i].time == d.time
    {
      var i :| 0 <= i < |l.ring| && l.ring[i].time == d.time;
      if i > 0 { assert l'.ring[i - 1] == l.ring[i]; }
    }
  }

  lemma {:induction false} PoppedTwice(l: Layer<Axis>, n: nat)
    requires 1 < n <= |l.ring|
    ensures Popped(Popped(l, 1), n - 1) == Popped(l, n)
  {
    assert l.ring[1..][n - 1..] == l.ring[n..];
  }

  lemma {:induction false} MirrorsDropped(rows: Rows, k: nat, l: Layer<Axis>, n: nat)
    requires Mirrors(rows, k, l) && Ascends(l.start, l.ring) && 1 <= n <= |l.ring|
    ensures Mirrors(DropRows(rows, k, l, n), k, Popped(l, n))
    decreases n
  {
    MirrorsPopped(rows, k, l);
    if n > 1 {
      var l' := Popped(l, 1);
      PoppedAscends(l, 1);
      MirrorsDropped(rows - {RowId(k, l.start)}, k, l', n - 1);
      PoppedTwice(l, n);
    }
  }

  lemma {:induction false} DropRowsLocal(rows: Rows, k: nat, l: Layer<Axis>, n: nat, lo: nat, hi: nat)
    requires n <= |l.ring| && (k < lo || hi <= k)
    ensures SameRows(rows, DropRows(rows, k, l, n), lo, hi)
    decreases n
  {
    if n > 0 { DropRowsLocal(rows - {RowId(k, l.start)}, k, Popped(l, 1), n - 1, lo, hi); }
  }

  lemma {:induction false} SameRowsTrans(a: Rows, b: Rows, c: Rows, hi: nat)
    requires SameRows(a, b, 0, hi) && SameRows(b, c, 0, hi)
    ensures SameRows(a, c, 0, hi)
  {
  }

  lemma {:induction false} InsertLocal(rows: Rows, id: RowId, axis: Axis)
    ensures SameRows(rows, InsertRow(rows, id, axis), 0, id.layer)
  {
  }

  /** Appending touches no layer before the chain. */
  lemma {:induction false} AppendRowsLocal(f: Compaction<Axis>, rows: Rows, k: nat, c: Chain<Axis>, x: Sample<Axis>)
    requires Sized(c)
    ensures SameRows(rows, AppendRows(f, rows, k, c, x), 0, k)
    decreases c
  {
    var l, id := c.top, RowId(k, x.time);
    if |l.ring| < l.conf.len {
      InsertLocal(rows, id, x.axis);
    } else {
      var dropped := DropRows(rows, k, l, Step(c));
      DropRowsLocal(rows, k, l, Step(c), 0, k);
      var room := dropped;
      if c.Link? && l.conf.ratio != 0 {
        var y := Compacted(f, l.ring[..Step(c)]);
        room := AppendRows(f, dropped, k + 1, c.rest, y);
        AppendRowsLocal(f, dropped, k + 1, c.rest, y);
        SameRowsTrans(rows, dropped, room, k);
      }
      InsertLocal(room, id, x.axis);
      SameRowsTrans(rows, room, InsertRow(room, id, x.axis), k);
    }
  }

  predicate LayersBelow(rows: Rows, n: nat) {
    forall id :: id in rows ==> id.layer < n
  }

  lemma {:induction false} DropRowsBelow(rows: Rows, k: nat, l: Layer<Axis>, m: nat, n: nat)
    requires m <= |l.ring| && LayersBelow(rows, n)
    ensures LayersBelow(DropRows(rows, k, l, m), n)
    decreases m
  {
    if m > 0 { DropRowsBelow(rows - {RowId(k, l.start)}, k, Popped(l, 1), m - 1, n); }
  }

  /** Appending writes no row of a layer beyond the chain. */
  lemma {:induction false} AppendRowsBelow(f: Compaction<Axis>, rows: Rows, k: nat, c: Chain<Axis>, x: Sample<Axis>,
                                           n: nat)
    requires Sized(c) && LayersBelow(rows, n) && k + c.Length() <= n
    ensures LayersBelow(AppendRows(f, rows, k, c, x), n)
    decreases c
  {
    var l := c.top;
    if |l.ring| == l.conf.len {
      DropRowsBelow(rows, k, l, Step(c), n);
      if c.Link? && l.conf.ratio != 0 {
        AppendRowsBelow(f, DropRows(rows, k, l, Step(c)), k + 1, c.rest, Compacted(f, l.ring[..Step(c)]), n);
      }
    }
  }

  /**
   Persistence refines memory: if the table mirrors the chain before a later sample is appended, it
   mirrors it after.
   */
  lemma {:induction false} AppendMirrors(f: Compaction<Axis>, rows: Rows, k: nat, c: Chain<Axis>, x: Sample<Axis>)
    requires Chained(c) && Sized(c) && c.top.End() < x.time && MirrorsAll(rows, k, c)
    ensures MirrorsAll(AppendRows(f, rows, k, c, x), k, Append(f, c, x))
    decreases c
  {
    var l := c.top;
    if |l.ring| < l.conf.len {
      InsertMirrors(rows, k, c, x);
    } else {
      var step := Step(c);
      var dropped := DropRows(rows, k, l, step);
      MirrorsDropped(rows, k, l, step);
      PoppedAscends(l, step);
      if c.Last? {
        InsertMirrors(dropped, k, Last(Popped(l, step)), x);
      } else {
        PassMirrors(f, rows, k, c, step);
        var y := Compacted(f, l.ring[..step]);
        var passed := AppendRows(f, dropped, k + 1, c.rest, y);
        InsertMirrors(passed, k, Link(Popped(l, step), Append(f, c.rest, y)), x);
      }
    }
  }

  /** Dropping the rows of the oldest samples leaves the other layers alone. */
  lemma {:induction false} DropMirrors(rows: Rows, k: nat, c: Chain<Axis>, step: nat)
    requires Chained(c) && c.Link? && MirrorsAll(rows, k, c) && 1 <= step <= |c.top.ring|
    ensures var dropped := DropRows(rows, k, c.top, step);
            Mirrors(dropped, k, Popped(c.top, step)) && MirrorsAll(dropped, k + 1, c.rest)
  {
    var n := k + 1 + c.rest.Length();
    MirrorsDropped(rows, k, c.top, step);
    DropRowsLocal(rows, k, c.top, step, k + 1, n);
    MirrorsAllSame(rows, DropRows(rows, k, c.top, step), k + 1, c.rest, k + 1, n);
  }

  /** Appending to the next layers leaves the rows of this layer alone. */
  lemma {:induction false} AppendSpares(f: Compaction<Axis>, rows: Rows, k: nat, l: Layer<Axis>, rest: Chain<Axis>,
                                        y: Sample<Axis>)
    requires Mirrors(rows, k, l) && Sized(rest)
    ensures Mirrors(AppendRows(f, rows, k + 1, rest, y), k, l)
  {
    AppendRowsLocal(f, rows, k + 1, rest, y);
    MirrorsSame(rows, AppendRows(f, rows, k + 1, rest, y), k, l, 0, k + 1);
  }

  /** Passing a compacted sample on leaves the rows of the giving layer alone. */
  lemma {:induction false} PassMirrors(f: Compaction<Axis>, rows: Rows, k: nat, c: Chain<Axis>, step: nat)
    requires Chained(c) && Sized(c) && c.Link? && MirrorsAll(rows, k, c)
    requires step == c.top.conf.ratio && |c.top.ring| == c.top.conf.len
    ensures var y := Compacted(f, c.top.ring[..step]);
            var passed := AppendRows(f, DropRows(rows, k, c.top, step), k + 1, c.rest, y);
            Mirrors(passed, k, Popped(c.top, step)) && MirrorsAll(passed, k + 1, Append(f, c.rest, y))
    decreases c, 0
  {
    var dropped := DropRows(rows, k, c.top, step);
    var y := Compacted(f, c.top.ring[..step]);
    DropMirrors(rows, k, c, step);
    assert c.rest.top.End() < y.time;
    AppendSpares(f, dropped, k, Popped(c.top, step), c.rest, y);
    AppendMirrors(f, dropped, k + 1, c.rest, y);
  }

  /** Inserting a later sample into a layer with room. */
  lemma {:induction false} InsertMirrors(rows: Rows, k: nat, c: Chain<Axis>, x: Sample<Axis>)
    requires MirrorsAll(rows, k, c) && Ascends(c.top.start, c.top.ring) && c.top.End() < x.time
    ensures RowId(k, x.time) !in rows
    ensures MirrorsAll(InsertRow(rows, RowId(k, x.time), x.axis), k, c.(top := Pushed(c.top, x)))
  {
    var rows' := InsertRow(rows, RowId(k, x.time), x.axis);
    MirrorsPushed(rows, k, c.top, x);
    if c.Link? {
      MirrorsAllSame(rows, rows', k + 1, c.rest, k + 1, k + 1 + c.rest.Length());
    }
  }

  /** The rows of a layer in time order, as the table returns them. */
  ghost predicate Lists(rows: Rows, k: nat, found: seq<Sample<Axis>>) {
    && (forall i, j :: 0 <= i < j < |found| ==> found[i].time < found[j].time)
    && (forall i :: 0 <= i < |found| ==>
          RowId(k, found[i].time) in rows && rows[RowId(k, found[i].time)] == found[i].axis)
    && (forall id :: id in rows && id.layer == k ==> exists i :: 0 <= i < |found| && found[i].time == id.time)
  }

  class Db {
    var hasTable: bool
    var rows: Rows

    /** A database without the table. */
    constructor ()
      ensures !hasTable && rows == map[]
    {
      hasTable, rows := false, map[];
    }

    method CreateTableIfNotExists() returns (existed: bool)
      modifies this
      ensures existed == old(hasTable) && hasTable && rows == old(rows)
    {
      existed := hasTable;
      hasTable := true;
    }

    /** The model keeps one row for each layer and time: inserting a present one fails. */
    method Insert(layer: nat, time: int, axis: Axis) returns (ok: bool)
      modifies this
      ensures hasTable == old(hasTable)
      ensures ok <==> RowId(layer, time) !in old(rows)
      ensures rows == if ok then old(rows)[RowId(layer, time) := axis] else old(rows)
    {
      ok := RowId(layer, time) !in rows;
      if ok { rows := rows[RowId(layer, time) := axis]; }
    }

    method Delete(layer: nat, time: int)
      modifies this
      ensures hasTable == old(hasTable) && rows == old(rows) - {RowId(layer, time)}
    {
      rows := rows - {RowId(layer, time)};
    }

    method DeleteLayer(layer: nat)
      modifies this
      ensures hasTable == old(hasTable)
      ensures rows.Keys == set id | id in old(rows) && id.layer != layer
      ensures forall id :: id in rows ==> rows[id] == old(rows)[id]
    {
      rows := map id | id in rows && id.layer != layer :: rows[id];
    }

    method Clear()
      modifies this
      ensures hasTable == old(hasTable) && rows == map[]
    {
      rows := map[];
    }

    /** `FindAxisModelsOrderByTime`. */
    method FindOrderByTime(layer: nat) returns (found: seq<Sample<Axis>>)
      ensures Lists(rows, layer, found)
    {
      found := [];
      var left := set id | id in rows && id.layer == layer;
      while left != {}
        invariant forall id :: id in left ==> id in rows && id.layer == layer
        invariant forall id :: id in left ==> forall i :: 0 <= i < |found| ==> found[i].time < id.time
        invariant forall i, j :: 0 <= i < j < |found| ==> found[i].time < found[j].time
        invariant forall i :: 0 <= i < |found| ==>
                    RowId(layer, found[i].time) in rows && rows[RowId(layer, found[i].time)] == found[i].axis
        invariant forall id :: id in rows && id.layer == layer ==>
                    id in left || exists i :: 0 <= i < |found| && found[i].time == id.time
        decreases left
      {
        var id := Earliest(left);
        ghost var before := found;
        found := found + [Sample(id.time, rows[id])];
        left := left - {id};
        assert found[|before|].time == id.time;
        assert forall i :: 0 <= i < |before| ==> found[i] == before[i];
      }
    }
  }

  /** Some row of least time. */
  method Earliest(ids: set<RowId>) returns (least: RowId)
    requires ids != {} && forall a, b :: a in ids && b in ids ==> a.layer == b.layer
    ensures least in ids && forall id :: id in ids && id != least ==> least.time < id.time
  {
    least :| least in ids;
    var left := ids - {least};
    while left != {}
      invariant left <= ids && least in ids
      invariant forall id :: id in ids - left && id != least ==> least.time < id.time
      decreases left
    {
      var id :| id in left;
      if id.time < least.time { least := id; }
      left := left - {id};
    }
  }

  lemma {:induction false} MirrorLists(rows: Rows, k: nat, l: Layer<Axis>)
    requires Mirrors(rows, k, l) && Ascends(l.start, l.ring)
    ensures Lists(rows, k, [Sample(l.start, rows[RowId(k, l.start)])] + l.ring)
  {
    var want := [Sample(l.start, rows[RowId(k, l.start)])] + l.ring;
    assert forall i :: 1 <= i < |want| ==> want[i] == l.ring[i - 1];
    forall id | id in rows && id.layer == k ensures exists i :: 0 <= i < |want| && want[i].time == id.time {
      RowListed(rows, k, l, want, id);
    }
  }

  lemma {:induction false} RowListed(rows: Rows, k: nat, l: Layer<Axis>, want: seq<Sample<Axis>>, id: RowId)
    requires Mirrors(rows, k, l) && id in rows && id.layer == k
    requires |want| == |l.ring| + 1 && want[0].time == l.start && want[1..] == l.ring
    ensures exists i :: 0 <= i < |want| && want[i].time == id.time
  {
    if id.time == l.start {
      assert want[0].time == id.time;
    } else {
      var i :| 0 <= i < |l.ring| && l.ring[i].time == id.time;
      assert want[1..][i] == want[i + 1];
    }
  }

  /** A mirrored layer is listed as its marker followed by its ring. */
  lemma {:induction false} ListOfMirror(rows: Rows, k: nat, l: Layer<Axis>, found: seq<Sample<Axis>>)
    requires Mirrors(rows, k, l) && Ascends(l.start, l.ring) && Lists(rows, k, found)
    ensures |found| == |l.ring| + 1 && found[0].time == l.start && found[1..] == l.ring
  {
    MirrorLists(rows, k, l);
    ListUnique(rows, k, found, [Sample(l.start, rows[RowId(k, l.start)])] + l.ring, 0);
  }

  /** Two listings of one layer agree from any common position on. */
  lemma {:induction false} ListUnique(rows: Rows, k: nat, s: seq<Sample<Axis>>, t: seq<Sample<Axis>>, i: nat)
    requires Lists(rows, k, s) && Lists(rows, k, t)
    requires i <= |s| && i <= |t| && s[..i] == t[..i]
    ensures s == t
    decreases |s| - i
  {
    if i < |s| && i < |t| {
      NextAtMost(rows, k, s, t, i);
      NextAtMost(rows, k, t, s, i);
      assert s[..i + 1] == s[..i] + [s[i]] && t[..i + 1] == t[..i] + [t[i]];
      ListUnique(rows, k, s, t, i + 1);
    } else if i < |s| {
      NextAtMost(rows, k, t, s, i);
    } else if i < |t| {
      NextAtMost(rows, k, s, t, i);
    }
  }

  lemma {:induction false} NextAtMost(rows: Rows, k: nat, s: seq<Sample<Axis>>, t: seq<Sample<Axis>>, i: nat)
    requires Lists(rows, k, s) && Lists(rows, k, t)
    requires i <= |s| && i < |t| && s[..i] == t[..i]
    ensures i < |s| && s[i].time <= t[i].time
  {
    var id := RowId(k, t[i].time);
    var j :| 0 <= j < |s| && s[j].time == id.time;
    forall h | 0 <= h < i ensures s[h].time < t[i].time {
      assert s[..i][h] == t[..i][h];
    }
  }
}
