/**
 The rows that differ most between two reports: a bounded min-heap on the size of the difference ratio,
 fed row by row.
 */
module DiffHeap {
  import opened Basics
  import opened Tables

  const CAPACITY: nat := 500

  datatype DiffRow = DiffRow(table: string, rowLabel: string, ratio: real, ratioIdx: int, colName: string,
                             v1: string, v2: string, comment: string)

  function Size(row: DiffRow): (size: real)
    ensures size >= 0.0 && (size == row.ratio || size == -row.ratio)
  {
    Abs(row.ratio)
  }

  // ---------- the heap order ----------

  function Parent(k: nat): (p: nat)
    requires k > 0
    ensures p < k && (k == 2 * p + 1 || k == 2 * p + 2)
  {
    (k - 1) / 2
  }

  predicate Ordered(s: seq<DiffRow>, k: nat)
    requires 0 < k < |s|
  {
    Size(s[Parent(k)]) <= Size(s[k])
  }

  predicate IsHeap(s: seq<DiffRow>) {
    forall k: nat :: 0 < k < |s| ==> Ordered(s, k)
  }

  /** A heap except that row j may be smaller than its parent. */
  predicate HeapButUp(s: seq<DiffRow>, j: nat) {
    && j < |s|
    && (forall k: nat :: 0 < k < |s| && k != j ==> Ordered(s, k))
    && (j > 0 ==> forall k: nat :: 0 < k < |s| && Parent(k) == j ==> Size(s[Parent(j)]) <= Size(s[k]))
  }

  /** The first n rows are a heap except that row i may be larger than its children. */
  predicate HeapButDown(s: seq<DiffRow>, i: nat, n: nat) {
    && i < n <= |s|
    && (forall k: nat :: 0 < k < n && Parent(k) != i ==> Ordered(s, k))
    && (i > 0 ==> forall k: nat :: 0 < k < n && Parent(k) == i ==> Size(s[Parent(i)]) <= Size(s[k]))
  }

  function Swapped(s: seq<DiffRow>, i: nat, j: nat): seq<DiffRow>
    requires i < |s| && j < |s|
  {
    s[i := s[j]][j := s[i]]
  }

  lemma {:induction false} SwapKeepsRows(s: seq<DiffRow>, i: nat, j: nat)
    requires i < |s| && j < |s|
    ensures multiset(Swapped(s, i, j)) == multiset(s)
  {
    var t := s[i := s[j]];
    assert multiset(t) == multiset(s)[s[i] := multiset(s)[s[i]] - 1] + multiset{s[j]};
    assert multiset(Swapped(s, i, j)) == multiset(s);
  }

  /** The smallest row is at the root. */
  lemma {:induction false} RootIsLeast(s: seq<DiffRow>, k: nat)
    requires IsHeap(s) && k < |s|
    ensures Size(s[0]) <= Size(s[k])
  {
    if k > 0 {
      assert Ordered(s, k);
      RootIsLeast(s, Parent(k));
    }
  }

  lemma {:induction false} UpStep(s: seq<DiffRow>, j: nat)
    requires HeapButUp(s, j) && j > 0 && Size(s[j]) < Size(s[Parent(j)])
    ensures HeapButUp(Swapped(s, Parent(j), j), Parent(j))
  {
    var i := Parent(j);
    var t := Swapped(s, i, j);
    forall k: nat | 0 < k < |t| && k != i ensures Ordered(t, k) {
      if k != j { assert Ordered(s, k); }
    }
    if i > 0 {
      assert Ordered(s, i);
      forall k: nat | 0 < k < |t| && Parent(k) == i ensures Size(t[Parent(i)]) <= Size(t[k]) {
        if k != j { assert Ordered(s, k); }
      }
    }
  }

  /** The child that `down` goes to. */
  function Child(s: seq<DiffRow>, i: nat, n: nat): (c: nat)
    requires n <= |s| && 2 * i + 1 < n
    ensures i < c < n && Parent(c) == i
  {
    if 2 * i + 2 < n && Size(s[2 * i + 2]) < Size(s[2 * i + 1]) then 2 * i + 2 else 2 * i + 1
  }

  /** The child is no larger than its sibling. */
  lemma {:induction false} ChildIsLeast(s: seq<DiffRow>, i: nat, n: nat, k: nat)
    requires n <= |s| && 2 * i + 1 < n && 0 < k < n && Parent(k) == i
    ensures Size(s[Child(s, i, n)]) <= Size(s[k])
  {
  }

  lemma {:induction false} DownStep(s: seq<DiffRow>, i: nat, n: nat)
    requires HeapButDown(s, i, n) && 2 * i + 1 < n && Size(s[Child(s, i, n)]) < Size(s[i])
    ensures HeapButDown(Swapped(s, i, Child(s, i, n)), Child(s, i, n), n)
  {
    var c := Child(s, i, n);
    var t := Swapped(s, i, c);
    forall k: nat | 0 < k < n && Parent(k) != c ensures Ordered(t, k) {
      if Parent(k) == i {
        ChildIsLeast(s, i, n, k);
      } else if k == i {
        assert Size(s[Parent(i)]) <= Size(s[c]);
      } else {
        assert Ordered(s, k);
      }
    }
    forall k: nat | 0 < k < n && Parent(k) == c ensures Size(t[Parent(c)]) <= Size(t[k]) {
      assert Ordered(s, k);
    }
  }

  lemma {:induction false} HeapPrefix(s: seq<DiffRow>, n: nat)
    requires n <= |s| && forall k: nat :: 0 < k < n ==> Ordered(s, k)
    ensures IsHeap(s[..n])
  {
    forall k: nat | 0 < k < n ensures Ordered(s[..n], k) { assert Ordered(s, k); }
  }

  lemma {:induction false} DownEnds(s: seq<DiffRow>, i: nat, n: nat)
    requires HeapButDown(s, i, n) && (2 * i + 1 < n ==> Size(s[i]) <= Size(s[Child(s, i, n)]))
    ensures IsHeap(s[..n])
  {
    forall k: nat | 0 < k < n ensures Ordered(s, k) {
      if Parent(k) == i { ChildIsLeast(s, i, n, k); }
    }
    HeapPrefix(s, n);
  }

  // ---------- the largest rows of a stream ----------

  /** A row is kept and dropped as often as it came. */
  predicate Balanced(kept: seq<DiffRow>, dropped: seq<DiffRow>, stream: seq<DiffRow>, row: DiffRow) {
    multiset(kept)[row] + multiset(dropped)[row] == multiset(stream)[row]
  }

  /** `kept` is the stream without `dropped`, and no dropped row is larger than a kept one. */
  ghost predicate Partitions(kept: seq<DiffRow>, dropped: seq<DiffRow>, stream: seq<DiffRow>) {
    && (forall row {:trigger Balanced(kept, dropped, stream, row)} :: Balanced(kept, dropped, stream, row))
    && (forall d, k {:trigger NotLarger(dropped[d], kept[k])} :: 0 <= d < |dropped| && 0 <= k < |kept| ==>
          NotLarger(dropped[d], kept[k]))
  }

  lemma {:induction false} BalancedMeans(kept: seq<DiffRow>, dropped: seq<DiffRow>, stream: seq<DiffRow>)
    ensures multiset(kept) + multiset(dropped) == multiset(stream) <==>
            forall row {:trigger Balanced(kept, dropped, stream, row)} :: Balanced(kept, dropped, stream, row)
  {
    var sum := multiset(kept) + multiset(dropped);
    if forall row {:trigger Balanced(kept, dropped, stream, row)} :: Balanced(kept, dropped, stream, row) {
      forall row: DiffRow ensures sum[row] == multiset(stream)[row] {
        assert Balanced(kept, dropped, stream, row);
      }
    } else {
      var row :| !Balanced(kept, dropped, stream, row);
      assert sum[row] != multiset(stream)[row];
    }
  }

  predicate NotLarger(a: DiffRow, b: DiffRow) {
    Size(a) <= Size(b)
  }

  /** A heap of as many of the largest rows of the stream as there is room for. */
  ghost predicate KeepsLargest(kept: seq<DiffRow>, stream: seq<DiffRow>) {
    && IsHeap(kept)
    && |kept| == Min(CAPACITY, |stream|)
    && exists dropped :: Partitions(kept, dropped, stream)
  }

  /** Rows of at least the given size. */
  function AtLeast(s: seq<DiffRow>, size: real): nat {
    if s == [] then 0 else AtLeast(s[..|s| - 1], size) + if size <= Size(s[|s| - 1]) then 1 else 0
  }

  lemma {:induction false} AtLeastAppend(a: seq<DiffRow>, b: seq<DiffRow>, size: real)
    ensures AtLeast(a + b, size) == AtLeast(a, size) + AtLeast(b, size)
    decreases |b|
  {
    if b == [] {
      assert a + b == a;
    } else {
      assert (a + b)[..|a + b| - 1] == a + b[..|b| - 1];
      AtLeastAppend(a, b[..|b| - 1], size);
    }
  }

  function One(row: DiffRow, size: real): nat { if size <= Size(row) then 1 else 0 }

  function Without(s: seq<DiffRow>, i: nat): seq<DiffRow>
    requires i < |s|
  {
    s[..i] + s[i + 1..]
  }

  lemma {:induction false} WithoutRow(s: seq<DiffRow>, i: nat)
    requires i < |s|
    ensures multiset(s) == multiset(Without(s, i)) + multiset{s[i]}
  {
    assert s == s[..i] + [s[i]] + s[i + 1..];
  }

  lemma {:induction false} WithoutCount(s: seq<DiffRow>, i: nat, size: real)
    requires i < |s|
    ensures AtLeast(s, size) == AtLeast(Without(s, i), size) + One(s[i], size)
  {
    AtLeastAppend(s[..i], s[i + 1..], size);
    assert s == s[..i + 1] + s[i + 1..];
    AtLeastAppend(s[..i + 1], s[i + 1..], size);
    assert s[..i + 1][..i] == s[..i];
  }

  /** How many rows are that large does not depend on their order. */
  lemma {:induction false} AtLeastUnordered(a: seq<DiffRow>, b: seq<DiffRow>, size: real)
    requires multiset(a) == multiset(b)
    ensures AtLeast(a, size) == AtLeast(b, size)
    decreases |a|
  {
    if a == [] {
      assert |multiset(b)| == 0;
    } else {
      assert a[0] in multiset(b);
      var i :| 0 <= i < |b| && b[i] == a[0];
      WithoutRow(a, 0);
      WithoutRow(b, i);
      WithoutCount(a, 0, size);
      WithoutCount(b, i, size);
      assert multiset(Without(a, 0)) == multiset(a) - multiset{a[0]};
      assert multiset(Without(b, i)) == multiset(b) - multiset{a[0]};
      AtLeastUnordered(Without(a, 0), Without(b, i), size);
    }
  }

  lemma {:induction false} AllAtLeast(s: seq<DiffRow>, size: real)
    requires forall k :: 0 <= k < |s| ==> size <= Size(s[k])
    ensures AtLeast(s, size) == |s|
  {
    if s != [] { AllAtLeast(s[..|s| - 1], size); }
  }

  lemma {:induction false} NoneAtLeast(s: seq<DiffRow>, size: real)
    requires forall k :: 0 <= k < |s| ==> Size(s[k]) < size
    ensures AtLeast(s, size) == 0
  {
    if s != [] { NoneAtLeast(s[..|s| - 1], size); }
  }

  lemma {:induction false} AtLeastBounded(s: seq<DiffRow>, size: real)
    ensures AtLeast(s, size) <= |s|
  {
    if s != [] { AtLeastBounded(s[..|s| - 1], size); }
  }

  /**
   What the heap keeps is as large as it can be: whatever the size asked about, it holds every row of
   the stream that is that large, or is full of such rows.
   */
  lemma {:induction false} LargestKept(kept: seq<DiffRow>, stream: seq<DiffRow>, size: real)
    requires KeepsLargest(kept, stream)
    ensures AtLeast(kept, size) == Min(500, AtLeast(stream, size))
  {
    var dropped :| Partitions(kept, dropped, stream);
    BalancedMeans(kept, dropped, stream);
    AtLeastUnordered(kept + dropped, stream, size);
    AtLeastAppend(kept, dropped, size);
    assert |multiset(kept)| + |multiset(dropped)| == |multiset(stream)|;
    AtLeastBounded(kept, size);
    if d :| 0 <= d < |dropped| && size <= Size(dropped[d]) {
      assert forall k :: 0 <= k < |kept| ==> NotLarger(dropped[d], kept[k]);
      AllAtLeast(kept, size);
    } else {
      NoneAtLeast(dropped, size);
    }
  }

  /** A new row keeps the partition. */
  lemma {:induction false} RowAdded(kept: seq<DiffRow>, next: seq<DiffRow>, stream: seq<DiffRow>, row: DiffRow)
    requires KeepsLargest(kept, stream) && |stream| < CAPACITY
    requires IsHeap(next) && multiset(next) == multiset(kept) + multiset{row}
    ensures KeepsLargest(next, stream + [row])
  {
    var dropped :| Partitions(kept, dropped, stream);
    BalancedMeans(kept, dropped, stream);
    assert |multiset(kept)| + |multiset(dropped)| == |multiset(stream)|;
    assert dropped == [];
    BalancedMeans(next, [], stream + [row]);
    assert Partitions(next, [], stream + [row]);
    assert |next| == |multiset(next)|;
  }

  /** Dropping the least of the kept rows and the new one keeps the partition. */
  lemma {:induction false} RowDropped(kept: seq<DiffRow>, next: seq<DiffRow>, least: DiffRow, stream: seq<DiffRow>,
                                      row: DiffRow)
    requires KeepsLargest(kept, stream) && |stream| >= CAPACITY
    requires IsHeap(next) && multiset(next) + multiset{least} == multiset(kept) + multiset{row}
    requires forall k :: 0 <= k < |next| ==> Size(least) <= Size(next[k])
    requires Size(least) <= Size(row)
    ensures KeepsLargest(next, stream + [row])
  {
    var dropped :| Partitions(kept, dropped, stream);
    BalancedMeans(kept, dropped, stream);
    var dropped' := dropped + [least];
    assert |next| == |kept| by {
      assert |multiset(next) + multiset{least}| == |multiset(kept) + multiset{row}|;
    }
    forall d, k | 0 <= d < |dropped'| && 0 <= k < |next| ensures NotLarger(dropped'[d], next[k]) {
      assert d < |dropped| ==> forall h :: 0 <= h < |kept| ==> NotLarger(dropped[d], kept[h]);
      if d < |dropped| { DroppedBelow(kept, next, least, row, dropped[d], k); }
    }
    assert multiset(dropped') == multiset(dropped) + multiset{least};
    assert multiset(stream + [row]) == multiset(stream) + multiset{row};
    calc {
      multiset(next) + multiset(dropped');
      (multiset(next) + multiset{least}) + multiset(dropped);
      (multiset(kept) + multiset{row}) + multiset(dropped);
      (multiset(kept) + multiset(dropped)) + multiset{row};
      multiset(stream + [row]);
    }
    BalancedMeans(next, dropped', stream + [row]);
    assert Partitions(next, dropped', stream + [row]);
  }

  /** A row below all kept ones stays below all the rows of the next heap. */
  lemma {:induction false} DroppedBelow(kept: seq<DiffRow>, next: seq<DiffRow>, least: DiffRow, row: DiffRow,
                                        d: DiffRow, k: nat)
    requires multiset(next) + multiset{least} == multiset(kept) + multiset{row} && k < |next|
    requires forall h :: 0 <= h < |next| ==> Size(least) <= Size(next[h])
    requires forall h :: 0 <= h < |kept| ==> Size(d) <= Size(kept[h])
    ensures Size(d) <= Size(next[k])
  {
    var all := multiset(kept) + multiset{row};
    assert next[k] in multiset(next);
    assert next[k] in all;
    if next[k] !in multiset(kept) {
      assert next[k] == row;
      assert least in all;
      assert all[row] == 1 && (multiset(next) + multiset{least})[row] == 1;
      assert least in multiset(kept);
    }
  }

  // ---------- what a compared row adds to the stream ----------

  /** The stream has only been added to. */
  predicate Grew(before: seq<DiffRow>, after: seq<DiffRow>) {
    before <= after
  }

  lemma {:induction false} GrewMore(a: seq<DiffRow>, b: seq<DiffRow>, c: seq<DiffRow>)
    requires Grew(a, b) && Grew(b, c)
    ensures Grew(a, c)
  {
  }

  function CellOf(values: seq<string>, idx: int): string {
    if 0 <= idx < |values| then values[idx] else ""
  }

  /** The entry for a compared row: none when the ratio is zero. */
  function Entry(table: TableDef, rowLabel: string, ratio: real, vs1: seq<string>, vs2: seq<string>, idx: int,
                 comment: string): seq<DiffRow> {
    if ratio == 0.0 then []
    else
      var named := 0 < idx < |table.column|;
      [DiffRow(Separated(table.category, "-") + ", " + table.title, rowLabel, ratio, idx,
               if named then table.column[idx] else "", CellOf(vs1, idx), CellOf(vs2, idx),
               if named then comment + ", the value is " + table.column[idx] else comment)]
  }

  /** The cell of a row in a column; blank where there is none. */
  predicate ShowsCell(shown: string, row: seq<string>, idx: int) {
    if 0 <= idx < |row| then shown == row[idx] else shown == ""
  }

  /** A row that differs is entered once, with its label, its ratio and the cells of both rows in that column. */
  lemma {:induction false} EntryCells(table: TableDef, rowLabel: string, ratio: real, vs1: seq<string>,
                                      vs2: seq<string>, idx: int, comment: string)
    ensures var e := Entry(table, rowLabel, ratio, vs1, vs2, idx, comment);
            && (ratio == 0.0 ==> e == [])
            && (ratio != 0.0 ==>
                  && |e| == 1 && e[0].rowLabel == rowLabel && e[0].ratio == ratio && e[0].ratioIdx == idx
                  && ShowsCell(e[0].v1, vs1, idx) && ShowsCell(e[0].v2, vs2, idx)
                  && e[0].table == Separated(table.category, "-") + ", " + table.title
                  && (idx > 0 ==> ShowsCell(e[0].colName, table.column, idx))
                  && (idx <= 0 ==> e[0].colName == ""))
  {
  }

  // ---------- the heap ----------

  class DiffRows {
    var rows: seq<DiffRow>

    /** Every row the heap was given. */
    ghost var stream: seq<DiffRow>

    ghost predicate Valid()
      reads this
    {
      KeepsLargest(rows, stream)
    }

    constructor ()
      ensures Valid() && rows == [] && stream == []
    {
      rows, stream := [], [];
      EmptyKeepsLargest();
    }

    method Swap(i: nat, j: nat)
      requires i < |rows| && j < |rows|
      modifies this`rows
      ensures rows == Swapped(old(rows), i, j) && multiset(rows) == multiset(old(rows)) && |rows| == |old(rows)|
    {
      SwapKeepsRows(rows, i, j);
      rows := rows[i := rows[j]][j := rows[i]];
    }

    method Up(start: nat)
      requires HeapButUp(rows, start)
      modifies this`rows
      ensures IsHeap(rows) && multiset(rows) == multiset(old(rows))
    {
      var j := start;
      while j > 0 && Size(rows[j]) < Size(rows[Parent(j)])
        invariant HeapButUp(rows, j) && multiset(rows) == multiset(old(rows))
      {
        UpStep(rows, j);
        Swap(Parent(j), j);
        j := Parent(j);
      }
    }

    method Down(n: nat)
      requires n <= |rows| && (n > 0 ==> HeapButDown(rows, 0, n))
      modifies this`rows
      ensures |rows| == |old(rows)| && IsHeap(rows[..n]) && rows[n..] == old(rows[n..])
      ensures multiset(rows) == multiset(old(rows))
    {
      if n == 0 {
        return;
      }
      var i := 0;
      while 2 * i + 1 < n && Size(rows[Child(rows, i, n)]) < Size(rows[i])
        invariant |rows| == |old(rows)| && HeapButDown(rows, i, n) && rows[n..] == old(rows[n..])
        invariant multiset(rows) == multiset(old(rows))
        decreases n - i
      {
        DownStep(rows, i, n);
        var c := Child(rows, i, n);
        Swap(i, c);
        i := c;
      }
      DownEnds(rows, i, n);
    }

    /** `heap.Push`. */
    method Push(row: DiffRow)
      requires IsHeap(rows)
      modifies this`rows
      ensures IsHeap(rows) && multiset(rows) == multiset(old(rows)) + multiset{row}
    {
      rows := rows + [row];
      assert HeapButUp(rows, |rows| - 1) by {
        forall k: nat | 0 < k < |rows| - 1 ensures Ordered(rows, k) {
          assert Ordered(old(rows), k);
        }
      }
      Up(|rows| - 1);
    }

    /** `heap.Pop`: takes the smallest row out. */
    method Pop() returns (row: DiffRow)
      requires IsHeap(rows) && |rows| > 0
      modifies this`rows
      ensures IsHeap(rows) && multiset(rows) + multiset{row} == multiset(old(rows))
      ensures forall k :: 0 <= k < |rows| ==> Size(row) <= Size(rows[k])
    {
      ghost var before := rows;
      var n := |rows| - 1;
      Swap(0, n);
      if n > 0 { RootMoved(before); }
      Down(n);
      row := rows[n];
      assert rows[n..][0] == before[0];
      assert rows == rows[..n] + [row];
      rows := rows[..n];
      PopLeast(before, rows, row);
    }

    /** `appendRow`: the heap keeps the largest rows of the stream it was given. */
    method AppendRow(row: DiffRow)
      requires Valid()
      modifies this
      ensures Valid() && stream == old(stream) + [row]
    {
      ghost var before := rows;
      Push(row);
      assert |rows| == |before| + 1 by {
        assert |multiset(rows)| == |multiset(before) + multiset{row}|;
      }
      if |rows| > CAPACITY {
        ghost var pushed := rows;
        var least := Pop();
        LeastOf(pushed, rows, least, row);
        RowDropped(before, rows, least, stream, row);
      } else {
        RowAdded(before, rows, stream, row);
      }
      stream := stream + [row];
    }

    /** `addRow`: rows that do not differ are not part of the stream. */
    method AddRow(table: TableDef, rowLabel: string, ratio: real, vs1: seq<string>, vs2: seq<string>, idx: int,
                  comment: string)
      requires Valid()
      modifies this
      ensures Valid() && stream == old(stream) + Entry(table, rowLabel, ratio, vs1, vs2, idx, comment)
    {
      if ratio == 0.0 {
        return;
      }
      var tableName := Separated(table.category, "-") + ", " + table.title;
      var colName, note := "", comment;
      if idx > 0 && idx < |table.column| {
        note := comment + ", the value is " + table.column[idx];
        colName := table.column[idx];
      }
      var v1, v2 := "", "";
      if idx >= 0 {
        if idx < |vs1| { v1 := vs1[idx]; }
        if idx < |vs2| { v2 := vs2[idx]; }
      }
      AppendRow(DiffRow(tableName, rowLabel, ratio, idx, colName, v1, v2, note));
    }
  }

  /** An empty heap keeps the largest rows of an empty stream. */
  lemma {:induction false} EmptyKeepsLargest()
    ensures KeepsLargest([], [])
  {
    BalancedMeans([], [], []);
    assert Partitions([], [], []);
  }

  /** A whole stream through a new heap. */
  method AppendAll(stream: seq<DiffRow>) returns (kept: seq<DiffRow>)
    ensures KeepsLargest(kept, stream)
  {
    var dr := new DiffRows();
    for i := 0 to |stream|
      invariant fresh(dr) && dr.Valid() && dr.stream == stream[..i]
    {
      dr.AppendRow(stream[i]);
      assert stream[..i + 1] == stream[..i] + [stream[i]];
    }
    assert stream[..|stream|] == stream;
    kept := dr.rows;
  }

  lemma {:induction false} LeastOf(all: seq<DiffRow>, rest: seq<DiffRow>, least: DiffRow, row: DiffRow)
    requires multiset(rest) + multiset{least} == multiset(all) && row in multiset(all)
    requires forall k :: 0 <= k < |rest| ==> Size(least) <= Size(rest[k])
    ensures Size(least) <= Size(row)
  {
    if row != least {
      assert row in multiset(rest);
    }
  }

  lemma {:induction false} RootMoved(s: seq<DiffRow>)
    requires IsHeap(s) && |s| > 1
    ensures HeapButDown(Swapped(s, 0, |s| - 1), 0, |s| - 1)
  {
    var t := Swapped(s, 0, |s| - 1);
    forall k: nat | 0 < k < |s| - 1 && Parent(k) != 0 ensures Ordered(t, k) {
      assert Ordered(s, k);
    }
  }

  lemma {:induction false} PopLeast(before: seq<DiffRow>, after: seq<DiffRow>, row: DiffRow)
    requires IsHeap(before) && |before| > 0 && row == before[0]
    requires multiset(after) + multiset{row} == multiset(before)
    ensures forall k :: 0 <= k < |after| ==> Size(row) <= Size(after[k])
  {
    forall k | 0 <= k < |after| ensures Size(row) <= Size(after[k]) {
      assert after[k] in multiset(after);
      assert after[k] in multiset(before);
      var h :| 0 <= h < |before| && before[h] == after[k];
      RootIsLeast(before, h);
    }
  }
}
