/**
 The rows and the header of a joined table: the columns of the first table, the columns of the second
 that are not joined on, and a ratio for every compared column.
 */
module NewRows {
  import opened Tables

  /** The cells among the first n that are not joined on. */
  function NonJoin(row: seq<string>, joinColumns: seq<nat>, n: nat): seq<string>
    requires n <= |row|
  {
    if n == 0 then []
    else NonJoin(row, joinColumns, n - 1) + if n - 1 in joinColumns then [] else [row[n - 1]]
  }

  /** The first table's part where it has no row: only the join columns are known. */
  function JoinOnly(row: seq<string>, joinColumns: seq<nat>): (r: seq<string>)
    ensures |r| == |row|
  {
    seq(|row|, i requires 0 <= i < |row| => if i in joinColumns then row[i] else "")
  }

  function Blanks(n: nat): (r: seq<string>)
    ensures |r| == n
  {
    seq(n, _ => "")
  }

  function RatioCells(table: TableDef, d: Diff, numbers: Numbers): (r: seq<string>)
    ensures |r| == |table.compareColumns|
  {
    seq(|table.compareColumns|, i requires 0 <= i => numbers.show(if i < |d.ratios| then d.ratios[i] else d.ratio))
  }

  function NewRow(row1: seq<string>, row2: seq<string>, d: Diff, table: TableDef,
                  numbers: Numbers): Result<seq<string>> {
    var ratios := RatioCells(table, d, numbers);
    if row1 == [] then Ok(JoinOnly(row2, table.joinColumns) + NonJoin(row2, table.joinColumns, |row2|) + ratios)
    else if row2 != [] then Ok(row1 + NonJoin(row2, table.joinColumns, |row2|) + ratios)
    else if |table.joinColumns| <= |row1| then Ok(row1 + Blanks(|row1| - |table.joinColumns|) + ratios)
    else Err
  }

  method AppendRatios(newRow: seq<string>, d: Diff, table: TableDef, numbers: Numbers) returns (r: seq<string>)
    ensures r == newRow + RatioCells(table, d, numbers)
  {
    r := newRow;
    for i := 0 to |table.compareColumns|
      invariant r == newRow + RatioCells(table, d, numbers)[..i]
    {
      if |d.ratios| > i {
        r := r + [numbers.show(d.ratios[i])];
      } else {
        r := r + [numbers.show(d.ratio)];
      }
    }
  }

  method AppendNonJoin(newRow: seq<string>, row: seq<string>, joinColumns: seq<nat>) returns (r: seq<string>)
    ensures r == newRow + NonJoin(row, joinColumns, |row|)
  {
    r := newRow;
    for i := 0 to |row|
      invariant r == newRow + NonJoin(row, joinColumns, i)
    {
      var joined := CheckIn(i, joinColumns);
      if !joined {
        r := r + [row[i]];
      }
    }
  }

  /** Both parts of a row that only the second table has, filled in one loop. */
  method SplitJoin(row: seq<string>, joinColumns: seq<nat>) returns (r: seq<string>)
    ensures r == JoinOnly(row, joinColumns) + NonJoin(row, joinColumns, |row|)
  {
    r := Blanks(|row|);
    for i := 0 to |row|
      invariant r == JoinOnly(row, joinColumns)[..i] + Blanks(|row| - i) + NonJoin(row, joinColumns, i)
    {
      var joined := CheckIn(i, joinColumns);
      ghost var was := r;
      if joined {
        r := r[i := row[i]];
        assert r == JoinOnly(row, joinColumns)[..i + 1] + Blanks(|row| - i - 1) + NonJoin(row, joinColumns, i);
      } else {
        assert was == JoinOnly(row, joinColumns)[..i + 1] + Blanks(|row| - i - 1) + NonJoin(row, joinColumns, i);
        r := r + [row[i]];
      }
    }
  }

  method GenNewRow(row1: seq<string>, row2: seq<string>, d: Diff, table: TableDef,
                   numbers: Numbers)
    returns (r: Result<seq<string>>)
    ensures r == NewRow(row1, row2, d, table, numbers)
  {
    var newRow;
    if row1 == [] {
      newRow := SplitJoin(row2, table.joinColumns);
    } else if row2 == [] {
      if |row1| < |table.joinColumns| {
        return Err;
      }
      newRow := row1 + Blanks(|row1| - |table.joinColumns|);
    } else {
      newRow := AppendNonJoin(row1, row2, table.joinColumns);
    }
    newRow := AppendRatios(newRow, d, table, numbers);
    return Ok(newRow);
  }

  // ---------- the header ----------

  function Prefixed(names: seq<string>, prefix: string): (r: seq<string>)
    ensures |r| == |names|
  {
    seq(|names|, i requires 0 <= i < |names| => prefix + names[i])
  }

  function FirstNames(names: seq<string>, joinColumns: seq<nat>): (r: seq<string>)
    ensures |r| == |names|
  {
    seq(|names|, i requires 0 <= i < |names| => if i in joinColumns then names[i] else "t1." + names[i])
  }

  function RatioNames(table: TableDef): (r: seq<string>)
    requires InWidth(table.column, table.compareColumns)
    ensures |r| == |table.compareColumns|
  {
    seq(|table.compareColumns|,
        i requires 0 <= i < |table.compareColumns| => table.column[table.compareColumns[i]] + "_DIFF_RATIO")
  }

  function Header(table1: TableDef, table2: TableDef): Result<seq<string>> {
    if 2 * |table1.column| < |table1.joinColumns| || !InWidth(table1.column, table1.compareColumns) then Err
    else Ok(FirstNames(table1.column, table1.joinColumns)
            + Prefixed(NonJoin(table2.column, table2.joinColumns, |table2.column|), "t2.") + RatioNames(table1))
  }

  method GenHeader(table1: TableDef, table2: TableDef) returns (r: Result<seq<string>>)
    ensures r == Header(table1, table2)
    ensures r.Err? <==> 2 * |table1.column| < |table1.joinColumns| ||
                        exists k :: 0 <= k < |table1.compareColumns| && table1.compareColumns[k] >= |table1.column|
  {
    if 2 * |table1.column| < |table1.joinColumns| {
      return Err;
    }
    var columns: seq<string> := [];
    for i := 0 to |table1.column|
      invariant columns == FirstNames(table1.column, table1.joinColumns)[..i]
    {
      var joined := CheckIn(i, table1.joinColumns);
      if joined {
        columns := columns + [table1.column[i]];
      } else {
        columns := columns + ["t1." + table1.column[i]];
      }
    }
    var first := columns;
    assert first == FirstNames(table1.column, table1.joinColumns);
    for i := 0 to |table2.column|
      invariant columns == first + Prefixed(NonJoin(table2.column, table2.joinColumns, i), "t2.")
    {
      var joined := CheckIn(i, table2.joinColumns);
      if !joined {
        columns := columns + ["t2." + table2.column[i]];
      }
    }
    var second := columns;
    for i := 0 to |table1.compareColumns|
      invariant InWidth(table1.column, table1.compareColumns[..i])
      invariant |columns| == |second| + i && columns[..|second|] == second
      invariant forall k :: 0 <= k < i ==>
                columns[|second| + k] == table1.column[table1.compareColumns[k]] + "_DIFF_RATIO"
    {
      if table1.compareColumns[i] >= |table1.column| {
        return Err;
      }
      columns := columns + [table1.column[table1.compareColumns[i]] + "_DIFF_RATIO"];
    }
    assert InWidth(table1.column, table1.compareColumns);
    assert columns == second + RatioNames(table1);
    return Ok(columns);
  }

  // ---------- which cell stands where ----------

  /** How many of the columns before i are not joined on. */
  function RankOther(joinColumns: seq<nat>, i: nat): nat {
    if i == 0 then 0 else RankOther(joinColumns, i - 1) + if i - 1 in joinColumns then 0 else 1
  }

  lemma {:induction false} RankCounts(joinColumns: seq<nat>, i: nat)
    ensures RankOther(joinColumns, i) == |set j: nat | j < i && j !in joinColumns|
  {
    var before := set j: nat | j < i && j !in joinColumns;
    if i == 0 {
      assert before == {};
    } else {
      RankCounts(joinColumns, i - 1);
      var fewer := set j: nat | j < i - 1 && j !in joinColumns;
      assert before == if i - 1 in joinColumns then fewer else fewer + {i - 1};
    }
  }

  lemma {:induction false} NonJoinLength(row: seq<string>, joinColumns: seq<nat>, n: nat)
    requires n <= |row|
    ensures |NonJoin(row, joinColumns, n)| == RankOther(joinColumns, n)
  {
    if n > 0 { NonJoinLength(row, joinColumns, n - 1); }
  }

  /** The cells that are not joined on keep their order. */
  lemma {:induction false} NonJoinCell(row: seq<string>, joinColumns: seq<nat>, n: nat, i: nat)
    requires i < n <= |row| && i !in joinColumns
    ensures RankOther(joinColumns, i) < |NonJoin(row, joinColumns, n)|
    ensures NonJoin(row, joinColumns, n)[RankOther(joinColumns, i)] == row[i]
    decreases n
  {
    if i == n - 1 { NonJoinLength(row, joinColumns, i); } else { NonJoinCell(row, joinColumns, n - 1, i); }
  }

  /** The cells of one table's part of a row, shown by `show`, stand in `r` from `at` on. */
  ghost predicate OthersFrom(row: seq<string>, joinColumns: seq<nat>, prefix: string, r: seq<string>, at: nat) {
    forall i :: 0 <= i < |row| && i !in joinColumns ==>
      at + RankOther(joinColumns, i) < |r| && r[at + RankOther(joinColumns, i)] == prefix + row[i]
  }

  /** The cells of the second row that are not joined on follow those of the first part. */
  lemma {:induction false} OthersFollow(first: seq<string>, row: seq<string>, joinColumns: seq<nat>, rest: seq<string>)
    ensures OthersFrom(row, joinColumns, "", first + NonJoin(row, joinColumns, |row|) + rest, |first|)
  {
    forall i | 0 <= i < |row| && i !in joinColumns
      ensures RankOther(joinColumns, i) < |NonJoin(row, joinColumns, |row|)|
      ensures NonJoin(row, joinColumns, |row|)[RankOther(joinColumns, i)] == "" + row[i]
    {
      NonJoinCell(row, joinColumns, |row|, i);
    }
  }

  /** The cells of `r`: the first part, the second part, the ratios. */
  predicate InParts(r: seq<string>, first: seq<string>, second: seq<string>, ratios: seq<string>) {
    && |r| == |first| + |second| + |ratios| && r[..|first|] == first
    && r[|first|..|first| + |second|] == second && r[|r| - |ratios|..] == ratios
  }

  lemma {:induction false} ThreeParts(first: seq<string>, second: seq<string>, ratios: seq<string>)
    ensures InParts(first + second + ratios, first, second, ratios)
  {
  }

  /**
   A joined row: the cells of the first row, or only the joined ones of the second where there is no first;
   then the cells of the second row that are not joined on, or blanks; then the ratios.
   */
  lemma {:induction false} RowParts(row1: seq<string>, row2: seq<string>, d: Diff, table: TableDef, numbers: Numbers)
    returns (first: seq<string>, second: seq<string>, ratios: seq<string>)
    requires NewRow(row1, row2, d, table, numbers).Ok?
    ensures InParts(NewRow(row1, row2, d, table, numbers).value, first, second, ratios)
    ensures if row1 != [] then first == row1
            else |first| == |row2| && forall i :: 0 <= i < |row2| ==>
              first[i] == if i in table.joinColumns then row2[i] else ""
    ensures row2 == [] ==> forall p :: 0 <= p < |second| ==> second[p] == ""
    ensures |ratios| == |table.compareColumns|
    ensures forall k :: 0 <= k < |ratios| ==>
              ratios[k] == numbers.show(if k < |d.ratios| then d.ratios[k] else d.ratio)
  {
    first := if row1 == [] then JoinOnly(row2, table.joinColumns) else row1;
    second := if row1 != [] && row2 == [] then Blanks(|row1| - |table.joinColumns|)
              else NonJoin(row2, table.joinColumns, |row2|);
    ratios := RatioCells(table, d, numbers);
    ThreeParts(first, second, ratios);
  }

  /** The cells of the second row that are not joined on stand in order after the first part. */
  lemma {:induction false} RowOthers(row1: seq<string>, row2: seq<string>, d: Diff, table: TableDef, numbers: Numbers)
    requires NewRow(row1, row2, d, table, numbers).Ok? && row2 != []
    ensures OthersFrom(row2, table.joinColumns, "", NewRow(row1, row2, d, table, numbers).value,
                       if row1 == [] then |row2| else |row1|)
  {
    var first := if row1 == [] then JoinOnly(row2, table.joinColumns) else row1;
    OthersFollow(first, row2, table.joinColumns, RatioCells(table, d, numbers));
  }

  /** The header: the names of the columns, in the same places. */
  lemma {:induction false} HeaderCells(table1: TableDef, table2: TableDef)
    requires Header(table1, table2).Ok?
    ensures var r, w, n := Header(table1, table2).value, |table1.column|, |table1.compareColumns|;
            && w + n <= |r|
            && (forall i :: 0 <= i < w ==>
                  r[i] == if i in table1.joinColumns then table1.column[i] else "t1." + table1.column[i])
            && OthersFrom(table2.column, table2.joinColumns, "t2.", r, w)
            && (forall k :: 0 <= k < n ==>
                  (table1.compareColumns[k] < w &&
                   r[|r| - n + k] == table1.column[table1.compareColumns[k]] + "_DIFF_RATIO"))
  {
    var names, w := NonJoin(table2.column, table2.joinColumns, |table2.column|), |table1.column|;
    var r := Header(table1, table2).value;
    assert forall k :: 0 <= k < |names| ==> r[w + k] == "t2." + names[k];
    forall i | 0 <= i < |table2.column| && i !in table2.joinColumns
      ensures w + RankOther(table2.joinColumns, i) < |r|
      ensures r[w + RankOther(table2.joinColumns, i)] == "t2." + table2.column[i]
    {
      NonJoinCell(table2.column, table2.joinColumns, |table2.column|, i);
    }
  }

  // ---------- widths ----------

  predicate DistinctColumns(columns: seq<nat>) {
    forall a, b :: 0 <= a < b < |columns| ==> columns[a] != columns[b]
  }

  function ColumnSet(columns: seq<nat>, n: nat): set<nat> {
    set i: nat | i < n && i in columns
  }

  lemma {:induction false} NonJoinWidth(row: seq<string>, joinColumns: seq<nat>, n: nat)
    requires n <= |row|
    ensures |NonJoin(row, joinColumns, n)| + |ColumnSet(joinColumns, n)| == n
  {
    if n == 0 {
      assert ColumnSet(joinColumns, n) == {};
    } else {
      NonJoinWidth(row, joinColumns, n - 1);
      if n - 1 in joinColumns {
        assert ColumnSet(joinColumns, n) == ColumnSet(joinColumns, n - 1) + {n - 1};
      } else {
        assert ColumnSet(joinColumns, n) == ColumnSet(joinColumns, n - 1);
      }
    }
  }

  lemma {:induction false} ColumnSetNext(columns: seq<nat>, c: nat, n: nat)
    requires c < n
    ensures |ColumnSet(columns + [c], n)| == |ColumnSet(columns, n)| + if c in columns then 0 else 1
  {
    assert ColumnSet(columns + [c], n) == ColumnSet(columns, n) + {c};
    if c in columns {
      assert ColumnSet(columns + [c], n) == ColumnSet(columns, n);
    }
  }

  lemma {:induction false} DistinctNext(columns: seq<nat>, c: nat)
    ensures DistinctColumns(columns + [c]) <==> DistinctColumns(columns) && c !in columns
  {
    var all := columns + [c];
    assert forall k :: 0 <= k < |columns| ==> all[k] == columns[k];
    if DistinctColumns(all) {
      assert forall k :: 0 <= k < |columns| ==> all[k] != all[|columns|];
    }
  }

  /** A list has as many members as entries exactly when it has no duplicates. */
  lemma {:induction false} ColumnSetSize(columns: seq<nat>, n: nat)
    requires forall k :: 0 <= k < |columns| ==> columns[k] < n
    ensures |ColumnSet(columns, n)| <= |columns|
    ensures |ColumnSet(columns, n)| == |columns| <==> DistinctColumns(columns)
    decreases |columns|
  {
    if columns == [] {
      assert ColumnSet(columns, n) == {};
    } else {
      var m := |columns| - 1;
      assert columns == columns[..m] + [columns[m]];
      ColumnSetSize(columns[..m], n);
      ColumnSetNext(columns[..m], columns[m], n);
      DistinctNext(columns[..m], columns[m]);
    }
  }

  /** Both tables have the same columns, joined on the same ones. */
  predicate SameShape(table1: TableDef, table2: TableDef) {
    && |table1.column| == |table2.column| && table1.joinColumns == table2.joinColumns
    && InWidth(table1.column, table1.joinColumns)
  }

  predicate FullWidth(row: seq<string>, table: TableDef) {
    |row| == |table.column| > 0
  }

  /** A row that the second table has part in is as wide as the header. */
  lemma {:induction false} WidthWithSecond(row1: seq<string>, row2: seq<string>, d: Diff, table1: TableDef,
                                           table2: TableDef, numbers: Numbers)
    requires SameShape(table1, table2) && (row1 == [] || FullWidth(row1, table1)) && FullWidth(row2, table2)
    requires Header(table1, table2).Ok?
    ensures var r := NewRow(row1, row2, d, table1, numbers);
            r.Ok? && |r.value| == |Header(table1, table2).value|
  {
    NonJoinWidth(row2, table1.joinColumns, |row2|);
    NonJoinWidth(table2.column, table2.joinColumns, |table2.column|);
  }

  /** A row of the first table alone is as wide as the header exactly when the join columns are distinct. */
  lemma {:induction false} WidthOfFirst(row1: seq<string>, d: Diff, table1: TableDef, table2: TableDef,
                                        numbers: Numbers)
    requires SameShape(table1, table2) && FullWidth(row1, table1) && Header(table1, table2).Ok?
    ensures var r := NewRow(row1, [], d, table1, numbers);
            (r.Ok? && |r.value| == |Header(table1, table2).value|) <==> DistinctColumns(table1.joinColumns)
  {
    NonJoinWidth(table2.column, table2.joinColumns, |table2.column|);
    ColumnSetSize(table1.joinColumns, |table1.column|);
  }
}
