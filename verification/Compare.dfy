/**
 The comparison of two tables of a diagnosis report on labels that need not be unique.
 */
module Compare {
  import opened Tables
  import opened DiffHeap
  import opened OuterJoin
  import opened NewRows
  import opened Sorting
  import opened SubRows
  import opened Keys

  const NO_ROW := TableRow([], [], 0.0, "")

  // ---------- one row ----------

  /** Rows of different widths differ as a whole. */
  ghost predicate IsTotal(row1: TableRow, row2: TableRow, table: TableDef, numbers: Numbers, d: Diff) {
    if |row1.values| != |row2.values| then d == Diff(1.0, [], -1)
    else IsDiff(row1.values, row2.values, table, numbers, d)
  }

  /** The row that a label is taken from: the first one that is wide enough. */
  function Labelled(row1: TableRow, row2: TableRow, table: TableDef): seq<string> {
    if |row1.values| >= |table.column| then row1.values else if |row2.values| >= |table.column| then row2.values else []
  }

  function TotalLabel(row1: TableRow, row2: TableRow, table: TableDef): Result<string> {
    var row := Labelled(row1, row2, table);
    if |row1.values| < |table.column| && |row2.values| < |table.column| then Ok("")
    else if InWidth(row, table.joinColumns) then Ok(LabelOf(row, table.joinColumns))
    else Err
  }

  /** The two rows can be joined. */
  predicate RowOk(row1: TableRow, row2: TableRow, table: TableDef, numbers: Numbers) {
    && SubsOk(row1, row2, table, numbers) && Paddable(row1.values, row2.values, table)
    && (|row1.values| == |row2.values| ==> Comparable(row1.values, row2.values, table, numbers))
    && (row1.subValues == [] && row2.subValues == [] ==> TotalLabel(row1, row2, table).Ok?)
  }

  /** What the joined row adds to the stream of differences. */
  ghost predicate IsFed(row1: TableRow, row2: TableRow, table: TableDef, d: Diff, diffs: seq<Diff>, fed: seq<DiffRow>)
    requires Indexable(row1.subValues, table.joinColumns) && Indexable(row2.subValues, table.joinColumns)
  {
    if row1.subValues == [] && row2.subValues == [] then
      var l := TotalLabel(row1, row2, table);
      l.Ok? && fed == Entry(table, l.value, d.ratio, row1.values, row2.values, d.idx, row1.comment)
    else
      var pairs := SubPairs(row1, row2, table.joinColumns);
      |diffs| == |pairs| && fed == SubEntries(table, pairs, diffs)
  }

  ghost predicate JoinedBy(row1: TableRow, row2: TableRow, table: TableDef, numbers: Numbers, r: TableRow,
                           fed: seq<DiffRow>, d: Diff, diffs: seq<Diff>) {
    && IsTotal(row1, row2, table, numbers, d) && r.ratio == d.ratio && r.comment == row1.comment
    && NewRow(row1.values, row2.values, d, table, numbers) == Ok(r.values)
    && SubsJoined(row1, row2, table, numbers, r.subValues, diffs) && IsFed(row1, row2, table, d, diffs, fed)
  }

  /** `r` joins the two rows, and `fed` is what it adds to the stream of differences. */
  ghost predicate RowJoined(row1: TableRow, row2: TableRow, table: TableDef, numbers: Numbers, r: TableRow,
                            fed: seq<DiffRow>) {
    exists d, diffs :: JoinedBy(row1, row2, table, numbers, r, fed, d, diffs)
  }

  method GetTotal(row1: TableRow, row2: TableRow, table: TableDef, numbers: Numbers) returns (r: Result<Diff>)
    ensures r.Ok? <==> (|row1.values| == |row2.values| ==> Comparable(row1.values, row2.values, table, numbers))
    ensures r.Ok? ==> IsTotal(row1, row2, table, numbers, r.value)
  {
    if |row1.values| != |row2.values| {
      return Ok(Diff(1.0, [], -1));
    }
    r := CalculateDiffRatio(row1.values, row2.values, table, numbers);
  }

  /** The label of a row as a whole: that of the first row, or of the second where the first is not wide enough. */
  method GetTotalLabel(row1: TableRow, row2: TableRow, table: TableDef) returns (r: Result<string>)
    ensures r == TotalLabel(row1, row2, table)
    ensures |row1.values| >= |table.column| && InWidth(row1.values, table.joinColumns) ==>
              r == Ok(LabelOf(row1.values, table.joinColumns))
    ensures |row1.values| < |table.column| <= |row2.values| && InWidth(row2.values, table.joinColumns) ==>
              r == Ok(LabelOf(row2.values, table.joinColumns))
  {
    if |row1.values| >= |table.column| {
      r := GenRowLabel(row1.values, table.joinColumns);
    } else if |row2.values| >= |table.column| {
      r := GenRowLabel(row2.values, table.joinColumns);
    } else {
      r := Ok("");
    }
  }

  lemma {:induction false} NoSubs(row1: TableRow, row2: TableRow, table: TableDef)
    requires row1.subValues == [] && row2.subValues == []
    ensures Indexable(row1.subValues, table.joinColumns) && Indexable(row2.subValues, table.joinColumns)
    ensures SubPairs(row1, row2, table.joinColumns) == []
  {
  }

  /** A row without sub rows is fed as a whole, with the cells of the first and the second row. */
  lemma {:induction false} WholeEntryCells(row1: TableRow, row2: TableRow, table: TableDef, d: Diff, diffs: seq<Diff>,
                                           fed: seq<DiffRow>)
    requires row1.subValues == [] && row2.subValues == [] && d.ratio != 0.0
    requires IsFed(row1, row2, table, d, diffs, fed)
    ensures |fed| == 1 && fed[0].ratio == d.ratio && TotalLabel(row1, row2, table) == Ok(fed[0].rowLabel)
    ensures ShowsCell(fed[0].v1, row1.values, d.idx) && ShowsCell(fed[0].v2, row2.values, d.idx)
  {
    var l := TotalLabel(row1, row2, table);
    EntryCells(table, l.value, d.ratio, row1.values, row2.values, d.idx, row1.comment);
  }

  /** The row as a whole is compared, and fed to the heap where it has no sub rows. */
  method CompareWhole(row1: TableRow, row2: TableRow, table: TableDef, numbers: Numbers, dr: DiffRows)
    returns (r: Result<Diff>)
    requires dr.Valid()
    modifies dr
    ensures Grew(old(dr.stream), dr.stream)
    ensures dr.Valid()
    ensures r.Ok? <==>
            && (|row1.values| == |row2.values| ==> Comparable(row1.values, row2.values, table, numbers))
            && (row1.subValues == [] && row2.subValues == [] ==> TotalLabel(row1, row2, table).Ok?)
    ensures r.Ok? ==> IsTotal(row1, row2, table, numbers, r.value)
    ensures r.Ok? && !(row1.subValues == [] && row2.subValues == []) ==> dr.stream == old(dr.stream)
    ensures r.Ok? && row1.subValues == [] && row2.subValues == [] ==>
              var l, d := TotalLabel(row1, row2, table).value, r.value;
              dr.stream == old(dr.stream) + Entry(table, l, d.ratio, row1.values, row2.values, d.idx, row1.comment)
  {
    r := GetTotal(row1, row2, table, numbers);
    if r.Err? || !(row1.subValues == [] && row2.subValues == []) {
      return;
    }
    var l := GetTotalLabel(row1, row2, table);
    if l.Err? {
      return Err;
    }
    dr.AddRow(table, l.value, r.value.ratio, row1.values, row2.values, r.value.idx, row1.comment);
  }

  /** `joinRow`: it fails exactly when the rows cannot be joined. */
  method JoinRow(row1: TableRow, row2: TableRow, table: TableDef, numbers: Numbers, dr: DiffRows)
    returns (r: Result<TableRow>, ghost fed: seq<DiffRow>)
    requires dr.Valid()
    modifies dr
    ensures Grew(old(dr.stream), dr.stream)
    ensures dr.Valid() && (r.Ok? <==> RowOk(row1, row2, table, numbers))
    ensures r.Ok? ==> RowJoined(row1, row2, table, numbers, r.value, fed) && dr.stream == old(dr.stream) + fed
  {
    var subs;
    ghost var diffs;
    fed := [];
    subs, diffs := JoinSubs(row1, row2, table, numbers, dr);
    if subs.Err? {
      return Err, fed;
    }
    fed := SubEntries(table, SubPairs(row1, row2, table.joinColumns), diffs);
    var total := CompareWhole(row1, row2, table, numbers, dr);
    if total.Err? {
      return Err, fed;
    }
    var d := total.value;
    if row1.subValues == [] && row2.subValues == [] {
      NoSubs(row1, row2, table);
      fed := Entry(table, TotalLabel(row1, row2, table).value, d.ratio, row1.values, row2.values, d.idx, row1.comment);
    }
    PaddableMeans(row1.values, row2.values, d, table, numbers);
    var values := GenNewRow(row1.values, row2.values, d, table, numbers);
    if values.Err? {
      return Err, fed;
    }
    r := Ok(TableRow(values.value, subs.value, d.ratio, row1.comment));
    assert JoinedBy(row1, row2, table, numbers, r.value, fed, d, diffs);
  }

  // ---------- the tables ----------

  predicate AllInWidth(table: TableDef) {
    forall i :: 0 <= i < |table.rows| ==> InWidth(table.rows[i].values, table.joinColumns)
  }

  function TableLabels(table: TableDef): (labels: seq<string>)
    requires AllInWidth(table)
    ensures |labels| == |table.rows|
  {
    seq(|table.rows|, i requires 0 <= i < |table.rows| => LabelOf(table.rows[i].values, table.joinColumns))
  }

  /** `getTableLablesMapWithNonUniqueJoinKey`. */
  method GetLabelMap(table: TableDef) returns (r: Result<LabelMap>)
    ensures r.Ok? <==> table.joinColumns != [] && AllInWidth(table)
    ensures r.Ok? ==> After(r.value, TableLabels(table), [])
  {
    if table.joinColumns == [] {
      return Err;
    }
    var m: LabelMap := map[];
    ghost var labels: seq<string> := [];
    for i := 0 to |table.rows|
      invariant |labels| == i && After(m, labels, [])
      invariant forall k :: 0 <= k < i ==> InWidth(table.rows[k].values, table.joinColumns)
      invariant forall k :: 0 <= k < i ==> labels[k] == LabelOf(table.rows[k].values, table.joinColumns)
    {
      var l := GenRowLabel(table.rows[i].values, table.joinColumns);
      if l.Err? {
        return Err;
      }
      AddStep(m, labels, l.value);
      m := OuterJoin.AddRow(m, l.value, i);
      labels := labels + [l.value];
    }
    assert labels == TableLabels(table);
    return Ok(m);
  }

  function RowAt(table: TableDef, i: Option<nat>): TableRow {
    if i.Some? && i.value < |table.rows| then table.rows[i.value] else NO_ROW
  }

  function Flatten(feds: seq<seq<DiffRow>>): seq<DiffRow> {
    if feds == [] then [] else Flatten(feds[..|feds| - 1]) + feds[|feds| - 1]
  }

  lemma {:induction false} FlattenNext(stream: seq<DiffRow>, feds: seq<seq<DiffRow>>, fed: seq<DiffRow>)
    ensures stream + Flatten(feds) + fed == stream + Flatten(feds + [fed])
  {
    assert (feds + [fed])[..|feds|] == feds;
  }

  ghost predicate PairJoined(table1: TableDef, table2: TableDef, numbers: Numbers, p: Pair, row: TableRow,
                             fed: seq<DiffRow>) {
    RowJoined(RowAt(table1, p.left), RowAt(table2, p.right), table1, numbers, row, fed)
  }

  predicate Joinable(table1: TableDef, table2: TableDef, numbers: Numbers, p: Pair) {
    RowOk(RowAt(table1, p.left), RowAt(table2, p.right), table1, numbers)
  }

  /** The rows joined so far, pair by pair, and the stream grown by their differences. */
  ghost predicate Joined(stream: seq<DiffRow>, before: seq<DiffRow>, table1: TableDef, table2: TableDef,
                         numbers: Numbers, pairs: seq<Pair>, rows: seq<TableRow>, feds: seq<seq<DiffRow>>) {
    && |pairs| == |rows| == |feds| && stream == before + Flatten(feds)
    && forall k {:trigger PairJoined(table1, table2, numbers, pairs[k], rows[k], feds[k])} :: 0 <= k < |pairs| ==>
         PairJoined(table1, table2, numbers, pairs[k], rows[k], feds[k])
  }

  /** One more pair. */
  method JoinPair(table1: TableDef, table2: TableDef, numbers: Numbers, dr: DiffRows, p: Pair, rows: seq<TableRow>,
                  ghost before: seq<DiffRow>, ghost pairs: seq<Pair>, ghost feds: seq<seq<DiffRow>>)
    returns (r: Result<seq<TableRow>>, ghost all: seq<seq<DiffRow>>)
    requires dr.Valid() && Joined(dr.stream, before, table1, table2, numbers, pairs, rows, feds)
    modifies dr
    ensures Grew(old(dr.stream), dr.stream)
    ensures dr.Valid() && (r.Ok? <==> Joinable(table1, table2, numbers, p))
    ensures r.Ok? ==> Joined(dr.stream, before, table1, table2, numbers, pairs + [p], r.value, all)
  {
    var row;
    ghost var fed;
    row, fed := JoinRow(RowAt(table1, p.left), RowAt(table2, p.right), table1, numbers, dr);
    all := feds + [fed];
    FlattenNext(before, feds, fed);
    if row.Err? {
      return Err, all;
    }
    assert PairJoined(table1, table2, numbers, p, row.value, fed);
    r := Ok(rows + [row.value]);
  }

  /** The first n pairs can be joined. */
  ghost predicate PairsJoinable(table1: TableDef, table2: TableDef, numbers: Numbers, pairs: seq<Pair>, n: nat) {
    forall i {:trigger Joinable(table1, table2, numbers, pairs[i])} :: 0 <= i < n && i < |pairs| ==>
      Joinable(table1, table2, numbers, pairs[i])
  }

  lemma {:induction false} PairsJoinableNext(table1: TableDef, table2: TableDef, numbers: Numbers, pairs: seq<Pair>,
                                             i: nat)
    requires i < |pairs|
    ensures PairsJoinable(table1, table2, numbers, pairs, i + 1) <==>
            PairsJoinable(table1, table2, numbers, pairs, i) && Joinable(table1, table2, numbers, pairs[i])
    ensures PairsJoinable(table1, table2, numbers, pairs, |pairs|) ==>
            PairsJoinable(table1, table2, numbers, pairs, i + 1)
  {
    if PairsJoinable(table1, table2, numbers, pairs, i + 1) { assert Joinable(table1, table2, numbers, pairs[i]); }
  }

  /** Every row of the first table can be joined with its partner. */
  ghost predicate FirstJoinable(table1: TableDef, table2: TableDef, numbers: Numbers)
    requires AllInWidth(table1) && AllInWidth(table2)
  {
    PairsJoinable(table1, table2, numbers, PairsOf(TableLabels(table1), TableLabels(table2), []), |table1.rows|)
  }

  /** Row i of the first table, with the next row of its label. */
  method FirstAt(table1: TableDef, table2: TableDef, numbers: Numbers, dr: DiffRows, map1: LabelMap, map2: LabelMap,
                 i: nat, rows: seq<TableRow>, ghost before: seq<DiffRow>, ghost feds: seq<seq<DiffRow>>)
    returns (r: Result<seq<TableRow>>, left1: LabelMap, left2: LabelMap, ghost all: seq<seq<DiffRow>>)
    requires AllInWidth(table1) && AllInWidth(table2) && i < |table1.rows| && dr.Valid()
    requires After(map1, TableLabels(table1), TableLabels(table1)[..i])
    requires After(map2, TableLabels(table2), TableLabels(table1)[..i])
    requires var pairs := PairsOf(TableLabels(table1), TableLabels(table2), []);
             Joined(dr.stream, before, table1, table2, numbers, pairs[..i], rows, feds)
    modifies dr
    ensures Grew(old(dr.stream), dr.stream)
    ensures var pairs := PairsOf(TableLabels(table1), TableLabels(table2), []);
            && dr.Valid() && (r.Ok? <==> Joinable(table1, table2, numbers, pairs[i]))
            && (r.Ok? ==> Joined(dr.stream, before, table1, table2, numbers, pairs[..i + 1], r.value, all))
    ensures After(left1, TableLabels(table1), TableLabels(table1)[..i + 1])
    ensures After(left2, TableLabels(table2), TableLabels(table1)[..i + 1])
  {
    ghost var s1, s2 := TableLabels(table1), TableLabels(table2);
    var l := GenRowLabel(table1.rows[i].values, table1.joinColumns);
    TakePartner(map1, map2, s1, s2, i);
    PairsPrefix(s1, s2, i);
    var p := Pair(Some(i), if l.value in map2 && |map2[l.value]| > 0 then Some(map2[l.value][0]) else None);
    left1, left2 := TakeHead(map1, l.value), TakeHead(map2, l.value);
    r, all := JoinPair(table1, table2, numbers, dr, p, rows, before, PairsOf(s1, s2, [])[..i], feds);
  }

  /** The rows of the first table, each with the next row of its label. */
  method FirstPass(table1: TableDef, table2: TableDef, numbers: Numbers, dr: DiffRows, map1: LabelMap, map2: LabelMap)
    returns (r: Result<seq<TableRow>>, left1: LabelMap, left2: LabelMap, ghost feds: seq<seq<DiffRow>>)
    requires AllInWidth(table1) && AllInWidth(table2) && dr.Valid()
    requires After(map1, TableLabels(table1), []) && After(map2, TableLabels(table2), [])
    modifies dr
    ensures Grew(old(dr.stream), dr.stream)
    ensures dr.Valid() && (r.Ok? <==> FirstJoinable(table1, table2, numbers))
    ensures r.Ok? ==>
              var pairs := PairsOf(TableLabels(table1), TableLabels(table2), []);
              Joined(dr.stream, old(dr.stream), table1, table2, numbers, pairs, r.value, feds)
    ensures r.Ok? ==> left1 == map[] && After(left2, TableLabels(table2), TableLabels(table1))
  {
    ghost var s1, s2 := TableLabels(table1), TableLabels(table2);
    ghost var pairs := PairsOf(s1, s2, []);
    r, left1, left2, feds := Ok([]), map1, map2, [];
    for i := 0 to |table1.rows|
      invariant r.Ok? && dr.Valid() && PairsJoinable(table1, table2, numbers, pairs, i)
      invariant Joined(dr.stream, old(dr.stream), table1, table2, numbers, pairs[..i], r.value, feds)
      invariant After(left1, s1, s1[..i]) && After(left2, s2, s1[..i])
    {
      PairsJoinableNext(table1, table2, numbers, pairs, i);
      r, left1, left2, feds :=
        FirstAt(table1, table2, numbers, dr, left1, left2, i, r.value, old(dr.stream), feds);
      if r.Err? {
        return;
      }
    }
    assert s1[..|s1|] == s1 && pairs[..|s1|] == pairs;
    AllUsed(left1, s1);
  }

  /** Row j of the second table has no partner. */
  predicate IsLeft(s1: seq<string>, s2: seq<string>, j: nat) {
    j < |s2| && Count(s1, s2[j]) <= Rank(s2, j)
  }

  /** Every row of the second table without a partner can be joined with nothing. */
  ghost predicate LeftJoinable(table1: TableDef, table2: TableDef, numbers: Numbers)
    requires AllInWidth(table1) && AllInWidth(table2)
  {
    forall j: nat {:trigger IsLeft(TableLabels(table1), TableLabels(table2), j)} ::
      IsLeft(TableLabels(table1), TableLabels(table2), j) ==> Joinable(table1, table2, numbers, Pair(None, Some(j)))
  }

  /** Every leftover row put out so far can be joined. */
  ghost predicate RestJoinable(table1: TableDef, table2: TableDef, numbers: Numbers, rest: seq<nat>) {
    forall k {:trigger rest[k]} :: 0 <= k < |rest| ==> Joinable(table1, table2, numbers, Pair(None, Some(rest[k])))
  }

  lemma {:induction false} LeftInRest(s1: seq<string>, s2: seq<string>, rest: seq<nat>, j: nat)
    requires Complete(s1, s2, rest) && IsLeft(s1, s2, j)
    ensures j in rest
  {
    PlaceHolds(s1, s2, rest, j);
    PositionOf(s2, j);
  }

  lemma {:induction false} RestIsLeft(s1: seq<string>, s2: seq<string>, rest: seq<nat>, k: nat)
    requires Leftover(s1, s2, rest) && k < |rest|
    ensures IsLeft(s1, s2, rest[k])
  {
    JoinsNthWithNth(s1, s2, rest, |s1| + k);
  }

  lemma {:induction false} RestMeansLeft(table1: TableDef, table2: TableDef, numbers: Numbers, rest: seq<nat>)
    requires AllInWidth(table1) && AllInWidth(table2) && Complete(TableLabels(table1), TableLabels(table2), rest)
    requires RestJoinable(table1, table2, numbers, rest)
    ensures LeftJoinable(table1, table2, numbers)
  {
    var s1, s2 := TableLabels(table1), TableLabels(table2);
    forall j: nat | IsLeft(s1, s2, j) ensures Joinable(table1, table2, numbers, Pair(None, Some(j))) {
      LeftInRest(s1, s2, rest, j);
    }
  }

  /** The rows of the second table that are left, the labels in any order. */
  method SecondPass(table1: TableDef, table2: TableDef, numbers: Numbers, dr: DiffRows, before: seq<TableRow>,
                    left1: LabelMap, left2: LabelMap, ghost stream: seq<DiffRow>, ghost feds1: seq<seq<DiffRow>>)
    returns (r: Result<seq<TableRow>>, ghost rest: seq<nat>, ghost feds: seq<seq<DiffRow>>)
    requires AllInWidth(table1) && AllInWidth(table2) && dr.Valid()
    requires var pairs := PairsOf(TableLabels(table1), TableLabels(table2), []);
             Joined(dr.stream, stream, table1, table2, numbers, pairs, before, feds1)
    requires left1 == map[] && After(left2, TableLabels(table2), TableLabels(table1))
    modifies dr
    ensures Grew(old(dr.stream), dr.stream)
    ensures dr.Valid() && (r.Ok? <==> LeftJoinable(table1, table2, numbers))
    ensures r.Ok? ==> Complete(TableLabels(table1), TableLabels(table2), rest)
    ensures r.Ok? ==>
              var pairs := PairsOf(TableLabels(table1), TableLabels(table2), rest);
              Joined(dr.stream, stream, table1, table2, numbers, pairs, r.value, feds)
  {
    ghost var s1, s2 := TableLabels(table1), TableLabels(table2);
    var map2 := left2;
    r, rest, feds := Ok(before), [], feds1;
    assert s1 + LabelsAt(s2, rest) == s1;
    while map2 != map[]
      invariant r.Ok? && dr.Valid() && RestJoinable(table1, table2, numbers, rest)
      invariant Grew(old(dr.stream), dr.stream)
      invariant Leftover(s1, s2, rest) && After(map2, s2, s1 + LabelsAt(s2, rest))
      invariant Joined(dr.stream, stream, table1, table2, numbers, PairsOf(s1, s2, rest), r.value, feds)
      decreases |Unused(s2, rest)|
    {
      var l: string :| l in map2;
      TakeLeftover(map2, s1, s2, rest, l);
      var j := map2[l][0];
      map2 := TakeHead(map2, l);
      assert l !in left1;
      PairsNext(s1, s2, rest, j);
      RestIsLeft(s1, s2, rest + [j], |rest|);
      ghost var was := dr.stream;
      r, feds := JoinPair(table1, table2, numbers, dr, Pair(None, Some(j)), r.value, stream, PairsOf(s1, s2, rest),
                          feds);
      GrewMore(old(dr.stream), was, dr.stream);
      if r.Err? {
        assert IsLeft(s1, s2, j);
        return;
      }
      rest := rest + [j];
    }
    CompleteAtEnd(map2, s1, s2, rest);
    RestMeansLeft(table1, table2, numbers, rest);
  }

  // ---------- the comparison ----------

  /** The tables can be compared: their labels exist, every pair of the join can be joined, and so can the headers. */
  ghost predicate TablesOk(table1: TableDef, table2: TableDef, numbers: Numbers) {
    && table1.joinColumns != [] && table2.joinColumns != [] && AllInWidth(table1) && AllInWidth(table2)
    && FirstJoinable(table1, table2, numbers) && LeftJoinable(table1, table2, numbers)
    && Header(table1, table2).Ok?
  }

  function CodePoints(s: string): (r: seq<int>)
    ensures |r| == |s| && forall i :: 0 <= i < |s| ==> r[i] == s[i] as int
  {
    seq(|s|, i requires 0 <= i < |s| => s[i] as int)
  }

  /** The order of strings. */
  predicate Precedes(a: string, b: string) {
    Less(CodePoints(a), CodePoints(b))
  }

  lemma {:induction false} PrecedesOrders(a: string, b: string, c: string)
    ensures !(Precedes(a, b) && Precedes(b, a))
    ensures !Precedes(b, a) && !Precedes(c, b) ==> !Precedes(c, a)
    ensures !Precedes(a, b) && !Precedes(b, a) ==> a == b
  {
    var x, y, z := CodePoints(a), CodePoints(b), CodePoints(c);
    LessTotal(x, y);
    LessTotal(y, z);
    assert x == y ==> forall i :: 0 <= i < |a| ==> a[i] as int == b[i] as int;
    if Less(x, y) { LessAsymmetric(x, y); }
    if Less(x, y) && Less(y, z) {
      LessTransitive(x, y, z);
      LessAsymmetric(x, z);
    }
    if Less(x, z) { LessAsymmetric(x, z); }
  }

  /**
   The order of the joined rows: by their first join column, then by their first column, where they are wide
   enough.
   */
  function RowOrder(idx: nat): (TableRow, TableRow) -> bool {
    (a: TableRow, b: TableRow) =>
      if |a.values| > idx + 1 && |b.values| > idx + 1 then
        if a.values[idx] != b.values[idx] then Precedes(a.values[idx], b.values[idx])
        else Precedes(a.values[0], b.values[0])
      else false
  }

  function WideRow(idx: nat): TableRow -> bool {
    (a: TableRow) => |a.values| > idx + 1
  }

  lemma {:induction false} RowOrderOrders(idx: nat)
    ensures OrdersWeakly(RowOrder(idx), WideRow(idx))
  {
    var less, wide := RowOrder(idx), WideRow(idx);
    forall x, y | wide(x) && wide(y) && less(x, y) ensures !less(y, x) {
      PrecedesOrders(x.values[idx], y.values[idx], "");
      PrecedesOrders(x.values[0], y.values[0], "");
    }
    forall x, y, z | wide(x) && wide(y) && wide(z) && !less(y, x) && !less(z, y) ensures !less(z, x) {
      PrecedesOrders(x.values[idx], y.values[idx], z.values[idx]);
      PrecedesOrders(z.values[idx], y.values[idx], x.values[idx]);
      PrecedesOrders(x.values[0], y.values[0], z.values[0]);
    }
  }

  /** So sorted rows ascend by their first join column, and where they agree there, by their first column. */
  lemma {:induction false} RowsAscend(rows: seq<TableRow>, idx: nat, i: nat, j: nat)
    requires InOrder(RowOrder(idx), rows) && AllGood(WideRow(idx), rows) && i < j < |rows|
    ensures |rows[i].values| > idx + 1 && |rows[j].values| > idx + 1
    ensures !Precedes(rows[j].values[idx], rows[i].values[idx])
    ensures rows[i].values[idx] == rows[j].values[idx] ==> !Precedes(rows[j].values[0], rows[i].values[0])
  {
    assert WideRow(idx)(rows[i]) && WideRow(idx)(rows[j]);
    assert !RowOrder(idx)(rows[j], rows[i]);
    PrecedesOrders(rows[i].values[idx], rows[j].values[idx], "");
    PrecedesOrders(rows[j].values[idx], rows[i].values[idx], "");
  }

  /** Strings agree before position n, where the first one ends or has the smaller character. */
  predicate CharAt(a: string, b: string, n: nat) {
    n <= |a| && n < |b| && a[..n] == b[..n] && (n == |a| || a[n] < b[n])
  }

  /** Strings are ordered by their first difference; a prefix comes first. */
  lemma {:induction false} PrecedesMeans(a: string, b: string)
    ensures Precedes(a, b) <==> exists n: nat :: CharAt(a, b, n)
  {
    var x, y := CodePoints(a), CodePoints(b);
    LessMeans(x, y);
    forall n: nat ensures CharAt(a, b, n) <==> DiffersAt(x, y, n) { SameDifference(a, b, n); }
  }

  lemma {:induction false} SameDifference(a: string, b: string, n: nat)
    ensures CharAt(a, b, n) <==> DiffersAt(CodePoints(a), CodePoints(b), n)
  {
    var x, y := CodePoints(a), CodePoints(b);
    if n <= |a| && n <= |b| {
      assert forall i :: 0 <= i < n ==> x[..n][i] == a[..n][i] as int && y[..n][i] == b[..n][i] as int;
      if x[..n] == y[..n] {
        assert forall i :: 0 <= i < n ==> a[..n][i] as int == b[..n][i] as int;
        assert a[..n] == b[..n];
      }
    }
  }

  datatype Comparison = Comparison(columns: seq<string>, rows: seq<TableRow>)

  /** The sorted rows of the comparison are those joined. */
  ghost predicate SortedFrom(rows: seq<TableRow>, joined: seq<TableRow>, idx: nat) {
    multiset(rows) == multiset(joined) && (AllGood(WideRow(idx), joined) ==> InOrder(RowOrder(idx), rows))
  }

  /** Both passes. */
  method JoinTables(table1: TableDef, table2: TableDef, numbers: Numbers, dr: DiffRows)
    returns (r: Result<seq<TableRow>>, ghost rest: seq<nat>, ghost feds: seq<seq<DiffRow>>)
    requires dr.Valid()
    modifies dr
    ensures Grew(old(dr.stream), dr.stream)
    ensures dr.Valid()
    ensures r.Ok? <==>
            && table1.joinColumns != [] && table2.joinColumns != [] && AllInWidth(table1) && AllInWidth(table2)
            && FirstJoinable(table1, table2, numbers) && LeftJoinable(table1, table2, numbers)
    ensures r.Ok? ==>
              var s1, s2 := TableLabels(table1), TableLabels(table2);
              && Complete(s1, s2, rest)
              && Joined(dr.stream, old(dr.stream), table1, table2, numbers, PairsOf(s1, s2, rest), r.value, feds)
  {
    r, rest, feds := Err, [], [];
    var map1 := GetLabelMap(table1);
    var map2 := GetLabelMap(table2);
    if map1.Err? || map2.Err? {
      return;
    }
    ghost var stream := dr.stream;
    var left1, left2;
    r, left1, left2, feds := FirstPass(table1, table2, numbers, dr, map1.value, map2.value);
    if r.Err? {
      return;
    }
    r, rest, feds := SecondPass(table1, table2, numbers, dr, r.value, left1, left2, stream, feds);
  }

  /**
   `compareTableWithNonUniqueKey` terminates, and fails exactly when the tables cannot be compared. When it
   succeeds, its rows are those of the full outer join of the labels, each made of the two rows it joins,
   sorted; and the heap holds the largest differences of the stream extended with theirs.
   */
  method CompareTables(table1: TableDef, table2: TableDef, numbers: Numbers, dr: DiffRows)
    returns (r: Result<Comparison>, ghost rest: seq<nat>, ghost joined: seq<TableRow>, ghost feds: seq<seq<DiffRow>>)
    requires dr.Valid()
    modifies dr
    ensures Grew(old(dr.stream), dr.stream)
    ensures dr.Valid() && (r.Ok? <==> TablesOk(table1, table2, numbers))
    ensures r.Ok? ==>
              var s1, s2 := TableLabels(table1), TableLabels(table2);
              && Complete(s1, s2, rest)
              && Joined(dr.stream, old(dr.stream), table1, table2, numbers, PairsOf(s1, s2, rest), joined, feds)
    ensures r.Ok? ==>
              SortedFrom(r.value.rows, joined, table1.joinColumns[0]) && Header(table1, table2) == Ok(r.value.columns)
  {
    var rows;
    joined := [];
    rows, rest, feds := JoinTables(table1, table2, numbers, dr);
    if rows.Err? {
      return Err, rest, joined, feds;
    }
    joined := rows.value;
    var columns := GenHeader(table1, table2);
    if columns.Err? {
      return Err, rest, joined, feds;
    }
    var idx := table1.joinColumns[0];
    RowOrderOrders(idx);
    var sorted := SortBy(rows.value, RowOrder(idx), WideRow(idx));
    r := Ok(Comparison(columns.value, sorted));
  }

  // ---------- full tables ----------

  /** Every row and sub row has all columns, and numbers in the compared ones. */
  predicate FullRow(row: seq<string>, table: TableDef, numbers: Numbers) {
    && FullWidth(row, table)
    && forall k :: 0 <= k < |table.compareColumns| ==> Number(row, table.compareColumns[k], numbers).Some?
  }

  predicate FullSubs(row: TableRow, table: TableDef, numbers: Numbers) {
    && Indexable(row.subValues, table.joinColumns)
    && forall k :: 0 <= k < |row.subValues| ==> FullRow(row.subValues[k], table, numbers)
  }

  predicate FullTable(table: TableDef, like: TableDef, numbers: Numbers) {
    forall i :: 0 <= i < |table.rows| ==>
      FullRow(table.rows[i].values, like, numbers) && FullSubs(table.rows[i], like, numbers)
  }

  /** A row that is full, or missing. */
  predicate FullOrNone(row: seq<string>, table: TableDef, numbers: Numbers) {
    row == [] || FullRow(row, table, numbers)
  }

  lemma {:induction false} FullComparable(row1: seq<string>, row2: seq<string>, table: TableDef, numbers: Numbers)
    requires FullOrNone(row1, table, numbers) && FullOrNone(row2, table, numbers)
    ensures Comparable(row1, row2, table, numbers)
  {
    forall k | 0 <= k < |table.compareColumns| ensures Readable(row1, row2, table.compareColumns[k], numbers) {
      assert Number([], table.compareColumns[k], numbers).Some?;
    }
  }

  lemma {:induction false} FullPaddable(row1: seq<string>, row2: seq<string>, table: TableDef, numbers: Numbers)
    requires FullOrNone(row1, table, numbers) && |table.joinColumns| <= |table.column|
    ensures Paddable(row1, row2, table)
  {
  }

  lemma {:induction false} FullPairs(row1: TableRow, row2: TableRow, table: TableDef, numbers: Numbers)
    requires FullSubs(row1, table, numbers) && FullSubs(row2, table, numbers) && |table.joinColumns| <= |table.column|
    ensures SubsOk(row1, row2, table, numbers)
  {
    var labels1, labels2 := LabelsOf(row1.subValues, table.joinColumns), LabelsOf(row2.subValues, table.joinColumns);
    var first := Matched(labels1, row1.subValues, labels2, row2.subValues, row1.comment);
    forall k | 0 <= k < |first| ensures PairOk(first[k], table, numbers) {
      assert FullOrNone(first[k].row1, table, numbers) && FullOrNone(first[k].row2, table, numbers);
      FullComparable(first[k].row1, first[k].row2, table, numbers);
      FullPaddable(first[k].row1, first[k].row2, table, numbers);
    }
    FullRest(LabelSet(labels1), row2, table, numbers, |row2.subValues|);
    AllOkAppend(first, Rest(LabelSet(labels1), row2, table, |row2.subValues|), table, numbers);
  }

  lemma {:induction false} FullRest(labels1: set<string>, row2: TableRow, table: TableDef, numbers: Numbers, n: nat)
    requires FullSubs(row2, table, numbers) && n <= |row2.subValues|
    ensures AllOk(Rest(labels1, row2, table, n), table, numbers)
    decreases n
  {
    if n > 0 {
      FullRest(labels1, row2, table, numbers, n - 1);
      FullComparable([], row2.subValues[n - 1], table, numbers);
      var labels2 := LabelsOf(row2.subValues, table.joinColumns);
      var alone := Alone(labels1, labels2[n - 1], row2.subValues[n - 1], row2.comment);
      AllOkAppend(Rest(labels1, row2, table, n - 1), alone, table, numbers);
    }
  }

  lemma {:induction false} FullRowsJoin(row1: TableRow, row2: TableRow, table: TableDef, numbers: Numbers)
    requires FullOrNone(row1.values, table, numbers) && FullOrNone(row2.values, table, numbers)
    requires FullSubs(row1, table, numbers) && FullSubs(row2, table, numbers)
    requires InWidth(table.column, table.joinColumns) && |table.joinColumns| <= |table.column|
    ensures RowOk(row1, row2, table, numbers)
  {
    FullPairs(row1, row2, table, numbers);
    FullComparable(row1.values, row2.values, table, numbers);
    FullPaddable(row1.values, row2.values, table, numbers);
  }

  /** Full tables of one shape, joined on distinct columns, can always be compared. */
  lemma {:induction false} FullTablesCompare(table1: TableDef, table2: TableDef, numbers: Numbers)
    requires SameShape(table1, table2) && table1.joinColumns != [] && DistinctColumns(table1.joinColumns)
    requires FullTable(table1, table1, numbers) && FullTable(table2, table1, numbers) && Header(table1, table2).Ok?
    ensures TablesOk(table1, table2, numbers)
  {
    ColumnSetSize(table1.joinColumns, |table1.column|);
    NonJoinWidth(table1.column, table1.joinColumns, |table1.column|);
    assert FullSubs(NO_ROW, table1, numbers);
    forall p: Pair ensures Joinable(table1, table2, numbers, p) {
      FullRowsJoin(RowAt(table1, p.left), RowAt(table2, p.right), table1, numbers);
    }
  }

  /** Every row of the comparison is as wide as the header, for full rows of one shape and distinct join columns. */
  lemma {:induction false} ComparisonWidth(table1: TableDef, table2: TableDef, numbers: Numbers, p: Pair, row: TableRow,
                                           fed: seq<DiffRow>)
    requires SameShape(table1, table2) && DistinctColumns(table1.joinColumns) && Header(table1, table2).Ok?
    requires forall i :: 0 <= i < |table1.rows| ==> FullWidth(table1.rows[i].values, table1)
    requires forall j :: 0 <= j < |table2.rows| ==> FullWidth(table2.rows[j].values, table2)
    requires AllInWidth(table1) && AllInWidth(table2) && JoinsNth(TableLabels(table1), TableLabels(table2), p)
    requires PairJoined(table1, table2, numbers, p, row, fed)
    ensures |row.values| == |Header(table1, table2).value|
  {
    var row1, row2 := RowAt(table1, p.left), RowAt(table2, p.right);
    var d, diffs :| JoinedBy(row1, row2, table1, numbers, row, fed, d, diffs);
    if p.right.Some? {
      WidthWithSecond(row1.values, row2.values, d, table1, table2, numbers);
    } else {
      WidthOfFirst(row1.values, d, table1, table2, numbers);
    }
  }
}
