/**
 The sub rows of two joined rows: they are joined on labels that must be unique, compared, fed to the
 heap of differences and sorted by how much they differ.
 */
module SubRows {
  import opened Tables
  import opened DiffHeap
  import opened OuterJoin
  import opened NewRows
  import opened Sorting

  /** What a sub row is joined with, under which label and comment. */
  datatype SubPair = SubPair(rowLabel: string, row1: seq<string>, row2: seq<string>, comment: string)

  type Index = map<string, seq<string>>

  predicate AllWide(rows: seq<seq<string>>, joinColumns: seq<nat>) {
    forall i :: 0 <= i < |rows| ==> InWidth(rows[i], joinColumns)
  }

  function LabelsOf(rows: seq<seq<string>>, joinColumns: seq<nat>): (labels: seq<string>)
    requires AllWide(rows, joinColumns)
    ensures |labels| == |rows|
  {
    seq(|rows|, i requires 0 <= i < |rows| => LabelOf(rows[i], joinColumns))
  }

  predicate Indexable(rows: seq<seq<string>>, joinColumns: seq<nat>) {
    AllWide(rows, joinColumns) && Distinct(LabelsOf(rows, joinColumns))
  }

  /** The map finds every row by its label, and nothing else. */
  predicate Indexes(m: Index, labels: seq<string>, rows: seq<seq<string>>) {
    && |labels| == |rows|
    && (forall i :: 0 <= i < |rows| ==> labels[i] in m && m[labels[i]] == rows[i])
    && (forall l :: l in m ==> l in labels)
  }

  lemma {:induction false} IndexStep(m: Index, labels: seq<string>, rows: seq<seq<string>>, l: string, row: seq<string>)
    requires Indexes(m, labels, rows) && Distinct(labels)
    ensures l !in m ==> Indexes(m[l := row], labels + [l], rows + [row])
    ensures l !in m <==> Distinct(labels + [l])
  {
    var all := labels + [l];
    if l in m {
      var i :| 0 <= i < |labels| && labels[i] == l;
      assert all[i] == all[|labels|];
    }
  }

  lemma {:induction false} IndexablePrefix(rows: seq<seq<string>>, joinColumns: seq<nat>, n: nat)
    requires n <= |rows|
    ensures Indexable(rows, joinColumns) ==> Indexable(rows[..n], joinColumns)
  {
    if Indexable(rows, joinColumns) {
      assert LabelsOf(rows[..n], joinColumns) == LabelsOf(rows, joinColumns)[..n];
    }
  }

  /** `genRowsLablesMap`: fails on a duplicate label. */
  method IndexRows(table: TableDef, rows: seq<seq<string>>) returns (r: Result<Index>)
    ensures r.Ok? <==> Indexable(rows, table.joinColumns)
    ensures r.Ok? ==> Indexes(r.value, LabelsOf(rows, table.joinColumns), rows)
  {
    var m: Index := map[];
    ghost var labels: seq<string> := [];
    for i := 0 to |rows|
      invariant AllWide(rows[..i], table.joinColumns) && labels == LabelsOf(rows[..i], table.joinColumns)
      invariant Distinct(labels) && Indexes(m, labels, rows[..i])
    {
      var l := GenRowLabel(rows[i], table.joinColumns);
      if l.Err? {
        return Err;
      }
      IndexStep(m, labels, rows[..i], l.value, rows[i]);
      assert rows[..i + 1] == rows[..i] + [rows[i]];
      labels := labels + [l.value];
      assert labels == LabelsOf(rows[..i + 1], table.joinColumns);
      if l.value in m {
        IndexablePrefix(rows, table.joinColumns, i + 1);
        return Err;
      }
      m := m[l.value := rows[i]];
    }
    assert rows[..|rows|] == rows;
    return Ok(m);
  }

  // ---------- which sub rows are joined ----------

  /** The row with the label, or nothing. */
  function Lookup(labels: seq<string>, rows: seq<seq<string>>, l: string): (row: seq<string>)
    requires |labels| == |rows|
    ensures if l in labels then exists i :: 0 <= i < |rows| && labels[i] == l && row == rows[i] else row == []
  {
    if l !in labels then []
    else
      var n := |rows| - 1;
      if labels[n] == l then rows[n] else Lookup(labels[..n], rows[..n], l)
  }

  lemma {:induction false} IndexFinds(m: Index, labels: seq<string>, rows: seq<seq<string>>, l: string)
    requires Indexes(m, labels, rows)
    ensures l in m <==> l in labels
    ensures (if l in m then m[l] else []) == Lookup(labels, rows, l)
  {
  }

  /** The sub rows of the first row, each with the sub row of the same label. */
  function Matched(labels1: seq<string>, rows1: seq<seq<string>>, labels2: seq<string>, rows2: seq<seq<string>>,
                   comment: string): (pairs: seq<SubPair>)
    requires |labels1| == |rows1| && |labels2| == |rows2|
    ensures |pairs| == |rows1|
  {
    seq(|rows1|, k requires 0 <= k < |rows1| =>
      SubPair(labels1[k], rows1[k], Lookup(labels2, rows2, labels1[k]), comment))
  }

  function LabelSet(labels: seq<string>): set<string> {
    set l | l in labels
  }

  lemma {:induction false} IndexKeys(m: Index, labels: seq<string>, rows: seq<seq<string>>)
    requires Indexes(m, labels, rows)
    ensures m.Keys == LabelSet(labels)
  {
  }

  lemma {:induction false} MatchedByIndex(m: Index, labels1: seq<string>, rows1: seq<seq<string>>, labels2: seq<string>,
                                          rows2: seq<seq<string>>, comment: string)
    requires |labels1| == |rows1| && Indexes(m, labels2, rows2)
    ensures forall k :: 0 <= k < |rows1| ==>
              Matched(labels1, rows1, labels2, rows2, comment)[k] ==
              SubPair(labels1[k], rows1[k], if labels1[k] in m then m[labels1[k]] else [], comment)
  {
    forall k | 0 <= k < |rows1|
      ensures (if labels1[k] in m then m[labels1[k]] else []) == Lookup(labels2, rows2, labels1[k])
    {
      IndexFinds(m, labels2, rows2, labels1[k]);
    }
  }

  /** A sub row of the second row stands alone when the first row does not have its label. */
  function Alone(labels1: set<string>, l: string, row: seq<string>, comment: string): seq<SubPair> {
    if l in labels1 then [] else [SubPair(l, [], row, comment)]
  }

  /** Those of the first n sub rows of the second row that stand alone. */
  function Unmatched(labels1: set<string>, labels2: seq<string>, rows2: seq<seq<string>>, comment: string,
                     n: nat): seq<SubPair>
    requires n <= |labels2| == |rows2|
  {
    if n == 0 then []
    else Unmatched(labels1, labels2, rows2, comment, n - 1) + Alone(labels1, labels2[n - 1], rows2[n - 1], comment)
  }

  lemma {:induction false} UnmatchedPrefix(labels1: set<string>, labels2: seq<string>, rows2: seq<seq<string>>,
                                           comment: string, i: nat, n: nat)
    requires i <= n <= |labels2| == |rows2|
    ensures Unmatched(labels1, labels2, rows2, comment, i) <= Unmatched(labels1, labels2, rows2, comment, n)
    decreases n
  {
    if i < n { UnmatchedPrefix(labels1, labels2, rows2, comment, i, n - 1); }
  }

  /** The sub rows of the two rows, joined on their labels. */
  function SubPairs(row1: TableRow, row2: TableRow, joinColumns: seq<nat>): seq<SubPair>
    requires Indexable(row1.subValues, joinColumns) && Indexable(row2.subValues, joinColumns)
  {
    var labels1, labels2 := LabelsOf(row1.subValues, joinColumns), LabelsOf(row2.subValues, joinColumns);
    Matched(labels1, row1.subValues, labels2, row2.subValues, row1.comment)
    + Unmatched(LabelSet(labels1), labels2, row2.subValues, row2.comment, |row2.subValues|)
  }

  /** `p` joins a sub row of the first row with the one of its label, if there is one. */
  predicate JoinsFirst(row1: TableRow, row2: TableRow, joinColumns: seq<nat>, p: SubPair, i: nat)
    requires AllWide(row1.subValues, joinColumns) && AllWide(row2.subValues, joinColumns)
  {
    && i < |row1.subValues| && p.row1 == row1.subValues[i] && p.comment == row1.comment
    && p.rowLabel == LabelOf(p.row1, joinColumns)
    && if exists j :: 0 <= j < |row2.subValues| && LabelOf(row2.subValues[j], joinColumns) == p.rowLabel
       then p.row2 in row2.subValues && LabelOf(p.row2, joinColumns) == p.rowLabel
       else p.row2 == []
  }

  /** `p` is a sub row of the second row whose label the first row does not have. */
  predicate AloneSecond(row1: TableRow, row2: TableRow, joinColumns: seq<nat>, p: SubPair, j: nat)
    requires AllWide(row1.subValues, joinColumns) && AllWide(row2.subValues, joinColumns)
  {
    && j < |row2.subValues| && p.row1 == [] && p.row2 == row2.subValues[j] && p.comment == row2.comment
    && p.rowLabel == LabelOf(p.row2, joinColumns)
    && forall i :: 0 <= i < |row1.subValues| ==> LabelOf(row1.subValues[i], joinColumns) != p.rowLabel
  }

  lemma {:induction false} LookupJoins(rows: seq<seq<string>>, joinColumns: seq<nat>, l: string)
    requires AllWide(rows, joinColumns)
    ensures var row := Lookup(LabelsOf(rows, joinColumns), rows, l);
            if exists j :: 0 <= j < |rows| && LabelOf(rows[j], joinColumns) == l
            then row in rows && InWidth(row, joinColumns) && LabelOf(row, joinColumns) == l
            else row == []
  {
    var labels := LabelsOf(rows, joinColumns);
    if j :| 0 <= j < |rows| && LabelOf(rows[j], joinColumns) == l { assert labels[j] == l; }
    if l in labels {
      var i :| 0 <= i < |rows| && labels[i] == l && Lookup(labels, rows, l) == rows[i];
      assert LabelOf(rows[i], joinColumns) == l;
    }
  }

  /** Every pair is of one of the two kinds. */
  lemma {:induction false} PairsJoin(row1: TableRow, row2: TableRow, joinColumns: seq<nat>, k: nat)
    requires Indexable(row1.subValues, joinColumns) && Indexable(row2.subValues, joinColumns)
    requires k < |SubPairs(row1, row2, joinColumns)|
    ensures var p := SubPairs(row1, row2, joinColumns)[k];
            || JoinsFirst(row1, row2, joinColumns, p, k)
            || exists j :: AloneSecond(row1, row2, joinColumns, p, j)
  {
    var labels1, labels2 := LabelsOf(row1.subValues, joinColumns), LabelsOf(row2.subValues, joinColumns);
    var p := SubPairs(row1, row2, joinColumns)[k];
    if k < |row1.subValues| {
      assert p == SubPair(labels1[k], row1.subValues[k], Lookup(labels2, row2.subValues, labels1[k]), row1.comment);
      LookupJoins(row2.subValues, joinColumns, labels1[k]);
    } else {
      var n := |row2.subValues|;
      var rest := Unmatched(LabelSet(labels1), labels2, row2.subValues, row2.comment, n);
      assert p == rest[k - |row1.subValues|];
      var j := UnmatchedAt(LabelSet(labels1), labels2, row2.subValues, row2.comment, n, k - |row1.subValues|);
      forall i | 0 <= i < |row1.subValues| ensures LabelOf(row1.subValues[i], joinColumns) != p.rowLabel {
        assert labels1[i] in LabelSet(labels1);
      }
      assert AloneSecond(row1, row2, joinColumns, p, j);
    }
  }

  lemma {:induction false} UnmatchedAt(labels1: set<string>, labels2: seq<string>, rows2: seq<seq<string>>,
                                       comment: string, n: nat, k: nat) returns (j: nat)
    requires n <= |labels2| == |rows2| && k < |Unmatched(labels1, labels2, rows2, comment, n)|
    ensures j < n && labels2[j] !in labels1
    ensures Unmatched(labels1, labels2, rows2, comment, n)[k] == SubPair(labels2[j], [], rows2[j], comment)
    decreases n
  {
    if k < |Unmatched(labels1, labels2, rows2, comment, n - 1)| {
      j := UnmatchedAt(labels1, labels2, rows2, comment, n - 1, k);
    } else {
      j := n - 1;
    }
  }

  /** No sub row is left out: those of the first row come first, and those of the second are joined or alone. */
  lemma {:induction false} AllSubsJoined(row1: TableRow, row2: TableRow, joinColumns: seq<nat>)
    requires Indexable(row1.subValues, joinColumns) && Indexable(row2.subValues, joinColumns)
    ensures |SubPairs(row1, row2, joinColumns)| >= |row1.subValues|
    ensures forall i :: 0 <= i < |row1.subValues| ==>
              SubPairs(row1, row2, joinColumns)[i].row1 == row1.subValues[i]
    ensures forall j :: 0 <= j < |row2.subValues| ==>
              exists k :: 0 <= k < |SubPairs(row1, row2, joinColumns)|
                          && SubPairs(row1, row2, joinColumns)[k].row2 == row2.subValues[j]
  {
    forall j | 0 <= j < |row2.subValues|
      ensures exists k :: 0 <= k < |SubPairs(row1, row2, joinColumns)|
                          && SubPairs(row1, row2, joinColumns)[k].row2 == row2.subValues[j]
    {
      var k := SecondJoined(row1, row2, joinColumns, j);
    }
  }

  lemma {:induction false} SecondJoined(row1: TableRow, row2: TableRow, joinColumns: seq<nat>, j: nat) returns (k: nat)
    requires Indexable(row1.subValues, joinColumns) && Indexable(row2.subValues, joinColumns) && j < |row2.subValues|
    ensures k < |SubPairs(row1, row2, joinColumns)|
    ensures SubPairs(row1, row2, joinColumns)[k].row2 == row2.subValues[j]
  {
    var labels1, labels2 := LabelsOf(row1.subValues, joinColumns), LabelsOf(row2.subValues, joinColumns);
    if i :| 0 <= i < |row1.subValues| && labels1[i] == labels2[j] {
      k := i;
      LookupFinds(labels2, row2.subValues, j);
    } else {
      var n := |row2.subValues|;
      var h := UnmatchedHas(LabelSet(labels1), labels2, row2.subValues, row2.comment, n, j);
      k := |row1.subValues| + h;
    }
  }

  lemma {:induction false} LookupFinds(labels: seq<string>, rows: seq<seq<string>>, j: nat)
    requires |labels| == |rows| && Distinct(labels) && j < |rows|
    ensures Lookup(labels, rows, labels[j]) == rows[j]
  {
  }

  lemma {:induction false} UnmatchedHas(labels1: set<string>, labels2: seq<string>, rows2: seq<seq<string>>,
                                        comment: string, n: nat, j: nat) returns (k: nat)
    requires j < n <= |labels2| == |rows2| && labels2[j] !in labels1
    ensures k < |Unmatched(labels1, labels2, rows2, comment, n)|
    ensures Unmatched(labels1, labels2, rows2, comment, n)[k].row2 == rows2[j]
    decreases n
  {
    if j == n - 1 {
      k := |Unmatched(labels1, labels2, rows2, comment, n - 1)|;
    } else {
      k := UnmatchedHas(labels1, labels2, rows2, comment, n - 1, j);
    }
  }

  // ---------- when they can be joined ----------

  /** Every compared cell is a number, or there is nothing to compare. */
  predicate Comparable(row1: seq<string>, row2: seq<string>, table: TableDef, numbers: Numbers) {
    || (row1 == [] && row2 == [])
    || forall k :: 0 <= k < |table.compareColumns| ==> Readable(row1, row2, table.compareColumns[k], numbers)
  }

  /** A row of the first table alone has room for its padding. */
  predicate Paddable(row1: seq<string>, row2: seq<string>, table: TableDef) {
    row1 == [] || row2 != [] || |table.joinColumns| <= |row1|
  }

  lemma {:induction false} PaddableMeans(row1: seq<string>, row2: seq<string>, d: Diff, table: TableDef,
                                         numbers: Numbers)
    ensures NewRow(row1, row2, d, table, numbers).Ok? <==> Paddable(row1, row2, table)
  {
  }

  predicate PairOk(p: SubPair, table: TableDef, numbers: Numbers) {
    Comparable(p.row1, p.row2, table, numbers) && Paddable(p.row1, p.row2, table)
  }

  predicate AllOk(pairs: seq<SubPair>, table: TableDef, numbers: Numbers) {
    forall k {:trigger PairOk(pairs[k], table, numbers)} :: 0 <= k < |pairs| ==> PairOk(pairs[k], table, numbers)
  }

  lemma {:induction false} AllOkAppend(a: seq<SubPair>, b: seq<SubPair>, table: TableDef, numbers: Numbers)
    ensures AllOk(a + b, table, numbers) <==> AllOk(a, table, numbers) && AllOk(b, table, numbers)
  {
    if AllOk(a + b, table, numbers) {
      forall k | 0 <= k < |a| ensures PairOk(a[k], table, numbers) { assert PairOk((a + b)[k], table, numbers); }
      forall k | 0 <= k < |b| ensures PairOk(b[k], table, numbers) { assert PairOk((a + b)[|a| + k], table, numbers); }
    }
  }

  lemma {:induction false} AllOkNext(pairs: seq<SubPair>, i: nat, table: TableDef, numbers: Numbers)
    requires i < |pairs|
    ensures AllOk(pairs[..i + 1], table, numbers) <==>
            AllOk(pairs[..i], table, numbers) && PairOk(pairs[i], table, numbers)
    ensures AllOk(pairs, table, numbers) ==> PairOk(pairs[i], table, numbers)
  {
    AllOkAppend(pairs[..i], [pairs[i]], table, numbers);
    assert pairs[..i + 1] == pairs[..i] + [pairs[i]];
    assert AllOk([pairs[i]], table, numbers) <==> PairOk([pairs[i]][0], table, numbers);
  }

  /** The sub rows of the two rows can be joined. */
  predicate SubsOk(row1: TableRow, row2: TableRow, table: TableDef, numbers: Numbers) {
    && Indexable(row1.subValues, table.joinColumns) && Indexable(row2.subValues, table.joinColumns)
    && AllOk(SubPairs(row1, row2, table.joinColumns), table, numbers)
  }

  // ---------- joining them ----------

  /** A joined sub row and its ratio. */
  datatype SubRow = SubRow(values: seq<string>, ratio: real)

  function EntryOf(table: TableDef, p: SubPair, d: Diff): seq<DiffRow> {
    Entry(table, p.rowLabel, d.ratio, p.row1, p.row2, d.idx, p.comment)
  }

  /** A sub row that differs is entered under its label, with the cells of the first and the second sub row. */
  lemma {:induction false} SubEntryCells(table: TableDef, p: SubPair, d: Diff)
    requires d.ratio != 0.0
    ensures var e := EntryOf(table, p, d);
            && |e| == 1 && e[0].rowLabel == p.rowLabel && e[0].ratio == d.ratio
            && ShowsCell(e[0].v1, p.row1, d.idx) && ShowsCell(e[0].v2, p.row2, d.idx)
  {
    EntryCells(table, p.rowLabel, d.ratio, p.row1, p.row2, d.idx, p.comment);
  }

  function SubEntries(table: TableDef, pairs: seq<SubPair>, diffs: seq<Diff>): seq<DiffRow>
    requires |diffs| == |pairs|
  {
    if pairs == [] then []
    else
      var n := |pairs| - 1;
      SubEntries(table, pairs[..n], diffs[..n]) + EntryOf(table, pairs[n], diffs[n])
  }

  lemma {:induction false} SubEntriesNext(stream: seq<DiffRow>, table: TableDef, pairs: seq<SubPair>,
                                          diffs: seq<Diff>, p: SubPair, d: Diff)
    requires |diffs| == |pairs|
    ensures stream + SubEntries(table, pairs, diffs) + EntryOf(table, p, d) ==
            stream + SubEntries(table, pairs + [p], diffs + [d])
  {
    assert (pairs + [p])[..|pairs|] == pairs && (diffs + [d])[..|diffs|] == diffs;
  }

  ghost predicate SubMade(p: SubPair, d: Diff, sub: SubRow, table: TableDef, numbers: Numbers) {
    && IsDiff(p.row1, p.row2, table, numbers, d) && sub.ratio == d.ratio
    && NewRow(p.row1, p.row2, d, table, numbers) == Ok(sub.values)
  }

  ghost predicate SubsMade(pairs: seq<SubPair>, diffs: seq<Diff>, subs: seq<SubRow>, table: TableDef,
                           numbers: Numbers) {
    && |pairs| == |diffs| == |subs|
    && forall k {:trigger SubMade(pairs[k], diffs[k], subs[k], table, numbers)} :: 0 <= k < |pairs| ==>
         SubMade(pairs[k], diffs[k], subs[k], table, numbers)
  }

  lemma {:induction false} SubsMadeNext(pairs: seq<SubPair>, diffs: seq<Diff>, subs: seq<SubRow>, table: TableDef,
                                        numbers: Numbers, p: SubPair, d: Diff, sub: SubRow)
    requires SubsMade(pairs, diffs, subs, table, numbers) && SubMade(p, d, sub, table, numbers)
    ensures SubsMade(pairs + [p], diffs + [d], subs + [sub], table, numbers)
  {
  }

  /** The sub rows are made, and the stream has grown by their entries. */
  ghost predicate Joining(stream: seq<DiffRow>, before: seq<DiffRow>, table: TableDef, numbers: Numbers,
                          pairs: seq<SubPair>, diffs: seq<Diff>, subs: seq<SubRow>) {
    SubsMade(pairs, diffs, subs, table, numbers) && stream == before + SubEntries(table, pairs, diffs)
  }

  lemma {:induction false} JoiningNext(stream: seq<DiffRow>, before: seq<DiffRow>, table: TableDef, numbers: Numbers,
                                       pairs: seq<SubPair>, diffs: seq<Diff>, subs: seq<SubRow>, p: SubPair, d: Diff,
                                       sub: SubRow)
    requires Joining(stream, before, table, numbers, pairs, diffs, subs) && SubMade(p, d, sub, table, numbers)
    ensures Joining(stream + EntryOf(table, p, d), before, table, numbers, pairs + [p], diffs + [d], subs + [sub])
  {
    SubEntriesNext(before, table, pairs, diffs, p, d);
    SubsMadeNext(pairs, diffs, subs, table, numbers, p, d, sub);
  }

  /** One pair is compared, and its entry fed to the heap. */
  method ComparePair(p: SubPair, table: TableDef, numbers: Numbers, dr: DiffRows)
    returns (r: Result<SubRow>, ghost d: Diff)
    requires dr.Valid()
    modifies dr
    ensures Grew(old(dr.stream), dr.stream)
    ensures dr.Valid() && (r.Ok? <==> PairOk(p, table, numbers))
    ensures r.Ok? ==> SubMade(p, d, r.value, table, numbers) && dr.stream == old(dr.stream) + EntryOf(table, p, d)
  {
    d := Diff(0.0, [], -1);
    var diff := CalculateDiffRatio(p.row1, p.row2, table, numbers);
    if diff.Err? {
      return Err, d;
    }
    d := diff.value;
    dr.AddRow(table, p.rowLabel, diff.value.ratio, p.row1, p.row2, diff.value.idx, p.comment);
    var sub := GenNewRow(p.row1, p.row2, diff.value, table, numbers);
    PaddableMeans(p.row1, p.row2, diff.value, table, numbers);
    r := if sub.Ok? then Ok(SubRow(sub.value, diff.value.ratio)) else Err;
  }

  /** One pair more is added to the result. */
  method JoinSub(p: SubPair, subs: seq<SubRow>, table: TableDef, numbers: Numbers, dr: DiffRows,
                 ghost before: seq<DiffRow>, ghost pairs: seq<SubPair>, ghost diffs: seq<Diff>)
    returns (r: Result<seq<SubRow>>, ghost all: seq<Diff>)
    requires dr.Valid() && Joining(dr.stream, before, table, numbers, pairs, diffs, subs)
    modifies dr
    ensures Grew(old(dr.stream), dr.stream)
    ensures dr.Valid() && (r.Ok? <==> PairOk(p, table, numbers))
    ensures r.Ok? ==> Joining(dr.stream, before, table, numbers, pairs + [p], all, r.value)
  {
    ghost var stream := dr.stream;
    var sub;
    ghost var d;
    sub, d := ComparePair(p, table, numbers, dr);
    all := diffs + [d];
    if sub.Err? {
      return Err, all;
    }
    JoiningNext(stream, before, table, numbers, pairs, diffs, subs, p, d, sub.value);
    r := Ok(subs + [sub.value]);
  }

  lemma {:induction false} PrefixNext<T>(s: seq<T>, i: nat)
    requires i < |s|
    ensures s[..i + 1] == s[..i] + [s[i]]
  {
  }

  /** The sub rows of the first row. */
  method JoinFirstSubs(row1: TableRow, table: TableDef, numbers: Numbers, index2: Index, dr: DiffRows,
                       ghost pairs: seq<SubPair>)
    returns (r: Result<seq<SubRow>>, ghost diffs: seq<Diff>)
    requires AllWide(row1.subValues, table.joinColumns) && dr.Valid()
    requires |pairs| == |row1.subValues| && forall k :: 0 <= k < |pairs| ==>
               var l := LabelOf(row1.subValues[k], table.joinColumns);
               pairs[k] == SubPair(l, row1.subValues[k], if l in index2 then index2[l] else [], row1.comment)
    modifies dr
    ensures Grew(old(dr.stream), dr.stream)
    ensures dr.Valid() && (r.Ok? <==> AllOk(pairs, table, numbers))
    ensures r.Ok? ==> Joining(dr.stream, old(dr.stream), table, numbers, pairs, diffs, r.value)
  {
    r, diffs := Ok([]), [];
    for i := 0 to |row1.subValues|
      invariant r.Ok? && dr.Valid() && AllOk(pairs[..i], table, numbers)
      invariant Joining(dr.stream, old(dr.stream), table, numbers, pairs[..i], diffs, r.value)
    {
      var sub1 := row1.subValues[i];
      var l := GenRowLabel(sub1, table.joinColumns);
      var p := SubPair(l.value, sub1, if l.value in index2 then index2[l.value] else [], row1.comment);
      PrefixNext(pairs, i);
      AllOkNext(pairs, i, table, numbers);
      r, diffs := JoinSub(p, r.value, table, numbers, dr, old(dr.stream), pairs[..i], diffs);
      if r.Err? {
        return;
      }
    }
    assert pairs[..|pairs|] == pairs;
  }

  /** A sub row of the second row, unless the first row has its label. */
  method JoinSecondSub(sub2: seq<string>, comment: string, table: TableDef, numbers: Numbers, index1: Index,
                       dr: DiffRows, subs: seq<SubRow>, ghost before: seq<DiffRow>, ghost pairs: seq<SubPair>,
                       ghost diffs: seq<Diff>, ghost labels1: set<string>)
    returns (r: Result<seq<SubRow>>, ghost all: seq<Diff>)
    requires index1.Keys == labels1 && InWidth(sub2, table.joinColumns)
    requires dr.Valid() && Joining(dr.stream, before, table, numbers, pairs, diffs, subs)
    modifies dr
    ensures Grew(old(dr.stream), dr.stream)
    ensures dr.Valid()
    ensures var alone := Alone(labels1, LabelOf(sub2, table.joinColumns), sub2, comment);
            && (r.Ok? <==> AllOk(alone, table, numbers))
            && (r.Ok? ==> Joining(dr.stream, before, table, numbers, pairs + alone, all, r.value))
  {
    var l := GenRowLabel(sub2, table.joinColumns);
    if l.value in index1 {
      assert pairs + [] == pairs;
      return Ok(subs), diffs;
    }
    var p := SubPair(l.value, [], sub2, comment);
    assert AllOk([p], table, numbers) <==> PairOk([p][0], table, numbers);
    r, all := JoinSub(p, subs, table, numbers, dr, before, pairs, diffs);
  }

  /** One more of the sub rows that stand alone. */
  lemma {:induction false} UnmatchedNext(pairs: seq<SubPair>, labels1: set<string>, labels2: seq<string>,
                                         rows2: seq<seq<string>>, comment: string, i: nat)
    requires i < |labels2| == |rows2|
    ensures pairs + Unmatched(labels1, labels2, rows2, comment, i + 1) ==
            pairs + Unmatched(labels1, labels2, rows2, comment, i) + Alone(labels1, labels2[i], rows2[i], comment)
  {
  }

  /** What the first i sub rows of the second row add. */
  function Rest(labels1: set<string>, row2: TableRow, table: TableDef, i: nat): seq<SubPair>
    requires AllWide(row2.subValues, table.joinColumns) && i <= |row2.subValues|
  {
    Unmatched(labels1, LabelsOf(row2.subValues, table.joinColumns), row2.subValues, row2.comment, i)
  }

  method JoinSecondAt(row2: TableRow, i: nat, table: TableDef, numbers: Numbers, index1: Index, dr: DiffRows,
                      subs: seq<SubRow>, ghost stream: seq<DiffRow>, ghost pairs: seq<SubPair>, ghost diffs: seq<Diff>,
                      ghost labels1: set<string>)
    returns (r: Result<seq<SubRow>>, ghost all: seq<Diff>)
    requires index1.Keys == labels1 && AllWide(row2.subValues, table.joinColumns)
    requires dr.Valid() && i < |row2.subValues| && AllOk(Rest(labels1, row2, table, i), table, numbers)
    requires Joining(dr.stream, stream, table, numbers, pairs + Rest(labels1, row2, table, i), diffs, subs)
    modifies dr
    ensures Grew(old(dr.stream), dr.stream)
    ensures dr.Valid() && (r.Ok? <==> AllOk(Rest(labels1, row2, table, i + 1), table, numbers))
    ensures r.Ok? ==>
            Joining(dr.stream, stream, table, numbers, pairs + Rest(labels1, row2, table, i + 1), all, r.value)
  {
    ghost var done, labels2 := Rest(labels1, row2, table, i), LabelsOf(row2.subValues, table.joinColumns);
    AllOkAppend(done, Alone(labels1, labels2[i], row2.subValues[i], row2.comment), table, numbers);
    UnmatchedNext(pairs, labels1, labels2, row2.subValues, row2.comment, i);
    r, all := JoinSecondSub(row2.subValues[i], row2.comment, table, numbers, index1, dr, subs, stream, pairs + done,
                            diffs, labels1);
  }

  /** The sub rows only the second row has. */
  method JoinSecondSubs(row2: TableRow, table: TableDef, numbers: Numbers, index1: Index, dr: DiffRows,
                        before: seq<SubRow>, ghost stream: seq<DiffRow>, ghost pairs: seq<SubPair>,
                        ghost diffs1: seq<Diff>, ghost labels1: set<string>)
    returns (r: Result<seq<SubRow>>, ghost diffs: seq<Diff>)
    requires index1.Keys == labels1 && AllWide(row2.subValues, table.joinColumns)
    requires dr.Valid() && Joining(dr.stream, stream, table, numbers, pairs, diffs1, before)
    modifies dr
    ensures Grew(old(dr.stream), dr.stream)
    ensures dr.Valid()
    ensures var rest := Rest(labels1, row2, table, |row2.subValues|);
            && (r.Ok? <==> AllOk(rest, table, numbers))
            && (r.Ok? ==> Joining(dr.stream, stream, table, numbers, pairs + rest, diffs, r.value))
  {
    r, diffs := Ok(before), diffs1;
    assert pairs + [] == pairs;
    for i := 0 to |row2.subValues|
      invariant r.Ok? && dr.Valid() && AllOk(Rest(labels1, row2, table, i), table, numbers)
      invariant Grew(old(dr.stream), dr.stream)
      invariant Joining(dr.stream, stream, table, numbers, pairs + Rest(labels1, row2, table, i), diffs, r.value)
    {
      ghost var was := dr.stream;
      r, diffs := JoinSecondAt(row2, i, table, numbers, index1, dr, r.value, stream, pairs, diffs, labels1);
      GrewMore(old(dr.stream), was, dr.stream);
      if r.Err? {
        NotAllOk(labels1, row2, table, numbers, i + 1);
        return;
      }
    }
  }

  lemma {:induction false} NotAllOk(labels1: set<string>, row2: TableRow, table: TableDef, numbers: Numbers, i: nat)
    requires AllWide(row2.subValues, table.joinColumns) && i <= |row2.subValues|
    requires !AllOk(Rest(labels1, row2, table, i), table, numbers)
    ensures !AllOk(Rest(labels1, row2, table, |row2.subValues|), table, numbers)
  {
    var labels2, n := LabelsOf(row2.subValues, table.joinColumns), |row2.subValues|;
    UnmatchedPrefix(labels1, labels2, row2.subValues, row2.comment, i, n);
    var some, all := Rest(labels1, row2, table, i), Rest(labels1, row2, table, n);
    assert all == some + all[|some|..];
    AllOkAppend(some, all[|some|..], table, numbers);
  }

  /** The larger difference comes first. */
  function Larger(): (SubRow, SubRow) -> bool {
    (a: SubRow, b: SubRow) => Abs(a.ratio) > Abs(b.ratio)
  }

  /** So sorted sub rows differ less and less. */
  lemma {:induction false} LargestFirst(subs: seq<SubRow>, i: nat, j: nat)
    requires InOrder(Larger(), subs) && i <= j < |subs|
    ensures Abs(subs[i].ratio) >= Abs(subs[j].ratio)
  {
    if i < j { assert !Larger()(subs[j], subs[i]); }
  }

  function ValuesOf(subs: seq<SubRow>): (r: seq<seq<string>>)
    ensures |r| == |subs|
  {
    seq(|subs|, i requires 0 <= i < |subs| => subs[i].values)
  }

  /** The joined sub rows, sorted by how much they differ. */
  ghost predicate SubsJoined(row1: TableRow, row2: TableRow, table: TableDef, numbers: Numbers,
                             values: seq<seq<string>>, diffs: seq<Diff>) {
    && Indexable(row1.subValues, table.joinColumns) && Indexable(row2.subValues, table.joinColumns)
    && exists subs: seq<SubRow>, sorted: seq<SubRow> ::
         && SubsMade(SubPairs(row1, row2, table.joinColumns), diffs, subs, table, numbers)
         && multiset(sorted) == multiset(subs) && InOrder(Larger(), sorted) && values == ValuesOf(sorted)
  }

  /** All sub rows of both rows, in the order in which they are joined. */
  method CollectSubs(row1: TableRow, row2: TableRow, table: TableDef, numbers: Numbers, dr: DiffRows)
    returns (r: Result<seq<SubRow>>, ghost diffs: seq<Diff>)
    requires dr.Valid()
    modifies dr
    ensures Grew(old(dr.stream), dr.stream)
    ensures dr.Valid() && (r.Ok? <==> SubsOk(row1, row2, table, numbers))
    ensures r.Ok? ==>
              var pairs := SubPairs(row1, row2, table.joinColumns);
              Joining(dr.stream, old(dr.stream), table, numbers, pairs, diffs, r.value)
  {
    r, diffs := Err, [];
    var index1 := IndexRows(table, row1.subValues);
    var index2 := IndexRows(table, row2.subValues);
    if index1.Err? || index2.Err? {
      return;
    }
    ghost var labels1 := LabelsOf(row1.subValues, table.joinColumns);
    ghost var labels2 := LabelsOf(row2.subValues, table.joinColumns);
    ghost var first := Matched(labels1, row1.subValues, labels2, row2.subValues, row1.comment);
    ghost var second := Unmatched(LabelSet(labels1), labels2, row2.subValues, row2.comment, |row2.subValues|);
    AllOkAppend(first, second, table, numbers);
    MatchedByIndex(index2.value, labels1, row1.subValues, labels2, row2.subValues, row1.comment);
    IndexKeys(index1.value, labels1, row1.subValues);
    ghost var stream := dr.stream;
    r, diffs := JoinFirstSubs(row1, table, numbers, index2.value, dr, first);
    if r.Err? {
      return;
    }
    r, diffs := JoinSecondSubs(row2, table, numbers, index1.value, dr, r.value, stream, first, diffs,
                                LabelSet(labels1));
  }

  /** The sub rows are joined and sorted; this fails exactly when they cannot be joined. */
  method JoinSubs(row1: TableRow, row2: TableRow, table: TableDef, numbers: Numbers, dr: DiffRows)
    returns (r: Result<seq<seq<string>>>, ghost diffs: seq<Diff>)
    requires dr.Valid()
    modifies dr
    ensures Grew(old(dr.stream), dr.stream)
    ensures dr.Valid() && (r.Ok? <==> SubsOk(row1, row2, table, numbers))
    ensures r.Ok? ==>
              var pairs := SubPairs(row1, row2, table.joinColumns);
              && SubsJoined(row1, row2, table, numbers, r.value, diffs) && |diffs| == |pairs|
              && dr.stream == old(dr.stream) + SubEntries(table, pairs, diffs)
  {
    var subs;
    subs, diffs := CollectSubs(row1, row2, table, numbers, dr);
    if subs.Err? {
      return Err, diffs;
    }
    var sorted := SortBy(subs.value, Larger(), _ => true);
    r := Ok(ValuesOf(sorted));
  }
}
