/**
 The tables of a diagnosis report, their join labels and the difference ratio of two rows.
 */
module Tables {

  datatype Option<T> = None | Some(value: T)

  /** Errors and recovered panics carry no data here. */
  datatype Result<T> = Ok(value: T) | Err

  datatype TableRow = TableRow(values: seq<string>, subValues: seq<seq<string>>, ratio: real, comment: string)

  datatype TableDef = TableDef(category: seq<string>, title: string, joinColumns: seq<nat>, compareColumns: seq<nat>,
                               column: seq<string>, rows: seq<TableRow>)

  /** How cells are read as numbers and numbers shown as cells. */
  datatype Numbers = Numbers(parse: string -> Option<real>, show: real -> string)

  method CheckIn(idx: nat, idxs: seq<nat>) returns (found: bool)
    ensures found <==> idx in idxs
  {
    for k := 0 to |idxs|
      invariant idx !in idxs[..k]
    {
      if idxs[k] == idx {
        return true;
      }
    }
    return false;
  }

  // ---------- labels ----------

  predicate InWidth(row: seq<string>, joinColumns: seq<nat>) {
    forall k :: 0 <= k < |joinColumns| ==> joinColumns[k] < |row|
  }

  /** The cells a row is joined on. */
  function JoinKey(row: seq<string>, joinColumns: seq<nat>): seq<string>
    requires InWidth(row, joinColumns)
  {
    seq(|joinColumns|, k requires 0 <= k < |joinColumns| => row[joinColumns[k]])
  }

  function Separated(parts: seq<string>, separator: string): string {
    if parts == [] then ""
    else if |parts| == 1 then parts[0]
    else Separated(parts[..|parts| - 1], separator) + separator + parts[|parts| - 1]
  }

  function LabelOf(row: seq<string>, joinColumns: seq<nat>): string
    requires InWidth(row, joinColumns)
  {
    Separated(JoinKey(row, joinColumns), ",")
  }

  /** `genRowLabel` fails on a row too short for its join columns. */
  method GenRowLabel(row: seq<string>, joinColumns: seq<nat>) returns (r: Result<string>)
    ensures r.Ok? <==> InWidth(row, joinColumns)
    ensures r.Ok? ==> r.value == LabelOf(row, joinColumns)
  {
    var text := "";
    for i := 0 to |joinColumns|
      invariant InWidth(row, joinColumns[..i]) && text == LabelOf(row, joinColumns[..i])
    {
      if i > 0 {
        text := text + ",";
      }
      if joinColumns[i] >= |row| {
        return Err;
      }
      text := text + row[joinColumns[i]];
      assert joinColumns[..i + 1][..i] == joinColumns[..i];
      assert JoinKey(row, joinColumns[..i + 1]) == JoinKey(row, joinColumns[..i]) + [row[joinColumns[i]]];
      assert JoinKey(row, joinColumns[..i + 1])[..i] == JoinKey(row, joinColumns[..i]);
    }
    assert joinColumns[..|joinColumns|] == joinColumns;
    return Ok(text);
  }

  // ---------- what a label tells ----------

  function Commas(s: string): nat {
    if s == "" then 0 else Commas(s[..|s| - 1]) + if s[|s| - 1] == ',' then 1 else 0
  }

  function CommaSum(parts: seq<string>): nat {
    if parts == [] then 0 else CommaSum(parts[..|parts| - 1]) + Commas(parts[|parts| - 1])
  }

  lemma {:induction false} CommasAppend(s: string, t: string)
    ensures Commas(s + t) == Commas(s) + Commas(t)
    decreases |t|
  {
    if t == "" {
      assert s + t == s;
    } else {
      assert (s + t)[..|s + t| - 1] == s + t[..|t| - 1];
      CommasAppend(s, t[..|t| - 1]);
    }
  }

  lemma {:induction false} CommasSeparated(parts: seq<string>)
    requires parts != []
    ensures Commas(Separated(parts, ",")) == CommaSum(parts) + |parts| - 1
  {
    var n := |parts| - 1;
    if n == 0 {
      assert CommaSum(parts[..0]) == 0;
    } else {
      CommasSeparated(parts[..n]);
      CommasAppend(Separated(parts[..n], ","), ",");
      CommasAppend(Separated(parts[..n], ",") + ",", parts[n]);
      assert Commas(",") == Commas("") + 1;
    }
  }

  lemma {:induction false} CommaSumOrder(a: seq<string>, b: seq<string>)
    requires |a| == |b| && forall k :: 0 <= k < |a| ==> Commas(a[k]) <= Commas(b[k])
    ensures CommaSum(a) <= CommaSum(b)
    ensures CommaSum(a) == CommaSum(b) ==> forall k :: 0 <= k < |a| ==> Commas(a[k]) == Commas(b[k])
  {
    if a != [] { CommaSumOrder(a[..|a| - 1], b[..|a| - 1]); }
  }

  /** Last parts with equally many commas end at the same comma. */
  lemma {:induction false} ShorterPart(a: string, b: string, p: string, q: string)
    requires a + "," + p == b + "," + q && |p| < |q|
    ensures Commas(p) < Commas(q)
  {
    var s := a + "," + p;
    var cut := |q| - |p| - 1;
    assert s[|b| + 1..] == q;
    assert q[cut] == s[|a|] == ',';
    assert q[cut + 1..] == s[|a| + 1..] == p;
    assert q == q[..cut] + "," + p;
    CommasAppend(q[..cut] + ",", p);
    CommasAppend(q[..cut], ",");
    assert Commas(",") == Commas("") + 1;
  }

  lemma {:induction false} LastPartAgrees(a: string, b: string, p: string, q: string)
    requires a + "," + p == b + "," + q && Commas(p) == Commas(q)
    ensures a == b && p == q
  {
    var s, t := a + "," + p, b + "," + q;
    if |p| < |q| { ShorterPart(a, b, p, q); }
    if |q| < |p| { ShorterPart(b, a, q, p); }
    assert s[..|a|] == a && t[..|b|] == b && s[|a| + 1..] == p && t[|b| + 1..] == q;
  }

  /** A label can be taken apart again once the number of commas in each part is known. */
  lemma {:induction false} SameCommasSameParts(a: seq<string>, b: seq<string>)
    requires |a| == |b| && forall k :: 0 <= k < |a| ==> Commas(a[k]) == Commas(b[k])
    requires Separated(a, ",") == Separated(b, ",")
    ensures a == b
  {
    var n := |a| - 1;
    if n >= 1 {
      LastPartAgrees(Separated(a[..n], ","), Separated(b[..n], ","), a[n], b[n]);
      SameCommasSameParts(a[..n], b[..n]);
      assert a == a[..n] + [a[n]] && b == b[..n] + [b[n]];
    }
  }

  /** Commas stand only in these columns. */
  predicate CommasWithin(row: seq<string>, columns: set<nat>) {
    forall c :: 0 <= c < |row| && c !in columns ==> Commas(row[c]) == 0
  }

  /** At most one of the join columns is among these. */
  predicate OneJoined(joinColumns: seq<nat>, columns: set<nat>) {
    forall j, k :: 0 <= j < |joinColumns| && 0 <= k < |joinColumns| ==>
      (joinColumns[j] in columns && joinColumns[k] in columns ==> joinColumns[j] == joinColumns[k])
  }

  lemma {:induction false} JoinKeyCommas(a: seq<string>, b: seq<string>, joinColumns: seq<nat>, columns: set<nat>)
    requires InWidth(a, joinColumns) && InWidth(b, joinColumns) && CommasWithin(a, columns) && CommasWithin(b, columns)
    requires OneJoined(joinColumns, columns) && CommaSum(JoinKey(a, joinColumns)) == CommaSum(JoinKey(b, joinColumns))
    ensures forall k :: 0 <= k < |joinColumns| ==>
            Commas(JoinKey(a, joinColumns)[k]) == Commas(JoinKey(b, joinColumns)[k])
  {
    var u, v := JoinKey(a, joinColumns), JoinKey(b, joinColumns);
    if forall k :: 0 <= k < |joinColumns| ==> Commas(u[k]) <= Commas(v[k]) {
      CommaSumOrder(u, v);
    } else {
      var h :| 0 <= h < |joinColumns| && Commas(u[h]) > Commas(v[h]);
      assert joinColumns[h] in columns;
      forall k | 0 <= k < |joinColumns| ensures Commas(v[k]) <= Commas(u[k]) {
        assert joinColumns[k] in columns ==> joinColumns[k] == joinColumns[h];
      }
      CommaSumOrder(v, u);
    }
  }

  /**
   Where commas stand in at most one join column, two rows share a label exactly when they agree on the join
   columns.
   */
  lemma {:induction false} LabelsDistinguish(a: seq<string>, b: seq<string>, joinColumns: seq<nat>, columns: set<nat>)
    requires InWidth(a, joinColumns) && InWidth(b, joinColumns)
    requires CommasWithin(a, columns) && CommasWithin(b, columns) && OneJoined(joinColumns, columns)
    ensures LabelOf(a, joinColumns) == LabelOf(b, joinColumns) <==> JoinKey(a, joinColumns) == JoinKey(b, joinColumns)
  {
    if joinColumns != [] && LabelOf(a, joinColumns) == LabelOf(b, joinColumns) {
      CommasSeparated(JoinKey(a, joinColumns));
      CommasSeparated(JoinKey(b, joinColumns));
      JoinKeyCommas(a, b, joinColumns, columns);
      SameCommasSameParts(JoinKey(a, joinColumns), JoinKey(b, joinColumns));
    }
  }

  /** One x, and k more after commas. */
  function Xs(k: nat): string {
    if k == 0 then "x" else Xs(k - 1) + "," + "x"
  }

  lemma {:induction false} XsJoin(j: nat, k: nat)
    ensures Xs(j) + "," + Xs(k) == Xs(j + k + 1)
    decreases k
  {
    if k > 0 {
      XsJoin(j, k - 1);
      assert Xs(j) + "," + (Xs(k - 1) + "," + "x") == Xs(j) + "," + Xs(k - 1) + "," + "x";
    }
  }

  lemma {:induction false} XsCommas(k: nat)
    ensures Commas(Xs(k)) == k
  {
    if k == 0 {
      assert Commas("x") == Commas("") + 0;
    } else {
      XsCommas(k - 1);
      CommasAppend(Xs(k - 1) + ",", "x");
      CommasAppend(Xs(k - 1), ",");
      assert Commas(",") == Commas("") + 1 && Commas("x") == Commas("") + 0;
    }
  }

  /** How often a column is joined on. */
  function Uses(joinColumns: seq<nat>, c: nat): nat {
    if joinColumns == [] then 0
    else Uses(joinColumns[..|joinColumns| - 1], c) + if joinColumns[|joinColumns| - 1] == c then 1 else 0
  }

  lemma {:induction false} UsedOnce(joinColumns: seq<nat>, c: nat)
    requires c in joinColumns
    ensures Uses(joinColumns, c) >= 1
  {
    var n := |joinColumns| - 1;
    if joinColumns[n] != c {
      assert joinColumns == joinColumns[..n] + [joinColumns[n]];
      UsedOnce(joinColumns[..n], c);
    }
  }

  /** A row of x, with k commas in column c. */
  function XRow(width: nat, c: nat, k: nat): (row: seq<string>)
    ensures |row| == width
  {
    seq(width, i requires 0 <= i < width => if i == c then Xs(k) else "x")
  }

  /** k for every use of a column. */
  function UseSum(joinColumns: seq<nat>, c: nat, k: nat): nat {
    if joinColumns == [] then 0
    else UseSum(joinColumns[..|joinColumns| - 1], c, k) + if joinColumns[|joinColumns| - 1] == c then k else 0
  }

  lemma {:induction false} OneMoreUse(uses: nat, k: nat)
    ensures (uses + 1) * k == uses * k + k
  {
  }

  lemma {:induction false} UseSumIsProduct(joinColumns: seq<nat>, c: nat, k: nat)
    ensures UseSum(joinColumns, c, k) == Uses(joinColumns, c) * k
  {
    if joinColumns != [] {
      var init := joinColumns[..|joinColumns| - 1];
      UseSumIsProduct(init, c, k);
      OneMoreUse(Uses(init, c), k);
    }
  }

  lemma {:induction false} XLabel(width: nat, joinColumns: seq<nat>, c: nat, k: nat)
    requires joinColumns != [] && forall i :: 0 <= i < |joinColumns| ==> joinColumns[i] < width
    ensures LabelOf(XRow(width, c, k), joinColumns) == Xs(UseSum(joinColumns, c, k) + |joinColumns| - 1)
    decreases |joinColumns|
  {
    var n := |joinColumns| - 1;
    var row, init, last := XRow(width, c, k), joinColumns[..n], joinColumns[n];
    var extra := if last == c then k else 0;
    assert row[last] == Xs(extra);
    if n > 0 {
      XLabel(width, init, c, k);
      assert JoinKey(row, joinColumns)[..n] == JoinKey(row, init);
      XsJoin(UseSum(init, c, k) + n - 1, extra);
    } else {
      assert UseSum(init, c, k) == 0;
    }
  }

  /** Rows whose commas stand in two different join columns can share a label without agreeing on them. */
  lemma {:induction false} CommasCollide(width: nat, joinColumns: seq<nat>, c: nat, d: nat)
    returns (a: seq<string>, b: seq<string>)
    requires c in joinColumns && d in joinColumns && c != d
    requires forall i :: 0 <= i < |joinColumns| ==> joinColumns[i] < width
    ensures |a| == |b| == width && CommasWithin(a, {c}) && CommasWithin(b, {d})
    ensures LabelOf(a, joinColumns) == LabelOf(b, joinColumns) && JoinKey(a, joinColumns) != JoinKey(b, joinColumns)
  {
    var m, n := Uses(joinColumns, c), Uses(joinColumns, d);
    a, b := XRow(width, c, n), XRow(width, d, m);
    XLabel(width, joinColumns, c, n);
    XLabel(width, joinColumns, d, m);
    assert UseSum(joinColumns, c, n) == UseSum(joinColumns, d, m) by {
      UseSumIsProduct(joinColumns, c, n);
      UseSumIsProduct(joinColumns, d, m);
      assert m * n == n * m;
    }
    XsCommas(0);
    XsCommas(n);
    UsedOnce(joinColumns, d);
    var i :| 0 <= i < |joinColumns| && joinColumns[i] == c;
    assert Commas(JoinKey(a, joinColumns)[i]) == n && Commas(JoinKey(b, joinColumns)[i]) == 0;
  }

  /** Labels tell all rows of a width apart whose commas stand in these columns. */
  ghost predicate Distinguishing(width: nat, joinColumns: seq<nat>, columns: set<nat>)
    requires forall i :: 0 <= i < |joinColumns| ==> joinColumns[i] < width
  {
    forall a: seq<string>, b: seq<string> ::
      |a| == |b| == width && CommasWithin(a, columns) && CommasWithin(b, columns) ==>
        (LabelOf(a, joinColumns) == LabelOf(b, joinColumns) ==> JoinKey(a, joinColumns) == JoinKey(b, joinColumns))
  }

  /** Labels tell rows apart exactly when commas can stand in at most one join column. */
  lemma {:induction false} LabelsExact(width: nat, joinColumns: seq<nat>, columns: set<nat>)
    requires forall i :: 0 <= i < |joinColumns| ==> joinColumns[i] < width
    ensures Distinguishing(width, joinColumns, columns) <==> OneJoined(joinColumns, columns)
  {
    if OneJoined(joinColumns, columns) {
      forall a: seq<string>, b: seq<string> |
        |a| == |b| == width && CommasWithin(a, columns) && CommasWithin(b, columns) &&
        LabelOf(a, joinColumns) == LabelOf(b, joinColumns)
        ensures JoinKey(a, joinColumns) == JoinKey(b, joinColumns)
      {
        LabelsDistinguish(a, b, joinColumns, columns);
      }
    } else {
      var j, k :| 0 <= j < |joinColumns| && 0 <= k < |joinColumns| && joinColumns[j] in columns &&
                  joinColumns[k] in columns && joinColumns[j] != joinColumns[k];
      var a, b := CommasCollide(width, joinColumns, joinColumns[j], joinColumns[k]);
      assert CommasWithin(a, columns) && CommasWithin(b, columns);
    }
  }

  // ---------- the difference ratio ----------

  function Abs(x: real): (r: real)
    ensures r >= 0.0 && (r == x || r == -x)
  {
    if x < 0.0 then -x else x
  }

  /** The two numbers of one compared column. */
  datatype Cell = Cell(f1: real, f2: real) {
    predicate Differs() { f1 != f2 }

    predicate OneSided() { Differs() && (f1 == 0.0 || f2 == 0.0) }

    predicate TwoSided() { Differs() && f1 != 0.0 && f2 != 0.0 }

    function Ratio(): real {
      if f1 == f2 then 0.0
      else if f1 == 0.0 then f2
      else if f2 == 0.0 then -f1
      else if f2 > f1 then f2 / f1 - 1.0
      else 1.0 - f1 / f2
    }
  }

  /** The ratio tells exactly whether the numbers differ. */
  lemma {:induction false} RatioZero(c: Cell)
    ensures c.Ratio() == 0.0 <==> !c.Differs()
  {
    if c.TwoSided() {
      assert c.f2 / c.f1 == 1.0 ==> c.f2 == 1.0 * c.f1;
      assert c.f1 / c.f2 == 1.0 ==> c.f1 == 1.0 * c.f2;
    }
  }

  /** Swapping the numbers negates the ratio. */
  lemma {:induction false} RatioSwaps(a: real, b: real)
    ensures Cell(a, b).Ratio() == -Cell(b, a).Ratio()
  {
  }

  lemma {:induction false} DivideUp(a: real, b: real)
    requires b != 0.0
    ensures a / b * b == a
  {
  }

  /**
   What the ratio is: from zero, the second number; for a rise between two other numbers, the part of the
   first that is added. With `RatioSwaps`, this is all cases.
   */
  lemma {:induction false} RatioMeans(a: real, b: real)
    ensures a == 0.0 ==> Cell(a, b).Ratio() == b
    ensures a != 0.0 && b != 0.0 && a < b ==> (1.0 + Cell(a, b).Ratio()) * a == b
  {
    if a != 0.0 && b != 0.0 && a < b { DivideUp(b, a); }
  }

  /** For positive numbers the ratio has the sign of the difference. */
  lemma {:induction false} RatioSign(a: real, b: real)
    requires a > 0.0 && b > 0.0
    ensures Cell(a, b).Ratio() > 0.0 <==> a < b
    ensures Cell(a, b).Ratio() < 0.0 <==> a > b
  {
    RatioSwaps(a, b);
    if a < b { RiseIsPositive(a, b); }
    if b < a { RiseIsPositive(b, a); }
  }

  lemma {:induction false} RiseIsPositive(a: real, b: real)
    requires 0.0 < a < b
    ensures Cell(a, b).Ratio() > 0.0
  {
    RatioMeans(a, b);
    var r := Cell(a, b).Ratio();
    assert r <= 0.0 ==> (1.0 + r) * a == a + r * a <= a by { NotPositive(r, a); }
  }

  lemma {:induction false} NotPositive(r: real, a: real)
    requires a > 0.0
    ensures r <= 0.0 ==> r * a <= 0.0
  {
  }

  /** A cell missing from a row counts as zero. */
  function Number(row: seq<string>, idx: nat, numbers: Numbers): Option<real> {
    if idx < |row| then numbers.parse(row[idx]) else Some(0.0)
  }

  predicate Readable(row1: seq<string>, row2: seq<string>, idx: nat, numbers: Numbers) {
    Number(row1, idx, numbers).Some? && Number(row2, idx, numbers).Some?
  }

  function CellAt(row1: seq<string>, row2: seq<string>, idx: nat, numbers: Numbers): Cell
    requires Readable(row1, row2, idx, numbers)
  {
    Cell(Number(row1, idx, numbers).value, Number(row2, idx, numbers).value)
  }

  datatype Diff = Diff(ratio: real, ratios: seq<real>, idx: int)

  predicate OfKind(c: Cell, twoSided: bool) {
    if twoSided then c.TwoSided() else c.OneSided()
  }

  predicate Exists(cells: seq<Cell>, twoSided: bool) {
    exists h :: 0 <= h < |cells| && OfKind(cells[h], twoSided)
  }

  /** Column k has the largest ratio of those of its kind, and is the first with it. */
  predicate Largest(cells: seq<Cell>, k: nat, twoSided: bool) {
    && k < |cells| && OfKind(cells[k], twoSided)
    && (forall h :: 0 <= h < |cells| && OfKind(cells[h], twoSided) ==> Abs(cells[h].Ratio()) <= Abs(cells[k].Ratio()))
    && (forall h :: 0 <= h < k && OfKind(cells[h], twoSided) ==> Abs(cells[h].Ratio()) < Abs(cells[k].Ratio()))
  }

  predicate Chosen(cells: seq<Cell>, columns: seq<nat>, k: nat, twoSided: bool, ratio: real, idx: int)
    requires |columns| == |cells|
  {
    Largest(cells, k, twoSided) && ratio == cells[k].Ratio() && idx == columns[k]
  }

  /**
   The overall ratio of some columns: the largest among the columns where both numbers are non-zero; if
   those all agree, the largest among the columns where one number is zero; otherwise zero.
   */
  ghost predicate Overall(cells: seq<Cell>, columns: seq<nat>, ratio: real, idx: int)
    requires |columns| == |cells|
  {
    if Exists(cells, true) then exists k: nat :: Chosen(cells, columns, k, true, ratio, idx)
    else if Exists(cells, false) then exists k: nat :: Chosen(cells, columns, k, false, ratio, idx)
    else ratio == 0.0 && idx == -1
  }

  /** The overall ratio is zero exactly when no column differs. */
  lemma {:induction false} OverallZero(cells: seq<Cell>, columns: seq<nat>, ratio: real, idx: int)
    requires |columns| == |cells| && Overall(cells, columns, ratio, idx)
    ensures ratio == 0.0 <==> forall h :: 0 <= h < |cells| ==> !cells[h].Differs()
  {
    if Exists(cells, true) {
      var k: nat :| Chosen(cells, columns, k, true, ratio, idx);
      RatioZero(cells[k]);
    } else if Exists(cells, false) {
      var k: nat :| Chosen(cells, columns, k, false, ratio, idx);
      RatioZero(cells[k]);
    } else {
      forall h | 0 <= h < |cells| ensures !cells[h].Differs() {
        assert !OfKind(cells[h], true) && !OfKind(cells[h], false);
      }
    }
  }

  /**
   What the overall ratio is: that of a column, and no smaller than that of any column with two non-zero
   numbers; where these all agree, no smaller than that of any column.
   */
  lemma {:induction false} OverallLargest(cells: seq<Cell>, columns: seq<nat>, ratio: real, idx: int, h: nat)
    requires |columns| == |cells| && Overall(cells, columns, ratio, idx) && h < |cells|
    ensures ratio != 0.0 ==> exists k :: 0 <= k < |cells| && idx == columns[k] && ratio == cells[k].Ratio()
    ensures cells[h].f1 != 0.0 && cells[h].f2 != 0.0 ==> Abs(cells[h].Ratio()) <= Abs(ratio)
    ensures (forall g :: 0 <= g < |cells| ==> cells[g].f1 == cells[g].f2 || cells[g].f1 == 0.0 || cells[g].f2 == 0.0)
            ==> Abs(cells[h].Ratio()) <= Abs(ratio)
  {
    assert cells[h].Differs() ==> OfKind(cells[h], true) || OfKind(cells[h], false);
    if Exists(cells, true) {
      var k: nat :| Chosen(cells, columns, k, true, ratio, idx);
      assert !(cells[k].f1 == cells[k].f2 || cells[k].f1 == 0.0 || cells[k].f2 == 0.0);
    } else if Exists(cells, false) {
      var k: nat :| Chosen(cells, columns, k, false, ratio, idx);
    }
  }

  /** What the loop knows: the overall ratio, and whether any two-sided column would be better. */
  ghost predicate Tracked(cells: seq<Cell>, columns: seq<nat>, ratio: real, idx: int, needBetter: bool) {
    && |columns| == |cells| && Overall(cells, columns, ratio, idx)
    && (needBetter <==> Exists(cells, false) && !Exists(cells, true))
  }

  predicate Skips(c: Cell, ratio: real, needBetter: bool) {
    || !c.Differs()
    || ((c.f1 == 0.0 || c.f2 == 0.0) && ratio != 0.0 && !needBetter)
    || !(Abs(c.Ratio()) > Abs(ratio) || (needBetter && c.f1 != 0.0 && c.f2 != 0.0))
  }

  lemma {:induction false} KindsAppend(cells: seq<Cell>, c: Cell, twoSided: bool)
    ensures Exists(cells + [c], twoSided) <==> Exists(cells, twoSided) || OfKind(c, twoSided)
  {
    var all := cells + [c];
    if h :| 0 <= h < |cells| && OfKind(cells[h], twoSided) { assert OfKind(all[h], twoSided); }
    if OfKind(c, twoSided) { assert OfKind(all[|cells|], twoSided); }
  }

  lemma {:induction false} ChosenStays(cells: seq<Cell>, columns: seq<nat>, k: nat, twoSided: bool, ratio: real,
                                       idx: int, c: Cell, column: nat)
    requires |columns| == |cells| && Chosen(cells, columns, k, twoSided, ratio, idx)
    requires OfKind(c, twoSided) ==> Abs(c.Ratio()) <= Abs(ratio)
    ensures Chosen(cells + [c], columns + [column], k, twoSided, ratio, idx)
  {
  }

  lemma {:induction false} SkipTracked(cells: seq<Cell>, columns: seq<nat>, ratio: real, idx: int, needBetter: bool,
                                       c: Cell, column: nat)
    requires Tracked(cells, columns, ratio, idx, needBetter) && Skips(c, ratio, needBetter)
    ensures Tracked(cells + [c], columns + [column], ratio, idx, needBetter)
  {
    KindsAppend(cells, c, true);
    KindsAppend(cells, c, false);
    RatioZero(c);
    if Exists(cells, true) {
      var k: nat :| Chosen(cells, columns, k, true, ratio, idx);
      RatioZero(cells[k]);
      ChosenStays(cells, columns, k, true, ratio, idx, c, column);
    } else if Exists(cells, false) {
      var k: nat :| Chosen(cells, columns, k, false, ratio, idx);
      ChosenStays(cells, columns, k, false, ratio, idx, c, column);
    }
  }

  lemma {:induction false} TakeTracked(cells: seq<Cell>, columns: seq<nat>, ratio: real, idx: int, needBetter: bool,
                                       c: Cell, column: nat)
    requires Tracked(cells, columns, ratio, idx, needBetter) && !Skips(c, ratio, needBetter)
    ensures Tracked(cells + [c], columns + [column], c.Ratio(), column, c.OneSided())
  {
    KindsAppend(cells, c, true);
    KindsAppend(cells, c, false);
    var two := c.TwoSided();
    if Exists(cells, true) {
      var k: nat :| Chosen(cells, columns, k, true, ratio, idx);
      RatioZero(cells[k]);
    } else if Exists(cells, false) {
      var k: nat :| Chosen(cells, columns, k, false, ratio, idx);
      assert !two ==> forall h :: 0 <= h < |cells| && OfKind(cells[h], false) ==> Abs(cells[h].Ratio()) <= Abs(ratio);
    }
    assert forall h :: 0 <= h < |cells| && OfKind(cells[h], two) ==> Abs(cells[h].Ratio()) < Abs(c.Ratio());
    assert Chosen(cells + [c], columns + [column], |cells|, two, c.Ratio(), column);
  }

  /** The numbers of the compared columns, and their ratios. */
  ghost predicate AreCells(row1: seq<string>, row2: seq<string>, columns: seq<nat>, numbers: Numbers,
                           cells: seq<Cell>, ratios: seq<real>) {
    && |cells| == |ratios| == |columns|
    && forall k :: 0 <= k < |columns| ==>
         && Readable(row1, row2, columns[k], numbers)
         && cells[k] == CellAt(row1, row2, columns[k], numbers) && ratios[k] == cells[k].Ratio()
  }

  /** `d` is the difference of two rows: every column's ratio, and the overall one. */
  ghost predicate IsDiff(row1: seq<string>, row2: seq<string>, table: TableDef, numbers: Numbers, d: Diff) {
    if table.compareColumns == [] || (row1 == [] && row2 == []) then d == Diff(0.0, [], -1)
    else
      exists cells ::
        && AreCells(row1, row2, table.compareColumns, numbers, cells, d.ratios)
        && Overall(cells, table.compareColumns, d.ratio, d.idx)
  }

  /** Every ratio is that of the numbers in its column, where a row that is too short counts as zero there. */
  lemma {:induction false} DiffCells(row1: seq<string>, row2: seq<string>, table: TableDef, numbers: Numbers, d: Diff,
                                     k: nat)
    requires IsDiff(row1, row2, table, numbers, d) && k < |table.compareColumns| && !(row1 == [] && row2 == [])
    ensures |d.ratios| == |table.compareColumns|
    ensures var c := table.compareColumns[k];
            var f1 := if c < |row1| then numbers.parse(row1[c]) else Some(0.0);
            var f2 := if c < |row2| then numbers.parse(row2[c]) else Some(0.0);
            f1.Some? && f2.Some? && d.ratios[k] == Cell(f1.value, f2.value).Ratio()
  {
  }

  /** `calculateDiffRatio` fails exactly when there is something to compare and a compared cell is not a number. */
  method CalculateDiffRatio(row1: seq<string>, row2: seq<string>, table: TableDef,
                            numbers: Numbers)
    returns (r: Result<Diff>)
    ensures r.Err? <==> (row1 != [] || row2 != []) &&
                        exists k :: 0 <= k < |table.compareColumns| &&
                          !Readable(row1, row2, table.compareColumns[k], numbers)
    ensures r.Ok? ==> IsDiff(row1, row2, table, numbers, r.value)
  {
    var columns := table.compareColumns;
    if columns == [] || (row1 == [] && row2 == []) {
      return Ok(Diff(0.0, [], -1));
    }
    var ratios: seq<real> := [];
    var maxRatio, needBetter := 0.0, false;
    var maxIdx: int := -1;
    ghost var cells: seq<Cell> := [];
    for k := 0 to |columns|
      invariant AreCells(row1, row2, columns[..k], numbers, cells, ratios)
      invariant Tracked(cells, columns[..k], maxRatio, maxIdx, needBetter)
    {
      var f1, f2 := Number(row1, columns[k], numbers), Number(row2, columns[k], numbers);
      if f1.None? || f2.None? {
        assert !Readable(row1, row2, columns[k], numbers);
        return Err;
      }
      var c := Cell(f1.value, f2.value);
      assert columns[..k + 1] == columns[..k] + [columns[k]];
      if Skips(c, maxRatio, needBetter) {
        SkipTracked(cells, columns[..k], maxRatio, maxIdx, needBetter, c, columns[k]);
      } else {
        TakeTracked(cells, columns[..k], maxRatio, maxIdx, needBetter, c, columns[k]);
        maxRatio, needBetter, maxIdx := c.Ratio(), c.f1 == 0.0 || c.f2 == 0.0, columns[k];
      }
      ratios, cells := ratios + [c.Ratio()], cells + [c];
    }
    assert columns[..|columns|] == columns;
    return Ok(Diff(maxRatio, ratios, maxIdx));
  }
}
