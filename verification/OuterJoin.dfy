/**
 The full outer join on labels that need not be unique. The rows of either table are known by their
 positions, the tables by the labels of their rows.
 */
module OuterJoin {
  import opened Tables

  function Count(s: seq<string>, l: string): nat {
    if s == [] then 0 else Count(s[..|s| - 1], l) + if s[|s| - 1] == l then 1 else 0
  }

  /** The rows with a label, in order. */
  function Positions(s: seq<string>, l: string): (r: seq<nat>)
    ensures |r| == Count(s, l)
  {
    if s == [] then []
    else if s[|s| - 1] == l then Positions(s[..|s| - 1], l) + [|s| - 1]
    else Positions(s[..|s| - 1], l)
  }

  /** How many earlier rows have the same label. */
  function Rank(s: seq<string>, i: nat): nat
    requires i < |s|
  {
    Count(s[..i], s[i])
  }

  lemma {:induction false} CountAppend(a: seq<string>, b: seq<string>, l: string)
    ensures Count(a + b, l) == Count(a, l) + Count(b, l)
    decreases |b|
  {
    if b == [] {
      assert a + b == a;
    } else {
      assert (a + b)[..|a + b| - 1] == a + b[..|b| - 1];
      CountAppend(a, b[..|b| - 1], l);
    }
  }

  lemma {:induction false} CountNext(s: seq<string>, x: string, l: string)
    ensures Count(s + [x], l) == Count(s, l) + if x == l then 1 else 0
  {
    assert (s + [x])[..|s|] == s;
  }

  /** Entry r of the positions is the row of that label and rank. */
  lemma {:induction false} PositionsAt(s: seq<string>, l: string, r: nat)
    requires r < Count(s, l)
    ensures Positions(s, l)[r] < |s| && s[Positions(s, l)[r]] == l && Rank(s, Positions(s, l)[r]) == r
  {
    var n := |s| - 1;
    if s[n] != l || r < Count(s[..n], l) {
      PositionsAt(s[..n], l, r);
      assert s[..n][..Positions(s, l)[r]] == s[..Positions(s, l)[r]];
    }
  }

  /** A row is found at its rank. */
  lemma {:induction false} PositionOf(s: seq<string>, i: nat)
    requires i < |s|
    ensures Rank(s, i) < Count(s, s[i]) && Positions(s, s[i])[Rank(s, i)] == i
  {
    var n := |s| - 1;
    if i < n {
      PositionOf(s[..n], i);
      assert s[..n][..i] == s[..i];
    }
  }

  // ---------- the label maps ----------

  type LabelMap = map<string, seq<nat>>

  predicate HoldsFrom(m: LabelMap, s: seq<string>, l: string, d: nat) {
    if d < Count(s, l) then l in m && m[l] == Positions(s, l)[d..] else l !in m
  }

  /** The map holds the rows of every label, without as many as the label has been used. */
  ghost predicate After(m: LabelMap, s: seq<string>, used: seq<string>) {
    forall l: string :: HoldsFrom(m, s, l, Count(used, l))
  }

  function AddRow(m: LabelMap, l: string, i: nat): LabelMap {
    m[l := (if l in m then m[l] else []) + [i]]
  }

  /** Takes the first row of a label out. */
  function TakeHead(m: LabelMap, l: string): LabelMap {
    if l in m && |m[l]| > 1 then m[l := m[l][1..]] else m - {l}
  }

  lemma {:induction false} AddStep(m: LabelMap, s: seq<string>, x: string)
    requires After(m, s, [])
    ensures After(AddRow(m, x, |s|), s + [x], [])
  {
    forall l: string ensures HoldsFrom(AddRow(m, x, |s|), s + [x], l, Count([], l)) {
      assert HoldsFrom(m, s, l, Count([], l));
      assert (s + [x])[..|s|] == s;
    }
  }

  lemma {:induction false} TakeStep(m: LabelMap, s: seq<string>, used: seq<string>, x: string)
    requires After(m, s, used)
    ensures After(TakeHead(m, x), s, used + [x])
  {
    forall l: string ensures HoldsFrom(TakeHead(m, x), s, l, Count(used + [x], l)) {
      assert HoldsFrom(m, s, l, Count(used, l));
      CountNext(used, x, l);
    }
  }

  lemma {:induction false} HeadOf(m: LabelMap, s: seq<string>, used: seq<string>, l: string)
    requires After(m, s, used)
    ensures l in m <==> Count(used, l) < Count(s, l)
    ensures l in m ==> |m[l]| > 0 && m[l][0] == Positions(s, l)[Count(used, l)]
  {
    assert HoldsFrom(m, s, l, Count(used, l));
  }

  /** A table joined with itself is used up. */
  lemma {:induction false} AllUsed(m: LabelMap, s: seq<string>)
    requires After(m, s, s)
    ensures m == map[]
  {
    forall l | l in m ensures false { HeadOf(m, s, s, l); }
  }

  // ---------- the first pass: the rows of the first table ----------

  /** The row of the second table that row i of the first is joined with. */
  function Partner(s1: seq<string>, s2: seq<string>, i: nat): Option<nat>
    requires i < |s1|
  {
    if Rank(s1, i) < Count(s2, s1[i]) then Some(Positions(s2, s1[i])[Rank(s1, i)]) else None
  }

  lemma {:induction false} HeadIsPartner(m: LabelMap, s1: seq<string>, s2: seq<string>, i: nat)
    requires i < |s1| && After(m, s2, s1[..i])
    ensures s1[i] in m <==> Partner(s1, s2, i).Some?
    ensures s1[i] in m ==> |m[s1[i]]| > 0 && Partner(s1, s2, i) == Some(m[s1[i]][0])
  {
    HeadOf(m, s2, s1[..i], s1[i]);
  }

  /** One round of the first pass: the first row the map holds for the label is the partner. */
  lemma {:induction false} TakePartner(m1: LabelMap, m2: LabelMap, s1: seq<string>, s2: seq<string>, i: nat)
    requires i < |s1| && After(m1, s1, s1[..i]) && After(m2, s2, s1[..i])
    ensures After(TakeHead(m1, s1[i]), s1, s1[..i + 1]) && After(TakeHead(m2, s1[i]), s2, s1[..i + 1])
    ensures s1[i] in m2 <==> Partner(s1, s2, i).Some?
    ensures s1[i] in m2 ==> |m2[s1[i]]| > 0 && Partner(s1, s2, i) == Some(m2[s1[i]][0])
  {
    HeadIsPartner(m2, s1, s2, i);
    TakeStep(m1, s1, s1[..i], s1[i]);
    TakeStep(m2, s2, s1[..i], s1[i]);
    assert s1[..i + 1] == s1[..i] + [s1[i]];
  }

  // ---------- the second pass: what is left of the second table ----------

  function LabelsAt(s: seq<string>, rows: seq<nat>): seq<string>
    requires forall k :: 0 <= k < |rows| ==> rows[k] < |s|
  {
    seq(|rows|, k requires 0 <= k < |rows| => s[rows[k]])
  }

  /** The k-th leftover row is the next of its label after those the first table used. */
  predicate IsNext(s1: seq<string>, s2: seq<string>, rest: seq<nat>, k: nat)
    requires k < |rest| && forall h :: 0 <= h < |rest| ==> rest[h] < |s2|
  {
    var l := s2[rest[k]];
    var r := Count(s1, l) + Rank(LabelsAt(s2, rest), k);
    r < Count(s2, l) && rest[k] == Positions(s2, l)[r]
  }

  ghost predicate Leftover(s1: seq<string>, s2: seq<string>, rest: seq<nat>) {
    && (forall h :: 0 <= h < |rest| ==> rest[h] < |s2|)
    && (forall k: nat :: k < |rest| ==> IsNext(s1, s2, rest, k))
    && (forall l: string :: WithinCounts(s1, s2, LabelsAt(s2, rest), l))
  }

  lemma {:induction false} LabelsNext(s2: seq<string>, rest: seq<nat>, j: nat)
    requires (forall h :: 0 <= h < |rest| ==> rest[h] < |s2|) && j < |s2|
    ensures LabelsAt(s2, rest + [j]) == LabelsAt(s2, rest) + [s2[j]]
  {
  }

  lemma {:induction false} NextStays(s1: seq<string>, s2: seq<string>, rest: seq<nat>, j: nat, k: nat)
    requires (forall h :: 0 <= h < |rest| ==> rest[h] < |s2|) && j < |s2| && k < |rest|
    requires IsNext(s1, s2, rest, k)
    ensures IsNext(s1, s2, rest + [j], k)
  {
    LabelsNext(s2, rest, j);
    assert LabelsAt(s2, rest + [j])[..k] == LabelsAt(s2, rest)[..k];
  }

  /** The next row of a label has not been used. */
  lemma {:induction false} NextUnused(s1: seq<string>, s2: seq<string>, rest: seq<nat>, l: string, k: nat)
    requires (forall h :: 0 <= h < |rest| ==> rest[h] < |s2|) && k < |rest| && IsNext(s1, s2, rest, k)
    requires Count(s1, l) + Count(LabelsAt(s2, rest), l) < Count(s2, l)
    ensures rest[k] != Positions(s2, l)[Count(s1, l) + Count(LabelsAt(s2, rest), l)]
  {
    var was := LabelsAt(s2, rest);
    PositionOf(was, k);
    PositionsAt(s2, l, Count(s1, l) + Count(was, l));
    PositionsAt(s2, s2[rest[k]], Count(s1, s2[rest[k]]) + Rank(was, k));
  }

  /** The first row the map holds for a label. */
  lemma {:induction false} LeftoverHead(m: LabelMap, s1: seq<string>, s2: seq<string>, rest: seq<nat>, l: string)
    requires Leftover(s1, s2, rest) && After(m, s2, s1 + LabelsAt(s2, rest)) && l in m
    ensures var r := Count(s1, l) + Count(LabelsAt(s2, rest), l);
            |m[l]| > 0 && r < Count(s2, l) && m[l][0] == Positions(s2, l)[r] && m[l][0] < |s2| && s2[m[l][0]] == l
  {
    HeadOf(m, s2, s1 + LabelsAt(s2, rest), l);
    CountAppend(s1, LabelsAt(s2, rest), l);
    PositionsAt(s2, l, Count(s1, l) + Count(LabelsAt(s2, rest), l));
  }

  lemma {:induction false} LastIsNext(s1: seq<string>, s2: seq<string>, rest: seq<nat>, l: string, j: nat)
    requires (forall h :: 0 <= h < |rest| ==> rest[h] < |s2|) && j < |s2| && s2[j] == l
    requires Count(s1, l) + Count(LabelsAt(s2, rest), l) < Count(s2, l)
    requires j == Positions(s2, l)[Count(s1, l) + Count(LabelsAt(s2, rest), l)]
    ensures IsNext(s1, s2, rest + [j], |rest|)
  {
    LabelsNext(s2, rest, j);
    assert LabelsAt(s2, rest + [j])[..|rest|] == LabelsAt(s2, rest);
  }

  /** No label is used more often than it occurs. */
  predicate WithinCounts(s1: seq<string>, s2: seq<string>, used: seq<string>, l: string) {
    Count(used, l) == 0 || Count(s1, l) + Count(used, l) <= Count(s2, l)
  }

  lemma {:induction false} CountsStay(s1: seq<string>, s2: seq<string>, used: seq<string>, l: string)
    requires (forall x: string :: WithinCounts(s1, s2, used, x)) && Count(s1, l) + Count(used, l) < Count(s2, l)
    ensures forall x: string :: WithinCounts(s1, s2, used + [l], x)
  {
    forall x: string ensures WithinCounts(s1, s2, used + [l], x) {
      CountNext(used, l, x);
      assert WithinCounts(s1, s2, used, x);
    }
  }

  lemma {:induction false} LeftoverStep(s1: seq<string>, s2: seq<string>, rest: seq<nat>, l: string, j: nat)
    requires Leftover(s1, s2, rest) && Count(s1, l) + Count(LabelsAt(s2, rest), l) < Count(s2, l)
    requires j < |s2| && s2[j] == l && j == Positions(s2, l)[Count(s1, l) + Count(LabelsAt(s2, rest), l)]
    ensures j !in rest && Leftover(s1, s2, rest + [j])
  {
    forall k: nat | k < |rest| ensures rest[k] != j && IsNext(s1, s2, rest + [j], k) {
      NextUnused(s1, s2, rest, l, k);
      NextStays(s1, s2, rest, j, k);
    }
    LastIsNext(s1, s2, rest, l, j);
    CountsStay(s1, s2, LabelsAt(s2, rest), l);
    LabelsNext(s2, rest, j);
  }

  /** Rows of the second table not joined yet. */
  function Unused(s2: seq<string>, rest: seq<nat>): set<nat> {
    set j: nat | j < |s2| && j !in rest
  }

  lemma {:induction false} UnusedShrinks(s2: seq<string>, rest: seq<nat>, j: nat)
    requires j < |s2| && j !in rest
    ensures |Unused(s2, rest + [j])| < |Unused(s2, rest)|
  {
    assert Unused(s2, rest + [j]) == Unused(s2, rest) - {j};
  }

  /** The label maps after one more leftover row. */
  lemma {:induction false} TakeLabel(m: LabelMap, s1: seq<string>, s2: seq<string>, rest: seq<nat>, l: string, j: nat)
    requires (forall h :: 0 <= h < |rest| ==> rest[h] < |s2|) && j < |s2| && s2[j] == l
    requires After(m, s2, s1 + LabelsAt(s2, rest))
    ensures After(TakeHead(m, l), s2, s1 + LabelsAt(s2, rest + [j]))
  {
    LabelsNext(s2, rest, j);
    TakeStep(m, s2, s1 + LabelsAt(s2, rest), l);
    assert s1 + LabelsAt(s2, rest) + [l] == s1 + (LabelsAt(s2, rest) + [l]);
  }

  /** One round of the second pass: the first row the map holds for a label is the next leftover row. */
  lemma {:induction false} TakeLeftover(m: LabelMap, s1: seq<string>, s2: seq<string>, rest: seq<nat>, l: string)
    requires Leftover(s1, s2, rest) && After(m, s2, s1 + LabelsAt(s2, rest)) && l in m
    ensures |m[l]| > 0 && Leftover(s1, s2, rest + [m[l][0]])
    ensures After(TakeHead(m, l), s2, s1 + LabelsAt(s2, rest + [m[l][0]]))
    ensures |Unused(s2, rest + [m[l][0]])| < |Unused(s2, rest)|
  {
    LeftoverHead(m, s1, s2, rest, l);
    var j := m[l][0];
    assert Leftover(s1, s2, rest + [j]) && j !in rest by { LeftoverStep(s1, s2, rest, l, j); }
    UnusedShrinks(s2, rest, j);
    assert After(TakeHead(m, l), s2, s1 + LabelsAt(s2, rest + [j])) by { TakeLabel(m, s1, s2, rest, l, j); }
  }

  lemma {:induction false} NothingLeft(m: LabelMap, s1: seq<string>, s2: seq<string>, rest: seq<nat>, l: string)
    requires Leftover(s1, s2, rest) && After(m, s2, s1 + LabelsAt(s2, rest)) && m == map[]
    ensures Count(LabelsAt(s2, rest), l) == if Count(s1, l) < Count(s2, l) then Count(s2, l) - Count(s1, l) else 0
  {
    HeadOf(m, s2, s1 + LabelsAt(s2, rest), l);
    CountAppend(s1, LabelsAt(s2, rest), l);
    assert WithinCounts(s1, s2, LabelsAt(s2, rest), l);
  }

  // ---------- the join ----------

  datatype Pair = Pair(left: Option<nat>, right: Option<nat>)

  /** Rows of the join: those of the first table with their partners, then the leftover ones. */
  function PairsOf(s1: seq<string>, s2: seq<string>, rest: seq<nat>): (pairs: seq<Pair>)
    ensures |pairs| == |s1| + |rest|
  {
    seq(|s1| + |rest|, k requires 0 <= k < |s1| + |rest| =>
      if k < |s1| then Pair(Some(k), Partner(s1, s2, k)) else Pair(None, Some(rest[k - |s1|])))
  }

  lemma {:induction false} PairsPrefix(s1: seq<string>, s2: seq<string>, i: nat)
    requires i < |s1|
    ensures PairsOf(s1, s2, [])[..i + 1] == PairsOf(s1, s2, [])[..i] + [Pair(Some(i), Partner(s1, s2, i))]
  {
  }

  lemma {:induction false} PairsNext(s1: seq<string>, s2: seq<string>, rest: seq<nat>, j: nat)
    ensures PairsOf(s1, s2, rest + [j]) == PairsOf(s1, s2, rest) + [Pair(None, Some(j))]
  {
    var a, b := PairsOf(s1, s2, rest + [j]), PairsOf(s1, s2, rest) + [Pair(None, Some(j))];
    forall k | 0 <= k < |a| ensures a[k] == b[k] {}
  }

  /** The join is complete: every label of the second table is used up. */
  ghost predicate Complete(s1: seq<string>, s2: seq<string>, rest: seq<nat>) {
    && Leftover(s1, s2, rest)
    && forall l: string ::
         Count(LabelsAt(s2, rest), l) == if Count(s1, l) < Count(s2, l) then Count(s2, l) - Count(s1, l) else 0
  }

  lemma {:induction false} CompleteAtEnd(m: LabelMap, s1: seq<string>, s2: seq<string>, rest: seq<nat>)
    requires Leftover(s1, s2, rest) && After(m, s2, s1 + LabelsAt(s2, rest)) && m == map[]
    ensures Complete(s1, s2, rest)
  {
    forall l: string
      ensures Count(LabelsAt(s2, rest), l) == if Count(s1, l) < Count(s2, l) then Count(s2, l) - Count(s1, l) else 0
    {
      NothingLeft(m, s1, s2, rest, l);
    }
  }

  /**
   Rows joined have the same label, and the n-th row of a label is joined with the n-th; a row without a
   partner has none of its rank.
   */
  predicate JoinsNth(s1: seq<string>, s2: seq<string>, p: Pair) {
    match p
    case Pair(Some(i), Some(j)) => i < |s1| && j < |s2| && s1[i] == s2[j] && Rank(s1, i) == Rank(s2, j)
    case Pair(Some(i), None) => i < |s1| && Count(s2, s1[i]) <= Rank(s1, i)
    case Pair(None, Some(j)) => j < |s2| && Count(s1, s2[j]) <= Rank(s2, j)
    case Pair(None, None) => false
  }

  lemma {:induction false} JoinsNthWithNth(s1: seq<string>, s2: seq<string>, rest: seq<nat>, k: nat)
    requires Leftover(s1, s2, rest) && k < |PairsOf(s1, s2, rest)|
    ensures JoinsNth(s1, s2, PairsOf(s1, s2, rest)[k])
  {
    if k < |s1| {
      if Rank(s1, k) < Count(s2, s1[k]) { PositionsAt(s2, s1[k], Rank(s1, k)); }
    } else {
      var h := k - |s1|;
      assert IsNext(s1, s2, rest, h);
      PositionsAt(s2, s2[rest[h]], Count(s1, s2[rest[h]]) + Rank(LabelsAt(s2, rest), h));
    }
  }

  /** Every row of the first table is in exactly one row of the join. */
  lemma {:induction false} LeftOnce(s1: seq<string>, s2: seq<string>, rest: seq<nat>, i: nat, k: nat)
    requires i < |s1| && k < |PairsOf(s1, s2, rest)|
    ensures PairsOf(s1, s2, rest)[k].left == Some(i) <==> k == i
  {
  }

  /** Where row j of the second table is. */
  function PlaceOf(s1: seq<string>, s2: seq<string>, rest: seq<nat>, j: nat): (k: nat)
    requires Complete(s1, s2, rest) && j < |s2|
    ensures k < |PairsOf(s1, s2, rest)|
  {
    var l, r := s2[j], Rank(s2, j);
    PositionOf(s2, j);
    if r < Count(s1, l) then
      PositionsAt(s1, l, r);
      Positions(s1, l)[r]
    else
      PositionsAt(LabelsAt(s2, rest), l, r - Count(s1, l));
      |s1| + Positions(LabelsAt(s2, rest), l)[r - Count(s1, l)]
  }

  /** Every row of the second table is in exactly one row of the join. */
  lemma {:induction false} RightOnce(s1: seq<string>, s2: seq<string>, rest: seq<nat>, j: nat, k: nat)
    requires Complete(s1, s2, rest) && j < |s2| && k < |PairsOf(s1, s2, rest)|
    ensures PairsOf(s1, s2, rest)[k].right == Some(j) <==> k == PlaceOf(s1, s2, rest, j)
  {
    PlaceHolds(s1, s2, rest, j);
    if PairsOf(s1, s2, rest)[k].right == Some(j) { PlaceUnique(s1, s2, rest, j, k); }
  }

  lemma {:induction false} PlaceHolds(s1: seq<string>, s2: seq<string>, rest: seq<nat>, j: nat)
    requires Complete(s1, s2, rest) && j < |s2|
    ensures PairsOf(s1, s2, rest)[PlaceOf(s1, s2, rest, j)].right == Some(j)
  {
    var l, r, labels := s2[j], Rank(s2, j), LabelsAt(s2, rest);
    PositionOf(s2, j);
    if r < Count(s1, l) {
      PositionsAt(s1, l, r);
    } else {
      PositionsAt(labels, l, r - Count(s1, l));
      assert IsNext(s1, s2, rest, Positions(labels, l)[r - Count(s1, l)]);
    }
  }

  lemma {:induction false} PlaceUnique(s1: seq<string>, s2: seq<string>, rest: seq<nat>, j: nat, k: nat)
    requires Complete(s1, s2, rest) && j < |s2| && k < |PairsOf(s1, s2, rest)|
    requires PairsOf(s1, s2, rest)[k].right == Some(j)
    ensures k == PlaceOf(s1, s2, rest, j)
  {
    JoinsNthWithNth(s1, s2, rest, k);
    if k < |s1| {
      PositionOf(s1, k);
    } else {
      RestPlace(s1, s2, rest, k - |s1|);
    }
  }

  lemma {:induction false} RestPlace(s1: seq<string>, s2: seq<string>, rest: seq<nat>, h: nat)
    requires Complete(s1, s2, rest) && h < |rest|
    ensures |s1| + h == PlaceOf(s1, s2, rest, rest[h])
  {
    var l, labels := s2[rest[h]], LabelsAt(s2, rest);
    assert IsNext(s1, s2, rest, h);
    PositionOf(labels, h);
    PositionsAt(s2, l, Count(s1, l) + Rank(labels, h));
  }

  // ---------- how many rows ----------

  predicate Distinct(labels: seq<string>) {
    forall a, b :: 0 <= a < b < |labels| ==> labels[a] != labels[b]
  }

  function CountSum(s: seq<string>, labels: seq<string>): nat {
    if labels == [] then 0 else CountSum(s, labels[..|labels| - 1]) + Count(s, labels[|labels| - 1])
  }

  /** Over the labels, the larger of the two counts. */
  function MaxSum(s1: seq<string>, s2: seq<string>, labels: seq<string>): nat {
    if labels == [] then 0
    else
      var l := labels[|labels| - 1];
      MaxSum(s1, s2, labels[..|labels| - 1]) + if Count(s1, l) < Count(s2, l) then Count(s2, l) else Count(s1, l)
  }

  lemma {:induction false} CountSumNext(s: seq<string>, x: string, labels: seq<string>)
    requires Distinct(labels)
    ensures CountSum(s + [x], labels) == CountSum(s, labels) + if x in labels then 1 else 0
  {
    if labels != [] {
      var n := |labels| - 1;
      CountSumNext(s, x, labels[..n]);
      CountNext(s, x, labels[n]);
      assert labels == labels[..n] + [labels[n]];
    }
  }

  lemma {:induction false} CountSumIsAll(s: seq<string>, labels: seq<string>)
    requires Distinct(labels) && forall i :: 0 <= i < |s| ==> s[i] in labels
    ensures CountSum(s, labels) == |s|
    decreases |s|
  {
    if s == [] {
      CountSumNone(labels);
    } else {
      var n := |s| - 1;
      CountSumIsAll(s[..n], labels);
      CountSumNext(s[..n], s[n], labels);
      assert s == s[..n] + [s[n]];
    }
  }

  lemma {:induction false} CountSumNone(labels: seq<string>)
    ensures CountSum([], labels) == 0
  {
    if labels != [] { CountSumNone(labels[..|labels| - 1]); }
  }

  lemma {:induction false} CountSumIsMaxSum(s1: seq<string>, s2: seq<string>, rest: seq<nat>, labels: seq<string>)
    requires Complete(s1, s2, rest)
    ensures CountSum(s1 + LabelsAt(s2, rest), labels) == MaxSum(s1, s2, labels)
    decreases |labels|
  {
    if labels != [] {
      CountSumIsMaxSum(s1, s2, rest, labels[..|labels| - 1]);
      CountAppend(s1, LabelsAt(s2, rest), labels[|labels| - 1]);
    }
  }

  /** The join has, over all labels, the larger of the two counts as many rows. */
  lemma {:induction false} JoinSize(s1: seq<string>, s2: seq<string>, rest: seq<nat>, labels: seq<string>)
    requires Complete(s1, s2, rest) && Distinct(labels)
    requires (forall i :: 0 <= i < |s1| ==> s1[i] in labels) && (forall j :: 0 <= j < |s2| ==> s2[j] in labels)
    ensures |PairsOf(s1, s2, rest)| == MaxSum(s1, s2, labels)
  {
    CountSumIsMaxSum(s1, s2, rest, labels);
    CountSumIsAll(s1 + LabelsAt(s2, rest), labels);
  }
}
