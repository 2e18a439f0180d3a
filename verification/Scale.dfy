/**
 The share of a row that each of its parts gets under the distance strategy.

 The parts of a row are ranked by distance. The nearest ones have weight 1, each further level the
 next power of the split ratio, and levels beyond a number of levels or of parts have weight 0. A
 part's share is its weight over a sum. Floating point is modelled by exact real numbers.
 */
module Scale {

  /** The settings: the powers of the ratio, one for each level, and the number of parts with weight. */
  datatype Settings = Settings(pow: seq<real>, level: nat, count: nat) {
    ghost predicate Valid() {
      && |pow| == level >= 1 && pow[0] == 1.0
      && (forall i :: 0 <= i < level ==> pow[i] > 0.0)
      && (forall i, j :: 0 <= i <= j < level ==> pow[j] <= pow[i])
    }
  }

  predicate Sorted(s: seq<nat>) {
    forall i, j :: 0 <= i < j < |s| ==> s[i] <= s[j]
  }

  /** The number of distinct distances before position i of the ranking. */
  function LevelAt(s: seq<nat>, i: nat): nat
    requires i < |s|
    decreases i
  {
    if i == 0 then 0 else LevelAt(s, i - 1) + if s[i] != s[i - 1] then 1 else 0
  }

  /** Position i starts a new level, and that level has no weight. */
  predicate Truncates(c: Settings, s: seq<nat>, i: nat)
    requires 0 < i < |s|
  {
    s[i] != s[i - 1] && (LevelAt(s, i) >= c.level || i >= c.count)
  }

  /** The weight of position i of the ranking. */
  function WeightAt(c: Settings, s: seq<nat>, i: nat): real
    requires c.Valid() && i < |s|
    decreases i
  {
    if i == 0 then 1.0
    else if s[i] == s[i - 1] then WeightAt(c, s, i - 1)
    else if Truncates(c, s, i) then 0.0
    else c.pow[LevelAt(s, i)]
  }

  /** What position i adds to the sum: its weight, or the last weight that was not truncated. */
  function TermAt(c: Settings, s: seq<nat>, i: nat): real
    requires c.Valid() && i < |s|
    decreases i
  {
    if i == 0 then 1.0
    else if s[i] == s[i - 1] || Truncates(c, s, i) then TermAt(c, s, i - 1)
    else c.pow[LevelAt(s, i)]
  }

  function TermSum(c: Settings, s: seq<nat>, n: nat): real
    requires c.Valid() && n <= |s|
    decreases n
  {
    if n == 0 then 0.0 else TermSum(c, s, n - 1) + TermAt(c, s, n - 1)
  }

  function WeightSum(c: Settings, s: seq<nat>, n: nat): real
    requires c.Valid() && n <= |s|
    decreases n
  {
    if n == 0 then 0.0 else WeightSum(c, s, n - 1) + WeightAt(c, s, n - 1)
  }

  /** Terms are positive, and weights lie between zero and the terms. */
  lemma {:induction false} WeightsBelowTerms(c: Settings, s: seq<nat>, i: nat)
    requires c.Valid() && i < |s|
    ensures 0.0 <= WeightAt(c, s, i) <= TermAt(c, s, i) <= 1.0 && TermAt(c, s, i) > 0.0
    decreases i
  {
    if i > 0 { WeightsBelowTerms(c, s, i - 1); }
  }

  /** No level of the ranking is truncated. */
  predicate Full(c: Settings, s: seq<nat>) {
    forall i :: 0 < i < |s| ==> !Truncates(c, s, i)
  }

  lemma {:induction false} FullWeights(c: Settings, s: seq<nat>, i: nat)
    requires c.Valid() && i < |s| && Full(c, s)
    ensures WeightAt(c, s, i) == TermAt(c, s, i)
    decreases i
  {
    if i > 0 { FullWeights(c, s, i - 1); }
  }

  /** The weights sum to at most the terms, and to exactly the terms when no level is truncated. */
  lemma {:induction false} WeightSumBound(c: Settings, s: seq<nat>, n: nat)
    requires c.Valid() && n <= |s|
    ensures 0.0 <= WeightSum(c, s, n) <= TermSum(c, s, n) && (n > 0 ==> TermSum(c, s, n) > 0.0)
    ensures Full(c, s) ==> WeightSum(c, s, n) == TermSum(c, s, n)
    decreases n
  {
    if n > 0 {
      WeightSumBound(c, s, n - 1);
      WeightsBelowTerms(c, s, n - 1);
      if Full(c, s) { FullWeights(c, s, n - 1); }
    }
  }

  /** A truncated level makes the weights sum to strictly less. */
  lemma {:induction false} TruncatedSum(c: Settings, s: seq<nat>, n: nat, t: nat)
    requires c.Valid() && 0 < t < n <= |s| && Truncates(c, s, t)
    ensures WeightSum(c, s, n) < TermSum(c, s, n)
    decreases n
  {
    WeightsBelowTerms(c, s, n - 1);
    if t == n - 1 {
      WeightSumBound(c, s, n - 1);
    } else {
      TruncatedSum(c, s, n - 1, t);
    }
  }

  /** Below a truncated level everything is truncated, so an untruncated weight is the power of its level. */
  lemma {:induction false} WeightIsPower(c: Settings, s: seq<nat>, i: nat)
    requires c.Valid() && i < |s| && LevelAt(s, i) < c.level && (i < c.count || LevelAt(s, i) == 0)
    ensures WeightAt(c, s, i) == c.pow[LevelAt(s, i)]
    decreases i
  {
    if i > 0 && s[i] == s[i - 1] { WeightIsPower(c, s, i - 1); }
  }

  /** Weights do not increase with distance. */
  lemma {:induction false} WeightsDecrease(c: Settings, s: seq<nat>, i: nat, j: nat)
    requires c.Valid() && i <= j < |s|
    ensures WeightAt(c, s, j) <= WeightAt(c, s, i)
    decreases j - i
  {
    if i < j {
      WeightsDecrease(c, s, i, j - 1);
      WeightsBelowTerms(c, s, j - 1);
      if s[j] != s[j - 1] && !Truncates(c, s, j) { WeightIsPower(c, s, j - 1); }
    }
  }

  /** The distances of the ranking below x, each once. */
  function Nearer(s: seq<nat>, x: nat): set<nat> {
    set d | d in s && d < x
  }

  lemma {:induction false} SmallerBefore(s: seq<nat>, i: nat, j: nat)
    requires Sorted(s) && 0 < i < |s| && j < |s| && s[j] < s[i]
    ensures s[j] <= s[i - 1]
  {
  }

  /** The level of a position is the number of distinct smaller distances. */
  lemma {:induction false} LevelCounts(s: seq<nat>, i: nat)
    requires Sorted(s) && i < |s|
    ensures LevelAt(s, i) == |Nearer(s, s[i])|
    decreases i
  {
    if i == 0 {
      assert Nearer(s, s[0]) == {};
    } else {
      LevelCounts(s, i - 1);
      if s[i] != s[i - 1] {
        forall d | d in s && d < s[i] ensures d <= s[i - 1] {
          var j :| 0 <= j < |s| && s[j] == d;
          SmallerBefore(s, i, j);
        }
        assert Nearer(s, s[i]) == Nearer(s, s[i - 1]) + {s[i - 1]};
      }
    }
  }

  /** Weights by position: level i counts the distinct distances below, f is the first position of the level. */
  lemma {:induction false} WeightByLevel(c: Settings, s: seq<nat>, f: nat, i: nat)
    requires c.Valid() && Sorted(s) && f <= i < |s| && s[f] == s[i] && (f > 0 ==> s[f - 1] != s[f])
    ensures f == 0 <==> LevelAt(s, i) == 0
    ensures WeightAt(c, s, i) == if f == 0 then 1.0
                                 else if LevelAt(s, i) < c.level && f < c.count then c.pow[LevelAt(s, i)]
                                 else 0.0
    decreases i
  {
    if f < i {
      assert s[f] <= s[i - 1] <= s[i];
      WeightByLevel(c, s, f, i - 1);
    }
  }

  /**
   What the weight of a part is. With k distinct distances below its own and f the first position of its
   distance in the ranking, the weight is 1 if k is 0; the k-th power if there are more than k levels and
   f is below the count; and otherwise 0.
   */
  lemma {:induction false} WeightMeans(c: Settings, s: seq<nat>, f: nat, i: nat)
    requires c.Valid() && Sorted(s) && f <= i < |s| && s[f] == s[i] && (f > 0 ==> s[f - 1] != s[f])
    ensures var k := |set d | d in s && d < s[i]|;
            WeightAt(c, s, i) == if k == 0 then 1.0 else if k < c.level && f < c.count then c.pow[k] else 0.0
  {
    WeightByLevel(c, s, f, i);
    LevelCounts(s, i);
    assert Nearer(s, s[i]) == set d | d in s && d < s[i];
  }

  /** What a position adds to the sum: the least of the weights up to it that are not zero. */
  lemma {:induction false} TermMeans(c: Settings, s: seq<nat>, i: nat)
    requires c.Valid() && i < |s|
    ensures exists j :: 0 <= j <= i && WeightAt(c, s, j) == TermAt(c, s, i) > 0.0
    ensures forall j :: 0 <= j <= i && WeightAt(c, s, j) > 0.0 ==> TermAt(c, s, i) <= WeightAt(c, s, j)
    decreases i
  {
    if i > 0 {
      TermMeans(c, s, i - 1);
      WeightsBelowTerms(c, s, i);
      if s[i] != s[i - 1] && !Truncates(c, s, i) {
        assert WeightAt(c, s, i) == TermAt(c, s, i);
        forall j | 0 <= j <= i ensures WeightAt(c, s, i) <= WeightAt(c, s, j) { WeightsDecrease(c, s, j, i); }
      }
    } else {
      assert WeightAt(c, s, 0) == TermAt(c, s, 0);
    }
  }

  // ---------- ranking ----------

  function InsertInt(x: nat, s: seq<nat>): seq<nat> {
    if s == [] || x <= s[0] then [x] + s else [s[0]] + InsertInt(x, s[1..])
  }

  /** `sort.Ints`, on values. */
  function Ranked(d: seq<nat>): seq<nat> {
    if d == [] then [] else InsertInt(d[0], Ranked(d[1..]))
  }

  lemma {:induction false} InsertElements(x: nat, s: seq<nat>)
    ensures multiset(InsertInt(x, s)) == multiset(s) + multiset{x}
    ensures forall y :: y in InsertInt(x, s) ==> y == x || y in s
  {
    if s != [] && x > s[0] {
      InsertElements(x, s[1..]);
      assert s == [s[0]] + s[1..];
    }
  }

  lemma {:induction false} InsertSorted(x: nat, s: seq<nat>)
    requires Sorted(s)
    ensures Sorted(InsertInt(x, s))
  {
    if s != [] && x > s[0] {
      InsertSorted(x, s[1..]);
      InsertElements(x, s[1..]);
      var r := InsertInt(x, s[1..]);
      forall i | 0 <= i < |r| ensures s[0] <= r[i] {
        assert r[i] in r;
      }
      SortedCons(s[0], r);
    }
  }

  lemma {:induction false} SortedCons(x: nat, s: seq<nat>)
    requires Sorted(s) && forall i :: 0 <= i < |s| ==> x <= s[i]
    ensures Sorted([x] + s)
  {
  }

  /** The ranking is sorted and has exactly the given distances. */
  lemma {:induction false} RankedSorted(d: seq<nat>)
    ensures Sorted(Ranked(d)) && multiset(Ranked(d)) == multiset(d) && |Ranked(d)| == |d|
  {
    if d != [] {
      RankedSorted(d[1..]);
      InsertSorted(d[0], Ranked(d[1..]));
      InsertElements(d[0], Ranked(d[1..]));
      assert d == [d[0]] + d[1..];
    }
    assert |multiset(Ranked(d))| == |multiset(d)|;
  }

  lemma {:induction false} SameWeight(c: Settings, s: seq<nat>, i: nat, j: nat)
    requires c.Valid() && Sorted(s) && i <= j < |s| && s[i] == s[j]
    ensures WeightAt(c, s, i) == WeightAt(c, s, j)
    decreases j - i
  {
    if i < j {
      assert s[i] <= s[j - 1] <= s[j];
      SameWeight(c, s, i, j - 1);
    }
  }

  // ---------- sums over a row ----------

  function SumBy(m: map<nat, real>, a: seq<nat>): real
    requires forall i :: 0 <= i < |a| ==> a[i] in m
  {
    if a == [] then 0.0 else SumBy(m, a[..|a| - 1]) + m[a[|a| - 1]]
  }

  lemma {:induction false} SumByRemove(m: map<nat, real>, a: seq<nat>, k: nat)
    requires k < |a| && forall i :: 0 <= i < |a| ==> a[i] in m
    ensures SumBy(m, a) == SumBy(m, a[..k] + a[k + 1..]) + m[a[k]]
    decreases |a|
  {
    var b := a[..k] + a[k + 1..];
    if k == |a| - 1 {
      assert b == a[..k];
    } else {
      var a' := a[..|a| - 1];
      SumByRemove(m, a', k);
      assert b[..|b| - 1] == a'[..k] + a'[k + 1..];
      assert b[|b| - 1] == a[|a| - 1];
    }
  }

  lemma {:induction false} RemoveAt(b: seq<nat>, k: nat)
    requires k < |b|
    ensures multiset(b[..k] + b[k + 1..]) == multiset(b) - multiset{b[k]}
  {
    assert b == b[..k] + [b[k]] + b[k + 1..];
  }

  lemma {:induction false} SameElements(a: seq<nat>, b: seq<nat>, x: nat)
    requires multiset(a) == multiset(b) && x in a
    ensures x in b
  {
    assert x in multiset(a);
  }

  /** The sum depends only on which distances occur how often. */
  lemma {:induction false} SumByPermutes(m: map<nat, real>, a: seq<nat>, b: seq<nat>)
    requires multiset(a) == multiset(b) && |a| == |b|
    requires (forall i :: 0 <= i < |a| ==> a[i] in m) && (forall i :: 0 <= i < |b| ==> b[i] in m)
    ensures SumBy(m, a) == SumBy(m, b)
    decreases |a|
  {
    if a != [] {
      var n := |a| - 1;
      var x := a[n];
      SameElements(a, b, x);
      var k :| 0 <= k < |b| && b[k] == x;
      RemoveAt(a, n);
      RemoveAt(b, k);
      assert a[..n] + a[n + 1..] == a[..n];
      SumByPermutes(m, a[..n], b[..k] + b[k + 1..]);
      SumByRemove(m, b, k);
    }
  }

  function RealSum(v: seq<real>, lo: nat, hi: nat): real
    requires lo <= hi <= |v|
    decreases hi
  {
    if lo == hi then 0.0 else RealSum(v, lo, hi - 1) + v[hi - 1]
  }

  /** x is w over t. */
  predicate IsShare(x: real, t: real, w: real) {
    x * t == w
  }

  /** The weights of a ranking. */
  function Weights(c: Settings, s: seq<nat>): seq<real>
    requires c.Valid()
  {
    seq(|s|, i requires 0 <= i < |s| => WeightAt(c, s, i))
  }

  /** Equal distances have equal weights. */
  ghost predicate Consistent(s: seq<nat>, w: seq<real>) {
    |w| == |s| && forall i, j :: 0 <= i < j < |s| && s[i] == s[j] ==> w[i] == w[j]
  }

  /** Every part of the row has the share of its rank. */
  ghost predicate Shared(dis: seq<nat>, scale: seq<real>, s: seq<nat>, w: seq<real>, t: real, lo: nat, hi: nat)
    requires lo <= hi <= |dis| == |scale| && |w| == |s|
  {
    forall p, i :: lo <= p < hi && 0 <= i < |s| && s[i] == dis[p] ==> IsShare(scale[p], t, w[i])
  }

  lemma {:induction false} TableExists(s: seq<nat>, w: seq<real>, n: nat) returns (m: map<nat, real>)
    requires Consistent(s, w) && n <= |s|
    ensures forall i :: 0 <= i < n ==> s[i] in m
    ensures forall i :: 0 <= i < n ==> m[s[i]] == w[i]
    decreases n
  {
    if n == 0 {
      m := map[];
    } else {
      m := TableExists(s, w, n - 1);
      m := m[s[n - 1] := w[n - 1]];
    }
  }

  lemma {:induction false} TableSum(s: seq<nat>, w: seq<real>, m: map<nat, real>, n: nat)
    requires |w| == |s| && n <= |s| && (forall i :: 0 <= i < |s| ==> s[i] in m) &&
             (forall i :: 0 <= i < |s| ==> m[s[i]] == w[i])
    ensures SumBy(m, s[..n]) == RealSum(w, 0, n)
    decreases n
  {
    if n > 0 {
      TableSum(s, w, m, n - 1);
      assert s[..n][..n - 1] == s[..n - 1];
    }
  }

  lemma {:induction false} ScaledSum(dis: seq<nat>, scale: seq<real>, m: map<nat, real>, t: real, lo: nat, hi: nat)
    requires lo <= hi <= |dis| == |scale|
    requires forall p :: lo <= p < hi ==> dis[p] in m
    requires forall p :: lo <= p < hi ==> IsShare(scale[p], t, m[dis[p]])
    ensures IsShare(RealSum(scale, lo, hi), t, SumBy(m, dis[lo..hi]))
    decreases hi
  {
    if lo < hi {
      ScaledSum(dis, scale, m, t, lo, hi - 1);
      assert dis[lo..hi][..hi - lo - 1] == dis[lo..hi - 1];
      assert IsShare(scale[hi - 1], t, m[dis[hi - 1]]);
      AddShares(RealSum(scale, lo, hi - 1), scale[hi - 1], t);
    }
  }

  lemma {:induction false} AddShares(x: real, y: real, t: real)
    ensures (x + y) * t == x * t + y * t
  {
  }

  /** Every distance of the row is somewhere in its ranking. */
  lemma {:induction false} RankOf(dis: seq<nat>, lo: nat, hi: nat, p: nat) returns (i: nat)
    requires lo <= p < hi <= |dis|
    ensures i < |Ranked(dis[lo..hi])| && Ranked(dis[lo..hi])[i] == dis[p]
  {
    var d := dis[lo..hi];
    RankedSorted(d);
    assert d[p - lo] == dis[p];
    SameElements(d, Ranked(d), dis[p]);
    i :| 0 <= i < |Ranked(d)| && Ranked(d)[i] == dis[p];
  }

  /** The shares of a row sum to what the weights of its ranking sum to, over t. */
  lemma {:induction false} SharesSum(dis: seq<nat>, scale: seq<real>, w: seq<real>, t: real, lo: nat, hi: nat)
    requires lo <= hi <= |dis| == |scale| && Consistent(Ranked(dis[lo..hi]), w)
    requires Shared(dis, scale, Ranked(dis[lo..hi]), w, t, lo, hi)
    ensures IsShare(RealSum(scale, lo, hi), t, RealSum(w, 0, |w|))
  {
    var d := dis[lo..hi];
    var s := Ranked(d);
    RankedSorted(d);
    var m := TableExists(s, w, |s|);
    forall p | lo <= p < hi ensures dis[p] in m && IsShare(scale[p], t, m[dis[p]]) {
      var i := RankOf(dis, lo, hi, p);
    }
    ScaledSum(dis, scale, m, t, lo, hi);
    assert forall i :: 0 <= i < |d| ==> d[i] == dis[lo + i];
    SumByPermutes(m, s, d);
    TableSum(s, w, m, |s|);
    assert s[..|s|] == s;
  }

  /** The entries of one row: each part's weight over the sum of terms. */
  ghost predicate RowScaled(c: Settings, dis: seq<nat>, scale: seq<real>, lo: nat, hi: nat)
    requires c.Valid() && lo <= hi <= |dis| == |scale|
  {
    var s := Ranked(dis[lo..hi]);
    Shared(dis, scale, s, Weights(c, s), TermSum(c, s, |s|), lo, hi)
  }

  lemma {:induction false} WeightsConsistent(c: Settings, s: seq<nat>)
    requires c.Valid() && Sorted(s)
    ensures Consistent(s, Weights(c, s))
  {
    forall i, j | 0 <= i < j < |s| && s[i] == s[j] ensures Weights(c, s)[i] == Weights(c, s)[j] {
      SameWeight(c, s, i, j);
    }
  }

  lemma {:induction false} WeightsSum(c: Settings, s: seq<nat>, n: nat)
    requires c.Valid() && n <= |s|
    ensures RealSum(Weights(c, s), 0, n) == WeightSum(c, s, n)
    decreases n
  {
    if n > 0 { WeightsSum(c, s, n - 1); }
  }

  lemma {:induction false} SumVersusTerms(c: Settings, s: seq<nat>)
    requires c.Valid() && |s| > 0
    ensures WeightSum(c, s, |s|) <= TermSum(c, s, |s|) && TermSum(c, s, |s|) > 0.0
    ensures WeightSum(c, s, |s|) == TermSum(c, s, |s|) <==> Full(c, s)
  {
    WeightSumBound(c, s, |s|);
    if !Full(c, s) {
      var x :| 0 < x < |s| && Truncates(c, s, x);
      TruncatedSum(c, s, |s|, x);
    }
  }

  lemma {:induction false} Quotient(q: real, t: real, w: real)
    requires t > 0.0 && IsShare(q, t, w) && w <= t
    ensures q <= 1.0 && (q == 1.0 <==> w == t)
  {
    assert q > 1.0 ==> q * t > t;
    assert q < 1.0 ==> q * t < t;
  }

  /**
   The entries of a row sum to at most 1, and to exactly 1 if and only if no level of its ranking is
   truncated.
   */
  lemma {:induction false} RowScaleSums(c: Settings, dis: seq<nat>, scale: seq<real>, lo: nat, hi: nat)
    requires c.Valid() && lo < hi <= |dis| == |scale| && RowScaled(c, dis, scale, lo, hi)
    ensures RealSum(scale, lo, hi) <= 1.0
    ensures RealSum(scale, lo, hi) == 1.0 <==> Full(c, Ranked(dis[lo..hi]))
  {
    var s := Ranked(dis[lo..hi]);
    RankedSorted(dis[lo..hi]);
    WeightsConsistent(c, s);
    SharesSum(dis, scale, Weights(c, s), TermSum(c, s, |s|), lo, hi);
    WeightsSum(c, s, |s|);
    SumVersusTerms(c, s);
    Quotient(RealSum(scale, lo, hi), TermSum(c, s, |s|), WeightSum(c, s, |s|));
  }

  lemma {:induction false} ScaleFactor(a: real, b: real, t: real, u: real, v: real)
    requires t > 0.0 && IsShare(a, t, u) && IsShare(b, t, v) && u <= v
    ensures a <= b
  {
    assert a > b ==> a * t > b * t;
  }

  lemma {:induction false} RankOrder(c: Settings, s: seq<nat>, i: nat, j: nat)
    requires c.Valid() && Sorted(s) && i < |s| && j < |s| && s[i] <= s[j]
    ensures 0.0 <= WeightAt(c, s, j) <= WeightAt(c, s, i)
  {
    WeightsBelowTerms(c, s, j);
    if i <= j { WeightsDecrease(c, s, i, j); } else { SameWeight(c, s, j, i); }
  }

  /** The entries are not negative, and do not increase with distance. */
  lemma {:induction false} RowScaleOrder(c: Settings, dis: seq<nat>, scale: seq<real>, lo: nat, hi: nat, p: nat, q: nat)
    requires c.Valid() && lo < hi <= |dis| == |scale| && RowScaled(c, dis, scale, lo, hi)
    requires lo <= p < hi && lo <= q < hi && dis[p] <= dis[q]
    ensures 0.0 <= scale[q] <= scale[p]
  {
    var s := Ranked(dis[lo..hi]);
    RankedSorted(dis[lo..hi]);
    var t, w := TermSum(c, s, |s|), Weights(c, s);
    SumVersusTerms(c, s);
    var i := RankOf(dis, lo, hi, p);
    var j := RankOf(dis, lo, hi, q);
    assert IsShare(scale[p], t, w[i]) && IsShare(scale[q], t, w[j]);
    RankOrder(c, s, i, j);
    ScaleFactor(scale[q], scale[p], t, w[j], w[i]);
    assert IsShare(0.0, t, 0.0);
    ScaleFactor(0.0, scale[q], t, 0.0, w[j]);
  }

  /** A row with one part gives it everything. */
  lemma {:induction false} SinglePart(c: Settings, dis: seq<nat>, lo: nat)
    requires c.Valid() && lo < |dis|
    ensures var s := Ranked(dis[lo..lo + 1]);
            s == [dis[lo]] && WeightAt(c, s, 0) == 1.0 && TermSum(c, s, 1) == 1.0
  {
    var d := [dis[lo]];
    assert dis[lo..lo + 1] == d && d[1..] == [];
    var s := Ranked(d);
    assert Ranked(d[1..]) == [];
    assert s == InsertInt(d[0], []) == [d[0]] + [];
    assert TermSum(c, s, 1) == TermSum(c, s, 0) + TermAt(c, s, 0);
  }
}
