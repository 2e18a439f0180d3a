/**
 The layered store as a whole: its construction, its restoration from the database, and the two
 operations it offers.
 */
module Stats {
  import opened Layers
  import opened History
  import opened Timeline
  import opened Axes
  import opened Database
  import opened LayerStats
  import opened Basics
  import opened Focus
  import opened Planes
  import opened Reduction
  import opened Heat

  /** The table with nothing but the start marker of each layer. */
  ghost predicate OnlyMarkers(rows: Rows, start: int, n: nat) {
    forall id :: id in rows <==> id.time == start && id.layer < n
  }

  lemma {:induction false} MarkersMirror(rows: Rows, confs: seq<LayerConfig>, start: int, k: nat, n: nat)
    requires ValidConfigs(confs) && OnlyMarkers(rows, start, n) && k + |confs| == n
    ensures MirrorsAll(rows, k, Initial(confs, start))
    decreases |confs|
  {
    assert RowId(k, start) in rows;
    if |confs| > 1 { MarkersMirror(rows, confs[1..], start, k + 1, n); }
  }

  /** The chain has these configurations. */
  predicate Configured(confs: seq<LayerConfig>, c: Chain<Axis>) {
    && confs != [] && c.top.conf == confs[0]
    && if c.Last? then |confs| == 1 else |confs| > 1 && Configured(confs[1..], c.rest)
  }

  /** The rows of a table left by a run over these layers, and no other rows. */
  ghost predicate Persisted(rows: Rows, confs: seq<LayerConfig>, was: Chain<Axis>) {
    && ValidConfigs(confs) && Chained(was) && Configured(confs, was)
    && MirrorsAll(rows, 0, was) && LayersBelow(rows, |confs|)
  }

  lemma {:induction false} ConfiguredAt(confs: seq<LayerConfig>, c: Chain<Axis>)
    requires Configured(confs, c)
    ensures c.Length() == |confs| && forall k :: 0 <= k < |confs| ==> c.Nth(k).conf == confs[k]
    decreases c
  {
    if c.Link? {
      ConfiguredAt(confs[1..], c.rest);
      forall k | 0 <= k < |confs| ensures c.Nth(k).conf == confs[k] {
        if k > 0 { assert c.rest.Nth(k - 1).conf == confs[1..][k - 1]; }
      }
    }
  }

  lemma {:induction false} AppendConfigured(f: Compaction<Axis>, confs: seq<LayerConfig>, c: Chain<Axis>,
                                            x: Sample<Axis>)
    requires Configured(confs, c) && Sized(c)
    ensures Configured(confs, Append(f, c, x))
    decreases c
  {
    if |c.top.ring| == c.top.conf.len && c.Link? && c.top.conf.ratio != 0 {
      AppendConfigured(f, confs[1..], c.rest, Compacted(f, c.top.ring[..Step(c)]));
    }
  }

  lemma {:induction false} InitialConfigured(confs: seq<LayerConfig>, start: int)
    requires ValidConfigs(confs)
    ensures Configured(confs, Initial(confs, start))
    decreases |confs|
  {
    if |confs| > 1 { InitialConfigured(confs[1..], start); }
  }

  lemma {:induction false} MarkersPersisted(rows: Rows, confs: seq<LayerConfig>, start: int)
    requires ValidConfigs(confs) && OnlyMarkers(rows, start, |confs|)
    ensures Persisted(rows, confs, Initial(confs, start))
  {
    MarkersMirror(rows, confs, start, 0, |confs|);
    InitialChained<Axis>(confs, start);
    InitialConfigured(confs, start);
  }

  /** One append of a later sample keeps the table a faithful copy of the layers. */
  lemma {:induction false} AppendPersisted(f: Compaction<Axis>, rows: Rows, confs: seq<LayerConfig>, c: Chain<Axis>,
                                           x: Sample<Axis>)
    requires Persisted(rows, confs, c) && Sized(c) && c.top.End() < x.time
    ensures Persisted(AppendRows(f, rows, 0, c, x), confs, Append(f, c, x))
  {
    ConfiguredAt(confs, c);
    AppendChained(f, c, x);
    AppendConfigured(f, confs, c, x);
    AppendMirrors(f, rows, 0, c, x);
    AppendRowsBelow(f, rows, 0, c, x, |confs|);
  }

  /** The table after a whole run. */
  function RunRows(f: Compaction<Axis>, confs: seq<LayerConfig>, start: int, history: seq<Sample<Axis>>): Rows
    requires ValidConfigs(confs)
    decreases |history|
  {
    if history == [] then map k: nat | k < |confs| :: RowId(k, start) := Axis([], [])
    else
      var before := history[..|history| - 1];
      AppendRows(f, RunRows(f, confs, start, before), 0, Run(f, confs, start, before), history[|history| - 1])
  }

  /** After any run the table holds the markers and samples of the layers, exactly. */
  lemma {:induction false} RunPersisted(f: Compaction<Axis>, confs: seq<LayerConfig>, start: int,
                                        history: seq<Sample<Axis>>)
    requires ValidConfigs(confs) && Ascends(start, history)
    ensures Persisted(RunRows(f, confs, start, history), confs, Run(f, confs, start, history))
    decreases |history|
  {
    if history == [] {
      MarkersPersisted(RunRows(f, confs, start, history), confs, start);
    } else {
      var before, x := history[..|history| - 1], history[|history| - 1];
      RunPersisted(f, confs, start, before);
      RunChained(f, confs, start, before);
      AppendPersisted(f, RunRows(f, confs, start, before), confs, Run(f, confs, start, before), x);
    }
  }

  /** A chain is given by its length and its layers. */
  lemma {:induction false} ChainsEqual(c: Chain<Axis>, d: Chain<Axis>)
    requires c.Length() == d.Length() && forall k :: 0 <= k < c.Length() ==> c.Nth(k) == d.Nth(k)
    ensures c == d
    decreases c
  {
    assert c.Nth(0) == d.Nth(0);
    if c.Link? {
      forall k | 0 <= k < c.rest.Length() ensures c.rest.Nth(k) == d.rest.Nth(k) {
        assert c.Nth(k + 1) == d.Nth(k + 1);
      }
      ChainsEqual(c.rest, d.rest);
    }
  }

  lemma {:induction false} InitialAt(confs: seq<LayerConfig>, start: int, k: nat)
    requires ValidConfigs(confs) && k < |confs|
    ensures Initial<Axis>(confs, start).Nth(k) == Layer(confs[k], start, [])
    decreases k
  {
    if k > 0 { InitialAt(confs[1..], start, k - 1); }
  }

  lemma {:induction false} ChainedAt(c: Chain<Axis>, k: nat)
    requires Chained(c) && k < c.Length()
    ensures Ascends(c.Nth(k).start, c.Nth(k).ring) && |c.Nth(k).ring| <= c.Nth(k).conf.len
    decreases k
  {
    if k > 0 { ChainedAt(c.rest, k - 1); }
  }

  lemma {:induction false} MirrorsAt(rows: Rows, j: nat, c: Chain<Axis>, k: nat)
    requires MirrorsAll(rows, j, c) && k < c.Length()
    ensures Mirrors(rows, j + k, c.Nth(k))
    decreases k
  {
    if k > 0 { MirrorsAt(rows, j + 1, c.rest, k - 1); }
  }

  /** The layers are the links of one chain, and follow confs from `base` on. */
  ghost predicate Links(layers: seq<LayerStat>, confs: seq<LayerConfig>, db: Db, base: nat) {
    && layers != [] && base + |layers| == |confs|
    && (forall j :: 0 <= j < |layers| ==> LayerFits(layers[j], confs[base + j], db, base + j))
    && (forall j :: 0 <= j < |layers| - 1 ==> layers[j].next == layers[j + 1])
    && layers[|layers| - 1].next == null
  }

  ghost predicate LayerFits(l: LayerStat, conf: LayerConfig, db: Db, num: nat) {
    l.Linked() && l.layerNum == num && l.db == db && l.len == conf.len && l.ratio == conf.ratio
  }

  lemma {:induction false} LinksCons(l: LayerStat, layers: seq<LayerStat>, confs: seq<LayerConfig>, db: Db, base: nat)
    requires base < |confs| && LayerFits(l, confs[base], db, base)
    requires if layers == [] then base + 1 == |confs| && l.next == null
             else Links(layers, confs, db, base + 1) && l.next == layers[0]
    ensures Links([l] + layers, confs, db, base)
  {
    var ls := [l] + layers;
    forall j | 0 <= j < |ls| ensures LayerFits(ls[j], confs[base + j], db, base + j) {
      if j > 0 {
        assert ls[j] == layers[j - 1];
        assert LayerFits(layers[j - 1], confs[base + 1 + (j - 1)], db, base + 1 + (j - 1));
      }
    }
    forall j | 0 <= j < |ls| - 1 ensures ls[j].next == ls[j + 1] {
      if j > 0 { assert layers[j - 1].next == layers[j - 1 + 1]; }
    }
  }

  ghost function Own(l: LayerStat): set<object> {
    {l, l.ringAxes, l.ringTimes}
  }

  ghost function OwnAll(layers: seq<LayerStat>): (s: set<object>)
    ensures forall k :: 0 <= k < |layers| ==>
              layers[k] in s && layers[k].ringAxes in s && layers[k].ringTimes in s
  {
    if layers == [] then {} else OwnAll(layers[..|layers| - 1]) + Own(layers[|layers| - 1])
  }

  lemma {:induction false} OwnWithin(layers: seq<LayerStat>, confs: seq<LayerConfig>, db: Db, i: nat, k: nat)
    requires Links(layers, confs, db, 0) && i <= k < |layers|
    ensures Own(layers[k]) <= layers[i].repr && layers[k].repr <= layers[i].repr
    ensures i < k ==> Own(layers[i]) !! Own(layers[k])
    decreases k - i
  {
    assert LayerFits(layers[i], confs[0 + i], db, 0 + i);
    if i < k {
      assert layers[i].next == layers[i + 1];
      OwnWithin(layers, confs, db, i + 1, k);
    }
  }

  /** A chain of stable layers is valid, and its value lists their values. */
  lemma {:induction false} ChainOfLayers(layers: seq<LayerStat>, confs: seq<LayerConfig>, db: Db, i: nat)
    requires Links(layers, confs, db, 0) && i < |layers|
    requires forall k :: i <= k < |layers| ==> layers[k].Stable()
    ensures layers[i].Linked() && layers[i].Valid() && layers[i].Views().Length() == |layers| - i
    ensures forall k :: i <= k < |layers| ==>
              layers[k].Stable() && layers[i].Views().Nth(k - i) == layers[k].View()
    decreases |layers| - i
  {
    assert LayerFits(layers[i], confs[0 + i], db, 0 + i);
    if i + 1 < |layers| {
      assert layers[i].next == layers[i + 1];
      ChainOfLayers(layers, confs, db, i + 1);
      forall k | i <= k < |layers| ensures layers[i].Views().Nth(k - i) == layers[k].View() {
        if k > i { assert layers[i + 1].Views().Nth(k - (i + 1)) == layers[k].View(); }
      }
    }
  }

  /** The layers of a valid chain are stable. */
  lemma {:induction false} LayersStable(layers: seq<LayerStat>, confs: seq<LayerConfig>, db: Db, i: nat)
    requires Links(layers, confs, db, 0) && i < |layers| && layers[i].Linked() && layers[i].Valid()
    ensures forall k :: i <= k < |layers| ==> layers[k].Stable()
    decreases |layers| - i
  {
    if i + 1 < |layers| {
      assert layers[i].next == layers[i + 1];
      LayersStable(layers, confs, db, i + 1);
    }
  }

  /** A layer as it was built. */
  ghost predicate Untouched(l: LayerStat, start: int)
    reads l, l.ringAxes, l.ringTimes
  {
    l.Stable() && l.empty && l.startTime == start
  }

  /** A layer with a given value. */
  ghost predicate Holds(l: LayerStat, v: Layer<Axis>)
    reads l, l.ringAxes, l.ringTimes
  {
    l.Stable() && l.View() == v
  }

  /** As many axes as a layer passes on at once, each below the bound, sum up to less than 2^63. */
  predicate Bounded(confs: seq<LayerConfig>, bound: nat) {
    forall k :: 0 <= k < |confs| - 1 ==> confs[k].ratio * bound <= TWO_TO_63
  }

  /** Build the layers from `base` on, the last one first. */
  method BuildLayers(db: Db, confs: seq<LayerConfig>, strategy: Strategy, border: Border, startTime: int, base: nat,
                     ghost bound: nat)
    returns (layers: seq<LayerStat>)
    requires ValidConfigs(confs) && base < |confs| && Bounded(confs, bound)
    requires strategy.DistanceStrategy? ==> strategy.settings.Valid()
    ensures Links(layers, confs, db, base) && layers[0].SameReduction(strategy, border, bound)
    ensures fresh(layers[0].repr)
    ensures layers[0].Linked() && layers[0].Valid()
    ensures ValidConfigs(confs[base..]) && layers[0].Views() == Initial(confs[base..], startTime)
    decreases |confs| - base
  {
    var rest: seq<LayerStat> := [];
    if base + 1 < |confs| {
      rest := BuildLayers(db, confs, strategy, border, startTime, base + 1, bound);
      assert confs[base..][1..] == confs[base + 1..];
      assert LayerFits(rest[0], confs[base + 1 + 0], db, base + 1 + 0);
    }
    var layer := new LayerStat(base, confs[base], strategy, border, startTime, db, if rest == [] then null else rest[0],
                               bound);
    LinksCons(layer, rest, confs, db, base);
    layers := [layer] + rest;
  }

  class Stat {
    const layers: seq<LayerStat>
    const db: Db
    const strategy: Strategy
    const border: Border
    ghost const bound: nat
    ghost const confs: seq<LayerConfig>
    ghost const repr: set<object>

    ghost predicate Built()
    {
      && ValidConfigs(confs) && |confs| <= 255 && Bounded(confs, bound)
      && (strategy.DistanceStrategy? ==> strategy.settings.Valid())
      && Links(layers, confs, db, 0) && LayerFits(layers[0], confs[0], db, 0)
      && repr == layers[0].repr && layers[0].SameReduction(strategy, border, bound)
    }

    ghost predicate Valid()
      requires Built()
      reads repr
    {
      layers[0].Valid()
    }

    ghost function Views(): Chain<Axis>
      requires Built() && Valid()
      reads repr
    {
      layers[0].Views()
    }

    /** The state between operations: contiguous layers, and a table that is their exact copy. */
    ghost predicate Consistent()
      requires Built() && Valid()
      reads repr, db
    {
      db.hasTable && Persisted(db.rows, confs, Views())
    }

    /** The reduction of a full layer, as a function of its axes. */
    ghost function Compact(): Compaction<Axis> {
      KeyVisual(strategy, border)
    }

    /** Every axis in the layers is a stored axis within the bound. */
    ghost predicate Good()
      requires Built() && Valid()
      reads repr
    {
      ChainOk(IsStorable(bound), Views())
    }

    constructor (db: Db, confs: seq<LayerConfig>, strategy: Strategy, border: Border, startTime: int, ghost bound: nat)
      requires ValidConfigs(confs) && |confs| <= 255 && Bounded(confs, bound)
      requires strategy.DistanceStrategy? ==> strategy.settings.Valid()
      ensures Built() && this.confs == confs && this.db == db && fresh(repr)
      ensures this.strategy == strategy && this.border == border && this.bound == bound
      ensures Valid() && Views() == Initial(confs, startTime)
    {
      var ls := BuildLayers(db, confs, strategy, border, startTime, 0, bound);
      assert confs[0..] == confs;
      this.layers, this.db, this.strategy, this.border := ls, db, strategy, border;
      this.bound, this.confs, this.repr := bound, confs, ls[0].repr;
    }

    /** Write the start marker of every layer. */
    method CreateStartMarkers()
      requires Built() && Valid() && db.rows == map[]
      requires forall k :: 0 <= k < |layers| ==> layers[k].startTime == layers[0].startTime
      modifies db
      ensures OnlyMarkers(db.rows, layers[0].startTime, |layers|) && db.hasTable == old(db.hasTable)
      ensures unchanged(repr)
    {
      ghost var start := layers[0].startTime;
      assert LayerFits(layers[0], confs[0], db, 0);
      for i := 0 to |layers|
        invariant OnlyMarkers(db.rows, start, i) && db.hasTable == old(db.hasTable) && unchanged(repr)
        invariant forall k :: 0 <= k < |layers| ==> layers[k].startTime == start
      {
        var ok := db.Insert(i, layers[i].startTime, Axis([], []));
        forall k | 0 <= k < |layers| ensures layers[k].startTime == start {
          OwnWithin(layers, confs, db, 0, k);
        }
      }
    }

    /** Load layer k; the other layers are not touched. */
    method LoadLayer(k: nat, found: seq<Sample<Axis>>, ghost start: int)
      requires Built() && k < |layers| && |found| >= 1 && Untouched(layers[k], start)
      modifies Own(layers[k]), db
      ensures layers[k].Stable() && db.hasTable == old(db.hasTable)
      ensures |found| - 1 <= confs[k].len ==>
                layers[k].View() == Layer(confs[k], found[0].time, found[1..]) && db.rows == old(db.rows)
    {
      assert LayerFits(layers[k], confs[0 + k], db, 0 + k);
      layers[k].Load(found);
      assert found[1..|found|] == found[1..];
      if |found| - 1 <= confs[k].len {
        assert db.rows.Keys == old(db.rows).Keys;
        assert db.rows == old(db.rows);
      }
    }

    /** Delete the rows of the layers beyond the last one, up to the first layer without rows. */
    method DropRedundant() returns (ghost end: nat)
      modifies db
      ensures db.hasTable == old(db.hasTable) && |layers| <= end
      ensures forall id :: id in old(db.rows) ==> id.layer != end
      ensures forall k :: |layers| <= k < end ==> HasLayer(old(db.rows), k)
      ensures forall id :: id in db.rows <==> id in old(db.rows) && !(|layers| <= id.layer < end)
      ensures forall id :: id in db.rows ==> db.rows[id] == old(db.rows)[id]
      ensures LayersBelow(old(db.rows), |layers|) ==> db.rows == old(db.rows)
    {
      var layerNum := |layers|;
      while true
        invariant db.hasTable == old(db.hasTable) && |layers| <= layerNum
        invariant forall k :: |layers| <= k < layerNum ==> HasLayer(old(db.rows), k)
        invariant forall id :: id in db.rows <==> id in old(db.rows) && !(|layers| <= id.layer < layerNum)
        invariant forall id :: id in db.rows ==> db.rows[id] == old(db.rows)[id]
        decreases db.rows.Keys
      {
        var found := db.FindOrderByTime(layerNum);
        if |found| == 0 {
          break;
        }
        assert RowId(layerNum, found[0].time) in db.rows;
        assert HasLayer(old(db.rows), layerNum);
        db.DeleteLayer(layerNum);
        layerNum := layerNum + 1;
      }
      end := layerNum;
      if LayersBelow(old(db.rows), |layers|) { NoneDropped(old(db.rows), db.rows, |layers|, end); }
    }

    /** Layers that hold the values of a chain are that chain. */
    lemma {:induction false} HoldsChain(c: Chain<Axis>)
      requires Built() && c.Length() == |layers|
      requires forall k :: 0 <= k < |layers| ==> Holds(layers[k], c.Nth(k))
      ensures Valid() && Views() == c
    {
      assert forall k :: 0 <= k < |layers| ==> layers[k].Stable();
      ChainOfLayers(layers, confs, db, 0);
      forall k | 0 <= k < c.Length() ensures Views().Nth(k) == c.Nth(k) {
        assert Holds(layers[k], c.Nth(k));
        assert layers[0].Views().Nth(k - 0) == layers[k].View();
      }
      ChainsEqual(Views(), c);
    }

    lemma {:induction false} UntouchedChain(start: int)
      requires Built()
      requires forall k :: 0 <= k < |layers| ==> Untouched(layers[k], start)
      ensures Valid() && Views() == Initial(confs, start)
    {
      forall k | 0 <= k < |layers| ensures Holds(layers[k], Initial<Axis>(confs, start).Nth(k)) {
        InitialAt(confs, start, k);
        assert LayerFits(layers[k], confs[0 + k], db, 0 + k) && Untouched(layers[k], start);
      }
      HoldsChain(Initial(confs, start));
    }

    lemma {:induction false} InitialUntouched(start: int)
      requires Built() && Valid() && Views() == Initial(confs, start)
      ensures forall k :: 0 <= k < |layers| ==> Untouched(layers[k], start)
    {
      LayersStable(layers, confs, db, 0);
      ChainOfLayers(layers, confs, db, 0);
      forall k | 0 <= k < |layers| ensures Untouched(layers[k], start) {
        InitialAt(confs, start, k);
        assert layers[0].Views().Nth(k - 0) == layers[k].View();
      }
    }

    lemma {:induction false} LayersApart(k: nat)
      requires Built() && k < |layers|
      ensures Own(layers[k]) <= repr && db !in repr
      ensures forall j :: 0 <= j < |layers| && j != k ==> Own(layers[j]) !! Own(layers[k])
    {
      OwnWithin(layers, confs, db, 0, k);
      forall j | 0 <= j < |layers| && j != k ensures Own(layers[j]) !! Own(layers[k]) {
        if j < k { OwnWithin(layers, confs, db, j, k); } else { OwnWithin(layers, confs, db, k, j); }
      }
    }

    /**
     `Restore` loads every layer from its rows. From a table that a run has left, it rebuilds that run's
     layers exactly and leaves the table alone, provided the run has stored a sample; otherwise, and
     without a table, the layers start empty and the table holds their markers.
     */
    method Restore(ghost was: Chain<Axis>, ghost start: int)
      requires Built() && Valid() && Views() == Initial(confs, start)
      requires !db.hasTable ==> db.rows == map[]
      modifies repr, db
      ensures Valid() && db.hasTable
      ensures Persisted(old(db.rows), confs, was) && old(db.hasTable) && was.top.ring != [] ==>
                Views() == was && db.rows == old(db.rows)
      ensures (Persisted(old(db.rows), confs, was) && was.top.ring == []) || !old(db.hasTable) ==>
                Views() == Initial(confs, start) && OnlyMarkers(db.rows, start, |layers|)
      ensures Persisted(old(db.rows), confs, was) || !old(db.hasTable) ==> Consistent()
    {
      InitialUntouched(start);
      var isExist := db.CreateTableIfNotExists();
      if !isExist {
        CreateStartMarkers();
        MarkersPersisted(db.rows, confs, start);
        return;
      }
      var cleared := LoadLayers(was, start);
      if cleared {
        InitialUntouched(start);
        CreateStartMarkers();
        MarkersPersisted(db.rows, confs, start);
      }
    }

    /** The layers before n are loaded, from n on they are as built. */
    ghost predicate Loaded(n: nat, was: Chain<Axis>, start: int, good: bool)
      requires Built() && (good ==> was.Length() == |layers|) && n <= |layers|
      reads OwnAll(layers)
    {
      && (forall k :: 0 <= k < n ==> layers[k].Stable() && (good ==> Holds(layers[k], was.Nth(k))))
      && (forall k :: n <= k < |layers| ==> Untouched(layers[k], start))
    }

    /** Load the next layer. */
    method LoadNext(n: nat, found: seq<Sample<Axis>>, ghost was: Chain<Axis>, ghost start: int, ghost good: bool)
      requires Built() && (good ==> was.Length() == |layers|) && n < |layers| && Loaded(n, was, start, good)
      requires |found| >= 1
      requires good ==> |found| - 1 <= confs[n].len && was.Nth(n) == Layer(confs[n], found[0].time, found[1..])
      modifies repr, db
      ensures Loaded(n + 1, was, start, good) && db.hasTable == old(db.hasTable)
      ensures good ==> db.rows == old(db.rows)
    {
      LayersApart(n);
      assert Untouched(layers[n], start);
      LoadLayer(n, found, start);
    }

    lemma {:induction false} LoadedValid(n: nat, was: Chain<Axis>, start: int, good: bool)
      requires Built() && (good ==> was.Length() == |layers|) && n <= |layers| && Loaded(n, was, start, good)
      ensures Valid() && (good && n == |layers| ==> Views() == was) && (n == 0 ==> Views() == Initial(confs, start))
    {
      forall k | 0 <= k < |layers| ensures layers[k].Stable() {
        if k >= n { assert Untouched(layers[k], start); }
      }
      ChainOfLayers(layers, confs, db, 0);
      if n == 0 { UntouchedChain(start); }
      if good && n == |layers| { HoldsChain(was); }
    }

    /** Look up the rows of layer n and load it, if there is something to load. */
    method LoadStep(n: nat, ghost was: Chain<Axis>, ghost start: int, ghost good: bool) returns (step: LoadResult)
      requires Built() && (good ==> Persisted(db.rows, confs, was) && was.Length() == |layers|) && n < |layers|
      requires Loaded(n, was, start, good)
      modifies repr, db
      ensures db.hasTable == old(db.hasTable) && (good ==> db.rows == old(db.rows))
      ensures step == Done ==> Loaded(n + 1, was, start, good) && (good && n == 0 ==> was.top.ring != [])
      ensures step != Done ==> Loaded(n, was, start, good)
      ensures step == NoRows ==> !good
      ensures step == NoSamples ==> n == 0 && (good ==> was.top.ring == [])
    {
      var found := db.FindOrderByTime(n);
      if good { FoundIsRing(db.rows, confs, was, n, found); }
      if |found| == 0 {
        return NoRows;
      }
      if |found| == 1 && n == 0 {
        return NoSamples;
      }
      LoadNext(n, found, was, start, good);
      return Done;
    }

    /** Load the layers in turn, up to one without rows, or stop at once if the finest one has no sample. */
    method LoadInTurn(ghost was: Chain<Axis>, ghost start: int, ghost good: bool) returns (n: nat, found: bool)
      requires Built() && (good ==> Persisted(db.rows, confs, was) && was.Length() == |layers|) &&
               Loaded(0, was, start, good)
      modifies repr, db
      ensures db.hasTable == old(db.hasTable) && (good ==> db.rows == old(db.rows))
      ensures n <= |layers| && Loaded(n, was, start, good) && (!found ==> n == 0)
      ensures good ==> (found <==> was.top.ring != []) && (found ==> n == |layers|)
    {
      n := 0;
      while n < |layers|
        invariant n <= |layers| && db.hasTable == old(db.hasTable) && Loaded(n, was, start, good)
        invariant good ==> db.rows == old(db.rows)
        invariant good && n > 0 ==> was.top.ring != []
      {
        var step := LoadStep(n, was, start, good);
        if step == NoRows {
          return n, true;
        }
        if step == NoSamples {
          return 0, false;
        }
        n := n + 1;
      }
      found := true;
    }

    /** Load the layers; clear the table if the finest one has no sample. */
    method LoadLayers(ghost was: Chain<Axis>, ghost start: int) returns (cleared: bool)
      requires Built() && db.hasTable
      requires forall k :: 0 <= k < |layers| ==> Untouched(layers[k], start)
      modifies repr, db
      ensures db.hasTable && Valid()
      ensures cleared ==> db.rows == map[] && Views() == Initial(confs, start)
      ensures Persisted(old(db.rows), confs, was) ==> (cleared <==> was.top.ring == [])
      ensures Persisted(old(db.rows), confs, was) && !cleared ==> Views() == was && db.rows == old(db.rows)
    {
      ghost var good := Persisted(db.rows, confs, was);
      if good { ConfiguredAt(confs, was); }
      var n, found := LoadInTurn(was, start, good);
      LoadedValid(n, was, start, good);
      ghost var loaded := Views();
      if !found {
        db.Clear();
      } else if n == |layers| {
        ghost var end := DropRedundant();
      }
      assert Valid() && Views() == loaded;
      return !found;
    }

    /** Append a stored axis, later than all before it. */
    method Append(axis: Axis, end: int)
      requires Built() && Valid() && Consistent() && Good() && Views().top.End() < end && Storable(axis, bound)
      modifies repr, db
      ensures Valid() && Consistent() && Good()
      ensures Views() == Layers.Append(Compact(), old(Views()), Sample(end, axis))
    {
      AppendPersisted(Compact(), db.rows, confs, Views(), Sample(end, axis));
      ghost var most := ChainRatios(Views());
      AppendStorable(strategy, border, bound, most, Views(), Sample(end, axis));
      layers[0].Append(axis, end);
    }

    /** The stored intervals that meet a time range. */
    method RangeRoot(from: int, to: int) returns (times: seq<int>, axes: seq<Axis>)
      requires Built() && Valid() && Consistent() && from < to
      ensures Answers(Origin(Views()), Samples(Views()), from, to, times, axes)
    {
      times, axes := layers[0].Range(from, to);
    }
  }

  ghost predicate HasLayer(rows: Rows, k: nat) {
    exists id :: id in rows && id.layer == k
  }

  /** A table without redundant layers is left alone. */
  lemma {:induction false} NoneDropped(before: Rows, after: Rows, n: nat, end: nat)
    requires LayersBelow(before, n) && n <= end
    requires forall id :: id in after <==> id in before && !(n <= id.layer < end)
    requires forall id :: id in after ==> after[id] == before[id]
    ensures after == before
  {
    assert after.Keys == before.Keys;
  }

  /** The samples of a history are stored axes within the bound. */
  predicate AllStorable(history: seq<Sample<Axis>>, bound: nat) {
    forall i :: 0 <= i < |history| ==> Storable(history[i].axis, bound)
  }

  lemma {:induction false} AscendsPrefix(start: int, s: seq<Sample<Axis>>, n: nat)
    requires Ascends(start, s) && n <= |s|
    ensures Ascends(start, s[..n])
  {
  }

  /** The store is in the state that a run leaves, in its layers and in its table. */
  ghost predicate HasRun(s: Stat, start: int, history: seq<Sample<Axis>>)
    reads s.repr, s.db
  {
    && s.Built() && s.Valid() && s.Consistent() && s.Good()
    && s.Views() == Run(s.Compact(), s.confs, start, history)
  }

  /** One append takes the store from the state of a run to that of the run with one sample more. */
  method FeedNext(s: Stat, x: Sample<Axis>, ghost start: int, ghost before: seq<Sample<Axis>>)
    requires HasRun(s, start, before) && Ascends(start, before + [x]) && Storable(x.axis, s.bound)
    modifies s.repr, s.db
    ensures HasRun(s, start, before + [x])
  {
    RunNext(s.Compact(), s.confs, start, before, x);
    s.Append(x.axis, x.time);
  }

  lemma {:induction false} RunNext(f: Compaction<Axis>, confs: seq<LayerConfig>, start: int, s: seq<Sample<Axis>>,
                                   x: Sample<Axis>)
    requires ValidConfigs(confs) && Ascends(start, s + [x])
    ensures Run(f, confs, start, s).top.End() < x.time
    ensures Run(f, confs, start, s + [x]) == Append(f, Run(f, confs, start, s), x)
  {
    var all := s + [x];
    assert all[..|s|] == s && all[|s|] == x;
    AscendsPrefix(start, all, |s|);
    RunChained(f, confs, start, s);
    if s != [] { assert all[|s| - 1].time < all[|s|].time; }
  }

  lemma {:induction false} FirstOf(start: int, before: seq<Sample<Axis>>, history: seq<Sample<Axis>>)
    requires history != [] && Ascends(start, before + history)
    ensures before + [history[0]] + history[1..] == before + history && Ascends(start, before + [history[0]])
  {
    assert (before + history)[..|before| + 1] == before + [history[0]];
    AscendsPrefix(start, before + history, |before| + 1);
  }

  /** A whole run of appends: from the state of any run, the store comes to that of the longer run. */
  method Feed(s: Stat, history: seq<Sample<Axis>>, ghost start: int, ghost before: seq<Sample<Axis>>)
    requires HasRun(s, start, before) && Ascends(start, before + history) && AllStorable(history, s.bound)
    modifies s.repr, s.db
    ensures HasRun(s, start, before + history)
    decreases |history|
  {
    if history == [] {
      assert before + history == before;
      return;
    }
    FirstOf(start, before, history);
    FeedNext(s, history[0], start, before);
    Feed(s, history[1..], start, before + [history[0]]);
  }

  lemma {:induction false} InitialGood(confs: seq<LayerConfig>, start: int, bound: nat)
    requires ValidConfigs(confs)
    ensures ChainOk(IsStorable(bound), Initial(confs, start))
    decreases |confs|
  {
    if |confs| > 1 { InitialGood(confs[1..], start, bound); }
  }

  /** A first start, on a database without the table: the layers are those of the empty run. */
  method Start(db: Db, confs: seq<LayerConfig>, strategy: Strategy, border: Border, startTime: int, ghost bound: nat)
    returns (s: Stat)
    requires ValidConfigs(confs) && |confs| <= 255 && Bounded(confs, bound)
    requires (strategy.DistanceStrategy? ==> strategy.settings.Valid()) && !db.hasTable && db.rows == map[]
    modifies db
    ensures s.confs == confs && s.db == db && fresh(s.repr) && HasRun(s, startTime, [])
    ensures s.strategy == strategy && s.border == border && s.bound == bound
  {
    s := new Stat(db, confs, strategy, border, startTime, bound);
    s.Restore(Initial(confs, startTime), startTime);
    InitialGood(confs, startTime, bound);
  }

  /**
   Restarts are not noticed: a run of appends, a restart on the same database, and more appends leave the
   layers of the one run of all the appends, provided a sample was stored before the restart.
   */
  method RestartedRun(db: Db, confs: seq<LayerConfig>, strategy: Strategy, border: Border, startTime: int,
                      restartTime: int, first: seq<Sample<Axis>>, second: seq<Sample<Axis>>, ghost bound: nat)
    returns (s: Stat)
    requires ValidConfigs(confs) && |confs| <= 255 && Bounded(confs, bound)
    requires (strategy.DistanceStrategy? ==> strategy.settings.Valid()) && !db.hasTable && db.rows == map[]
    requires first != [] && Ascends(startTime, first + second)
    requires AllStorable(first, bound) && AllStorable(second, bound)
    modifies db
    ensures s.confs == confs && s.db == db && fresh(s.repr) && s.strategy == strategy && s.border == border
    ensures HasRun(s, startTime, first + second)
  {
    var before := Start(db, confs, strategy, border, startTime, bound);
    FirstPart(startTime, first, second);
    Feed(before, first, startTime, []);
    s := Restart(db, confs, strategy, border, restartTime, before, startTime, first);
    Feed(s, second, startTime, first);
  }

  lemma {:induction false} FirstPart(start: int, first: seq<Sample<Axis>>, second: seq<Sample<Axis>>)
    requires Ascends(start, first + second)
    ensures [] + first == first && Ascends(start, first)
  {
    assert (first + second)[..|first|] == first;
    AscendsPrefix(start, first + second, |first|);
  }

  /** A restart on the database of a run that has stored a sample gives the state of that run. */
  method Restart(db: Db, confs: seq<LayerConfig>, strategy: Strategy, border: Border, restartTime: int,
                 ghost before: Stat, ghost start: int, ghost history: seq<Sample<Axis>>)
    returns (s: Stat)
    requires HasRun(before, start, history) && history != [] && before.db == db && before.confs == confs
    requires before.strategy == strategy && before.border == border
    modifies db
    ensures s.confs == confs && s.db == db && fresh(s.repr) && s.bound == before.bound
    ensures s.strategy == strategy && s.border == border && HasRun(s, start, history)
  {
    ghost var was := before.Views();
    RunStored(before.Compact(), confs, start, history);
    s := new Stat(db, confs, strategy, border, restartTime, before.bound);
    s.Restore(was, restartTime);
  }

  lemma {:induction false} RunStored(f: Compaction<Axis>, confs: seq<LayerConfig>, start: int, s: seq<Sample<Axis>>)
    requires ValidConfigs(confs) && s != []
    ensures Run(f, confs, start, s).top.ring != []
  {
  }

  /** Some bound on the ratios of the layers. */
  lemma {:induction false} ChainRatios(c: Chain<Axis>) returns (most: nat)
    requires Chained(c)
    ensures RatiosWithin(c, most)
    decreases c
  {
    most := 0;
    if c.Link? {
      var rest := ChainRatios(c.rest);
      most := if rest < c.top.conf.ratio then c.top.conf.ratio else rest;
      RatiosGrow(c.rest, rest, most);
    }
  }

  lemma {:induction false} RatiosGrow(c: Chain<Axis>, a: nat, b: nat)
    requires RatiosWithin(c, a) && a <= b
    ensures RatiosWithin(c, b)
    decreases c
  {
    if c.Link? { RatiosGrow(c.rest, a, b); }
  }

  datatype LoadResult = NoRows | NoSamples | Done

  /** What a search for the rows of layer k finds in a persisted table. */
  lemma {:induction false} FoundIsRing(rows: Rows, confs: seq<LayerConfig>, was: Chain<Axis>, k: nat,
                                       found: seq<Sample<Axis>>)
    requires Persisted(rows, confs, was) && k < |confs| && Lists(rows, k, found)
    ensures was.Length() == |confs|
    ensures var l := was.Nth(k);
            && |found| == |l.ring| + 1 <= confs[k].len + 1
            && l == Layer(confs[k], found[0].time, found[1..])
    ensures k == 0 ==> was.Nth(k) == was.top
  {
    ConfiguredAt(confs, was);
    MirrorsAt(rows, 0, was, k);
    ChainedAt(was, k);
    ListOfMirror(rows, k, was.Nth(k), found);
  }
}
