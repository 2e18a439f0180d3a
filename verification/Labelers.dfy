/**
 Logical ranges of TiDB keys: the meta range, and each index of each table. The labeler decodes both
 keys through one reused buffer.
 */
module Labelers {
  import opened Keys
  import opened Codec
  import opened TableKeys
  import opened Cuts
  import opened Focus
  import opened Chunks

  /** The logical range a key belongs to. */
  datatype LogicalRange = MetaRange | IndexRange(tableID: Int64, indexID: Int64)

  function RangeOf(key: Key): LogicalRange {
    var info := KeyInfo(key);
    var meta := ReadMetaOrTable(info);
    if meta.isMeta then MetaRange else IndexRange(meta.tableID, ReadIndexInfo(info))
  }

  predicate TidbBorder(a: Key, b: Key) {
    RangeOf(a) != RangeOf(b)
  }

  class TidbLabeler {
    const buffer: KeyInfoBuffer

    constructor ()
      ensures fresh(buffer)
    {
      buffer := new KeyInfoBuffer();
    }

    /** `CrossBorder` tells whether the keys lie in different logical ranges, whatever the buffer held. */
    method CrossBorder(startKey: Key, endKey: Key) returns (crosses: bool)
      modifies buffer
      ensures crosses == TidbBorder(startKey, endKey)
    {
      var startInfo, _ := buffer.DecodeKey(startKey);
      var start := ReadMetaOrTable(startInfo);
      var startIndex := ReadIndexInfo(startInfo);

      var endInfo, _ := buffer.DecodeKey(endKey);
      var end := ReadMetaOrTable(endInfo);
      var endIndex := ReadIndexInfo(endInfo);

      if start.isMeta || end.isMeta {
        return start.isMeta != end.isMeta;
      }
      if start.tableID != end.tableID {
        return true;
      }
      return startIndex != endIndex;
    }
  }

  /** Not crossing a border is an equivalence of keys. */
  lemma {:induction false} TidbBorderIsClassBorder()
    ensures IsClassBorder(TidbBorder)
  {
  }

  /** Row j starts in another logical range than the row before it. */
  predicate RangeChanges(keys: seq<Key>, j: nat) {
    1 <= j < |keys| && RangeOf(keys[j - 1]) != RangeOf(keys[j])
  }

  /**
   The row bound for TiDB keys: `Divide` returns at most target - 1 rows plus the number of adjacent
   rows in different logical ranges.
   */
  lemma {:induction false} TidbDivideRowBound(c: Chunk, target: nat, mode: FocusMode)
    requires c.Sized() && 2 <= target < |c.values|
    ensures RowsOf(DivideCuts(c, TidbBorder, target, mode)) <=
            target - 1 + |set i: nat | 1 <= i < |c.values| && RangeChanges(c.keys, i)|
  {
    TidbBorderIsClassBorder();
    DivideRowBound(c, TidbBorder, target, mode);
    ChangesCounted(c.keys, 1, |c.values|);
  }

  lemma {:induction false} ChangesCounted(keys: seq<Key>, i: nat, n: nat)
    requires 0 < i <= n <= |keys|
    ensures Changes(TidbBorder, keys, i, n) ==
            |set j: nat | i <= j < n && RangeChanges(keys, j)|
    decreases n - i
  {
    var all := set j: nat | i <= j < n && RangeChanges(keys, j);
    if i == n {
      assert all == {};
    } else {
      var rest := set j: nat | i + 1 <= j < n && RangeChanges(keys, j);
      ChangesCounted(keys, i + 1, n);
      if RangeChanges(keys, i) {
        assert all == rest + {i};
      } else {
        assert all == rest;
      }
    }
  }

  /** Whatever follows the encoding, a key belongs to the range of the encoded bytes. */
  lemma {:induction false} RangeOfEncoded(raw: Key, rest: Key)
    ensures RangeOf(Encode(raw) + rest) ==
            if ReadMetaOrTable(raw).isMeta then MetaRange
            else IndexRange(ReadMetaOrTable(raw).tableID, ReadIndexInfo(raw))
  {
    DecodeEncode(raw, rest);
  }

  /**
   A border lies between two keys of tables exactly when the tables differ or the indexes do; a key that is
   not of an index counts as one of index 0. So two rows of a table never cross a border, and a row and an
   index of a table do unless the index ID is 0.
   */
  lemma {:induction false} TableKeysBorder(t: Int64, kind: Byte, id: Int64, tail: Key, rest: Key, t': Int64,
                                           kind': Byte, id': Int64, tail': Key, rest': Key)
    ensures var a, b := KeyOf(t, kind, id, tail), KeyOf(t', kind', id', tail');
            TidbBorder(Encode(a) + rest, Encode(b) + rest') <==>
              t != t' || (if kind == 'i' as int then id else 0) != (if kind' == 'i' as int then id' else 0)
  {
    ReadKey(t, kind, id, tail);
    ReadKey(t', kind', id', tail');
    RangeOfEncoded(KeyOf(t, kind, id, tail), rest);
    RangeOfEncoded(KeyOf(t', kind', id', tail'), rest');
  }

  /** Meta keys are one range, apart from all other keys. */
  lemma {:induction false} MetaBorder(tail: Key, rest: Key, key: Key)
    ensures var meta := Encode(['m' as int] + tail) + rest;
            TidbBorder(meta, key) <==> KeyInfo(key) == [] || KeyInfo(key)[0] != 'm' as int
  {
    RangeOfEncoded(['m' as int] + tail, rest);
  }

  /** Keys that do not decode, or to nothing of a table or of the meta data, are one range as well. */
  lemma {:induction false} OtherKeysTogether(a: Key, b: Key)
    requires KeyInfo(a) == [] || (KeyInfo(a)[0] != 'm' as int && KeyInfo(a)[0] != 't' as int)
    requires KeyInfo(b) == [] || (KeyInfo(b)[0] != 'm' as int && KeyInfo(b)[0] != 't' as int)
    ensures !TidbBorder(a, b)
  {
    ReadOther(KeyInfo(a));
    ReadOther(KeyInfo(b));
  }

  /** Two generated keys lie in one logical range exactly when they are of the same table. */
  lemma {:induction false} GeneratedKeyRange(t: Int64, r: Int64, u: Int64, s: Int64)
    ensures TidbBorder(Encode(RawKey(t, r)), Encode(RawKey(u, s))) <==> t != u
  {
    GeneratedKeyInfo(t, r);
    GeneratedKeyInfo(u, s);
  }
}
