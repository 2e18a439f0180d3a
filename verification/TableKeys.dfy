/**
 TiDB keys: signed integers encoded so that they sort, table and row keys built from them, and what
 can be read back from a decoded key.
 */
module TableKeys {
  import opened Basics
  import opened Keys
  import opened Codec

  type Int64 = v: int | -0x8000_0000_0000_0000 <= v < 0x8000_0000_0000_0000
  type UInt64 = u: int | 0 <= u < 0x1_0000_0000_0000_0000

  /** The bits of a signed integer, with the sign bit flipped. */
  function EncodeIntToCmpUint(v: Int64): UInt64 {
    FlipSign(if v < 0 then v + TWO_TO_64 else v)
  }

  function DecodeCmpUintToInt(u: UInt64): Int64 {
    var w := FlipSign(u);
    if w >= TWO_TO_63 then w - TWO_TO_64 else w
  }

  /** Exclusive or with the sign mask. */
  function FlipSign(u: UInt64): UInt64 {
    if u >= TWO_TO_63 then u - TWO_TO_63 else u + TWO_TO_63
  }

  function Pow256(n: nat): (p: nat)
    ensures p >= 1
  {
    if n == 0 then 1 else 256 * Pow256(n - 1)
  }

  /** The n low bytes of u, most significant first. */
  function BigEndian(u: nat, n: nat): (b: Key)
    requires u < Pow256(n)
    ensures |b| == n
    decreases n
  {
    if n == 0 then []
    else
      var p := Pow256(n - 1);
      Digits(u, p);
      [u / p] + BigEndian(u % p, n - 1)
  }

  lemma {:induction false} Digits(u: nat, p: nat)
    requires p >= 1 && u < 256 * p
    ensures 0 <= u / p < 256 && 0 <= u % p < p && u == u / p * p + u % p
  {
    var q := u / p;
    assert u == q * p + u % p;
    assert q >= 256 ==> q * p >= 256 * p;
  }

  function FromBigEndian(b: Key): nat {
    if b == [] then 0 else b[0] * Pow256(|b| - 1) + FromBigEndian(b[1..])
  }

  /** Big-endian bytes give back the number, and sort as the numbers do. */
  lemma {:induction false} BigEndianValue(u: nat, n: nat)
    requires u < Pow256(n)
    ensures FromBigEndian(BigEndian(u, n)) == u
    decreases n
  {
    if n > 0 {
      var p := Pow256(n - 1);
      Digits(u, p);
      BigEndianValue(u % p, n - 1);
      assert BigEndian(u, n)[1..] == BigEndian(u % p, n - 1);
    }
  }

  lemma {:induction false} MulMono(a: nat, b: nat, p: nat)
    requires a <= b
    ensures a * p <= b * p
  {
  }

  lemma {:induction false} LeadingDigit(h: nat, k: nat, lo: nat, lo': nat, p: nat)
    requires lo < p && lo' < p
    ensures h < k ==> h * p + lo < k * p + lo'
  {
    if h < k {
      MulMono(h + 1, k, p);
      assert (h + 1) * p == h * p + p;
    }
  }

  lemma {:induction false} BigEndianOrder(u: nat, w: nat, n: nat)
    requires u < Pow256(n) && w < Pow256(n)
    ensures Less(BigEndian(u, n), BigEndian(w, n)) <==> u < w
    decreases n
  {
    if n > 0 {
      var p := Pow256(n - 1);
      Digits(u, p);
      Digits(w, p);
      BigEndianOrder(u % p, w % p, n - 1);
      LeadingDigit(u / p, w / p, u % p, w % p, p);
      LeadingDigit(w / p, u / p, w % p, u % p, p);
      LessAppend([u / p], [w / p], BigEndian(u % p, n - 1), BigEndian(w % p, n - 1));
    }
  }

  lemma {:induction false} EightBytes()
    ensures Pow256(8) == TWO_TO_64
  {
    assert Pow256(4) == 256 * 256 * 256 * 256;
    assert Pow256(8) == 256 * (256 * (256 * (256 * Pow256(4))));
  }

  /** `encodeInt`, without the buffer it appends to. */
  function EncodeInt(v: Int64): (b: Key)
    ensures |b| == 8
  {
    EightBytes();
    BigEndian(EncodeIntToCmpUint(v), 8)
  }

  /** `decodeInt` of a string that may be too short; the leftover bytes are not used. */
  function DecodeInt(b: Key): (v: Int64) {
    if |b| < 8 then 0
    else
      ValueBound(b[..8]);
      EightBytes();
      DecodeCmpUintToInt(FromBigEndian(b[..8]))
  }

  lemma {:induction false} ValueBound(b: Key)
    ensures FromBigEndian(b) < Pow256(|b|)
    decreases |b|
  {
    if b != [] {
      var p := Pow256(|b| - 1);
      ValueBound(b[1..]);
      MulMono(b[0], 255, p);
      assert Pow256(|b|) == 255 * p + p;
    }
  }

  /** Encoded integers decode to themselves, whatever follows. */
  lemma {:induction false} DecodeEncodeInt(v: Int64, rest: Key)
    ensures DecodeInt(EncodeInt(v) + rest) == v
  {
    EightBytes();
    BigEndianValue(EncodeIntToCmpUint(v), 8);
    assert (EncodeInt(v) + rest)[..8] == EncodeInt(v);
  }

  /** Encoded integers sort as the integers do. */
  lemma {:induction false} EncodeIntOrder(v: Int64, w: Int64)
    ensures Less(EncodeInt(v), EncodeInt(w)) <==> v < w
    ensures EncodeInt(v) == EncodeInt(w) <==> v == w
  {
    EightBytes();
    BigEndianOrder(EncodeIntToCmpUint(v), EncodeIntToCmpUint(w), 8);
    DecodeEncodeInt(v, []);
    DecodeEncodeInt(w, []);
    assert EncodeInt(v) + [] == EncodeInt(v) && EncodeInt(w) + [] == EncodeInt(w);
  }

  // ---------- table keys ----------

  const TABLE_PREFIX: Byte := 't' as int
  const META_PREFIX: Byte := 'm' as int
  const RECORD_PREFIX: Byte := 'r' as int

  /** The bytes of a table key or, for a non-zero row ID, of a row key. */
  function RawKey(tableID: Int64, rowID: Int64): Key {
    [TABLE_PREFIX] + EncodeInt(tableID) + if rowID == 0 then [] else [RECORD_PREFIX] + EncodeInt(rowID)
  }

  /** `t` and the table ID; for a row ID other than zero, `r` and the row ID. */
  lemma {:induction false} RawKeyBytes(tableID: Int64, rowID: Int64)
    ensures var raw := RawKey(tableID, rowID);
            && |raw| == (if rowID == 0 then 9 else 18) && raw[0] == 't' as int && raw[1..9] == EncodeInt(tableID)
            && (rowID != 0 ==> raw[9] == 'r' as int && raw[10..] == EncodeInt(rowID))
  {
    var x, y := EncodeInt(tableID), EncodeInt(rowID);
    var raw := RawKey(tableID, rowID);
    assert [TABLE_PREFIX] + x + [] == [TABLE_PREFIX] + x;
    assert raw[1..9] == x;
    if rowID != 0 { assert raw == [TABLE_PREFIX] + x + ([RECORD_PREFIX] + y); }
  }

  datatype MetaOrTable = MetaOrTable(isMeta: bool, tableID: Int64)

  function ReadMetaOrTable(buf: Key): MetaOrTable {
    if buf != [] && buf[0] == META_PREFIX then MetaOrTable(true, 0)
    else if buf != [] && buf[0] == TABLE_PREFIX then MetaOrTable(false, DecodeInt(buf[1..]))
    else MetaOrTable(false, 0)
  }

  datatype RowInfo = RowInfo(isCommonHandle: bool, rowID: Int64)

  function ReadRowInfo(buf: Key): RowInfo {
    if buf == [] || buf[0] != TABLE_PREFIX || |buf| < 19 || !(buf[9] == '_' as int && buf[10] == 'r' as int)
    then RowInfo(false, 0)
    else if |buf| != 19 then RowInfo(true, 0)
    else RowInfo(false, DecodeInt(buf[11..19]))
  }

  function ReadIndexInfo(buf: Key): Int64 {
    if buf == [] || buf[0] != TABLE_PREFIX || |buf| < 19 || !(buf[9] == '_' as int && buf[10] == 'i' as int)
    then 0
    else DecodeInt(buf[11..19])
  }

  /** What a key decodes to; nothing when it does not decode. */
  function KeyInfo(key: Key): Key {
    if Decode(key).Decoded? then Decode(key).value else []
  }

  /** The buffer a labeler reuses for one key after another. */
  class KeyInfoBuffer {
    var data: Key

    constructor ()
      ensures data == []
    {
      data := [];
    }

    /** `DecodeKey`: what the buffer held before does not matter. */
    method DecodeKey(key: Key) returns (info: Key, ok: bool)
      modifies this
      ensures ok <==> Decode(key).Decoded?
      ensures info == data == KeyInfo(key) && info == if ok then Decode(key).value else []
    {
      var d := DecodeBytes(key, data);
      if !d.Decoded? {
        data := data[..0];
        return [], false;
      }
      data := d.value;
      return d.value, true;
    }

    /** `GenerateKey`: no key for table ID 0; what the buffer held before does not matter. */
    method GenerateKey(tableID: Int64, rowID: Int64) returns (key: Key, ok: bool)
      modifies this
      ensures ok <==> tableID != 0
      ensures ok ==> key == Encode(RawKey(tableID, rowID)) && data == RawKey(tableID, rowID)
      ensures !ok ==> key == [] && data == old(data)
    {
      if tableID == 0 {
        return [], false;
      }
      var buf: Key := data[..0] + [TABLE_PREFIX] + EncodeInt(tableID);
      if rowID != 0 {
        buf := buf + ([RECORD_PREFIX] + EncodeInt(rowID));
      }
      assert data[..0] + [TABLE_PREFIX] == [TABLE_PREFIX];
      assert [TABLE_PREFIX] + EncodeInt(tableID) + [] == [TABLE_PREFIX] + EncodeInt(tableID);
      data := buf;
      key := EncodeBytes(buf);
      ok := true;
    }
  }

  lemma {:induction false} ReadTableID(x: Key, tail: Key, id: Int64)
    requires DecodeInt(x + tail) == id
    ensures ReadMetaOrTable([TABLE_PREFIX] + x + tail) == MetaOrTable(false, id)
  {
    assert ([TABLE_PREFIX] + x + tail)[1..] == x + tail;
  }

  /** The bytes of a key of a table: `t`, the table ID, `_i` or `_r`, the index or row ID, and perhaps more. */
  function KeyOf(t: Int64, kind: Byte, id: Int64, tail: Key): (raw: Key)
    ensures |raw| == 19 + |tail| && raw[0] == 't' as int && raw[1..9] == EncodeInt(t)
    ensures raw[9] == '_' as int && raw[10] == kind && raw[11..19] == EncodeInt(id)
  {
    var underscore: Byte := '_' as int;
    [TABLE_PREFIX] + EncodeInt(t) + [underscore, kind] + EncodeInt(id) + tail
  }

  lemma {:induction false} DecodeFrom(b: Key, v: Int64)
    requires |b| >= 8 && b[..8] == EncodeInt(v)
    ensures DecodeInt(b) == v
  {
    DecodeEncodeInt(v, b[8..]);
    assert b == b[..8] + b[8..];
  }

  /** Only an index has an index ID, and a row ID is read where nothing follows it. */
  lemma {:induction false} ReadKey(t: Int64, kind: Byte, id: Int64, tail: Key)
    ensures var raw := KeyOf(t, kind, id, tail);
            && ReadMetaOrTable(raw) == MetaOrTable(false, t)
            && ReadIndexInfo(raw) == (if kind == 'i' as int then id else 0)
            && ReadRowInfo(raw) == (if kind != 'r' as int then RowInfo(false, 0)
                                    else if tail == [] then RowInfo(false, id) else RowInfo(true, 0))
  {
    var raw := KeyOf(t, kind, id, tail);
    assert raw[1..][..8] == raw[1..9] && raw[11..19][..8] == raw[11..19];
    DecodeFrom(raw[1..], t);
    DecodeFrom(raw[11..19], id);
  }

  /** A key that starts with neither `m` nor `t`, or is too short for a table ID, belongs to nothing. */
  lemma {:induction false} ReadOther(raw: Key)
    requires raw == [] || (raw[0] != 'm' as int && raw[0] != 't' as int) || (raw[0] == 't' as int && |raw| < 9)
    ensures ReadMetaOrTable(raw) == MetaOrTable(false, 0)
    ensures ReadIndexInfo(raw) == 0 && ReadRowInfo(raw) == RowInfo(false, 0)
  {
  }

  /** Without `_` after the table ID, a key is neither that of a row nor that of an index. */
  lemma {:induction false} NoRowNoIndex(x: Key, tail: Key)
    requires |x| == 8 && (tail == [] || tail[0] == RECORD_PREFIX)
    ensures var raw := [TABLE_PREFIX] + x + tail;
            ReadRowInfo(raw) == RowInfo(false, 0) && ReadIndexInfo(raw) == 0
  {
    assert tail != [] ==> ([TABLE_PREFIX] + x + tail)[9] == RECORD_PREFIX;
  }

  /** What can be read from the bytes a key is generated from. */
  lemma {:induction false} RawKeyInfo(tableID: Int64, rowID: Int64)
    ensures var raw := RawKey(tableID, rowID);
            && ReadMetaOrTable(raw) == MetaOrTable(false, tableID)
            && ReadRowInfo(raw) == RowInfo(false, 0) && ReadIndexInfo(raw) == 0
  {
    var tail: Key := if rowID == 0 then [] else [RECORD_PREFIX] + EncodeInt(rowID);
    DecodeEncodeInt(tableID, tail);
    ReadTableID(EncodeInt(tableID), tail, tableID);
    NoRowNoIndex(EncodeInt(tableID), tail);
  }

  /**
   A generated key decodes to its table ID. Its row ID is not recovered: the key carries `r` where
   reading a row looks for `_r`, so no generated key counts as a row key.
   */
  lemma {:induction false} GeneratedKeyInfo(tableID: Int64, rowID: Int64)
    ensures var info := KeyInfo(Encode(RawKey(tableID, rowID)));
            && info == RawKey(tableID, rowID)
            && ReadMetaOrTable(info) == MetaOrTable(false, tableID)
            && ReadRowInfo(info) == RowInfo(false, 0) && ReadIndexInfo(info) == 0
  {
    var raw := RawKey(tableID, rowID);
    DecodeEncode(raw, []);
    assert Encode(raw) + [] == Encode(raw);
    assert KeyInfo(Encode(raw)) == raw;
    RawKeyInfo(tableID, rowID);
  }

  /** A row ID survives the round trip exactly when it is zero. */
  lemma {:induction false} RowRoundTripFails(tableID: Int64, rowID: Int64)
    ensures ReadRowInfo(KeyInfo(Encode(RawKey(tableID, rowID)))) == RowInfo(false, rowID) <==> rowID == 0
  {
    GeneratedKeyInfo(tableID, rowID);
  }

  /** No row sorts before any row; rows sort by their signed IDs. */
  predicate RowBefore(r: Int64, s: Int64) {
    if r == 0 then s != 0 else s != 0 && r < s
  }

  /** Generated keys sort by signed table ID, then the table itself, then its rows by signed ID. */
  lemma {:induction false} GeneratedKeyOrder(t: Int64, r: Int64, u: Int64, s: Int64)
    ensures Less(Encode(RawKey(t, r)), Encode(RawKey(u, s))) <==> t < u || (t == u && RowBefore(r, s))
  {
    EncodeOrder(RawKey(t, r), RawKey(u, s));
    var x, y := [TABLE_PREFIX] + EncodeInt(t), [TABLE_PREFIX] + EncodeInt(u);
    var v: Key := if r == 0 then [] else [RECORD_PREFIX] + EncodeInt(r);
    var w: Key := if s == 0 then [] else [RECORD_PREFIX] + EncodeInt(s);
    assert RawKey(t, r) == x + v && RawKey(u, s) == y + w;
    LessAppend(x, y, v, w);
    LessAppend([TABLE_PREFIX], [TABLE_PREFIX], EncodeInt(t), EncodeInt(u));
    LessIrreflexive([TABLE_PREFIX]);
    EncodeIntOrder(t, u);
    assert x[1..] == EncodeInt(t) && y[1..] == EncodeInt(u);
    RowPartOrder(r, s, v, w);
  }

  lemma {:induction false} RowPartOrder(r: Int64, s: Int64, v: Key, w: Key)
    requires v == if r == 0 then [] else [RECORD_PREFIX] + EncodeInt(r)
    requires w == if s == 0 then [] else [RECORD_PREFIX] + EncodeInt(s)
    ensures Less(v, w) <==> RowBefore(r, s)
  {
    if r != 0 && s != 0 {
      LessAppend([RECORD_PREFIX], [RECORD_PREFIX], EncodeInt(r), EncodeInt(s));
      LessIrreflexive([RECORD_PREFIX]);
      EncodeIntOrder(r, s);
    }
  }
}
