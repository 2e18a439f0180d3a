/**
 The memcomparable encoding of byte strings: groups of eight bytes, each followed by a marker that
 tells how many of them are padding (the MyRocks record format, section "Memcomparable format").
 */
module Codec {
  import opened Keys

  const GROUP_SIZE: nat := 8
  const MARKER: Byte := 0xFF
  const PAD: Byte := 0x0

  function Zeros(n: nat): (z: seq<Byte>)
    ensures |z| == n && forall i :: 0 <= i < n ==> z[i] == PAD
  {
    if n == 0 then [] else [PAD] + Zeros(n - 1)
  }

  /** A group of at most eight bytes, padded, and its marker. */
  function Block(x: Key): (b: Key)
    requires |x| <= GROUP_SIZE
    ensures |b| == GROUP_SIZE + 1
  {
    x + Zeros(GROUP_SIZE - |x|) + [MARKER - (GROUP_SIZE - |x|)]
  }

  function Encode(data: Key): Key
    decreases |data|
  {
    if |data| < GROUP_SIZE then Block(data) else Block(data[..GROUP_SIZE]) + Encode(data[GROUP_SIZE..])
  }

  datatype Decoded =
    | Decoded(rest: Key, value: Key)
    | InsufficientBytes
    | InvalidMarker
    | InvalidPadding

  function Decode(b: Key): Decoded
    decreases |b|
  {
    if |b| < GROUP_SIZE + 1 then InsufficientBytes
    else if MARKER - b[GROUP_SIZE] > GROUP_SIZE then InvalidMarker
    else
      var padCount := MARKER - b[GROUP_SIZE];
      var size := GROUP_SIZE - padCount;
      if padCount != 0 then
        if b[size..GROUP_SIZE] == Zeros(padCount) then Decoded(b[GROUP_SIZE + 1..], b[..size]) else InvalidPadding
      else
        match Decode(b[GROUP_SIZE + 1..])
        case Decoded(rest, value) => Decoded(rest, b[..GROUP_SIZE] + value)
        case InsufficientBytes => InsufficientBytes
        case InvalidMarker => InvalidMarker
        case InvalidPadding => InvalidPadding
  }

  lemma {:induction false} EncodeFrom(data: Key, idx: nat)
    requires idx <= |data|
    ensures Encode(data[idx..]) ==
            if |data| - idx < GROUP_SIZE then Block(data[idx..])
            else Block(data[idx..idx + GROUP_SIZE]) + Encode(data[idx + GROUP_SIZE..])
  {
    if |data| - idx >= GROUP_SIZE {
      assert data[idx..][..GROUP_SIZE] == data[idx..idx + GROUP_SIZE];
      assert data[idx..][GROUP_SIZE..] == data[idx + GROUP_SIZE..];
    }
  }

  /** The encoded groups from idx on; none once the last group is out. */
  function EncodedFrom(data: Key, idx: nat): Key {
    if idx <= |data| then Encode(data[idx..]) else []
  }

  /** One more group is put out. */
  lemma {:induction false} NextGroup(data: Key, idx: nat, out: Key)
    requires idx <= |data|
    ensures var group := if |data| - idx >= GROUP_SIZE then data[idx..idx + GROUP_SIZE] else data[idx..];
            out + EncodedFrom(data, idx) == out + Block(group) + EncodedFrom(data, idx + GROUP_SIZE)
  {
    EncodeFrom(data, idx);
  }

  /** A group with its padding and its marker. */
  method EncodeGroup(group: Key) returns (block: Key)
    requires |group| <= GROUP_SIZE
    ensures block == Block(group)
  {
    if |group| == GROUP_SIZE {
      assert group + Zeros(0) == group;
      return group + [MARKER];
    }
    var padCount := GROUP_SIZE - |group|;
    block := group + Zeros(padCount) + [MARKER - padCount];
  }

  /** `encodeBytes`. */
  method EncodeBytes(data: Key) returns (result: Key)
    ensures result == Encode(data)
  {
    result := [];
    var idx := 0;
    assert data[0..] == data && [] + Encode(data) == Encode(data);
    while idx <= |data|
      invariant result + EncodedFrom(data, idx) == Encode(data)
      decreases |data| + GROUP_SIZE - idx
    {
      NextGroup(data, idx, result);
      var block := EncodeGroup(if |data| - idx >= GROUP_SIZE then data[idx..idx + GROUP_SIZE] else data[idx..]);
      result := result + block;
      idx := idx + GROUP_SIZE;
    }
    assert result + [] == result;
  }

  /** Decoding `b` with `value` already put out. */
  function Prefixed(value: Key, d: Decoded): Decoded {
    if d.Decoded? then Decoded(d.rest, value + d.value) else d
  }

  /** The padding check: every byte of the group from `from` on is the pad byte. */
  method CheckPadding(group: Key, from: nat) returns (ok: bool)
    requires from <= |group| == GROUP_SIZE
    ensures ok <==> group[from..] == Zeros(GROUP_SIZE - from)
  {
    ok := true;
    for i := from to |group|
      invariant ok <==> forall j :: from <= j < i ==> group[j] == PAD
    {
      if group[i] != PAD { ok := false; }
    }
    ghost var pads := group[from..];
    assert forall j :: from <= j < |group| ==> pads[j - from] == group[j];
    if ok { assert pads == Zeros(GROUP_SIZE - from); }
  }

  /** One full group, and the rest. */
  lemma {:induction false} DecodeGroup(value: Key, b: Key)
    requires |b| > GROUP_SIZE && b[GROUP_SIZE] == MARKER
    ensures Prefixed(value, Decode(b)) == Prefixed(value + b[..GROUP_SIZE], Decode(b[GROUP_SIZE + 1..]))
  {
    var d := Decode(b[GROUP_SIZE + 1..]);
    if d.Decoded? {
      assert value + (b[..GROUP_SIZE] + d.value) == value + b[..GROUP_SIZE] + d.value;
    }
  }

  /** `decodeBytes`; what the reused buffer held does not matter. */
  method DecodeBytes(input: Key, reused: Key) returns (result: Decoded)
    ensures result == Decode(input)
  {
    var b, buf: Key := input, reused[..0];
    assert Decode(b).Decoded? ==> [] + Decode(b).value == Decode(b).value;
    while true
      invariant Prefixed(buf, Decode(b)) == Decode(input)
      decreases |b|
    {
      if |b| < GROUP_SIZE + 1 {
        return InsufficientBytes;
      }
      var group, marker := b[..GROUP_SIZE], b[GROUP_SIZE];
      var padCount := MARKER - marker;
      if padCount > GROUP_SIZE {
        return InvalidMarker;
      }
      var realGroupSize := GROUP_SIZE - padCount;
      if padCount != 0 {
        var ok := CheckPadding(group, realGroupSize);
        assert group[realGroupSize..] == b[realGroupSize..GROUP_SIZE] && group[..realGroupSize] == b[..realGroupSize];
        return if ok then Decoded(b[GROUP_SIZE + 1..], buf + group[..realGroupSize]) else InvalidPadding;
      }
      DecodeGroup(buf, b);
      assert group[..realGroupSize] == b[..GROUP_SIZE];
      buf := buf + group[..realGroupSize];
      b := b[GROUP_SIZE + 1..];
    }
  }

  // ---------- the format ----------

  lemma {:induction false} EncodedLength(data: Key)
    ensures |Encode(data)| == 9 * (|data| / 8 + 1)
    decreases |data|
  {
    if |data| >= 8 {
      EncodedLength(data[8..]);
      assert (|data| - 8) / 8 == |data| / 8 - 1;
    }
  }

  function FirstGroup(a: Key): Key {
    if |a| < GROUP_SIZE then a else a[..GROUP_SIZE]
  }

  /**
   Byte o of group g: eight bytes of data, padded with zeros, then 255 less the number of bytes padded.
   */
  lemma {:induction false} EncodedAt(data: Key, g: nat, o: nat)
    requires 8 * g <= |data| && o < 9
    ensures 9 * g + o < |Encode(data)|
    ensures Encode(data)[9 * g + o] ==
            if o < 8 then if 8 * g + o < |data| then data[8 * g + o] else 0
            else if 8 * g + 8 <= |data| then 255 else 247 + (|data| - 8 * g)
    decreases g
  {
    var x := FirstGroup(data);
    assert |x| == if |data| < 8 then |data| else 8;
    if g == 0 {
      assert Block(x)[8] == MARKER - (GROUP_SIZE - |x|);
      assert o < 8 ==> Block(x)[o] == if o < |x| then x[o] else PAD;
    } else {
      EncodedAt(data[8..], g - 1, o);
      assert Encode(data) == Block(x) + Encode(data[8..]);
    }
  }

  /** Group j of the bytes, with its marker. */
  function GroupAt(b: Key, j: nat): (group: Key)
    requires 9 * j + 9 <= |b|
    ensures |group| == 9
  {
    b[9 * j..9 * j + 9]
  }

  /** Group j is complete and has no padding. */
  predicate FullGroup(b: Key, j: nat) {
    9 * j + 9 <= |b| && GroupAt(b, j)[8] == 255
  }

  /**
   Where decoding stops, and why: at the first group g that is not full. There are too few bytes for it, its
   marker is not one, or a byte of its padding is not zero; otherwise the bytes decode.
   */
  lemma {:induction false} DecodeStops(b: Key) returns (g: nat)
    ensures (forall j: nat :: j < g ==> FullGroup(b, j)) && !FullGroup(b, g)
    ensures Decode(b).InsufficientBytes? <==> |b| < 9 * g + 9
    ensures Decode(b).InvalidMarker? <==> |b| >= 9 * g + 9 && GroupAt(b, g)[8] < 247
    ensures Decode(b).InvalidPadding? <==>
            |b| >= 9 * g + 9 && GroupAt(b, g)[8] >= 247 && BadPadding(GroupAt(b, g))
    decreases |b|
  {
    if FullGroup(b, 0) {
      var h := DecodeStops(b[9..]);
      g := h + 1;
      forall j: nat | j < g ensures FullGroup(b, j) {
        if j > 0 { NextGroupAt(b, j - 1); }
      }
      NextGroupAt(b, h);
    } else {
      g := 0;
      if |b| >= 9 && b[8] >= 247 { PaddingStops(b); }
    }
  }

  lemma {:induction false} NextGroupAt(b: Key, j: nat)
    requires |b| >= 9
    ensures FullGroup(b, j + 1) <==> FullGroup(b[9..], j)
    ensures 9 * j + 9 <= |b[9..]| ==> GroupAt(b, j + 1) == GroupAt(b[9..], j)
  {
  }

  /** A byte that the marker says is padding is not zero. */
  predicate BadPadding(group: Key)
    requires |group| == 9 && group[8] >= 247
  {
    exists o :: group[8] - 247 <= o < 8 && group[o] != 0
  }

  /** The first group is not full, and its marker is one: what decides is its padding. */
  lemma {:induction false} PaddingStops(b: Key)
    requires |b| >= 9 && 247 <= b[8] < 255
    ensures if BadPadding(GroupAt(b, 0)) then Decode(b).InvalidPadding? else Decode(b).Decoded?
  {
    var size, group := b[8] - 247, GroupAt(b, 0);
    var pads := b[size..8];
    assert forall o :: size <= o < 8 ==> pads[o - size] == group[o];
    if pads != Zeros(8 - size) {
      var k :| 0 <= k < 8 - size && pads[k] != 0;
      assert group[size + k] != 0;
    }
  }

  // ---------- round trips ----------

  lemma {:induction false} DecodeBlock(x: Key, rest: Key)
    requires |x| <= GROUP_SIZE
    ensures Decode(Block(x) + rest) ==
            if |x| < GROUP_SIZE then Decoded(rest, x) else Prefixed(x, Decode(rest))
  {
    var b := Block(x) + rest;
    assert b[GROUP_SIZE] == MARKER - (GROUP_SIZE - |x|);
    assert b[GROUP_SIZE + 1..] == rest && b[..|x|] == x;
    assert b[|x|..GROUP_SIZE] == Zeros(GROUP_SIZE - |x|);
  }

  /** Decoding gives back what was encoded, with any bytes after it. */
  lemma {:induction false} DecodeEncode(data: Key, rest: Key)
    ensures Decode(Encode(data) + rest) == Decoded(rest, data)
    decreases |data|
  {
    if |data| < GROUP_SIZE {
      DecodeBlock(data, rest);
    } else {
      var x, tail := data[..GROUP_SIZE], data[GROUP_SIZE..];
      DecodeEncode(tail, rest);
      DecodeBlock(x, Encode(tail) + rest);
      assert Block(x) + Encode(tail) + rest == Block(x) + (Encode(tail) + rest);
      assert x + tail == data;
    }
  }

  /** The encoding is canonical: whatever decodes is exactly the encoding of its value, and the rest. */
  lemma {:induction false} EncodeDecode(b: Key)
    requires Decode(b).Decoded?
    ensures b == Encode(Decode(b).value) + Decode(b).rest
    decreases |b|
  {
    var padCount := MARKER - b[GROUP_SIZE];
    var size := GROUP_SIZE - padCount;
    var x, rest := b[..size], b[GROUP_SIZE + 1..];
    if padCount != 0 {
      assert b == x + b[size..GROUP_SIZE] + [b[GROUP_SIZE]] + rest;
    } else {
      EncodeDecode(rest);
      var d := Decode(rest);
      assert Decode(b).value[..GROUP_SIZE] == x && Decode(b).value[GROUP_SIZE..] == d.value;
      assert Zeros(0) == [];
      assert b == x + [b[GROUP_SIZE]] + rest;
      assert Block(x) == x + [MARKER];
      assert Block(x) + (Encode(d.value) + d.rest) == Block(x) + Encode(d.value) + d.rest;
    }
  }

  /** No encoding is a prefix of another. */
  lemma {:induction false} EncodePrefixFree(a: Key, b: Key)
    requires Encode(a) <= Encode(b)
    ensures a == b
  {
    var rest := Encode(b)[|Encode(a)|..];
    assert Encode(b) == Encode(a) + rest;
    DecodeEncode(a, rest);
    DecodeEncode(b, []);
    assert Encode(b) + [] == Encode(b);
  }

  // ---------- order ----------

  /** Order of concatenations with first parts of one length. */
  lemma {:induction false} LessAppend(x: Key, y: Key, u: Key, w: Key)
    requires |x| == |y|
    ensures Less(x + u, y + w) <==> Less(x, y) || (x == y && Less(u, w))
    decreases |x|
  {
    if x == [] {
      assert x + u == u && y + w == w;
    } else {
      assert (x + u)[1..] == x[1..] + u && (y + w)[1..] == y[1..] + w;
      LessAppend(x[1..], y[1..], u, w);
      assert x == [x[0]] + x[1..] && y == [y[0]] + y[1..];
    }
  }

  /** Neither string continues the other, so what follows them does not matter. */
  lemma {:induction false} LessDecided(x: Key, y: Key, u: Key, w: Key)
    requires !(x <= y) && !(y <= x)
    ensures Less(x + u, y + w) <==> Less(x, y)
    decreases |x|
  {
    assert (x + u)[1..] == x[1..] + u && (y + w)[1..] == y[1..] + w;
    if x[0] == y[0] {
      assert x == [x[0]] + x[1..] && y == [y[0]] + y[1..];
      assert !(x[1..] <= y[1..]) && !(y[1..] <= x[1..]);
      LessDecided(x[1..], y[1..], u, w);
    }
  }

  lemma {:induction false} PrefixLess(x: Key, w: Key)
    requires w != []
    ensures Less(x, x + w)
    decreases |x|
  {
    if x == [] {
      assert x + w == w;
    } else {
      assert (x + w)[1..] == x[1..] + w;
      PrefixLess(x[1..], w);
    }
  }

  /** A string padded to n bytes, and a marker. */
  function Padded(x: Key, n: nat, p: Byte): Key
    requires |x| <= n
  {
    x + Zeros(n - |x|) + [p]
  }

  function Rest(x: Key): Key {
    if x == [] then [] else x[1..]
  }

  lemma {:induction false} PaddedTail(x: Key, n: nat, p: Byte)
    requires |x| <= n && n > 0
    ensures Padded(x, n, p) == [if x == [] then PAD else x[0]] + Padded(Rest(x), n - 1, p)
  {
    var a := Padded(x, n, p);
    assert a[1..] == Padded(Rest(x), n - 1, p);
    assert a == [a[0]] + a[1..];
  }

  /** All padding sorts before anything padded with a later marker. */
  lemma {:induction false} ShorterFirst(y: Key, n: nat, p: Byte, q: Byte)
    requires |y| <= n && p < q
    ensures Less(Padded([], n, p), Padded(y, n, q))
    decreases n
  {
    if n == 0 {
      assert Padded([], 0, p) == [p] && Padded(y, 0, q) == [q];
    } else {
      PaddedTail([], n, p);
      PaddedTail(y, n, q);
      ShorterFirst(Rest(y), n - 1, p, q);
      LessAppend([PAD], [if y == [] then PAD else y[0]], Padded([], n - 1, p), Padded(Rest(y), n - 1, q));
    }
  }

  /** Padding keeps the order, and the markers break its ties the right way. */
  lemma {:induction false} PaddedOrder(x: Key, y: Key, n: nat, p: Byte, q: Byte)
    requires |x| <= n && |y| <= n && q - p == |y| - |x|
    ensures Less(Padded(x, n, p), Padded(y, n, q)) <==> Less(x, y)
    ensures x != y ==> Padded(x, n, p) != Padded(y, n, q)
    decreases n
  {
    var a, b := Padded(x, n, p), Padded(y, n, q);
    if x == [] && y == [] {
      LessIrreflexive(a);
    } else if x == [] {
      ShorterFirst(y, n, p, q);
      LessAsymmetric(a, b);
    } else if y == [] {
      ShorterFirst(x, n, q, p);
      LessAsymmetric(b, a);
    } else {
      PaddedTail(x, n, p);
      PaddedTail(y, n, q);
      PaddedOrder(x[1..], y[1..], n - 1, p, q);
      LessAppend([x[0]], [y[0]], Padded(x[1..], n - 1, p), Padded(y[1..], n - 1, q));
      assert x == [x[0]] + x[1..] && y == [y[0]] + y[1..];
      LessAppend([x[0]], [y[0]], x[1..], y[1..]);
      assert a[0] == x[0] && b[0] == y[0] && a[1..] == Padded(x[1..], n - 1, p) && b[1..] == Padded(y[1..], n - 1, q);
    }
  }

  lemma {:induction false} BlockOrder(x: Key, y: Key)
    requires |x| <= GROUP_SIZE && |y| <= GROUP_SIZE
    ensures Less(Block(x), Block(y)) <==> Less(x, y)
    ensures x != y ==> Block(x) != Block(y)
  {
    PaddedOrder(x, y, GROUP_SIZE, MARKER - (GROUP_SIZE - |x|), MARKER - (GROUP_SIZE - |y|));
  }

  /** Strings whose first groups differ compare as their first groups do. */
  lemma {:induction false} GroupsDecide(a: Key, b: Key)
    requires FirstGroup(a) != FirstGroup(b)
    ensures Less(a, b) <==> Less(FirstGroup(a), FirstGroup(b))
  {
    var x, y := FirstGroup(a), FirstGroup(b);
    var u, w := a[|x|..], b[|y|..];
    assert a == x + u && b == y + w;
    if x <= y {
      assert a == x && y == x + y[|x|..] && b == x + (y[|x|..] + w);
      PrefixLess(x, y[|x|..]);
      PrefixLess(x, y[|x|..] + w);
    } else if y <= x {
      assert b == y && x == y + x[|y|..] && a == y + (x[|y|..] + u);
      PrefixLess(y, x[|y|..]);
      PrefixLess(y, x[|y|..] + u);
      LessAsymmetric(y, x);
      LessAsymmetric(b, a);
    } else {
      LessDecided(x, y, u, w);
    }
  }

  /** The encoding is a strict order embedding. */
  lemma {:induction false} EncodeOrder(a: Key, b: Key)
    ensures Less(Encode(a), Encode(b)) <==> Less(a, b)
    decreases |a|
  {
    var x, y := FirstGroup(a), FirstGroup(b);
    var u := if |a| < GROUP_SIZE then [] else Encode(a[GROUP_SIZE..]);
    var w := if |b| < GROUP_SIZE then [] else Encode(b[GROUP_SIZE..]);
    assert Encode(a) == Block(x) + u && Encode(b) == Block(y) + w;
    LessAppend(Block(x), Block(y), u, w);
    BlockOrder(x, y);
    if x != y {
      GroupsDecide(a, b);
    } else if |a| < GROUP_SIZE {
      LessIrreflexive(a);
      LessIrreflexive(Encode(a));
    } else {
      EncodeOrder(a[GROUP_SIZE..], b[GROUP_SIZE..]);
      assert a == x + a[GROUP_SIZE..] && b == y + b[GROUP_SIZE..];
      LessAppend(x, y, a[GROUP_SIZE..], b[GROUP_SIZE..]);
      LessIrreflexive(x);
    }
  }
}
