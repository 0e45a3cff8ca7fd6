/** What the host-order accessors of big_endian.h and little_endian.h leave in memory. A float or a double is
    its bit pattern; the layout of a double is that of an integer of the host, except on the bi-endian
    hardware of little_endian.h, where the two words of a double are exchanged. */
module HostOrder {
  import opened Bits
  import opened Codec
  import opened ByteOrder

  datatype Machine = Plain(host: Host) | SwappedDoubleWords

  function SwapWords(b: seq<byte>): (r: seq<byte>)
    requires |b| == 8
    ensures |r| == 8
  {
    b[4..] + b[..4]
  }

  // The memory image of a double, and the double a memory image holds.
  function DoubleObject(m: Machine, n: uint64): (b: seq<byte>)
    ensures |b| == 8
  {
    match m
    case Plain(h) => ObjectBytes(h, n, 8)
    case SwappedDoubleWords => SwapWords(ToLE(n, 8))
  }

  function DoubleValue(m: Machine, b: seq<byte>): nat
    requires |b| == 8
  {
    match m
    case Plain(h) => ObjectValue(h, b)
    case SwappedDoubleWords => FromLE(SwapWords(b))
  }

  // The bytes each header's float8store writes and the double its float8get reads.
  function Float8Bytes(m: Machine, n: uint64): (b: seq<byte>)
    ensures |b| == 8
  {
    if m == Plain(BigEndian) then Reverse(DoubleObject(m, n)) else DoubleObject(m, n)
  }

  function Float8Read(m: Machine, b: seq<byte>): nat
    requires |b| == 8
  {
    DoubleValue(m, if m == Plain(BigEndian) then Reverse(b) else b)
  }

  // The bytes each header's doublestore writes.
  function DoubleBytes(m: Machine, n: uint64): (b: seq<byte>)
    ensures |b| == 8
  {
    if m.Plain? then DoubleObject(m, n) else SwapWords(DoubleObject(m, n))
  }

  // The double each header's doubleget reads.
  function DoubleRead(m: Machine, b: seq<byte>): nat
    requires |b| == 8
  {
    DoubleValue(m, if m.Plain? then b else SwapWords(b))
  }

  // The bytes each header's float4store writes and the float its float4get reads.
  function Float4Bytes(h: Host, n: uint32): (b: seq<byte>)
    ensures |b| == 4
  {
    if h.BigEndian? then Reverse(ObjectBytes(h, n, 4)) else ObjectBytes(h, n, 4)
  }

  function Float4Read(h: Host, b: seq<byte>): nat
    requires |b| == 4
  {
    ObjectValue(h, if h.BigEndian? then Reverse(b) else b)
  }

  predicate EqualWords(n: uint64) { U32(n) == n / 0x1_0000_0000 }

  lemma SwapPair(a: seq<byte>, b: seq<byte>)
    requires |a| == |b| == 4
    ensures SwapWords(a + b) == b + a
    ensures a + b == b + a <==> a == b
  {
    assert (a + b)[..4] == a && (a + b)[4..] == b && (b + a)[..4] == b;
  }

  lemma ToLEInjective(x: nat, y: nat, w: nat)
    requires x < Pow256(w) && y < Pow256(w) && ToLE(x, w) == ToLE(y, w)
    ensures x == y
  {
    FromLEToLE(x, w);
    FromLEToLE(y, w);
    SmallMod(x, Pow256(w));
    SmallMod(y, Pow256(w));
  }

  lemma SwapWordsFixed(n: uint64)
    ensures SwapWords(SwapWords(ToLE(n, 8))) == ToLE(n, 8)
    ensures SwapWords(ToLE(n, 8)) == ToLE(n, 8) <==> EqualWords(n)
  {
    var low, high := U32(n), n / 0x1_0000_0000;
    ToLEWords(n);
    var a, b := ToLE(low, 4), ToLE(high, 4);
    SwapPair(a, b);
    SwapPair(b, a);
    if a == b {
      assert Pow256(4) == 0x1_0000_0000;
      ToLEInjective(low, high, 4);
    }
  }

  // Exactly one eight-byte string denotes a given double.
  lemma ImageIsUnique(b: seq<byte>, n: uint64)
    requires |b| == 8
    ensures FromLE(b) == n <==> b == ToLE(n, 8)
  {
    assert Pow256(8) == 0x1_0000_0000_0000_0000;
    ObjectRoundTrip(LittleEndian, n, 8, b);
  }

  /** float8store leaves the low-byte-first image of the double exactly when the machine does not exchange
      the words of a double, or the two words are equal. doublestore does so on the exchanging machine for
      every double. */
  lemma Float8ImageIsPortable(m: Machine, n: uint64)
    ensures Float8Bytes(m, n) == ToLE(n, 8) <==> m.Plain? || EqualWords(n)
    ensures m.SwappedDoubleWords? ==> DoubleBytes(m, n) == ToLE(n, 8)
  {
    SwapWordsFixed(n);
    Float8Wire(m, n);
  }

  lemma Float8Wire(m: Machine, n: uint64)
    ensures Float8Bytes(m, n) == if m.Plain? then ToLE(n, 8) else SwapWords(ToLE(n, 8))
  {
    match m
    case Plain(LittleEndian) =>
    case Plain(BigEndian) => ReverseTwice(ToLE(n, 8));
    case SwappedDoubleWords =>
  }

  lemma Float8ReadsImage(m: Machine, b: seq<byte>)
    requires |b| == 8
    ensures Float8Read(m, b) == FromLE(if m.Plain? then b else SwapWords(b))
  {
    ReverseTwice(b);
  }

  /** A double stored on one machine with float8store and read on another with float8get survives exactly when
      both or neither of them exchange words, or its words are equal. */
  lemma Float8AcrossMachines(from: Machine, to: Machine, n: uint64)
    ensures Float8Read(to, Float8Bytes(from, n)) == n <==> from.Plain? == to.Plain? || EqualWords(n)
  {
    SwapWordsFixed(n);
    Float8Wire(from, n);
    var wire := Float8Bytes(from, n);
    Float8ReadsImage(to, wire);
    ImageIsUnique(if to.Plain? then wire else SwapWords(wire), n);
  }

  /** doublestore and doubleget are inverse on every machine, the word-exchanging one included; from one machine
      to another a double survives exactly when they are both big-endian or neither is, or its bytes read the
      same both ways. */
  lemma DoubleAcrossMachines(from: Machine, to: Machine, n: uint64)
    ensures from == to ==> DoubleRead(to, DoubleBytes(from, n)) == n
    ensures DoubleRead(to, DoubleBytes(from, n)) == n <==>
            (from == Plain(BigEndian)) == (to == Plain(BigEndian)) || Reverse(ToLE(n, 8)) == ToLE(n, 8)
  {
    DoubleWire(from, n);
    var wire := DoubleBytes(from, n);
    DoubleReadsImage(to, wire);
    ReverseTwice(ToLE(n, 8));
    ImageIsUnique(if to == Plain(BigEndian) then Reverse(wire) else wire, n);
  }

  lemma DoubleWire(m: Machine, n: uint64)
    ensures DoubleBytes(m, n) == if m == Plain(BigEndian) then Reverse(ToLE(n, 8)) else ToLE(n, 8)
  {
    if m == SwappedDoubleWords { SwapWordsTwice(ToLE(n, 8)); }
  }

  lemma DoubleReadsImage(m: Machine, b: seq<byte>)
    requires |b| == 8
    ensures DoubleRead(m, b) == FromLE(if m == Plain(BigEndian) then Reverse(b) else b)
  {
    SwapWordsTwice(b);
  }

  lemma SwapWordsTwice(b: seq<byte>)
    requires |b| == 8
    ensures SwapWords(SwapWords(b)) == b
  {
    assert b == b[..4] + b[4..];
    SwapPair(b[..4], b[4..]);
    SwapPair(b[4..], b[..4]);
  }

  /** A float stored on either host leaves the same low-byte-first image, and either host reads it back. */
  lemma Float4AcrossHosts(from: Host, to: Host, n: uint32)
    ensures Float4Bytes(from, n) == ToLE(n, 4)
    ensures Float4Read(to, Float4Bytes(from, n)) == n
  {
    assert Pow256(4) == 0x1_0000_0000;
    ReverseTwice(ToLE(n, 4));
    ObjectRoundTrip(LittleEndian, n, 4, ToLE(n, 4));
  }

  /** The double 1.0, stored with float8store on hardware that exchanges words and read on a little-endian host,
      comes back as another number. */
  lemma Float8NotPortableExample()
    ensures Float8Read(Plain(LittleEndian), Float8Bytes(SwappedDoubleWords, 0x3FF0_0000_0000_0000)) != 0x3FF0_0000_0000_0000
  {
    Float8AcrossMachines(SwappedDoubleWords, Plain(LittleEndian), 0x3FF0_0000_0000_0000);
    WrapIsMod(0x3FF0_0000_0000_0000, 0x1_0000_0000);
  }

  /** The short and long accessors are host-order: what one host stores another reads back exactly when they
      have the same byte order or the bytes read the same both ways. */
  lemma HostOrderAcrossHosts(from: Host, to: Host, n: nat, w: nat)
    requires n < Pow256(w)
    ensures ObjectValue(to, ObjectBytes(from, n, w)) == n <==> from == to || Reverse(ToLE(n, w)) == ToLE(n, w)
  {
    ObjectRoundTrip(to, n, w, ObjectBytes(from, n, w));
    ReverseTwice(ToLE(n, w));
  }

  method Memcpy(dst: array<byte>, off: nat, src: seq<byte>)
    requires off + |src| <= dst.Length
    modifies dst
    ensures dst[..] == Put(old(dst[..]), off, src)
  {
    forall i | 0 <= i < |src| {
      dst[off + i] := src[i];
    }
  }
}

/** big_endian.h. */
module BigEndianHost {
  import opened Bits
  import opened Codec
  import opened ByteOrder
  import opened HostOrder

  method Float4Store(t: array<byte>, off: nat, a: uint32)
    requires off + 4 <= t.Length
    modifies t
    ensures t[..] == Put(old(t[..]), off, Float4Bytes(BigEndian, a))
  {
    var rep := ObjectBytes(BigEndian, a, 4);
    t[off] := rep[3];
    t[off + 1] := rep[2];
    t[off + 2] := rep[1];
    t[off + 3] := rep[0];
  }

  method Float4Get(m: array<byte>, off: nat) returns (v: nat)
    requires off + 4 <= m.Length
    ensures v == Float4Read(BigEndian, m[off..off + 4])
  {
    var temp := new byte[4];
    temp[0] := m[off + 3];
    temp[1] := m[off + 2];
    temp[2] := m[off + 1];
    temp[3] := m[off];
    v := ObjectValue(BigEndian, temp[..]);
    assert temp[..] == Reverse(m[off..off + 4]);
  }

  method Float8Store(t: array<byte>, off: nat, v: uint64)
    requires off + 8 <= t.Length
    modifies t
    ensures t[..] == Put(old(t[..]), off, Float8Bytes(Plain(BigEndian), v))
  {
    StoreEightReversed(t, off, DoubleObject(Plain(BigEndian), v));
  }

  // float8store on the eight bytes of its argument.
  method StoreEightReversed(t: array<byte>, off: nat, rep: seq<byte>)
    requires off + 8 <= t.Length && |rep| == 8
    modifies t
    ensures t[..] == Put(old(t[..]), off, Reverse(rep))
  {
    ghost var before := t[..];
    t[off] := rep[7];
    t[off + 1] := rep[6];
    t[off + 2] := rep[5];
    t[off + 3] := rep[4];
    assert t[..] == Put(before, off, Reverse(rep[4..]));
    t[off + 4] := rep[3];
    t[off + 5] := rep[2];
    t[off + 6] := rep[1];
    t[off + 7] := rep[0];
  }

  method Float8Get(m: array<byte>, off: nat) returns (v: nat)
    requires off + 8 <= m.Length
    ensures v == Float8Read(Plain(BigEndian), m[off..off + 8])
  {
    var temp := new byte[8];
    temp[0] := m[off + 7];
    temp[1] := m[off + 6];
    temp[2] := m[off + 5];
    temp[3] := m[off + 4];
    temp[4] := m[off + 3];
    temp[5] := m[off + 2];
    temp[6] := m[off + 1];
    temp[7] := m[off];
    v := DoubleValue(Plain(BigEndian), temp[..]);
    assert temp[..] == Reverse(m[off..off + 8]);
  }

  method UShortGet(m: array<byte>, off: nat) returns (v: uint16)
    requires off + 2 <= m.Length
    ensures v == ObjectValue(BigEndian, m[off..off + 2])
  {
    v := U16(U16(m[off + 1]) + U16(m[off]) * 0x100);
    FromLESmall(Reverse(m[off..off + 2]));
  }

  method ShortGet(m: array<byte>, off: nat) returns (v: int16)
    requires off + 2 <= m.Length
    ensures v == S16(ObjectValue(BigEndian, m[off..off + 2]))
  {
    v := S16(S16(m[off + 1]) + S16(S16(m[off]) * 0x100));
    FromLESmall(Reverse(m[off..off + 2]));
  }

  method ULongGet(m: array<byte>, off: nat) returns (v: nat)
    requires off + 4 <= m.Length
    ensures v == ObjectValue(BigEndian, m[off..off + 4])
  {
    var temp := new byte[4];
    temp[0] := m[off];
    temp[1] := m[off + 1];
    temp[2] := m[off + 2];
    temp[3] := m[off + 3];
    v := ObjectValue(BigEndian, temp[..]);
    assert temp[..] == m[off..off + 4];
  }

  method LongGet(m: array<byte>, off: nat) returns (v: int32)
    requires off + 4 <= m.Length
    ensures v == S32(ObjectValue(BigEndian, m[off..off + 4]))
  {
    var word := ULongGet(m, off);
    v := S32(word);
  }

  method ShortStore(t: array<byte>, off: nat, a: int16)
    requires off + 2 <= t.Length
    modifies t
    ensures t[..] == Put(old(t[..]), off, ObjectBytes(BigEndian, U16(a), 2))
  {
    var temp := U32(a);
    t[off + 1] := U8(temp);
    t[off] := U8(temp / 0x100);
    LowHalf(a);
    ToLESmall(U16(a));
  }

  // The low two bytes of a converted short are those of its 16-bit word.
  lemma LowHalf(a: int16)
    ensures U8(U32(a)) == U8(U16(a)) && U8(U32(a) / 0x100) == U8(U16(a) / 0x100)
  {
    if a < 0 {
      assert U32(a) == U16(a) + 0xFFFF_0000;
      U8PlusMultiple(U16(a), 0xFF_FF00);
      U8PlusMultiple(U16(a) / 0x100, 0xFFFF);
    }
  }

  // The right shifts of a negative long are arithmetic: they round towards minus infinity.
  method LongStore(t: array<byte>, off: nat, a: int32)
    requires off + 4 <= t.Length
    modifies t
    ensures t[..] == Put(old(t[..]), off, ObjectBytes(BigEndian, U32(a), 4))
  {
    t[off + 3] := U8(a);
    t[off + 2] := U8(a / 0x100);
    t[off + 1] := U8(a / 0x1_0000);
    t[off] := U8(a / 0x100_0000);
    ShiftedByte(a, 1, 0x100_0000);
    ShiftedByte(a, 0x100, 0x1_0000);
    ShiftedByte(a, 0x1_0000, 0x100);
    ShiftedByte(a, 0x100_0000, 1);
    ToLESmall(U32(a));
  }

  // A byte of a negative number is that of its two's-complement word.
  lemma ShiftedByte(a: int32, d: nat, c: nat)
    requires d > 0 && (0x100 * c) * d == 0x1_0000_0000
    ensures U8(a / d) == U8(U32(a) / d)
  {
    DivPlusMultiple(a, 0x100 * c, d);
    U8PlusMultiple(a / d, c);
  }

  method DoubleStore(t: array<byte>, off: nat, v: uint64)
    requires off + 8 <= t.Length
    modifies t
    ensures t[..] == Put(old(t[..]), off, DoubleBytes(Plain(BigEndian), v))
  {
    Memcpy(t, off, DoubleObject(Plain(BigEndian), v));
  }

  method DoubleGet(m: array<byte>, off: nat) returns (v: nat)
    requires off + 8 <= m.Length
    ensures v == DoubleRead(Plain(BigEndian), m[off..off + 8])
  {
    var temp := new byte[8];
    Memcpy(temp, 0, m[off..off + 8]);
    assert temp[..] == m[off..off + 8];
    v := DoubleValue(Plain(BigEndian), temp[..]);
  }
}

/** little_endian.h; `swapped` selects the bi-endian hardware branch. */
module LittleEndianHost {
  import opened Bits
  import opened Codec
  import opened ByteOrder
  import opened HostOrder

  function Target(swapped: bool): Machine {
    if swapped then SwappedDoubleWords else Plain(LittleEndian)
  }

  method Float4Store(t: array<byte>, off: nat, a: uint32)
    requires off + 4 <= t.Length
    modifies t
    ensures t[..] == Put(old(t[..]), off, Float4Bytes(LittleEndian, a))
  {
    Memcpy(t, off, ObjectBytes(LittleEndian, a, 4));
  }

  method Float4Get(m: array<byte>, off: nat) returns (v: nat)
    requires off + 4 <= m.Length
    ensures v == Float4Read(LittleEndian, m[off..off + 4])
  {
    var temp := new byte[4];
    Memcpy(temp, 0, m[off..off + 4]);
    assert temp[..] == m[off..off + 4];
    v := ObjectValue(LittleEndian, temp[..]);
  }

  method Float8Store(t: array<byte>, off: nat, v: uint64, swapped: bool)
    requires off + 8 <= t.Length
    modifies t
    ensures t[..] == Put(old(t[..]), off, Float8Bytes(Target(swapped), v))
  {
    Memcpy(t, off, DoubleObject(Target(swapped), v));
  }

  method Float8Get(m: array<byte>, off: nat, swapped: bool) returns (v: nat)
    requires off + 8 <= m.Length
    ensures v == Float8Read(Target(swapped), m[off..off + 8])
  {
    var temp := new byte[8];
    Memcpy(temp, 0, m[off..off + 8]);
    assert temp[..] == m[off..off + 8];
    v := DoubleValue(Target(swapped), temp[..]);
  }

  method DoubleStore(t: array<byte>, off: nat, v: uint64, swapped: bool)
    requires off + 8 <= t.Length
    modifies t
    ensures t[..] == Put(old(t[..]), off, DoubleBytes(Target(swapped), v))
  {
    if swapped {
      StoreEightSwapped(t, off, DoubleObject(Target(swapped), v));
    } else {
      Memcpy(t, off, DoubleObject(Target(swapped), v));
    }
  }

  // The bi-endian doublestore on the eight bytes of its argument.
  method StoreEightSwapped(t: array<byte>, off: nat, rep: seq<byte>)
    requires off + 8 <= t.Length && |rep| == 8
    modifies t
    ensures t[..] == Put(old(t[..]), off, SwapWords(rep))
  {
    ghost var before := t[..];
    t[off] := rep[4];
    t[off + 1] := rep[5];
    t[off + 2] := rep[6];
    t[off + 3] := rep[7];
    assert t[..] == Put(before, off, rep[4..]);
    t[off + 4] := rep[0];
    t[off + 5] := rep[1];
    t[off + 6] := rep[2];
    t[off + 7] := rep[3];
  }

  method DoubleGet(m: array<byte>, off: nat, swapped: bool) returns (v: nat)
    requires off + 8 <= m.Length
    ensures v == DoubleRead(Target(swapped), m[off..off + 8])
  {
    var temp := new byte[8];
    if swapped {
      temp[0] := m[off + 4];
      temp[1] := m[off + 5];
      temp[2] := m[off + 6];
      temp[3] := m[off + 7];
      temp[4] := m[off];
      temp[5] := m[off + 1];
      temp[6] := m[off + 2];
      temp[7] := m[off + 3];
      assert temp[..] == SwapWords(m[off..off + 8]);
    } else {
      Memcpy(temp, 0, m[off..off + 8]);
      assert temp[..] == m[off..off + 8];
    }
    v := DoubleValue(Target(swapped), temp[..]);
  }

  method ShortStore(t: array<byte>, off: nat, v: int16)
    requires off + 2 <= t.Length
    modifies t
    ensures t[..] == Put(old(t[..]), off, ObjectBytes(LittleEndian, U16(v), 2))
  {
    Int2Store(t, off, U16(v));
  }

  method ShortGet(m: array<byte>, off: nat) returns (v: int16)
    requires off + 2 <= m.Length
    ensures v == S16(ObjectValue(LittleEndian, m[off..off + 2]))
  {
    v := Sint2korr(m[off..]);
    assert m[off..][..2] == m[off..off + 2];
    SignedWord(m[off..off + 2]);
  }

  method LongStore(t: array<byte>, off: nat, v: int32)
    requires off + 4 <= t.Length
    modifies t
    ensures t[..] == Put(old(t[..]), off, ObjectBytes(LittleEndian, U32(v), 4))
  {
    Int4Store(t, off, U32(v));
  }

  method LongGet(m: array<byte>, off: nat) returns (v: int32)
    requires off + 4 <= m.Length
    ensures v == S32(ObjectValue(LittleEndian, m[off..off + 4]))
  {
    v := Sint4korr(m[off..]);
    assert m[off..][..4] == m[off..off + 4];
    SignedWord(m[off..off + 4]);
  }

  /** A signed value stored and loaded in host order comes back, on either host. */
  lemma SignedHostRoundTrip(h: Host, short: int16, long: int32)
    ensures S16(ObjectValue(h, ObjectBytes(h, U16(short), 2))) == short
    ensures S32(ObjectValue(h, ObjectBytes(h, U32(long), 4))) == long
  {
    assert Pow256(2) == 0x1_0000 && Pow256(4) == 0x1_0000_0000;
    HostOrderAcrossHosts(h, h, U16(short), 2);
    HostOrderAcrossHosts(h, h, U32(long), 4);
  }
}
