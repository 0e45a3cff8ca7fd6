/** The machine-independent loads and stores of my_byteorder.h and byte_order_generic.h, each C conversion,
    shift and width written out, together with the direct-access forms of byte_order_generic_x86.h. */
module ByteOrder {
  import opened Bits
  import opened Codec

  // ---------- generic loads ----------

  function Uint2korr(a: seq<byte>): (r: uint16)
    requires |a| >= 2
    ensures r == FromLE(a[..2])
  {
    FromLESmall(a[..2]);
    U16(U16(a[0]) + U16(a[1]) * 0x100)
  }

  function Sint2korr(a: seq<byte>): (r: int16)
    requires |a| >= 2
    ensures r == SignedFromLE(a[..2])
  {
    FromLESmall(a[..2]);
    SignedWord(a[..2]);
    S16(S16(a[0]) + S16(a[1]) * 0x100)
  }

  function Uint3korr(a: seq<byte>): (r: uint32)
    requires |a| >= 3
    ensures r == FromLE(a[..3])
  {
    FromLESmall(a[..3]);
    U32(U32(a[0]) + U32(U32(a[1]) * 0x100) + U32(U32(a[2]) * 0x1_0000))
  }

  function Sint3korr(a: seq<byte>): (r: int32)
    requires |a| >= 3
    ensures r == SignedFromLE(a[..3])
  {
    Sint3korrValue(a[0], a[1], a[2]);
    FromLESmall(a[..3]);
    var low := BitOr(BitOr(U32(U32(a[2]) * 0x1_0000), U32(U32(a[1]) * 0x100)), U32(a[0]));
    S32(if BitAnd(a[2], 128) != 0
        then BitOr(BitOr(BitOr(U32(U32(255) * 0x100_0000), U32(U32(a[2]) * 0x1_0000)), U32(U32(a[1]) * 0x100)), U32(a[0]))
        else low)
  }

  // The bytes or-ed together by the sign extension occupy disjoint bit fields.
  lemma Sint3korrValue(a0: byte, a1: byte, a2: byte)
    ensures BitAnd(a2, 128) != 0 <==> a2 >= 128
    ensures BitOr(BitOr(U32(U32(a2) * 0x1_0000), U32(U32(a1) * 0x100)), U32(a0))
            == U32(a0) + U32(a1) * 0x100 + U32(a2) * 0x1_0000
    ensures BitOr(BitOr(BitOr(U32(U32(255) * 0x100_0000), U32(U32(a2) * 0x1_0000)), U32(U32(a1) * 0x100)), U32(a0))
            == U32(a0) + U32(a1) * 0x100 + U32(a2) * 0x1_0000 + 0xFF00_0000
  {
    TestTopBit(a2);
    OrBytes(a0, a1, a2, 0);
    OrBytes(a0, a1, a2, 255);
    OrZero(a2 * 0x1_0000);
  }

  lemma OrBytes(b0: nat, b1: nat, b2: nat, b3: nat)
    requires b0 < 0x100 && b1 < 0x100 && b2 < 0x100
    ensures BitOr(BitOr(b2 * 0x1_0000, b1 * 0x100), b0) == b0 + b1 * 0x100 + b2 * 0x1_0000
    ensures BitOr(BitOr(BitOr(b3 * 0x100_0000, b2 * 0x1_0000), b1 * 0x100), b0)
            == b0 + b1 * 0x100 + b2 * 0x1_0000 + b3 * 0x100_0000
  {
    assert Pow2(24) == 0x100_0000 && Pow2(16) == 0x1_0000 && Pow2(8) == 0x100;
    OrShifted(b2, b1 * 0x100, 0x1_0000, 16);
    OrShifted(b2 * 0x100 + b1, b0, 0x100, 8);
    OrShifted(b3, b2 * 0x1_0000, 0x100_0000, 24);
    OrShifted(b3 * 0x100 + b2, b1 * 0x100, 0x1_0000, 16);
    OrShifted(b3 * 0x1_0000 + b2 * 0x100 + b1, b0, 0x100, 8);
  }

  lemma {:induction false} TestTopBit(b: byte)
    ensures BitAnd(b, 128) == if b >= 128 then 128 else 0
  {
    var b1, b2, b3, b4, b5, b6, b7 := b / 2, b / 4, b / 8, b / 16, b / 32, b / 64, b / 128;
    assert b1 / 2 == b2 && b2 / 2 == b3 && b3 / 2 == b4 && b4 / 2 == b5 && b5 / 2 == b6 && b6 / 2 == b7;
    assert b7 == if b >= 128 then 1 else 0;
    assert BitAnd(b7 / 2, 0) == 0;
    assert BitAnd(b7, 1) == b7;
    assert BitAnd(b6, 2) == 2 * b7;
    assert BitAnd(b5, 4) == 4 * b7;
    assert BitAnd(b4, 8) == 8 * b7;
    assert BitAnd(b3, 16) == 16 * b7;
    assert BitAnd(b2, 32) == 32 * b7;
    assert BitAnd(b1, 64) == 64 * b7;
  }

  function Uint4korr(a: seq<byte>): (r: uint32)
    requires |a| >= 4
    ensures r == FromLE(a[..4])
  {
    FromLESmall(a[..4]);
    U32(U32(a[0]) + U32(U32(a[1]) * 0x100) + U32(U32(a[2]) * 0x1_0000) + U32(U32(a[3]) * 0x100_0000))
  }

  function Sint4korr(a: seq<byte>): (r: int32)
    requires |a| >= 4
    ensures r == SignedFromLE(a[..4])
  {
    FromLESmall(a[..4]);
    SignedWord(a[..4]);
    S32(S32(S32(S32(a[0]) + S32(S32(a[1]) * 0x100)) + S32(S32(a[2]) * 0x1_0000)) + S32(S32(a[3]) * 0x100_0000))
  }

  function Uint5korr(a: seq<byte>): (r: uint64)
    requires |a| >= 5
    ensures r == FromLE(a[..5])
  {
    SplitPrefix(a, 5);
    FromLESmall(a[..4]);
    FromLESmall(a[4..5]);
    var low := U32(U32(a[0]) + U32(U32(a[1]) * 0x100) + U32(U32(a[2]) * 0x1_0000) + U32(U32(a[3]) * 0x100_0000));
    U64(U64(low) + U64(U64(a[4]) * 0x1_0000_0000))
  }

  function Uint6korr(a: seq<byte>): (r: uint64)
    requires |a| >= 6
    ensures r == FromLE(a[..6])
  {
    SplitPrefix(a, 6);
    FromLESmall(a[..4]);
    FromLESmall(a[4..6]);
    var low := U32(U32(a[0]) + U32(U32(a[1]) * 0x100) + U32(U32(a[2]) * 0x1_0000) + U32(U32(a[3]) * 0x100_0000));
    U64(U64(low) + U64(U64(a[4]) * 0x1_0000_0000) + U64(U64(a[5]) * 0x100_0000_0000))
  }

  function Uint8korr(a: seq<byte>): (r: uint64)
    requires |a| >= 8
    ensures r == FromLE(a[..8])
  {
    SplitPrefix(a, 8);
    FromLESmall(a[..4]);
    FromLESmall(a[4..8]);
    var low := U32(U32(a[0]) + U32(U32(a[1]) * 0x100) + U32(U32(a[2]) * 0x1_0000) + U32(U32(a[3]) * 0x100_0000));
    var high := U32(U32(a[4]) + U32(U32(a[5]) * 0x100) + U32(U32(a[6]) * 0x1_0000) + U32(U32(a[7]) * 0x100_0000));
    U64(U64(low) + U64(U64(high) * 0x1_0000_0000))
  }

  function Sint8korr(a: seq<byte>): (r: int64)
    requires |a| >= 8
    ensures r == SignedFromLE(a[..8])
  {
    SignedWord(a[..8]);
    S64(Uint8korr(a))
  }

  lemma SplitPrefix(a: seq<byte>, n: nat)
    requires 4 < n <= 8 && n <= |a|
    ensures FromLE(a[..n]) == FromLE(a[..4]) + 0x1_0000_0000 * FromLE(a[4..n])
    ensures FromLE(a[..4]) < 0x1_0000_0000
  {
    FromLEHalves(a[..n]);
    assert a[..n][..4] == a[..4] && a[..n][4..] == a[4..n];
  }

  // ---------- direct access, as the x86 forms use it ----------

  datatype Host = LittleEndian | BigEndian

  // The integer an object holds on a host, and the bytes an object of that value occupies.
  function ObjectValue(h: Host, b: seq<byte>): nat {
    FromLE(if h.LittleEndian? then b else Reverse(b))
  }

  function ObjectBytes(h: Host, n: nat, w: nat): (b: seq<byte>)
    ensures |b| == w
  {
    if h.LittleEndian? then ToLE(n, w) else Reverse(ToLE(n, w))
  }

  // Reading back an object of w bytes gives its value on either host, and no other bytes give it.
  lemma ObjectRoundTrip(h: Host, n: nat, w: nat, b: seq<byte>)
    requires |b| == w && n < Pow256(w)
    ensures ObjectValue(h, b) == n <==> b == ObjectBytes(h, n, w)
  {
    FromLEToLE(n, w);
    SmallMod(n, Pow256(w));
    ReverseTwice(ToLE(n, w));
    ReverseTwice(b);
    ToLEFromLE(b);
    ToLEFromLE(Reverse(b));
  }

  function DirectLoad(a: seq<byte>, w: nat): nat
    requires |a| >= w
  {
    ObjectValue(LittleEndian, a[..w])
  }

  /** On the little-endian host the x86 header is for, every generic load equals the direct one, signed ones
      being the two's-complement conversion of the same word. */
  lemma TwoByteLoadsAgreeWithDirect(a: seq<byte>)
    requires |a| >= 2
    ensures Uint2korr(a) == DirectLoad(a, 2) && Sint2korr(a) == S16(DirectLoad(a, 2))
  {
  }

  lemma FourByteLoadsAgreeWithDirect(a: seq<byte>)
    requires |a| >= 4
    ensures Uint4korr(a) == DirectLoad(a, 4) && Sint4korr(a) == S32(DirectLoad(a, 4))
  {
  }

  lemma EightByteLoadsAgreeWithDirect(a: seq<byte>)
    requires |a| >= 8
    ensures Uint8korr(a) == DirectLoad(a, 8) && Sint8korr(a) == S64(DirectLoad(a, 8))
  {
  }

  // ---------- stores ----------

  method Int2Store(t: array<byte>, off: nat, a: uint16)
    requires off + 2 <= t.Length
    modifies t
    ensures t[..] == Put(old(t[..]), off, ToLE(a, 2))
  {
    var temp: uint32 := a;
    t[off] := U8(temp);
    t[off + 1] := U8(temp / 0x100);
    ToLESmall(a);
  }

  // The parameter is a 32-bit integer of which only the low three bytes are stored.
  method Int3Store(t: array<byte>, off: nat, a: uint32)
    requires off + 3 <= t.Length
    modifies t
    ensures t[..] == Put(old(t[..]), off, ToLE(a, 3))
  {
    t[off] := U8(a);
    t[off + 1] := U8(a / 0x100);
    t[off + 2] := U8(a / 0x1_0000);
    ToLESmall(a);
  }

  method Int4Store(t: array<byte>, off: nat, a: uint32)
    requires off + 4 <= t.Length
    modifies t
    ensures t[..] == Put(old(t[..]), off, ToLE(a, 4))
  {
    t[off] := U8(a);
    t[off + 1] := U8(a / 0x100);
    t[off + 2] := U8(a / 0x1_0000);
    t[off + 3] := U8(a / 0x100_0000);
    ToLESmall(a);
  }

  method Int5Store(t: array<byte>, off: nat, a: uint64)
    requires off + 5 <= t.Length
    modifies t
    ensures t[..] == Put(old(t[..]), off, ToLE(a, 5))
  {
    t[off] := U8(a);
    t[off + 1] := U8(a / 0x100);
    t[off + 2] := U8(a / 0x1_0000);
    t[off + 3] := U8(a / 0x100_0000);
    t[off + 4] := U8(a / 0x1_0000_0000);
    ToLESmall(a);
    ToLESix(a);
  }

  method Int6Store(t: array<byte>, off: nat, a: uint64)
    requires off + 6 <= t.Length
    modifies t
    ensures t[..] == Put(old(t[..]), off, ToLE(a, 6))
  {
    t[off] := U8(a);
    t[off + 1] := U8(a / 0x100);
    t[off + 2] := U8(a / 0x1_0000);
    t[off + 3] := U8(a / 0x100_0000);
    t[off + 4] := U8(a / 0x1_0000_0000);
    t[off + 5] := U8(a / 0x100_0000_0000);
    ToLESmall(a);
    ToLESix(a);
  }

  method Int8Store(t: array<byte>, off: nat, a: uint64)
    requires off + 8 <= t.Length
    modifies t
    ensures t[..] == Put(old(t[..]), off, ToLE(a, 8))
  {
    var low, high := U32(a), U32(a / 0x1_0000_0000);
    Int4Store(t, off, low);
    Int4Store(t, off + 4, high);
    ToLEWords(a);
  }

  /** A direct store writes the object representation; on a little-endian host it does what the generic
      stores do. */
  method DirectStore(t: array<byte>, off: nat, a: uint64, w: nat)
    requires off + w <= t.Length
    modifies t
    ensures t[..] == Put(old(t[..]), off, ToLE(a, w))
  {
    var rep := ObjectBytes(LittleEndian, a, w);
    forall i | 0 <= i < w {
      t[off + i] := rep[i];
    }
  }

  // ---------- records of several fields ----------

  type Width = w: nat | w == 2 || w == 3 || w == 4 || w == 5 || w == 6 || w == 8 witness 2

  // A value placed at an offset of a buffer with one of the stores.
  datatype Field = Field(off: nat, width: Width, value: uint64) {
    function End(): nat { off + width }
    predicate DisjointFrom(g: Field) { End() <= g.off || g.End() <= off }
  }

  /** The store for a width, its argument converted to the store's parameter type. */
  method StoreField(t: array<byte>, f: Field)
    requires f.End() <= t.Length
    modifies t
    ensures t[..] == Put(old(t[..]), f.off, ToLE(f.value, f.width))
  {
    assert Pow256(2) == 0x1_0000 && Pow256(4) == 0x1_0000_0000;
    WrapIsMod(f.value, 0x1_0000);
    WrapIsMod(f.value, 0x1_0000_0000);
    match f.width
    case 2 => ToLEMod(f.value, 2); Int2Store(t, f.off, U16(f.value));
    case 3 => ToLE3OfWord(f.value); Int3Store(t, f.off, U32(f.value));
    case 4 => ToLEMod(f.value, 4); Int4Store(t, f.off, U32(f.value));
    case 5 => Int5Store(t, f.off, f.value);
    case 6 => Int6Store(t, f.off, f.value);
    case 8 => Int8Store(t, f.off, f.value);
  }

  lemma ToLE3OfWord(n: nat)
    ensures ToLE(U32(n), 3) == ToLE(n, 3)
  {
    WrapIsMod(n, 0x1_0000_0000);
    assert Pow256(4) == 0x1_0000_0000;
    ToLEMod(n, 4);
    ToLEPrefix(n, 3, 4);
    ToLEPrefix(U32(n), 3, 4);
  }

  // The unsigned load for a width.
  function LoadField(buf: seq<byte>, off: nat, w: Width): (r: nat)
    requires off + w <= |buf|
    ensures r == FromLE(buf[off..off + w])
  {
    var a := buf[off..];
    assert a[..w] == buf[off..off + w];
    match w
    case 2 => Uint2korr(a)
    case 3 => Uint3korr(a)
    case 4 => Uint4korr(a)
    case 5 => Uint5korr(a)
    case 6 => Uint6korr(a)
    case 8 => Uint8korr(a)
  }

  predicate Fits(fs: seq<Field>, n: nat) {
    forall i :: 0 <= i < |fs| ==> fs[i].End() <= n
  }

  predicate Disjoint(fs: seq<Field>) {
    forall i, j :: 0 <= i < j < |fs| ==> fs[i].DisjointFrom(fs[j])
  }

  // The buffer after storing the fields in the order given.
  function StoreAll(buf: seq<byte>, fs: seq<Field>): (r: seq<byte>)
    requires Fits(fs, |buf|)
    ensures |r| == |buf|
    decreases |fs|
  {
    if fs == [] then buf
    else
      var last := fs[|fs| - 1];
      Put(StoreAll(buf, fs[..|fs| - 1]), last.off, ToLE(last.value, last.width))
  }

  /** Fields stored one after another, in place. */
  method StoreFields(t: array<byte>, fs: seq<Field>)
    requires Fits(fs, t.Length)
    modifies t
    ensures t[..] == StoreAll(old(t[..]), fs)
  {
    for i := 0 to |fs|
      invariant Fits(fs[..i], t.Length)
      invariant t[..] == StoreAll(old(t[..]), fs[..i])
    {
      StoreField(t, fs[i]);
      assert fs[..i + 1][..i] == fs[..i];
    }
    assert fs[..|fs|] == fs;
  }

  // A field decodes from a buffer to its value, cut to its width.
  predicate ReadsBack(buf: seq<byte>, f: Field)
    requires f.End() <= |buf|
  {
    FromLE(buf[f.off..f.End()]) == f.value % Pow256(f.width)
  }

  predicate Outside(fs: seq<Field>, k: nat) {
    forall i :: 0 <= i < |fs| ==> !(fs[i].off <= k < fs[i].End())
  }

  lemma StoredReadsBack(buf: seq<byte>, f: Field)
    requires f.End() <= |buf|
    ensures ReadsBack(Put(buf, f.off, ToLE(f.value, f.width)), f)
  {
    var bytes := ToLE(f.value, f.width);
    assert Put(buf, f.off, bytes)[f.off..f.End()] == bytes;
    FromLEToLE(f.value, f.width);
  }

  lemma PutKeepsRange(buf: seq<byte>, off: nat, bytes: seq<byte>, lo: nat, hi: nat)
    requires off + |bytes| <= |buf| && lo <= hi <= |buf| && (hi <= off || off + |bytes| <= lo)
    ensures Put(buf, off, bytes)[lo..hi] == buf[lo..hi]
  {
    SameBytes(Put(buf, off, bytes), buf, lo, hi);
  }

  lemma StoreKeepsDisjoint(buf: seq<byte>, f: Field, g: Field)
    requires f.End() <= |buf| && g.End() <= |buf| && g.DisjointFrom(f) && ReadsBack(buf, g)
    ensures ReadsBack(Put(buf, f.off, ToLE(f.value, f.width)), g)
  {
    PutKeepsRange(buf, f.off, ToLE(f.value, f.width), g.off, g.End());
  }

  lemma {:induction false} StoreAllDecodes(buf: seq<byte>, fs: seq<Field>)
    requires Fits(fs, |buf|) && Disjoint(fs)
    ensures forall i :: 0 <= i < |fs| ==> ReadsBack(StoreAll(buf, fs), fs[i])
    decreases |fs|
  {
    if fs != [] {
      var n := |fs| - 1;
      var init := fs[..n];
      StoreAllDecodes(buf, init);
      StoredReadsBack(StoreAll(buf, init), fs[n]);
      forall i | 0 <= i < n
        ensures ReadsBack(StoreAll(buf, fs), fs[i])
      {
        assert init[i] == fs[i];
        StoreKeepsDisjoint(StoreAll(buf, init), fs[n], fs[i]);
      }
    }
  }

  lemma {:induction false} StoreAllKeepsOutside(buf: seq<byte>, fs: seq<Field>, k: nat)
    requires Fits(fs, |buf|) && k < |buf| && Outside(fs, k)
    ensures StoreAll(buf, fs)[k] == buf[k]
    decreases |fs|
  {
    if fs != [] {
      var n := |fs| - 1;
      StoreAllKeepsOutside(buf, fs[..n], k);
      assert !(fs[n].off <= k < fs[n].End());
    }
  }

  /** Fields stored in any order at pairwise disjoint places all read back, each modulo its width, and no
      byte outside the fields changes. */
  lemma {:induction false} StoreAllReadsBack(buf: seq<byte>, fs: seq<Field>)
    requires Fits(fs, |buf|) && Disjoint(fs)
    ensures forall i :: 0 <= i < |fs| ==>
              LoadField(StoreAll(buf, fs), fs[i].off, fs[i].width) == fs[i].value % Pow256(fs[i].width)
    ensures forall k :: 0 <= k < |buf| && Outside(fs, k) ==> StoreAll(buf, fs)[k] == buf[k]
  {
    StoreAllDecodes(buf, fs);
    forall i | 0 <= i < |fs|
      ensures LoadField(StoreAll(buf, fs), fs[i].off, fs[i].width) == fs[i].value % Pow256(fs[i].width)
    {
      assert ReadsBack(StoreAll(buf, fs), fs[i]);
    }
    forall k | 0 <= k < |buf| && Outside(fs, k)
      ensures StoreAll(buf, fs)[k] == buf[k]
    {
      StoreAllKeepsOutside(buf, fs, k);
    }
  }

  // Fields written one after another from an offset.
  function Consecutive(off: nat, items: seq<(Width, uint64)>): (fs: seq<Field>)
    ensures |fs| == |items|
    ensures forall i :: 0 <= i < |fs| ==> off <= fs[i].off && fs[i].End() <= off + TotalWidth(items)
    decreases |items|
  {
    if items == [] then []
    else [Field(off, items[0].0, items[0].1)] + Consecutive(off + items[0].0, items[1..])
  }

  function TotalWidth(items: seq<(Width, uint64)>): nat {
    if items == [] then 0 else items[0].0 + TotalWidth(items[1..])
  }

  lemma {:induction false} ConsecutiveIsDisjoint(off: nat, items: seq<(Width, uint64)>)
    ensures Disjoint(Consecutive(off, items))
    decreases |items|
  {
    if items != [] {
      var rest := Consecutive(off + items[0].0, items[1..]);
      ConsecutiveIsDisjoint(off + items[0].0, items[1..]);
      assert forall j :: 0 < j < |items| ==> Consecutive(off, items)[j] == rest[j - 1];
    }
  }

  lemma {:induction false} ConsecutiveItems(off: nat, items: seq<(Width, uint64)>)
    ensures forall i :: 0 <= i < |items| ==>
              Consecutive(off, items)[i].width == items[i].0 && Consecutive(off, items)[i].value == items[i].1
    decreases |items|
  {
    if items != [] {
      ConsecutiveItems(off + items[0].0, items[1..]);
      assert forall i :: 0 < i < |items| ==>
          items[i] == items[1..][i - 1]
          && Consecutive(off, items)[i] == Consecutive(off + items[0].0, items[1..])[i - 1];
    }
  }

  // Each field loads its item's value, cut to the item's width.
  predicate LoadItems(buf: seq<byte>, fs: seq<Field>, items: seq<(Width, uint64)>)
    requires Fits(fs, |buf|)
  {
    && |fs| == |items|
    && forall i :: 0 <= i < |items| ==>
         fs[i].width == items[i].0 && LoadField(buf, fs[i].off, fs[i].width) == items[i].1 % Pow256(items[i].0)
  }

  lemma {:induction false} RecordDecodes(buf: seq<byte>, off: nat, items: seq<(Width, uint64)>)
    requires off + TotalWidth(items) <= |buf|
    ensures var fs := Consecutive(off, items); LoadItems(StoreAll(buf, fs), fs, items)
  {
    ConsecutiveIsDisjoint(off, items);
    ConsecutiveItems(off, items);
    StoreAllReadsBack(buf, Consecutive(off, items));
  }

  // All fields lie in a range.
  predicate Within(fs: seq<Field>, lo: nat, hi: nat) {
    forall i :: 0 <= i < |fs| ==> lo <= fs[i].off && fs[i].End() <= hi
  }

  predicate SameAround(a: seq<byte>, b: seq<byte>, lo: nat, hi: nat)
    requires |a| == |b| && lo <= hi <= |a|
  {
    a[..lo] == b[..lo] && a[hi..] == b[hi..]
  }

  lemma {:induction false} KeepsSurroundings(buf: seq<byte>, fs: seq<Field>, lo: nat, hi: nat)
    requires lo <= hi <= |buf| && Within(fs, lo, hi)
    ensures Fits(fs, |buf|)
    ensures SameAround(StoreAll(buf, fs), buf, lo, hi)
  {
    forall k | 0 <= k < lo || hi <= k < |buf|
      ensures StoreAll(buf, fs)[k] == buf[k]
    {
      StoreAllKeepsOutside(buf, fs, k);
    }
    SameBytes(StoreAll(buf, fs), buf, 0, lo);
    SameBytes(StoreAll(buf, fs), buf, hi, |buf|);
  }

  lemma {:induction false} ConsecutiveIsWithin(off: nat, items: seq<(Width, uint64)>)
    ensures Within(Consecutive(off, items), off, off + TotalWidth(items))
  {
  }

  /** A record written field after field reads back field by field, and what precedes and follows it is
      untouched. */
  lemma {:induction false} RecordRoundTrip(buf: seq<byte>, off: nat, items: seq<(Width, uint64)>)
    requires off + TotalWidth(items) <= |buf|
    ensures var fs := Consecutive(off, items);
            && LoadItems(StoreAll(buf, fs), fs, items)
            && SameAround(StoreAll(buf, fs), buf, off, off + TotalWidth(items))
  {
    RecordDecodes(buf, off, items);
    ConsecutiveIsWithin(off, items);
    KeepsSurroundings(buf, Consecutive(off, items), off, off + TotalWidth(items));
  }

  lemma SameBytes(a: seq<byte>, b: seq<byte>, lo: nat, hi: nat)
    requires |a| == |b| && lo <= hi <= |a| && forall k :: lo <= k < hi ==> a[k] == b[k]
    ensures a[lo..hi] == b[lo..hi]
  {
  }

  // The low three bytes of a value in range denote it, read with a sign.
  lemma SignedThreeBytes(v: int)
    requires -0x80_0000 <= v < 0x80_0000
    ensures SignedFromLE(ToLE(U32(v), 3)) == v
  {
    assert Pow256(3) == 0x100_0000;
    FromLEToLE(U32(v), 3);
    SignedReading(ToLE(U32(v), 3), v);
  }

  lemma SignedReading(t: seq<byte>, v: int)
    requires |t| == 3 && -0x80_0000 <= v < 0x80_0000
    requires FromLE(t) == if v >= 0 then v else v + 0x100_0000
    ensures SignedFromLE(t) == v
  {
    assert Pow256(3) == 0x100_0000;
    FromLESmall(t);
  }

  /** Three-byte sign extension: the value is in range, congruent to the unsigned reading, and storing the
      low three bytes of any value in range and loading them gives it back. */
  lemma Sint3Exact(a: seq<byte>, v: int)
    requires |a| >= 3 && -0x80_0000 <= v < 0x80_0000
    ensures -0x80_0000 <= Sint3korr(a) < 0x80_0000
    ensures (Sint3korr(a) - Uint3korr(a)) % 0x100_0000 == 0
    ensures Sint3korr(ToLE(U32(v), 3)) == v
  {
    assert Pow256(3) == 0x100_0000;
    FromLESmall(a[..3]);
    SignedThreeBytes(v);
    assert ToLE(U32(v), 3)[..3] == ToLE(U32(v), 3);
  }
}
