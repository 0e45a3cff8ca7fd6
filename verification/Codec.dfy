/** The low-byte-first wire format, independent of any C expression that computes it. */
module Codec {
  import opened Bits

  const SPACE: byte := 0x20

  function Pow256(w: nat): (p: nat)
    ensures p > 0
  {
    if w == 0 then 1 else 0x100 * Pow256(w - 1)
  }

  // The number a byte string denotes, low byte first.
  function FromLE(b: seq<byte>): nat {
    if b == [] then 0 else b[0] + 0x100 * FromLE(b[1..])
  }

  // The two's-complement number a byte string denotes, low byte first.
  function SignedFromLE(b: seq<byte>): int
    requires b != []
  {
    if b[|b| - 1] >= 0x80 then FromLE(b) - Pow256(|b|) else FromLE(b)
  }

  function ToLE(n: nat, w: nat): (b: seq<byte>)
    ensures |b| == w
  {
    if w == 0 then [] else [U8(n)] + ToLE(n / 0x100, w - 1)
  }

  function Reverse(b: seq<byte>): (r: seq<byte>)
    ensures |r| == |b|
  {
    seq(|b|, i requires 0 <= i < |b| => b[|b| - 1 - i])
  }

  lemma ReverseTwice(b: seq<byte>)
    ensures Reverse(Reverse(b)) == b
  {
  }

  // The buffer with `bytes` written over it at `off`.
  function Put(buf: seq<byte>, off: nat, bytes: seq<byte>): (r: seq<byte>)
    requires off + |bytes| <= |buf|
    ensures |r| == |buf|
  {
    buf[..off] + bytes + buf[off + |bytes|..]
  }

  lemma {:induction false} FromLEBound(b: seq<byte>)
    ensures FromLE(b) < Pow256(|b|)
  {
    if b != [] { FromLEBound(b[1..]); }
  }

  lemma {:induction false} ToLEFromLE(b: seq<byte>)
    ensures ToLE(FromLE(b), |b|) == b
  {
    if b != [] {
      var rest := FromLE(b[1..]);
      ToLEFromLE(b[1..]);
      assert FromLE(b) == b[0] + 0x100 * rest;
      assert U8(FromLE(b)) == b[0] && FromLE(b) / 0x100 == rest;
      assert ToLE(FromLE(b), |b|) == [b[0]] + ToLE(rest, |b| - 1);
    }
  }

  lemma {:induction false} FromLEToLE(n: nat, w: nat)
    ensures FromLE(ToLE(n, w)) == n % Pow256(w)
  {
    if w > 0 {
      FromLEToLE(n / 0x100, w - 1);
      assert ToLE(n, w)[1..] == ToLE(n / 0x100, w - 1);
      ModStep(n, Pow256(w - 1));
    }
  }

  lemma ModStep(n: nat, m: nat)
    requires m > 0
    ensures n % (0x100 * m) == n % 0x100 + 0x100 * ((n / 0x100) % m)
  {
    var q, r := (n / 0x100) / m, (n / 0x100) % m;
    assert n / 0x100 == q * m + r;
    assert n == q * (0x100 * m) + (n % 0x100 + 0x100 * r) by {
      assert 0x100 * (q * m) == q * (0x100 * m);
    }
    DivModUnique(n, 0x100 * m, q, n % 0x100 + 0x100 * r);
  }

  /** Equal-length byte strings that denote the same number are the same string. */
  lemma {:induction false} FromLEInjective(a: seq<byte>, b: seq<byte>)
    requires |a| == |b| && FromLE(a) == FromLE(b)
    ensures a == b
  {
    ToLEFromLE(a);
    ToLEFromLE(b);
  }

  lemma {:induction false} FromLEConcat(a: seq<byte>, b: seq<byte>)
    ensures FromLE(a + b) == FromLE(a) + Pow256(|a|) * FromLE(b)
  {
    if a == [] {
      assert a + b == b;
    } else {
      assert (a + b)[1..] == a[1..] + b;
      FromLEConcat(a[1..], b);
      ScaleProduct(0x100, Pow256(|a| - 1), FromLE(b));
    }
  }

  // An encoding of more than four bytes splits after the fourth.
  lemma ToLEHalves(n: nat, k: nat)
    ensures ToLE(n, 4 + k) == ToLE(n, 4) + ToLE(n / 0x1_0000_0000, k)
  {
    var n1, n2, n3, n4 := n / 0x100, n / 0x1_0000, n / 0x100_0000, n / 0x1_0000_0000;
    assert n1 / 0x100 == n2 && n2 / 0x100 == n3 && n3 / 0x100 == n4;
    ToLESmall(n);
    assert ToLE(n3, 1 + k) == [U8(n3)] + ToLE(n4, k);
    assert ToLE(n2, 2 + k) == [U8(n2)] + ToLE(n3, 1 + k);
    assert ToLE(n1, 3 + k) == [U8(n1)] + ToLE(n2, 2 + k);
    assert ToLE(n, 4 + k) == [U8(n)] + ToLE(n1, 3 + k);
  }

  // The first bytes written out as a positional sum, for widths up to four.
  lemma {:induction false} FromLESmall(b: seq<byte>)
    requires 1 <= |b| <= 4
    ensures |b| == 1 ==> FromLE(b) == b[0]
    ensures |b| == 2 ==> FromLE(b) == U32(b[0]) + U32(b[1]) * 0x100
    ensures |b| == 3 ==> FromLE(b) == U32(b[0]) + U32(b[1]) * 0x100 + U32(b[2]) * 0x1_0000
    ensures |b| == 4 ==>
              FromLE(b) == U32(b[0]) + U32(b[1]) * 0x100 + U32(b[2]) * 0x1_0000 + U32(b[3]) * 0x100_0000
  {
    assert FromLE(b) == b[0] + 0x100 * FromLE(b[1..]);
    if |b| > 1 {
      assert b[1..][0] == b[1] && b[1..][1..] == b[2..];
      assert FromLE(b[1..]) == b[1] + 0x100 * FromLE(b[2..]);
    }
    if |b| > 2 {
      assert b[2..][0] == b[2] && b[2..][1..] == b[3..];
      assert FromLE(b[2..]) == b[2] + 0x100 * FromLE(b[3..]);
    }
    if |b| > 3 {
      assert b[3..] == [b[3]];
      assert FromLE([b[3]]) == b[3];
    }
  }

  // Five to eight bytes split after the fourth.
  lemma FromLEHalves(b: seq<byte>)
    requires 4 < |b| <= 8
    ensures FromLE(b) == FromLE(b[..4]) + 0x1_0000_0000 * FromLE(b[4..])
    ensures FromLE(b[..4]) < 0x1_0000_0000
  {
    assert b == b[..4] + b[4..];
    FromLEConcat(b[..4], b[4..]);
    assert Pow256(4) == 0x1_0000_0000;
    FromLEBound(b[..4]);
  }

  lemma {:induction false} ToLESmall(n: nat)
    ensures ToLE(n, 2) == [U8(n), U8(n / 0x100)]
    ensures ToLE(n, 3) == [U8(n), U8(n / 0x100), U8(n / 0x1_0000)]
    ensures ToLE(n, 4) == [U8(n), U8(n / 0x100), U8(n / 0x1_0000), U8(n / 0x100_0000)]
  {
    var n1, n2, n3 := n / 0x100, n / 0x1_0000, n / 0x100_0000;
    assert n1 / 0x100 == n2 && n2 / 0x100 == n3;
    assert ToLE(n3, 1) == [U8(n3)];
    assert ToLE(n2, 1) == [U8(n2)];
    assert ToLE(n1, 1) == [U8(n1)];
    assert ToLE(n2, 2) == [U8(n2), U8(n3)];
    assert ToLE(n1, 2) == [U8(n1), U8(n2)];
    assert ToLE(n1, 3) == [U8(n1)] + ToLE(n2, 2);
    assert ToLE(n, 2) == [U8(n)] + ToLE(n1, 1);
    assert ToLE(n, 3) == [U8(n)] + ToLE(n1, 2);
    assert ToLE(n, 4) == [U8(n)] + ToLE(n1, 3);
  }

  lemma ToLESix(n: nat)
    ensures ToLE(n, 5) == ToLE(n, 4) + [U8(n / 0x1_0000_0000)]
    ensures ToLE(n, 6) == ToLE(n, 4) + [U8(n / 0x1_0000_0000), U8(n / 0x100_0000_0000)]
  {
    var n4, n5 := n / 0x1_0000_0000, n / 0x100_0000_0000;
    assert n4 / 0x100 == n5;
    ToLEHalves(n, 1);
    ToLEHalves(n, 2);
    assert ToLE(n5, 1) == [U8(n5)];
    assert ToLE(n4, 1) == [U8(n4)];
    assert ToLE(n4, 2) == [U8(n4)] + ToLE(n5, 1);
  }

  /** Eight bytes are the two words' four bytes each. */
  lemma ToLEWords(n: uint64)
    ensures ToLE(n, 8) == ToLE(U32(n), 4) + ToLE(U32(n / 0x1_0000_0000), 4)
  {
    ToLEHalves(n, 4);
    assert Pow256(4) == 0x1_0000_0000;
    ToLEMod(n, 4);
    WrapIsMod(n, 0x1_0000_0000);
  }

  lemma {:induction false} ToLEPrefix(n: nat, j: nat, w: nat)
    requires j <= w
    ensures ToLE(n, w)[..j] == ToLE(n, j)
  {
    if j > 0 {
      ToLEPrefix(n / 0x100, j - 1, w - 1);
      assert ToLE(n, w) == [U8(n)] + ToLE(n / 0x100, w - 1);
    }
  }

  // Conversion to a signed machine word is the two's-complement reading of the bytes.
  lemma SignedWord(b: seq<byte>)
    requires b != []
    ensures |b| == 2 ==> SignedFromLE(b) == S16(FromLE(b))
    ensures |b| == 4 ==> SignedFromLE(b) == S32(FromLE(b))
    ensures |b| == 8 ==> SignedFromLE(b) == S64(FromLE(b))
  {
    assert Pow256(2) == 0x1_0000 && Pow256(4) == 0x1_0000_0000 && Pow256(8) == 0x1_0000_0000_0000_0000;
    if |b| == 2 || |b| == 4 {
      FromLESmall(b);
    } else if |b| == 8 {
      FromLEHalves(b);
      FromLESmall(b[4..]);
    }
  }

  /** Only the bits that fit the width are encoded. */
  lemma {:induction false} ToLEMod(n: nat, w: nat)
    ensures ToLE(n % Pow256(w), w) == ToLE(n, w)
  {
    FromLEToLE(n, w);
    ToLEFromLE(ToLE(n, w));
  }
}
