/** Fixed-width unsigned arithmetic and the bitwise operators the headers use, over unbounded naturals.
    A value of an N-bit type is its residue modulo 2^N; `x << k` is `x * 2^k` and `x >> k` is `x / 2^k`. */
module Bits {

  type byte = x: int | 0 <= x < 0x100
  type uint16 = x: int | 0 <= x < 0x1_0000
  type uint32 = x: int | 0 <= x < 0x1_0000_0000
  type uint64 = x: int | 0 <= x < 0x1_0000_0000_0000_0000
  type int16 = x: int | -0x8000 <= x < 0x8000
  type int32 = x: int | -0x8000_0000 <= x < 0x8000_0000
  type int64 = x: int | -0x8000_0000_0000_0000 <= x < 0x8000_0000_0000_0000

  // Wrap-around into [0, m).
  function Wrap(x: int, m: int): (r: int)
    requires m > 0
    ensures 0 <= r < m
    ensures 0 <= x < m ==> r == x
    ensures m <= x < 2 * m ==> r == x - m
    ensures -m <= x < 0 ==> r == x + m
    decreases if x < 0 then m - x else x
  {
    if x < 0 then Wrap(x + m, m) else if x < m then x else Wrap(x - m, m)
  }

  // Conversions to an unsigned type, all reduction modulo 2^N. WrapIsMod below shows the two ways of writing it
  // equal: the codec divides by 256, so a byte is a remainder; the wider conversions nest inside one another,
  // and remainders of remainders are costly to reason about, so those wrap.
  function U8(x: int): (r: int)
    ensures 0 <= r < 0x100 && (0 <= x < 0x100 ==> r == x)
  {
    x % 0x100
  }

  function U16(x: int): (r: int)
    ensures 0 <= r < 0x1_0000 && (0 <= x < 0x1_0000 ==> r == x)
  {
    Wrap(x, 0x1_0000)
  }

  function U32(x: int): (r: int)
    ensures 0 <= r < 0x1_0000_0000 && (0 <= x < 0x1_0000_0000 ==> r == x)
  {
    Wrap(x, 0x1_0000_0000)
  }

  function U64(x: int): (r: int)
    ensures 0 <= r < 0x1_0000_0000_0000_0000 && (0 <= x < 0x1_0000_0000_0000_0000 ==> r == x)
  {
    Wrap(x, 0x1_0000_0000_0000_0000)
  }

  // Conversions to a signed type: the representative of the same residue around zero.
  function S16(x: int): (r: int)
    ensures -0x8000 <= r < 0x8000 && (-0x8000 <= x < 0x8000 ==> r == x)
    ensures 0x8000 <= x < 0x1_0000 ==> r == x - 0x1_0000
  {
    U16(x + 0x8000) - 0x8000
  }

  function S32(x: int): (r: int)
    ensures -0x8000_0000 <= r < 0x8000_0000 && (-0x8000_0000 <= x < 0x8000_0000 ==> r == x)
    ensures 0x8000_0000 <= x < 0x1_0000_0000 ==> r == x - 0x1_0000_0000
  {
    U32(x + 0x8000_0000) - 0x8000_0000
  }

  function S64(x: int): (r: int)
    ensures -0x8000_0000_0000_0000 <= r < 0x8000_0000_0000_0000 && (-0x8000_0000_0000_0000 <= x < 0x8000_0000_0000_0000 ==> r == x)
    ensures 0x8000_0000_0000_0000 <= x < 0x1_0000_0000_0000_0000 ==> r == x - 0x1_0000_0000_0000_0000
  {
    U64(x + 0x8000_0000_0000_0000) - 0x8000_0000_0000_0000
  }

  /** Wrapping is reduction modulo m. */
  lemma {:induction false} WrapIsMod(x: int, m: int)
    requires m > 0
    ensures Wrap(x, m) == x % m
    decreases if x < 0 then m - x else x
  {
    if x < 0 {
      WrapIsMod(x + m, m);
      ModShift(x, m);
    } else if x >= m {
      WrapIsMod(x - m, m);
      ModShift(x - m, m);
    } else {
      SmallMod(x, m);
    }
  }

  lemma ModShift(x: int, m: int)
    requires m > 0
    ensures (x + m) % m == x % m
  {
    var q, r := x / m, x % m;
    assert x == q * m + r;
    assert x + m == (q + 1) * m + r;
    DivModUnique(x + m, m, q + 1, r);
  }

  function Pow2(k: nat): (p: nat)
    ensures p > 0
  {
    if k == 0 then 1 else 2 * Pow2(k - 1)
  }

  function BitAnd(a: nat, b: nat): nat
    decreases a
  {
    if a == 0 then 0
    else (if a % 2 == 1 && b % 2 == 1 then 1 else 0) + 2 * BitAnd(a / 2, b / 2)
  }

  function BitOr(a: nat, b: nat): nat
    decreases a + b
  {
    if a == 0 && b == 0 then 0
    else (if a % 2 == 1 || b % 2 == 1 then 1 else 0) + 2 * BitOr(a / 2, b / 2)
  }

  // ~x on a w-bit word.
  function BitNot(x: nat, w: nat): nat
    requires x < Pow2(w)
  {
    Pow2(w) - 1 - x
  }

  lemma {:induction false} Pow2Monotone(j: nat, k: nat)
    requires j <= k
    ensures Pow2(j) <= Pow2(k)
  {
    if j < k { Pow2Monotone(j, k - 1); }
  }

  lemma ModDouble(a: nat, m: nat)
    requires m > 0
    ensures a % (2 * m) == 2 * ((a / 2) % m) + a % 2
  {
    var q, r := (a / 2) / m, (a / 2) % m;
    assert a / 2 == q * m + r;
    assert a == q * (2 * m) + (2 * r + a % 2) by {
      assert 2 * (q * m) == q * (2 * m);
    }
    DivModUnique(a, 2 * m, q, 2 * r + a % 2);
  }

  lemma DivModUnique(a: int, d: int, q: int, r: int)
    requires 0 <= r < d && a == q * d + r
    ensures a / d == q && a % d == r
  {
    var e := a / d - q;
    assert a == (a / d) * d + a % d;
    assert e * d == r - a % d by { assert (a / d) * d - q * d == e * d; }
    NoMultipleBetween(e, d);
  }

  lemma DivPlusMultiple(a: int, k: int, d: int)
    requires d > 0
    ensures (a + k * d) / d == a / d + k
  {
    var q, r := a / d, a % d;
    assert a + k * d == (q + k) * d + r by { assert (q + k) * d == q * d + k * d; }
    DivModUnique(a + k * d, d, q + k, r);
  }

  lemma U8PlusMultiple(x: int, c: int)
    ensures U8(x + 0x100 * c) == U8(x)
  {
  }

  lemma NoMultipleBetween(e: int, d: int)
    requires -d < e * d < d
    ensures e == 0
  {
    if e >= 1 {
      MulMonotone(1, e, d);
    } else if e <= -1 {
      MulMonotone(e, -1, d);
    }
  }

  lemma MulMonotone(a: int, b: int, d: int)
    requires a <= b && 0 <= d
    ensures a * d <= b * d
  {
  }

  lemma Pow2Words()
    ensures Pow2(16) == 0x1_0000 && Pow2(32) == 0x1_0000_0000
  {
    assert Pow2(8) == 0x100;
    Pow2Split(8, 16);
    Pow2Split(16, 32);
  }

  lemma Pow2Split(j: nat, k: nat)
    requires j <= k
    ensures Pow2(k) == Pow2(k - j) * Pow2(j)
  {
    if j < k {
      Pow2Split(j, k - 1);
      ScaleProduct(2, Pow2(k - 1 - j), Pow2(j));
    }
  }

  lemma ScaleProduct(c: int, p: int, x: int)
    ensures c * (p * x) == (c * p) * x
  {
  }

  lemma OnesHalved(w: nat)
    requires w > 0
    ensures (Pow2(w) - 1) % 2 == 1 && (Pow2(w) - 1) / 2 == Pow2(w - 1) - 1
  {
  }

  lemma {:induction false} AndAllOnes(a: nat, mask: nat, w: nat)
    requires mask == Pow2(w) - 1 && a <= mask
    ensures BitAnd(a, mask) == a
    decreases w
  {
    if w > 0 {
      OnesHalved(w);
      AndAllOnes(a / 2, mask / 2, w - 1);
    }
  }

  lemma HighMaskHalved(k: nat, w: nat)
    requires 0 < k <= w
    ensures Pow2(k - 1) <= Pow2(w - 1) && Pow2(k) == 2 * Pow2(k - 1) && Pow2(w) == 2 * Pow2(w - 1)
  {
    Pow2Monotone(k - 1, w - 1);
  }

  lemma AndEvenMask(a: nat, half: nat)
    requires a > 0
    ensures BitAnd(a, 2 * half) == 2 * BitAnd(a / 2, half)
  {
    assert 2 * half / 2 == half && 2 * half % 2 == 0;
  }

  function LowBits(a: nat, k: nat): nat {
    if k == 0 then 0 else a % 2 + 2 * LowBits(a / 2, k - 1)
  }

  lemma {:induction false} LowBitsIsMod(a: nat, k: nat)
    ensures LowBits(a, k) == a % Pow2(k)
  {
    if k > 0 {
      LowBitsIsMod(a / 2, k - 1);
      ModDouble(a, Pow2(k - 1));
    }
  }

  lemma {:induction false} AndClearsLowBits(a: nat, k: nat, w: nat)
    requires k <= w && a < Pow2(w)
    ensures Pow2(k) <= Pow2(w)
    ensures BitAnd(a, Pow2(w) - Pow2(k)) == a - LowBits(a, k)
    decreases w
  {
    Pow2Monotone(k, w);
    if k == 0 {
      AndAllOnes(a, Pow2(w) - 1, w);
    } else {
      HighMaskHalved(k, w);
      AndClearsLowBits(a / 2, k - 1, w - 1);
      if a > 0 {
        AndEvenMask(a, Pow2(w - 1) - Pow2(k - 1));
      }
    }
  }

  /** Masking with all ones above bit k clears exactly the low k bits. */
  lemma AndHighMask(a: nat, k: nat, w: nat)
    requires k <= w && a < Pow2(w)
    ensures Pow2(k) <= Pow2(w)
    ensures BitAnd(a, Pow2(w) - Pow2(k)) == a - a % Pow2(k)
  {
    AndClearsLowBits(a, k, w);
    LowBitsIsMod(a, k);
  }

  lemma SmallMod(r: nat, m: nat)
    requires r < m
    ensures r % m == r
  {
  }

  /** Or-ing a multiple of 2^k with a value below 2^k adds them: the fields do not overlap. */
  lemma {:induction false} OrDisjoint(hi: nat, lo: nat, k: nat)
    requires lo < Pow2(k)
    ensures BitOr(hi * Pow2(k), lo) == hi * Pow2(k) + lo
    decreases k
  {
    if k == 0 {
      OrZero(hi);
    } else {
      var m := Pow2(k - 1);
      assert hi * Pow2(k) == 2 * (hi * m);
      OrDisjoint(hi, lo / 2, k - 1);
    }
  }

  lemma OrShifted(hi: nat, lo: nat, m: nat, k: nat)
    requires m == Pow2(k) && lo < m
    ensures BitOr(hi * m, lo) == hi * m + lo
  {
    OrDisjoint(hi, lo, k);
  }

  lemma {:induction false} OrZero(a: nat)
    ensures BitOr(a, 0) == a
  {
    if a > 0 { OrZero(a / 2); }
  }
}
