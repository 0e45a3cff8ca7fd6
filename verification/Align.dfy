/** MY_ALIGN of my_global.h, on w-bit unsigned operands. */
module Align {
  import opened Bits

  function MyAlign(a: nat, l: nat, w: nat): nat
    requires 0 < l <= Pow2(w)
  {
    BitAnd((a + l - 1) % Pow2(w), BitNot(l - 1, w))
  }

  // The division form used by the aligned space scan.
  function DivisionAlign(a: nat, l: nat): nat
    requires l > 0
  {
    (a + l - 1) / l * l
  }

  predicate IsMultiple(m: nat, l: nat)
    requires l > 0
  {
    m % l == 0
  }

  ghost predicate LeastMultipleFrom(r: nat, a: nat, l: nat)
    requires l > 0
  {
    IsMultiple(r, l) && a <= r && forall m: nat :: IsMultiple(m, l) && a <= m ==> r <= m
  }

  lemma MultipleOf(q: nat, l: nat)
    requires l > 0
    ensures q * l >= 0 && IsMultiple(q * l, l)
  {
    MulMonotone(0, q, l);
    DivModUnique(q * l, l, q, 0);
  }

  lemma MultiplesAreApart(m: nat, r: nat, l: nat)
    requires l > 0 && IsMultiple(m, l) && IsMultiple(r, l) && m < r
    ensures m + l <= r
  {
    var i, j := m / l, r / l;
    assert m == i * l && r == j * l;
    assert (j - i) * l == r - m;
    if j - i <= 0 {
      MulMonotone(j - i, 0, l);
    } else {
      MulMonotone(1, j - i, l);
    }
  }

  lemma LeastIsBelowNext(r: nat, a: nat, l: nat)
    requires l > 0 && IsMultiple(r, l) && a <= r < a + l
    ensures LeastMultipleFrom(r, a, l)
  {
    forall m: nat | IsMultiple(m, l) && a <= m
      ensures r <= m
    {
      if m < r { MultiplesAreApart(m, r, l); }
    }
  }

  lemma DivisionAlignIsLeast(a: nat, l: nat)
    requires l > 0
    ensures LeastMultipleFrom(DivisionAlign(a, l), a, l)
    ensures DivisionAlign(a, l) < a + l
  {
    var q, s := (a + l - 1) / l, (a + l - 1) % l;
    assert a + l - 1 == q * l + s;
    MultipleOf(q, l);
    LeastIsBelowNext(q * l, a, l);
  }

  lemma ClearLowBits(a: nat, l: nat)
    requires l > 0
    ensures a - a % l == a / l * l
  {
  }

  lemma MyAlignValue(a: nat, k: nat, w: nat)
    requires k <= w && a < Pow2(w)
    ensures Pow2(k) <= Pow2(w)
    ensures MyAlign(a, Pow2(k), w) ==
            if a + Pow2(k) - 1 < Pow2(w) then DivisionAlign(a, Pow2(k)) else 0
  {
    Pow2Monotone(k, w);
    var l, n := Pow2(k), Pow2(w);
    var raw := a + l - 1;
    AndHighMask(raw % n, k, w);
    if raw < n {
      SmallMod(raw, n);
      ClearLowBits(raw, l);
    } else {
      DivModUnique(raw, n, 1, raw - n);
      SmallMod(raw - n, l);
    }
  }

  /** For every operand of the word and every power of two, MY_ALIGN is the least multiple not below the
      operand exactly when the addition does not overflow; it then agrees with the division form. */
  lemma MyAlignExact(a: nat, k: nat, w: nat)
    requires k <= w && a < Pow2(w)
    ensures Pow2(k) <= Pow2(w)
    ensures LeastMultipleFrom(MyAlign(a, Pow2(k), w), a, Pow2(k)) <==> a + Pow2(k) - 1 < Pow2(w)
    ensures a + Pow2(k) - 1 < Pow2(w) ==> MyAlign(a, Pow2(k), w) == DivisionAlign(a, Pow2(k))
  {
    MyAlignValue(a, k, w);
    DivisionAlignIsLeast(a, Pow2(k));
  }

  /** A size just below the end of a 32-bit address space, rounded up to a word, becomes zero. */
  lemma AlignOverflowExample()
    ensures Pow2(32) == 0x1_0000_0000
    ensures MyAlign(0xFFFF_FFFF, 4, 32) == 0
    ensures !LeastMultipleFrom(MyAlign(0xFFFF_FFFF, 4, 32), 0xFFFF_FFFF, 4)
  {
    Pow2Words();
    assert Pow2(2) == 4;
    MyAlignValue(0xFFFF_FFFF, 2, 32);
  }

  /** Aligning twice is aligning once, for every operand of the word. */
  lemma MyAlignIdempotent(a: nat, k: nat, w: nat)
    requires k <= w && a < Pow2(w)
    ensures Pow2(k) <= Pow2(w)
    ensures MyAlign(MyAlign(a, Pow2(k), w), Pow2(k), w) == MyAlign(a, Pow2(k), w)
  {
    MyAlignValue(a, k, w);
    if a + Pow2(k) - 1 < Pow2(w) {
      var r := DivisionAlign(a, Pow2(k));
      AlignedFitsWord(r, a, k, w);
      MyAlignValue(r, k, w);
      DivisionAlignIsLeast(a, Pow2(k));
      MultipleStays(r, Pow2(k));
    } else {
      MyAlignValue(0, k, w);
      MultipleOf(0, Pow2(k));
      MultipleStays(0, Pow2(k));
    }
  }

  /** Aligning keeps the order of two operands exactly when the greater does not overflow, or the smaller does
      too or is zero. */
  lemma MyAlignMonotoneExactly(a: nat, b: nat, k: nat, w: nat)
    requires k <= w && a <= b < Pow2(w)
    ensures Pow2(k) <= Pow2(w)
    ensures MyAlign(a, Pow2(k), w) <= MyAlign(b, Pow2(k), w) <==>
            b + Pow2(k) - 1 < Pow2(w) || a + Pow2(k) - 1 >= Pow2(w) || a == 0
  {
    MyAlignValue(a, k, w);
    MyAlignValue(b, k, w);
    DivisionAlignMonotone(a, b, Pow2(k));
  }

  lemma DivisionAlignMonotone(a: nat, b: nat, l: nat)
    requires l > 0 && a <= b
    ensures a <= DivisionAlign(a, l) <= DivisionAlign(b, l)
    ensures a == 0 ==> DivisionAlign(a, l) == 0
  {
    DivisionAlignIsLeast(a, l);
    DivisionAlignIsLeast(b, l);
    MultipleOf(0, l);
    MultipleStays(0, l);
  }

  lemma MultipleStays(r: nat, l: nat)
    requires l > 0 && IsMultiple(r, l)
    ensures DivisionAlign(r, l) == r
  {
    DivisionAlignIsLeast(r, l);
  }

  lemma AlignedFitsWord(r: nat, a: nat, k: nat, w: nat)
    requires k <= w && a + Pow2(k) - 1 < Pow2(w) && r == DivisionAlign(a, Pow2(k))
    ensures r + Pow2(k) - 1 < Pow2(w)
  {
    DivisionAlignIsLeast(a, Pow2(k));
    Pow2Split(k, w);
    MultipleOf(Pow2(w - k), Pow2(k));
    MultiplesAreApart(r, Pow2(w), Pow2(k));
  }
}
