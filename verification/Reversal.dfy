/** stbi__bitreverse16 and stbi__bit_reverse (external/stb/stb_image.h): reversal by four
    mask-and-shift steps, proved to be bit reversal. */
module Reversal {
  import opened Bits

  // ---------------------------------------------------------------- C's operators on naturals

  function And(a: nat, b: nat): nat
    decreases a
  {
    if a == 0 then 0 else (if a % 2 == 1 && b % 2 == 1 then 1 else 0) + 2 * And(a / 2, b / 2)
  }

  function Or(a: nat, b: nat): nat
    decreases a + b
  {
    if a == 0 && b == 0 then 0
    else (if a % 2 == 1 || b % 2 == 1 then 1 else 0) + 2 * Or(a / 2, b / 2)
  }

  // ---------------------------------------------------------------- the code

  /** One step: swap neighbouring groups of g bits. */
  function Stage(n: nat, hi: nat, lo: nat, g: nat): nat
  {
    Or(Shr(And(n, hi), g), Shl(And(n, lo), g))
  }

  function BitReverse16(n: nat): nat
  {
    var n1 := Stage(n, 0xAAAA, 0x5555, 1);
    var n2 := Stage(n1, 0xCCCC, 0x3333, 2);
    var n3 := Stage(n2, 0xF0F0, 0x0F0F, 4);
    Stage(n3, 0xFF00, 0x00FF, 8)
  }

  function BitReverse(v: nat, bits: nat): nat
    requires bits <= 16
  {
    Shr(BitReverse16(v), 16 - bits)
  }

  // ---------------------------------------------------------------- bits of the operators

  lemma {:induction false} BitOfAnd(a: nat, b: nat, i: nat)
    ensures BitOf(And(a, b), i) == if BitOf(a, i) == 1 && BitOf(b, i) == 1 then 1 else 0
    decreases i
  {
    if i == 0 {
    } else {
      BitOfAnd(a / 2, b / 2, i - 1);
      if a == 0 { BitOfZero(i); }
    }
  }

  lemma {:induction false} BitOfOr(a: nat, b: nat, i: nat)
    ensures BitOf(Or(a, b), i) == if BitOf(a, i) == 1 || BitOf(b, i) == 1 then 1 else 0
    decreases i
  {
    if i == 0 {
    } else {
      BitOfOr(a / 2, b / 2, i - 1);
      if a == 0 && b == 0 { BitOfZero(i); }
    }
  }

  lemma {:induction false} BitOfShr(v: nat, g: nat, i: nat)
    ensures BitOf(Shr(v, g), i) == BitOf(v, i + g)
    decreases g
  {
    if g == 0 {
    } else {
      BitOfShr(v / 2, g - 1, i);
    }
  }

  lemma {:induction false} BitOfShl(v: nat, g: nat, i: nat)
    ensures BitOf(Shl(v, g), i) == if i >= g then BitOf(v, i - g) else 0
    decreases g
  {
    if g == 0 {
    } else {
      BitOfShl(2 * v, g - 1, i);
      if i >= g {
        assert BitOf(2 * v, i - (g - 1)) == BitOf(v, i - g);
      }
    }
  }

  /** Bit i lies in an odd-numbered group of g bits. */
  predicate Odd(i: nat, g: nat)
  {
    if g == 1 then i % 2 == 1
    else if g == 2 then (i / 2) % 2 == 1
    else if g == 4 then (i / 4) % 2 == 1
    else (i / 8) % 2 == 1
  }

  /** m has, from bit i up to bit 15, exactly the bits of the odd (or even) groups of g. */
  predicate IsMask(m: nat, i: nat, g: nat, odd: bool)
    decreases 16 - i
  {
    if i >= 16 then m == 0
    else m % 2 == (if Odd(i, g) == odd then 1 else 0) && IsMask(m / 2, i + 1, g, odd)
  }

  lemma {:induction false} MaskBit(m: nat, i: nat, g: nat, odd: bool, j: nat)
    requires i <= 16 && IsMask(m, i, g, odd)
    ensures BitOf(m, j) == if i + j < 16 && Odd(i + j, g) == odd then 1 else 0
    decreases j
  {
    if i >= 16 {
      BitOfZero(j);
    } else if j > 0 {
      MaskBit(m / 2, i + 1, g, odd, j - 1);
    }
  }

  /** Where bit i of the result of a step comes from; none above bit 15. */
  function Partner(i: nat, g: nat): int
  {
    if Odd(i, g) then i - g else i + g
  }

  lemma GroupNeighbours(i: nat, g: nat)
    requires g == 1 || g == 2 || g == 4 || g == 8
    ensures Odd(i + g, g) == !Odd(i, g) && (Odd(i, g) ==> i >= g)
    ensures i < 16 && !Odd(i, g) ==> i + g < 16
    ensures i >= 16 && i - g < 16 ==> !Odd(i, g)
  {
    if g == 8 {
      assert (i + 8) / 8 == i / 8 + 1;
    } else if g == 4 {
      assert (i + 4) / 4 == i / 4 + 1;
    } else if g == 2 {
      assert (i + 2) / 2 == i / 2 + 1;
    }
  }

  lemma StageBit(n: nat, hi: nat, lo: nat, g: nat, i: nat)
    requires (g == 1 || g == 2 || g == 4 || g == 8) && IsMask(hi, 0, g, true) && IsMask(lo, 0, g, false)
    ensures BitOf(Stage(n, hi, lo, g), i) == if i < 16 then BitOf(n, Partner(i, g)) else 0
  {
    GroupNeighbours(i, g);
    BitOfOr(Shr(And(n, hi), g), Shl(And(n, lo), g), i);
    BitOfShr(And(n, hi), g, i);
    BitOfAnd(n, hi, i + g);
    MaskBit(hi, 0, g, true, i + g);
    BitOfShl(And(n, lo), g, i);
    if i >= g {
      GroupNeighbours(i - g, g);
      BitOfAnd(n, lo, i - g);
      MaskBit(lo, 0, g, false, i - g);
    }
  }

  lemma Masks1()
    ensures IsMask(0xAAAA, 0, 1, true) && IsMask(0x5555, 0, 1, false)
  {
    assert IsMask(0xAA, 8, 1, true) && IsMask(0x55, 8, 1, false);
  }

  lemma Masks2()
    ensures IsMask(0xCCCC, 0, 2, true) && IsMask(0x3333, 0, 2, false)
  {
    assert IsMask(0xCC, 8, 2, true) && IsMask(0x33, 8, 2, false);
  }

  lemma Masks4()
    ensures IsMask(0xF0F0, 0, 4, true) && IsMask(0x0F0F, 0, 4, false)
  {
    assert IsMask(0xF0, 8, 4, true) && IsMask(0x0F, 8, 4, false);
  }

  lemma Masks8()
    ensures IsMask(0xFF00, 0, 8, true) && IsMask(0x00FF, 0, 8, false)
  {
    assert IsMask(0xFF, 8, 8, true) && IsMask(0x00, 8, 8, false);
  }

  lemma Partners(i: nat)
    requires i < 16
    ensures 0 <= Partner(i, 8) < 16 && 0 <= Partner(Partner(i, 8), 4) < 16
    ensures 0 <= Partner(Partner(Partner(i, 8), 4), 2) < 16
    ensures Partner(Partner(Partner(Partner(i, 8), 4), 2), 1) == 15 - i
  {
  }

  lemma Reverse16Bit(n: nat, i: nat)
    ensures BitOf(BitReverse16(n), i) == if i < 16 then BitOf(n, 15 - i) else 0
  {
    hide BitOf, Stage, Partner;
    Masks1(); Masks2(); Masks4(); Masks8();
    var n1 := Stage(n, 0xAAAA, 0x5555, 1);
    var n2 := Stage(n1, 0xCCCC, 0x3333, 2);
    var n3 := Stage(n2, 0xF0F0, 0x0F0F, 4);
    StageBit(n3, 0xFF00, 0x00FF, 8, i);
    if i < 16 {
      Partners(i);
      var i3 := Partner(i, 8);
      StageBit(n2, 0xF0F0, 0x0F0F, 4, i3);
      var i2 := Partner(i3, 4);
      StageBit(n1, 0xCCCC, 0x3333, 2, i2);
      var i1 := Partner(i2, 2);
      StageBit(n, 0xAAAA, 0x5555, 1, i1);
    }
  }

  lemma {:induction false} TopBit(v: nat, n: nat, i: nat)
    ensures BitOf(Top(v, n), i) == if i < n then BitOf(v, n - 1 - i) else 0
    decreases n
  {
    if n == 0 {
      BitOfZero(i);
    } else {
      TopStep(v, n - 1);
      if i > 0 {
        TopBit(v, n - 1, i - 1);
      }
    }
  }

  /** Numbers with the same bits are equal. */
  lemma {:induction false} SameBits(a: nat, b: nat)
    requires forall i: nat :: BitOf(a, i) == BitOf(b, i)
    ensures a == b
    decreases a + b
  {
    assert BitOf(a, 0) == BitOf(b, 0);
    if a + b == 0 {
    } else {
      forall i: nat ensures BitOf(a / 2, i) == BitOf(b / 2, i) {
        assert BitOf(a, i + 1) == BitOf(b, i + 1);
      }
      if a / 2 + b / 2 < a + b {
        SameBits(a / 2, b / 2);
      }
    }
  }

  /** The four mask-and-shift steps reverse the low 16 bits of any word. */
  lemma Reverse16Correct(n: nat)
    ensures BitReverse16(n) == Top(n, 16)
  {
    forall i: nat ensures BitOf(BitReverse16(n), i) == BitOf(Top(n, 16), i) {
      Reverse16Bit(n, i);
      TopBit(n, 16, i);
    }
    SameBits(BitReverse16(n), Top(n, 16));
  }

  lemma {:induction false} TopShr(v: nat, n: nat, g: nat)
    requires g <= n
    ensures Shr(Top(v, n), g) == Top(v, n - g)
    decreases g
  {
    if g == 0 {
    } else {
      TopStep(v, n - 1);
      TopShr(v, n - 1, g - 1);
    }
  }

  /** stbi__bit_reverse reads the low `bits` bits of v most significant first. */
  lemma BitReverseCorrect(v: nat, bits: nat)
    requires bits <= 16
    ensures BitReverse(v, bits) == Top(v, bits)
  {
    Reverse16Correct(v);
    TopShr(v, 16, 16 - bits);
  }
}
