/** Integers as the C code's unsigned words use them: powers of two, the bits of a
    byte stream, and reading those bits least- or most-significant first. */
module Bits {

  datatype Option<+T> = None | Some(value: T)

  type byte = x: int | 0 <= x < 256
  type u16 = x: int | 0 <= x < 0x1_0000
  type bit = x: int | 0 <= x < 2

  // ---------------------------------------------------------------- arithmetic

  function Pow2(n: nat): (p: nat)
    ensures p > 0
  {
    if n == 0 then 1 else 2 * Pow2(n - 1)
  }

  lemma MulAtLeast(k: int, d: int)
    requires k >= 1 && d > 0
    ensures k * d >= d
  {
  }

  lemma MulMono(a: int, b: int, d: int)
    requires a <= b && d >= 0
    ensures a * d <= b * d
  {
  }

  lemma MulBoth(a: nat, a': nat, b: nat, b': nat)
    requires a <= a' && b <= b'
    ensures a * b <= a' * b'
  {
    MulMono(a, a', b);
    MulMono(b, b', a');
    assert b * a' == a' * b && b' * a' == a' * b';
  }

  lemma MulSub(a: int, b: int, d: int)
    ensures (a - b) * d == a * d - b * d
  {
  }

  lemma MulAdd(a: int, b: int, d: int)
    ensures (a + b) * d == a * d + b * d
  {
  }

  lemma MulAssoc(a: int, b: int, c: int)
    ensures (a * b) * c == a * (b * c)
  {
  }

  lemma DivModDef(a: int, d: int)
    requires d > 0
    ensures a == (a / d) * d + a % d
  {
  }

  lemma DivNat(a: nat, d: nat)
    requires d > 0
    ensures a / d >= 0
  {
  }

  lemma {:induction false} Pow2Add(a: nat, b: nat)
    ensures Pow2(a + b) == Pow2(a) * Pow2(b)
  {
    if a == 0 {
    } else {
      Pow2Add(a - 1, b);
      MulAssoc(2, Pow2(a - 1), Pow2(b));
    }
  }

  lemma {:induction false} Pow2Mono(a: nat, b: nat)
    requires a <= b
    ensures Pow2(a) <= Pow2(b)
  {
    if a >= b {
    } else {
      Pow2Mono(a, b - 1);
    }
  }

  lemma Pow2Next(n: nat)
    ensures Pow2(0) == 1 && Pow2(n + 1) == 2 * Pow2(n)
  {
  }

  lemma Pow2Values()
    ensures Pow2(0) == 1 && Pow2(1) == 2 && Pow2(2) == 4 && Pow2(3) == 8 && Pow2(4) == 16
    ensures Pow2(5) == 32 && Pow2(6) == 64 && Pow2(7) == 128 && Pow2(8) == 256 && Pow2(9) == 512
    ensures Pow2(10) == 1024 && Pow2(11) == 2048 && Pow2(12) == 4096 && Pow2(13) == 8192
    ensures Pow2(14) == 16384 && Pow2(15) == 32768 && Pow2(16) == 65536
  {
    assert Pow2(4) == 16;
    assert Pow2(8) == 256;
    assert Pow2(12) == 4096;
  }

  /** Quotient and remainder are unique. */
  lemma DivMod(a: int, d: int, q: int, r: int)
    requires d > 0 && 0 <= r < d && a == q * d + r
    ensures a / d == q && a % d == r
  {
    var q' := a / d;
    DivModDef(a, d);
    MulSub(q, q', d);
    MulSub(q', q, d);
    if q > q' {
      MulAtLeast(q - q', d);
    } else if q < q' {
      MulAtLeast(q' - q, d);
    }
  }

  /** Shifting down and comparing is comparing with the bound shifted up. */
  lemma ShiftCompare(x: nat, d: nat, u: nat)
    requires d > 0
    ensures x / d < u <==> x < u * d
  {
    var q := x / d;
    DivModDef(x, d);
    MulSub(u, q, d);
    if q < u {
      MulAtLeast(u - q, d);
    } else {
      MulMono(u, q, d);
    }
  }

  /** Shifting twice. */
  lemma DivDiv(v: nat, a: nat, b: nat)
    requires a > 0 && b > 0
    ensures a * b > 0 && v / (a * b) == (v / a) / b
  {
    var q, r := v / a, v % a;
    var t, u := q / b, q % b;
    DivModDef(v, a);
    DivModDef(q, b);
    MulAdd(t * b, u, a);
    MulAssoc(t, b, a);
    MulMono(u, b - 1, a);
    MulSub(b, 1, a);
    MulMono(0, u, a);
    MulAtLeast(a, b);
    DivMod(v, a * b, t, u * a + r);
  }

  /** Halving commutes with keeping the low bits. */
  lemma HalfMod(v: nat, d: nat)
    requires d > 0
    ensures (v % (2 * d)) / 2 == (v / 2) % d
    ensures (v % (2 * d)) % 2 == v % 2
  {
    var q, r := v / (2 * d), v % (2 * d);
    DivModDef(v, 2 * d);
    MulAssoc(q, 2, d);
    MulAssoc(2, q, d);
    assert v == 2 * (q * d) + r;
    assert v / 2 == q * d + r / 2;
    DivMod(v / 2, d, q, r / 2);
  }

  /** x modulo d, by subtraction. */
  function Residue(x: nat, d: nat): nat
    requires d > 0
  {
    if x < d then x else Residue(x - d, d)
  }

  lemma {:induction false} ResidueIsMod(x: nat, d: nat)
    requires d > 0
    ensures Residue(x, d) == x % d
  {
    if x < d {
      DivMod(x, d, 0, x);
    } else {
      ResidueIsMod(x - d, d);
      DivModDef(x - d, d);
      MulAdd((x - d) / d, 1, d);
      DivMod(x, d, (x - d) / d + 1, (x - d) % d);
    }
  }

  /** x times n, by addition. */
  function Times(x: nat, n: nat): nat
  {
    if x == 0 then 0 else Times(x - 1, n) + n
  }

  lemma {:induction false} TimesIs(x: nat, n: nat)
    ensures Times(x, n) == x * n
  {
    if x == 0 {
    } else {
      TimesIs(x - 1, n);
      MulSub(x, 1, n);
    }
  }

  lemma {:induction false} TimesMono(i: nat, x: nat, n: nat)
    requires i <= x
    ensures Times(i, n) <= Times(x, n)
    decreases x
  {
    if i >= x {
    } else {
      TimesMono(i, x - 1, n);
    }
  }

  lemma TimesOf(x: nat)
    ensures Times(x, 1) == x && Times(x, 2) == 2 * x && Times(x, 3) == 3 * x && Times(x, 4) == 4 * x
  {
    TimesIs(x, 1);
    TimesIs(x, 2);
    TimesIs(x, 3);
    TimesIs(x, 4);
  }

  /** Shifting left in a word of m + a bits keeps the low m bits. */
  lemma ShlMod(v: nat, a: nat, m: nat)
    ensures (v * Pow2(a)) % Pow2(m + a) == (v % Pow2(m)) * Pow2(a)
  {
    var q, r := v / Pow2(m), v % Pow2(m);
    DivModDef(v, Pow2(m));
    Pow2Add(m, a);
    MulAdd(q * Pow2(m), r, Pow2(a));
    MulAssoc(q, Pow2(m), Pow2(a));
    MulMono(0, r, Pow2(a));
    MulMono(r + 1, Pow2(m), Pow2(a));
    MulAdd(r, 1, Pow2(a));
    DivMod(v * Pow2(a), Pow2(m + a), q, r * Pow2(a));
  }

  /** Fewer low bits of the low bits. */
  lemma ModMod(v: nat, m: nat, k: nat)
    ensures (v % Pow2(m + k)) % Pow2(m) == v % Pow2(m)
  {
    var r := v % Pow2(m + k);
    var q := v / Pow2(m + k);
    DivModDef(v, Pow2(m + k));
    DivModDef(r, Pow2(m));
    Pow2Add(k, m);
    assert m + k == k + m;
    MulAssoc(q, Pow2(k), Pow2(m));
    MulAdd(q * Pow2(k), r / Pow2(m), Pow2(m));
    DivMod(v, Pow2(m), q * Pow2(k) + r / Pow2(m), r % Pow2(m));
  }

  /** Dividing out the low m of n + m bits. */
  lemma ModDiv(v: nat, n: nat, m: nat)
    ensures (v % Pow2(n + m)) / Pow2(m) == (v / Pow2(m)) % Pow2(n)
  {
    var w, low := v / Pow2(m), v % Pow2(m);
    var q, r := w / Pow2(n), w % Pow2(n);
    DivModDef(v, Pow2(m));
    DivNat(v, Pow2(m));
    DivModDef(w, Pow2(n));
    Pow2Add(n, m);
    MulAdd(q * Pow2(n), r, Pow2(m));
    MulAssoc(q, Pow2(n), Pow2(m));
    MulMono(0, r, Pow2(m));
    MulMono(r + 1, Pow2(n), Pow2(m));
    MulAdd(r, 1, Pow2(m));
    DivMod(v, Pow2(n + m), q, r * Pow2(m) + low);
    DivMod(r * Pow2(m) + low, Pow2(m), r, low);
  }

  /** Bits a .. a + n of a word of a + n + m bits: shift left, then right. */
  lemma Window(v: nat, a: nat, n: nat, m: nat)
    ensures ((v * Pow2(a)) % Pow2(m + n + a)) / Pow2(m + a) == (v / Pow2(m)) % Pow2(n)
  {
    var x := v % Pow2(n + m);
    ShlMod(v, a, n + m);
    ModDiv(v, n, m);
    Pow2Add(m, a);
    MulMono(0, x, Pow2(a));
    DivModDef(v, Pow2(n + m));
    CommonFactor(x, Pow2(m), Pow2(a));
    assert m + n + a == n + m + a;
  }

  lemma CommonFactor(x: nat, d: nat, f: nat)
    requires d > 0 && f > 0
    ensures d * f > 0 && (x * f) / (d * f) == x / d
  {
    MulAtLeast(d, f);
    var q, r := x / d, x % d;
    DivModDef(x, d);
    MulAdd(q * d, r, f);
    MulAssoc(q, d, f);
    MulMono(0, r, f);
    MulMono(r + 1, d, f);
    MulAdd(r, 1, f);
    DivMod(x * f, d * f, q, r * f);
  }

  // ---------------------------------------------------------------- streams

  /** Bit n of the number v. */
  function BitOf(v: nat, n: nat): bit
  {
    if n == 0 then v % 2 else BitOf(v / 2, n - 1)
  }

  /** Bit i of the byte string, least significant bit of each byte first (section 3.1.1
      of RFC 1951), followed by zeros for ever: what a reader sees that returns 0 at the
      end of its input. */
  function Bit(s: seq<byte>, i: nat): bit
    decreases |s|, i
  {
    if |s| == 0 then 0 else if i < 8 then BitOf(s[0], i) else Bit(s[1..], i - 8)
  }

  lemma {:induction false} BitInByte(s: seq<byte>, k: nat, i: nat)
    requires i < 8
    ensures Bit(s, 8 * k + i) == BitOf(ByteAt(s, k), i)
    decreases |s|
  {
    if |s| == 0 {
      BitOfZero(i);
    } else if k > 0 {
      BitInByte(s[1..], k - 1, i);
      assert ByteAt(s[1..], k - 1) == ByteAt(s, k);
    }
  }

  /** Bit n has the weight 2^n. */
  lemma {:induction false} BitOfIs(v: nat, n: nat)
    ensures BitOf(v, n) == (v / Pow2(n)) % 2
    decreases n
  {
    if n == 0 {
    } else {
      BitOfIs(v / 2, n - 1);
      DivDiv(v, 2, Pow2(n - 1));
    }
  }

  /** Bit i of a stream is in byte i / 8, with the weight 2^(i % 8). */
  lemma BitIs(s: seq<byte>, i: nat)
    ensures Bit(s, i) == if i < 8 * |s| then (s[i / 8] / Pow2(i % 8)) % 2 else 0
  {
    BitInByte(s, i / 8, i % 8);
    BitOfIs(ByteAt(s, i / 8), i % 8);
    if i >= 8 * |s| {
      BitPastEnd(s, i);
    }
  }

  lemma {:induction false} BitPastEnd(s: seq<byte>, i: nat)
    requires i >= 8 * |s|
    ensures Bit(s, i) == 0
    decreases |s|
  {
    if |s| == 0 {
    } else {
      BitPastEnd(s[1..], i - 8);
    }
  }

  /** The n bits from position pos as a number whose first bit is the least significant. */
  function Val(s: seq<byte>, pos: nat, n: nat): (v: nat)
    ensures v < Pow2(n)
    decreases n, pos, |s|
  {
    if n == 0 then 0 else Bit(s, pos) + 2 * Val(s, pos + 1, n - 1)
  }

  lemma {:induction false} ValSplit(s: seq<byte>, pos: nat, a: nat, b: nat)
    ensures Val(s, pos, a + b) == Val(s, pos + a, b) * Pow2(a) + Val(s, pos, a)
    decreases a
  {
    if a == 0 {
    } else {
      ValSplit(s, pos + 1, a - 1, b);
      MulAssoc(Val(s, pos + a, b), 2, Pow2(a - 1));
      MulAssoc(2, Val(s, pos + a, b), Pow2(a - 1));
      assert pos + 1 + (a - 1) == pos + a;
    }
  }

  // C's shifts, and the mask (1 << n) - 1.

  function Shr(v: nat, g: nat): nat
    decreases g, v
  {
    if g == 0 then v else Shr(v / 2, g - 1)
  }

  function Shl(v: nat, g: nat): nat
    decreases g, v
  {
    if g == 0 then v else Shl(2 * v, g - 1)
  }

  function Low(v: nat, n: nat): nat
    decreases n, v
  {
    if n == 0 then 0 else v % 2 + 2 * Low(v / 2, n - 1)
  }

  lemma {:induction false} ValLowShr(s: seq<byte>, pos: nat, a: nat, n: nat)
    requires a <= n
    ensures Low(Val(s, pos, n), a) == Val(s, pos, a)
    ensures Shr(Val(s, pos, n), a) == Val(s, pos + a, n - a)
    decreases a
  {
    if a == 0 {
    } else {
      assert Val(s, pos, n) / 2 == Val(s, pos + 1, n - 1) && Val(s, pos, n) % 2 == Bit(s, pos);
      ValLowShr(s, pos + 1, a - 1, n - 1);
    }
  }

  /** Masking keeps the first a bits of a buffer, shifting drops them. */
  lemma ValTakeDrop(s: seq<byte>, pos: nat, a: nat, n: nat)
    requires a <= n
    ensures Val(s, pos, n) % Pow2(a) == Val(s, pos, a)
    ensures Val(s, pos, n) / Pow2(a) == Val(s, pos + a, n - a)
  {
    ValSplit(s, pos, a, n - a);
    DivMod(Val(s, pos, n), Pow2(a), Val(s, pos + a, n - a), Val(s, pos, a));
  }

  function ByteAt(s: seq<byte>, k: nat): byte
  {
    if k < |s| then s[k] else 0
  }

  /** The value of n bits of the number v from bit i on. */
  function BitsFrom(v: nat, i: nat, n: nat): nat
    decreases n, i
  {
    if n == 0 then 0 else BitOf(v, i) + 2 * BitsFrom(v, i + 1, n - 1)
  }

  lemma {:induction false} BitsFromHalf(v: nat, i: nat, n: nat)
    requires i > 0
    ensures BitsFrom(v, i, n) == BitsFrom(v / 2, i - 1, n)
    decreases n
  {
    if n == 0 {
    } else {
      BitsFromHalf(v, i + 1, n - 1);
    }
  }

  lemma {:induction false} BitsFromAll(v: nat, n: nat)
    requires v < Pow2(n)
    ensures BitsFrom(v, 0, n) == v
    decreases n
  {
    if n == 0 {
    } else {
      BitsFromHalf(v, 1, n - 1);
      BitsFromAll(v / 2, n - 1);
    }
  }

  lemma {:induction false} ValBitsFrom(s: seq<byte>, k: nat, i: nat, n: nat)
    requires i + n <= 8
    ensures Val(s, 8 * k + i, n) == BitsFrom(ByteAt(s, k), i, n)
    decreases n
  {
    if n == 0 {
    } else {
      ValBitsFrom(s, k, i + 1, n - 1);
      BitInByte(s, k, i);
    }
  }

  lemma BitOfZero(i: nat)
    ensures BitOf(0, i) == 0
  {
  }

  /** Eight bits at a byte boundary are that byte. */
  lemma ValByte(s: seq<byte>, k: nat)
    ensures Val(s, 8 * k, 8) == ByteAt(s, k)
  {
    ValBitsFrom(s, k, 0, 8);
    Pow2Values();
    BitsFromAll(ByteAt(s, k), 8);
  }

  /** Past the end there are only zeros. */
  lemma {:induction false} ValPastEnd(s: seq<byte>, pos: nat, n: nat)
    requires pos >= 8 * |s|
    ensures Val(s, pos, n) == 0
    decreases n
  {
    if n == 0 {
    } else {
      BitPastEnd(s, pos);
      ValPastEnd(s, pos + 1, n - 1);
    }
  }

  // ---------------------------------------------------------------- MSB first

  /** The first n bits of the LSB-first number v, read most significant first, as Huffman
      codes are packed (section 3.1.1 of RFC 1951): the n-bit reversal of v. */
  function Top(v: nat, n: nat): (t: nat)
    ensures t < Pow2(n)
  {
    if n == 0 then 0 else (if v % 2 == 1 then Pow2(n - 1) else 0) + Top(v / 2, n - 1)
  }

  /** Reading one bit more appends that bit. */
  lemma {:induction false} TopStep(v: nat, n: nat)
    ensures Top(v, n + 1) == 2 * Top(v, n) + BitOf(v, n)
    decreases n
  {
    if n == 0 {
    } else {
      TopStep(v / 2, n - 1);
    }
  }

  /** Only the low n bits matter. */
  lemma {:induction false} TopMod(v: nat, n: nat, m: nat)
    requires n <= m
    ensures Top(v % Pow2(m), n) == Top(v, n)
    decreases n
  {
    if n == 0 {
    } else {
      HalfMod(v, Pow2(m - 1));
      TopMod(v / 2, n - 1, m - 1);
    }
  }

  /** Reversal is its own inverse. */
  lemma {:induction false} TopTop(v: nat, n: nat)
    requires v < Pow2(n)
    ensures Top(Top(v, n), n) == v
    decreases n
  {
    if n == 0 {
    } else {
      var w := Top(v / 2, n - 1);
      TopTop(v / 2, n - 1);
      TopStep(Top(v, n), n - 1);
      if v % 2 == 1 {
        TopAddHigh(w, n - 1);
      } else {
        BitOfSmall(w, n - 1);
      }
    }
  }

  /** Setting bit n leaves the lower bits alone. */
  lemma {:induction false} TopAddHigh(w: nat, n: nat)
    requires w < Pow2(n)
    ensures Top(Pow2(n) + w, n) == Top(w, n)
    ensures BitOf(Pow2(n) + w, n) == 1
    decreases n
  {
    if n == 0 {
    } else {
      assert (Pow2(n) + w) / 2 == Pow2(n - 1) + w / 2;
      TopAddHigh(w / 2, n - 1);
    }
  }

  lemma {:induction false} BitOfSmall(w: nat, n: nat)
    requires w < Pow2(n)
    ensures BitOf(w, n) == 0
    decreases n
  {
    if n == 0 {
    } else {
      BitOfSmall(w / 2, n - 1);
    }
  }
}
