/** Bit strings and where a stream has them: the vocabulary in which the DEFLATE format says how
    blocks are laid out (section 3.1.1 of RFC 1951). */
module DeflateBits {
  import opened Bits
  import opened Canonical

  /** Data elements other than Huffman codes: least significant bit first. */
  function NumBits(x: nat, n: nat): (b: seq<bit>)
    ensures |b| == n
    decreases n
  {
    if n == 0 then [] else [x % 2] + NumBits(x / 2, n - 1)
  }

  /** Huffman codes: most significant bit first. */
  function CodeBits(code: nat, n: nat): (b: seq<bit>)
    ensures |b| == n
    decreases n
  {
    if n == 0 then [] else CodeBits(code / 2, n - 1) + [code % 2]
  }

  /** Bit i of a number as it is written. */
  lemma {:induction false} NumBitsAt(x: nat, n: nat, i: nat)
    requires i < n
    ensures NumBits(x, n)[i] == (x / Pow2(i)) % 2
    decreases n
  {
    if i == 0 {
      assert Pow2(0) == 1;
    } else {
      NumBitsAt(x / 2, n - 1, i - 1);
      DivDiv(x, 2, Pow2(i - 1));
    }
  }

  /** Bit i of a code as it is written: its first bit has the highest weight. */
  lemma {:induction false} CodeBitsAt(code: nat, n: nat, i: nat)
    requires i < n
    ensures CodeBits(code, n)[i] == (code / Pow2(n - 1 - i)) % 2
    decreases n
  {
    if i == n - 1 {
      assert Pow2(0) == 1;
    } else {
      CodeBitsAt(code / 2, n - 1, i);
      DivDiv(code, 2, Pow2(n - 2 - i));
    }
  }

  /** A piece of a bit stream: nothing, a number, a Huffman code, or one piece after another. */
  datatype Layout = Empty | Num(x: nat, n: nat) | Huff(code: nat, n: nat) | Cat(a: Layout, b: Layout)

  /** Where a piece that starts at pos ends. */
  function EndOf(pos: nat, l: Layout): (e: nat)
    ensures e >= pos
    decreases l
  {
    match l
    case Empty => pos
    case Num(_, n) => pos + n
    case Huff(_, n) => pos + n
    case Cat(a, b) => EndOf(EndOf(pos, a), b)
  }

  lemma EndCat(pos: nat, a: Layout, b: Layout)
    ensures EndOf(pos, Cat(a, b)) == EndOf(EndOf(pos, a), b)
  {
  }

  /** Every number and code fits its width, which is at most 16 for numbers and 15 for codes. */
  predicate Fit(l: Layout)
  {
    match l
    case Empty => true
    case Num(x, n) => n <= 16 && x < Pow2(n)
    case Huff(code, n) => n <= 15 && code < Pow2(n)
    case Cat(a, b) => Fit(a) && Fit(b)
  }

  /** The stream has this piece at pos. */
  ghost predicate At(s: seq<byte>, pos: nat, l: Layout)
    decreases l
  {
    match l
    case Empty => true
    case Num(x, n) => Val(s, pos, n) == x
    case Huff(code, n) => Top(Val(s, pos, n), n) == code
    case Cat(a, b) => At(s, pos, a) && At(s, EndOf(pos, a), b)
  }

  lemma AtCat(s: seq<byte>, pos: nat, a: Layout, b: Layout)
    ensures At(s, pos, Cat(a, b)) <==> At(s, pos, a) && At(s, EndOf(pos, a), b)
    ensures EndOf(pos, Cat(a, b)) == EndOf(EndOf(pos, a), b)
  {
  }

  /** The bits of a piece, in stream order. */
  function Flat(l: Layout): (b: seq<bit>)
  {
    match l
    case Empty => []
    case Num(x, n) => NumBits(x, n)
    case Huff(code, n) => CodeBits(code, n)
    case Cat(a, b) => Flat(a) + Flat(b)
  }

  ghost predicate Has(s: seq<byte>, pos: nat, b: seq<bit>)
  {
    forall i | 0 <= i < |b| :: Bit(s, pos + i) == b[i]
  }

  lemma HasConcat(s: seq<byte>, pos: nat, a: seq<bit>, b: seq<bit>)
    ensures Has(s, pos, a + b) <==> Has(s, pos, a) && Has(s, pos + |a|, b)
  {
    if Has(s, pos, a + b) {
      forall i | 0 <= i < |a| ensures Bit(s, pos + i) == a[i] {
        assert (a + b)[i] == a[i];
      }
      forall i | 0 <= i < |b| ensures Bit(s, pos + |a| + i) == b[i] {
        assert (a + b)[|a| + i] == b[i];
        assert pos + (|a| + i) == pos + |a| + i;
      }
    }
    if Has(s, pos, a) && Has(s, pos + |a|, b) {
      forall i | 0 <= i < |a + b| ensures Bit(s, pos + i) == (a + b)[i] {
        if i >= |a| {
          assert Bit(s, pos + |a| + (i - |a|)) == b[i - |a|];
          assert pos + |a| + (i - |a|) == pos + i;
        }
      }
    }
  }

  lemma HasOne(s: seq<byte>, pos: nat, b: bit)
    ensures Has(s, pos, [b]) <==> Bit(s, pos) == b
  {
    if Bit(s, pos) == b {
      assert pos + 0 == pos;
    }
    if Has(s, pos, [b]) {
      assert Bit(s, pos + 0) == [b][0];
    }
  }

  lemma {:induction false} HasNum(s: seq<byte>, pos: nat, x: nat, n: nat)
    requires x < Pow2(n)
    ensures Has(s, pos, NumBits(x, n)) <==> Val(s, pos, n) == x
    decreases n
  {
    if n == 0 {
    } else {
      HasNum(s, pos + 1, x / 2, n - 1);
      HasConcat(s, pos, [x % 2], NumBits(x / 2, n - 1));
      HasOne(s, pos, x % 2);
    }
  }

  lemma {:induction false} BitOfVal(s: seq<byte>, pos: nat, m: nat, i: nat)
    requires i < m
    ensures BitOf(Val(s, pos, m), i) == Bit(s, pos + i)
    decreases m
  {
    if i == 0 {
    } else {
      BitOfVal(s, pos + 1, m - 1, i - 1);
    }
  }

  lemma TopShorter(s: seq<byte>, pos: nat, n: nat, m: nat)
    requires n <= m
    ensures Top(Val(s, pos, n), n) == Top(Val(s, pos, m), n)
  {
    ValTakeDrop(s, pos, n, m);
    TopMod(Val(s, pos, m), n, n);
  }

  lemma {:induction false} HasCode(s: seq<byte>, pos: nat, code: nat, n: nat)
    requires code < Pow2(n)
    ensures Has(s, pos, CodeBits(code, n)) <==> Top(Val(s, pos, n), n) == code
    decreases n
  {
    hide Top, Val, BitOf, Bit;
    if n == 0 {
    } else {
      HasCode(s, pos, code / 2, n - 1);
      HasConcat(s, pos, CodeBits(code / 2, n - 1), [code % 2]);
      HasOne(s, pos + (n - 1), code % 2);
      TopStep(Val(s, pos, n), n - 1);
      BitOfVal(s, pos, n, n - 1);
      TopShorter(s, pos, n - 1, n);
    }
  }

  /** A piece is at pos exactly when the stream has its bits there, one by one. */
  lemma {:induction false} AtIsBits(s: seq<byte>, pos: nat, l: Layout)
    requires Fit(l)
    ensures At(s, pos, l) <==> Has(s, pos, Flat(l))
    ensures EndOf(pos, l) == pos + |Flat(l)|
    decreases l
  {
    match l
    case Empty =>
    case Num(x, n) => HasNum(s, pos, x, n);
    case Huff(code, n) => HasCode(s, pos, code, n);
    case Cat(a, b) =>
      AtIsBits(s, pos, a);
      AtIsBits(s, EndOf(pos, a), b);
      HasConcat(s, pos, Flat(a), Flat(b));
  }

  function Sym(lens: seq<nat>, z: nat): Layout
  {
    if z < |lens| then Huff(Code(lens, z), lens[z]) else Empty
  }

  ghost predicate Usable(lens: seq<nat>)
  {
    Lengths(lens) && Codable(lens)
  }

  // ---------------------------------------------------------------- bits as bytes

  /** Bit i of b, zeros after the end. */
  function BitIn(b: seq<bit>, i: nat): bit
  {
    if i < |b| then b[i] else 0
  }

  /** The number with bits b[i..i + n], first bit least significant. */
  function Number(b: seq<bit>, i: nat, n: nat): (v: nat)
    ensures v < Pow2(n)
    decreases n, i
  {
    if n == 0 then 0 else BitIn(b, i) + 2 * Number(b, i + 1, n - 1)
  }

  lemma {:induction false} BitOfNumber(b: seq<bit>, i: nat, n: nat, j: nat)
    requires j < n
    ensures BitOf(Number(b, i, n), j) == BitIn(b, i + j)
    decreases n
  {
    if j == 0 {
    } else {
      BitOfNumber(b, i + 1, n - 1, j - 1);
    }
  }

  /** Bits packed into bytes, least significant first, the last byte filled up with zeros. */
  function Pack(b: seq<bit>): (s: seq<byte>)
    ensures |s| > 0 <==> |b| > 0
    ensures 8 * |s| >= |b|
    decreases |b|
  {
    if |b| == 0 then []
    else
      Pow2Values();
      [Number(b, 0, 8)] + Pack(if |b| <= 8 then [] else b[8..])
  }

  lemma {:induction false} PackBit(b: seq<bit>, i: nat)
    ensures Bit(Pack(b), i) == BitIn(b, i)
    decreases |b|
  {
    if |b| == 0 {
    } else {
      var rest := if |b| <= 8 then [] else b[8..];
      assert Pack(b)[1..] == Pack(rest);
      if i < 8 {
        BitOfNumber(b, 0, 8, i);
      } else {
        PackBit(rest, i - 8);
      }
    }
  }

  lemma {:induction false} BitAfter(head: seq<byte>, s: seq<byte>, i: nat)
    ensures Bit(head + s, 8 * |head| + i) == Bit(s, i)
    decreases |head|
  {
    if |head| > 0 {
      assert (head + s)[1..] == head[1..] + s;
      BitAfter(head[1..], s, i);
    } else {
      assert head + s == s;
    }
  }

  lemma {:induction false} BitBefore(s: seq<byte>, tail: seq<byte>, i: nat)
    requires i < 8 * |s|
    ensures Bit(s + tail, i) == Bit(s, i)
    decreases |s|
  {
    assert (s + tail)[1..] == s[1..] + tail;
    if i < 8 {
    } else {
      BitBefore(s[1..], tail, i - 8);
    }
  }

  lemma PackHas(head: seq<byte>, b: seq<bit>, tail: seq<byte>)
    ensures Has(head + (Pack(b) + tail), 8 * |head|, b)
  {
    forall i | 0 <= i < |b| ensures Bit(head + (Pack(b) + tail), 8 * |head| + i) == b[i] {
      BitAfter(head, Pack(b) + tail, i);
      BitBefore(Pack(b), tail, i);
      PackBit(b, i);
    }
  }
}
