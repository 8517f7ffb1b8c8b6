/** Writing a stream of blocks as bytes, and what the decoder makes of it: every well-formed stream
    comes back as the bytes it stands for. */
module DeflateEncoding {
  import opened Bits
  import opened Canonical
  import opened FixedCodes
  import opened DeflateTables
  import opened Deflate
  import opened DeflateBits
  import opened DeflateFormat
  import opened DeflateFits
  import opened DeflateReach
  import opened DeflateSymbols
  import opened DeflateElements
  import opened DeflateStreams

  // ---------------------------------------------------------------- the decoder's contract with the format

  function Start(parseHeader: bool): nat
  {
    if parseHeader then 16 else 0
  }

  /** A well-formed stream stands in the zero-extended input. */
  ghost predicate Stream(s: seq<byte>, parseHeader: bool, bs: seq<BlockData>)
  {
    StreamOk(bs, Start(parseHeader)) && At(s, Start(parseHeader), StreamBits(bs, Start(parseHeader)))
  }

  /** Where a stream ends. */
  function StreamStop(parseHeader: bool, bs: seq<BlockData>): nat
  {
    EndOf(Start(parseHeader), StreamBits(bs, Start(parseHeader)))
  }

  /** The decoder gets to the end of a stream in n bits of input: a matter of its layout only. */
  predicate Passes(n: nat, parseHeader: bool, bs: seq<BlockData>)
  {
    StreamReached(n, Reach(Start(parseHeader), false), Start(parseHeader), bs).Some?
  }

  /** The decoder on a well-formed stream, whether or not it ends inside the input: it comes out as
      the bytes it stands for exactly if every block is reached to its end, there is room, and no
      distance reaches before the start; otherwise it is rejected. */
  lemma InflateExact(s: seq<byte>, max: nat, parseHeader: bool, bs: seq<BlockData>)
    requires (parseHeader ==> ZlibHeader(s)) && Stream(s, parseHeader, bs)
    ensures Inflate(s, max, parseHeader) ==
            if Passes(8 * |s|, parseHeader, bs) && ExpandStream(bs, []).Some? && |ExpandStream(bs, []).value| <= max
            then ExpandStream(bs, []) else None
  {
    hide Blocks, StreamReached, StreamBits, ExpandStream, At, StreamOk;
    var c := Cursor(Start(parseHeader), 0, false);
    AlignedByte(Start(parseHeader) / 8);
    StreamExact(s, max, c, [], bs);
  }

  /** Every well-formed stream inside the input, whatever follows it, comes out as the bytes it
      stands for, as long as the output may become that long. */
  lemma InflateComplete(s: seq<byte>, max: nat, parseHeader: bool, bs: seq<BlockData>)
    requires (parseHeader ==> ZlibHeader(s)) && Stream(s, parseHeader, bs)
    requires StreamStop(parseHeader, bs) <= 8 * |s|
    requires ExpandStream(bs, []).Some?
    ensures |ExpandStream(bs, []).value| <= max ==> Inflate(s, max, parseHeader) == ExpandStream(bs, [])
  {
    hide Inflate, StreamReached, ExpandStream, At;
    StreamInside(8 * |s|, Reach(Start(parseHeader), false), Start(parseHeader), bs);
    InflateExact(s, max, parseHeader, bs);
  }

  /** A stream after the bytes of head, followed by the bytes of tail (such as a checksum). */
  function Encode(head: seq<byte>, bs: seq<BlockData>, tail: seq<byte>): seq<byte>
  {
    head + (Pack(Flat(StreamBits(bs, 8 * |head|))) + tail)
  }

  /** A written stream is there, and ends inside the input. */
  lemma Written(head: seq<byte>, bs: seq<BlockData>, tail: seq<byte>)
    requires StreamOk(bs, 8 * |head|)
    ensures At(Encode(head, bs, tail), 8 * |head|, StreamBits(bs, 8 * |head|))
    ensures EndOf(8 * |head|, StreamBits(bs, 8 * |head|)) <= 8 * |Encode(head, bs, tail)|
    ensures |Encode(head, bs, tail)| > |head| && Encode(head, bs, tail)[..|head|] == head
  {
    var l := StreamBits(bs, 8 * |head|);
    StreamFits(bs, 8 * |head|);
    PackHas(head, Flat(l), tail);
    AtIsBits(Encode(head, bs, tail), 8 * |head|, l);
  }

  /** Round trip: decoding a written stream gives what it stands for, with and without a zlib
      header, whatever follows. */
  lemma RoundTrip(head: seq<byte>, bs: seq<BlockData>, tail: seq<byte>, max: nat, parseHeader: bool)
    requires 8 * |head| == Start(parseHeader) && StreamOk(bs, 8 * |head|)
    requires parseHeader ==> (head[0] as int * 256 + head[1]) % 31 == 0 && (head[1] / 32) % 2 == 0 && head[0] % 16 == 8
    requires ExpandStream(bs, []).Some? && |ExpandStream(bs, []).value| <= max
    ensures Inflate(Encode(head, bs, tail), max, parseHeader) == ExpandStream(bs, [])
  {
    hide StreamOk, ExpandStream, Inflate, Encode, At, StreamBits, EndOf;
    var s := Encode(head, bs, tail);
    Written(head, bs, tail);
    assert parseHeader ==> s[0] == s[..|head|][0] && s[1] == s[..|head|][1];
    InflateComplete(s, max, parseHeader, bs);
  }

  // ---------------------------------------------------------------- a stream from the outside

  /** The literals a and b, and a match of length 3 at distance 2, which overlaps what it writes. */
  function KnownElements(): seq<Element>
  {
    [Lit(97), Lit(98), Pair(0, 0, 1, 0)]
  }

  /** Five bytes as any other encoder would write them with the fixed codes, and what they stand for: "ababa". */
  lemma KnownStream()
    ensures Inflate([0x4b, 0x4c, 0x02, 0x42, 0x00], 5, false) == Some([97, 98, 97, 98, 97])
  {
    hide Inflate, StreamOk, Encode, StreamBits, ExpandStream;
    var bs := [Fixed(KnownElements())];
    KnownOk(bs);
    KnownExpands(bs);
    KnownBytes(bs);
    RoundTrip([], bs, [], 5, false);
  }

  lemma KnownOk(bs: seq<BlockData>)
    requires bs == [Fixed(KnownElements())]
    ensures StreamOk(bs, 0)
  {
    var es := KnownElements();
    assert es[1..] == [Lit(98), Pair(0, 0, 1, 0)] && es[2..] == [Pair(0, 0, 1, 0)] && es[3..] == [];
    assert es[1..][1..] == es[2..] && es[2..][1..] == es[3..];
    Pow2Values();
  }

  lemma ExpandNext(e: Element, es: seq<Element>, out: seq<byte>)
    ensures Expand([], out) == Some(out)
    ensures ExpandOne(e, out).Some? ==> Expand([e] + es, out) == Expand(es, ExpandOne(e, out).value)
  {
    assert ([e] + es)[1..] == es;
  }

  lemma KnownSteps()
    ensures ExpandOne(Lit(97), []) == Some([97]) && ExpandOne(Lit(98), [97]) == Some([97, 98])
    ensures ExpandOne(Pair(0, 0, 1, 0), [97, 98]) == Some([97, 98, 97, 98, 97])
  {
    var none: seq<byte>, o2: seq<byte> := [], [97, 98];
    assert none + [97] == [97] && [97 as byte] + [98] == o2;
    assert Pow2(0) == 1 && DstBase(1) == 2 && LenBase(0) == 3;
    assert Copy(o2, 2, 3) == Copy([97, 98, 97], 2, 2) == Copy([97, 98, 97, 98], 2, 1) == [97, 98, 97, 98, 97];
  }

  lemma KnownExpands(bs: seq<BlockData>)
    requires bs == [Fixed(KnownElements())]
    ensures ExpandStream(bs, []) == Some([97, 98, 97, 98, 97])
  {
    hide Expand, ExpandOne, Copy;
    var match3, empty: seq<byte> := Pair(0, 0, 1, 0), [];
    var e0: seq<Element>, e1: seq<Element> := [Lit(98)] + [match3], [match3] + [];
    var o1: seq<byte>, o2: seq<byte>, o5: seq<byte> := [97], [97, 98], [97, 98, 97, 98, 97];
    assert KnownElements() == [Lit(97)] + e0 && e0 == [Lit(98)] + e1;
    KnownSteps();
    ExpandNext(Lit(97), e0, empty);
    ExpandNext(Lit(98), e1, o1);
    ExpandNext(match3, [], o2);
    ExpandNext(match3, [], o5);
    assert ExpandBlock(bs[0], []) == Some(o5);
    assert bs[1..] == [] && ExpandStream([], o5) == Some(o5);
  }

  /** The bits of an element list, one element at a time. */
  lemma FlatLit(b: byte, es: seq<Element>, code: nat)
    requires code == Code(FixedLit(), b)
    ensures Flat(ElementsBits(FixedLit(), FixedDist(), [Lit(b)] + es)) ==
            CodeBits(code, FixedLit()[b]) + Flat(ElementsBits(FixedLit(), FixedDist(), es))
  {
    hide Code, FixedLit, FixedDist, CodeBits;
    assert ([Lit(b)] + es)[1..] == es;
  }

  lemma FlatEnd()
    ensures Flat(ElementsBits(FixedLit(), FixedDist(), [])) == CodeBits(0, 7)
  {
    hide Code, CodeBits;
    LitCodes(256);
  }

  /** A match without extra bits. */
  lemma FlatPair(lz: nat, dz: nat, es: seq<Element>)
    requires lz < 23 && LenExtra(lz) == 0 && dz < 30 && DstExtra(dz) == 0
    ensures Flat(ElementsBits(FixedLit(), FixedDist(), [Pair(lz, 0, dz, 0)] + es)) ==
            CodeBits(lz + 1, 7) + CodeBits(dz, 5) + Flat(ElementsBits(FixedLit(), FixedDist(), es))
  {
    hide Code, CodeBits, ElementsBits, LenExtra, DstExtra;
    LitCodes(257 + lz);
    DistCodes(dz);
    var e := Pair(lz, 0, dz, 0);
    assert ([e] + es)[1..] == es;
    ElementsNext(e, es);
    assert NumBits(0, 0) == [];
    assert Flat(Sym(FixedLit(), 257 + lz)) == CodeBits(lz + 1, 7) && Flat(Sym(FixedDist(), dz)) == CodeBits(dz, 5);
    assert Flat(PairTail(FixedDist(), e)) == [] + (CodeBits(dz, 5) + []);
  }

  lemma ElementsNext(e: Element, es: seq<Element>)
    ensures ElementsBits(FixedLit(), FixedDist(), [e] + es) ==
            Cat(ElementBits(FixedLit(), FixedDist(), e), ElementsBits(FixedLit(), FixedDist(), es))
  {
    hide FixedLit, FixedDist, ElementBits;
    assert ([e] + es)[1..] == es;
  }

  /** The bits, symbol by symbol. */
  lemma KnownBits(bs: seq<BlockData>)
    requires bs == [Fixed(KnownElements())]
    ensures Flat(StreamBits(bs, 0)) ==
            [1, 1, 0] + (CodeBits(145, 8) + (CodeBits(146, 8) + (CodeBits(1, 7) + CodeBits(1, 5) + CodeBits(0, 7))))
  {
    hide Code, CodeBits, ElementsBits, FixedLit, FixedDist;
    var es, match3 := KnownElements(), Pair(0, 0, 1, 0);
    assert es == [Lit(97)] + ([Lit(98)] + ([match3] + []));
    LitCodes(97);
    LitCodes(98);
    FlatLit(97, [Lit(98)] + ([match3] + []), 145);
    FlatLit(98, [match3] + [], 146);
    FlatPair(0, 1, []);
    FlatEnd();
    KnownHeader(bs, es);
    assert FixedLit()[97] == 8 && FixedLit()[98] == 8;
  }

  lemma KnownHeader(bs: seq<BlockData>, es: seq<Element>)
    requires bs == [Fixed(es)]
    ensures Flat(StreamBits(bs, 0)) == [1, 1, 0] + Flat(ElementsBits(FixedLit(), FixedDist(), es))
  {
    hide ElementsBits, FixedLit, FixedDist;
    assert bs[1..] == [];
    var e := BlockBits(bs[0], 3);
    assert StreamBits(bs, 0) == Cat(Num(1, 1), Cat(Num(1, 2), Cat(e, Empty)));
    assert NumBits(1, 1) == [1] && NumBits(1, 2) == [1] + NumBits(0, 1) == [1, 0];
    assert Flat(Cat(e, Empty)) == Flat(e) + [] == Flat(e);
    assert Flat(Cat(Num(1, 2), Cat(e, Empty))) == [1, 0] + Flat(e);
    assert [1] + ([1, 0] + Flat(e)) == [1, 1, 0] + Flat(e);
  }

  lemma PackNext(b: seq<bit>, rest: seq<bit>)
    requires |b| == 8
    ensures Pack(b + rest) == [Number(b, 0, 8)] + Pack(rest)
  {
    NumberOf(b, rest, 0, 8);
    if |rest| > 0 {
      assert (b + rest)[8..] == rest;
    }
  }

  lemma {:induction false} NumberOf(b: seq<bit>, rest: seq<bit>, i: nat, n: nat)
    requires i + n <= |b|
    ensures Number(b + rest, i, n) == Number(b, i, n)
    decreases n
  {
    if n == 0 {
    } else {
      NumberOf(b, rest, i + 1, n - 1);
    }
  }

  lemma CodeIs(x: nat, n: nat, b: seq<bit>)
    requires |b| == n <= 8 && forall i | 0 <= i < n :: b[i] == (x / Pow2(n - 1 - i)) % 2
    ensures CodeBits(x, n) == b
  {
    forall i | 0 <= i < n ensures CodeBits(x, n)[i] == b[i] {
      CodeBitsAt(x, n, i);
    }
  }

  lemma KnownCodes()
    ensures CodeBits(145, 8) == [1, 0, 0, 1, 0, 0, 0, 1] && CodeBits(146, 8) == [1, 0, 0, 1, 0, 0, 1, 0]
    ensures CodeBits(1, 7) == [0, 0, 0, 0, 0, 0, 1] && CodeBits(1, 5) == [0, 0, 0, 0, 1] && CodeBits(0, 7) == [0, 0, 0, 0, 0, 0, 0]
  {
    hide CodeBits;
    Pow2Values();
    CodeIs(145, 8, [1, 0, 0, 1, 0, 0, 0, 1]);
    CodeIs(146, 8, [1, 0, 0, 1, 0, 0, 1, 0]);
    CodeIs(1, 7, [0, 0, 0, 0, 0, 0, 1]);
    CodeIs(1, 5, [0, 0, 0, 0, 1]);
    CodeIs(0, 7, [0, 0, 0, 0, 0, 0, 0]);
  }

  lemma ByteIs(b: seq<bit>)
    requires |b| == 8
    ensures Number(b, 0, 8) == b[0] as int + 2 * b[1] as int + 4 * b[2] as int + 8 * b[3] as int + 16 * b[4] as int +
                               32 * b[5] as int + 64 * b[6] as int + 128 * b[7] as int
  {
    assert Number(b, 6, 2) == b[6] as int + 2 * b[7] as int;
    assert Number(b, 4, 4) == b[4] as int + 2 * (b[5] as int + 2 * Number(b, 6, 2));
    assert Number(b, 2, 6) == b[2] as int + 2 * (b[3] as int + 2 * Number(b, 4, 4));
  }

  /** A last byte of zeros. */
  lemma NoBits(b: seq<bit>)
    requires 0 < |b| <= 8 && forall i | 0 <= i < |b| :: b[i] == 0
    ensures Pack(b) == [0]
  {
    ZeroNumber(b, 0, 8);
  }

  lemma {:induction false} ZeroNumber(b: seq<bit>, i: nat, n: nat)
    requires forall i | 0 <= i < |b| :: b[i] == 0
    ensures Number(b, i, n) == 0
    decreases n
  {
    if n == 0 {
    } else {
      ZeroNumber(b, i + 1, n - 1);
    }
  }

  lemma KnownBytes(bs: seq<BlockData>)
    requires bs == [Fixed(KnownElements())]
    ensures Encode([], bs, []) == [0x4b, 0x4c, 0x02, 0x42, 0x00]
  {
    hide StreamBits, Flat, Number, Pack, CodeBits, KnownElements;
    KnownBits(bs);
    KnownCodes();
    var b0: seq<bit>, b1: seq<bit>, b2: seq<bit>, b3: seq<bit>, b4: seq<bit> :=
      [1, 1, 0, 1, 0, 0, 1, 0], [0, 0, 1, 1, 0, 0, 1, 0], [0, 1, 0, 0, 0, 0, 0, 0], [0, 1, 0, 0, 0, 0, 1, 0], [0, 0, 0, 0, 0, 0];
    assert Flat(StreamBits(bs, 0)) == b0 + (b1 + (b2 + (b3 + b4)));
    PackNext(b0, b1 + (b2 + (b3 + b4)));
    PackNext(b1, b2 + (b3 + b4));
    PackNext(b2, b3 + b4);
    PackNext(b3, b4);
    ByteIs(b0);
    ByteIs(b1);
    ByteIs(b2);
    ByteIs(b3);
    NoBits(b4);
  }
}
