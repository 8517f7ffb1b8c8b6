/** Two truncated streams that the decoder accepts: a short one, and one that ends as far past its
    input as any can. */
module DeflateTruncated {
  import opened Bits
  import opened Canonical
  import opened DeflateTables
  import opened FixedCodes
  import opened Deflate
  import opened DeflateBits
  import opened DeflateFormat
  import opened DeflateFits
  import opened DeflateReach
  import opened DeflateSymbols
  import opened DeflateElements
  import opened DeflateStreams
  import opened DeflateEncoding
  import opened DeflateOverrun

  // ---------------------------------------------------------------- any lengths can be announced

  function PlainRuns(ls: seq<nat>): (us: seq<Run>)
    ensures |us| == |ls|
  {
    seq(|ls|, i requires 0 <= i < |ls| => Len(ls[i]))
  }

  lemma {:induction false} PlainExpand(ls: seq<nat>, acc: seq<nat>)
    ensures ExpandRuns(PlainRuns(ls), acc) == Some(acc + ls)
    decreases |ls|
  {
    if |ls| == 0 {
      assert acc + ls == acc;
    } else {
      assert PlainRuns(ls)[1..] == PlainRuns(ls[1..]);
      PlainExpand(ls[1..], acc + [ls[0]]);
      assert acc + [ls[0]] + ls[1..] == acc + ls;
    }
  }

  /** The code-length code in which every length 0 to 15 has four bits. */
  function PlainCl(): (cl: seq<nat>)
    ensures |cl| == 19
  {
    seq(19, k => if k < 16 then 4 else 0)
  }

  function PlainCls(): (cls: seq<nat>)
    ensures |cls| == 19 && forall i | 0 <= i < 19 :: cls[i] < 8
  {
    seq(19, i => if i < 3 then 0 else 4)
  }

  lemma PlainClFrom()
    ensures ClFrom(PlainCls()) == PlainCl()
  {
  }

  lemma {:induction false} PlainRank(n: nat, l: nat)
    requires n <= 19 && l > 0
    ensures Rank(PlainCl(), n, l) == if l == 4 then Clamp(n, 16) else 0
    decreases n
  {
    if n == 0 {
    } else {
      PlainRank(n - 1, l);
    }
  }

  lemma PlainUsable()
    ensures Usable(PlainCl())
  {
    var f := PlainCl();
    Pow2Values();
    forall j: nat ensures Count(f, j) == if j == 4 then 16 else 0 {
      if j > 0 {
        PlainRank(19, j);
      }
    }
    NoneBelow(f, 3);
    forall l | 1 <= l <= 15 ensures Upper(f, l) <= Pow2(l) {
      if l < 4 {
        NoneBelow(f, l);
      } else {
        Complete(f, 4, l);
      }
    }
  }

  lemma {:induction false} PlainRunsOk(ls: seq<nat>)
    requires forall i | 0 <= i < |ls| :: ls[i] <= 15
    ensures RunsOk(PlainCl(), PlainRuns(ls))
    decreases |ls|
  {
    if |ls| == 0 {
    } else {
      assert PlainRuns(ls)[1..] == PlainRuns(ls[1..]);
      PlainRunsOk(ls[1..]);
    }
  }

  function PlainHead(lit: seq<nat>, dist: seq<nat>): Head
  {
    Head(|lit|, |dist|, PlainCls(), PlainRuns(lit + dist))
  }

  /** Every two length lists that leave room for their codes can be announced by a dynamic head. */
  lemma PlainHeadOk(lit: seq<nat>, dist: seq<nat>)
    requires Usable(lit) && Usable(dist) && 257 <= |lit| <= 288 && 1 <= |dist| <= 32
    ensures var h := PlainHead(lit, dist);
      HeadOk(h) && HeadCl(h) == PlainCl() && HeadLit(h) == lit && HeadDist(h) == dist
  {
    var h := PlainHead(lit, dist);
    PlainClFrom();
    PlainUsable();
    PlainRunsOk(lit + dist);
    PlainExpand(lit + dist, []);
    assert [] + (lit + dist) == lit + dist;
    assert (lit + dist)[..|lit|] == lit && (lit + dist)[|lit|..] == dist;
    HeadOkOf(h, lit + dist);
  }

  // ---------------------------------------------------------------- the codes of the long example

  /** 254 literals with nine bits, the end of block with eight, one length symbol with fifteen. */
  function LongLit(): (r: seq<nat>)
    ensures |r| == 282
  {
    seq(282, i => if i < 254 then 9 else if i == 256 then 8 else if i == 281 then 15 else 0)
  }

  /** A single distance symbol, with fifteen bits. */
  function LongDist(): (r: seq<nat>)
    ensures |r| == 31
  {
    seq(31, i => if i == 28 then 15 else 0)
  }

  lemma {:induction false} LongLitRank(n: nat, l: nat)
    requires n <= 282 && l > 0
    ensures Rank(LongLit(), n, l) ==
            if l == 9 then Clamp(n, 254)
            else if l == 8 then Clamp(n - 256, 1)
            else if l == 15 then Clamp(n - 281, 1)
            else 0
    decreases n
  {
    if n == 0 {
    } else {
      LongLitRank(n - 1, l);
    }
  }

  lemma {:induction false} LongDistRank(n: nat, l: nat)
    requires n <= 31 && l > 0
    ensures Rank(LongDist(), n, l) == if l == 15 then Clamp(n - 28, 1) else 0
    decreases n
  {
    if n == 0 {
    } else {
      LongDistRank(n - 1, l);
    }
  }

  lemma LongLitUpper(l: nat)
    requires 1 <= l <= 15
    ensures Upper(LongLit(), l) ==
            if l < 8 then 0 else if l == 8 then 1 else if l < 15 then Pow2(l - 1) else Pow2(14) + 1
    ensures First(LongLit(), 8) == 0 && First(LongLit(), 15) == Pow2(14)
  {
    var f := LongLit();
    forall j | 1 <= j <= 15 ensures Count(f, j) == if j == 9 then 254 else if j == 8 || j == 15 then 1 else 0 {
      LongLitRank(282, j);
    }
    Pow2Values();
    NoneBelow(f, 7);
    Halves(f, 9, 14);
    if l < 8 {
      NoneBelow(f, l);
    } else if 9 < l < 15 {
      Halves(f, 9, l);
    }
  }

  /** Half of the codes of each length are used as long as no longer code comes. */
  lemma {:induction false} Halves(lens: seq<nat>, l: nat, k: nat)
    requires 0 < l <= k && Upper(lens, l) == Pow2(l - 1) && forall j | l < j <= k :: Count(lens, j) == 0
    ensures Upper(lens, k) == Pow2(k - 1)
    decreases k
  {
    if l == k {
    } else {
      Halves(lens, l, k - 1);
    }
  }

  lemma LongUsable()
    ensures Usable(LongLit()) && Usable(LongDist())
    ensures Code(LongLit(), 256) == 0 && Code(LongLit(), 281) == 16384 && Code(LongDist(), 28) == 0
  {
    Pow2Values();
    forall l | 1 <= l <= 15 ensures Upper(LongLit(), l) <= Pow2(l) {
      LongLitUpper(l);
    }
    LongLitUpper(15);
    LongLitRank(256, 8);
    LongLitRank(281, 15);
    LongDistUsable();
  }

  lemma LongDistUsable()
    ensures Usable(LongDist()) && Code(LongDist(), 28) == 0
  {
    var f := LongDist();
    forall j | 1 <= j <= 15 ensures Count(f, j) == if j == 15 then 1 else 0 {
      LongDistRank(31, j);
    }
    NoneBelow(f, 14);
    forall l | 1 <= l <= 15 ensures Upper(f, l) <= Pow2(l) {
      if l < 15 {
        NoneBelow(f, l);
      }
    }
    LongDistRank(28, 15);
  }

  // ---------------------------------------------------------------- the long example

  /** The length symbol 281 and the distance symbol 28, with all extra bits zero: 48 bits. */
  const COPY := Pair(24, 0, 28, 0)

  function LongHead(): Head
  {
    PlainHead(LongLit(), LongDist())
  }

  function LongElements(): seq<Element>
  {
    [Lit(0), COPY, COPY]
  }

  /** 16385 stored bytes, so that the copies have something to copy, then the dynamic block. */
  function LongStream(): (bs: seq<BlockData>)
    ensures |bs| == 2
  {
    [Raw(0, seq(16385, i => 0)), Own(LongHead(), LongElements())]
  }

  /** The second block starts here. */
  const BASE: nat := 131120

  /** The input ends 55 bits before the stream does. */
  const LAST: nat := BASE + 1384

  lemma Bases()
    ensures LenBase(24) == 131 && DstBase(28) == 16385
  {
    hide LenBase, DstBase;
    LenBase24();
    DstBase28();
  }

  lemma LenBase24()
    ensures LenBase(24) == 131
  {
    Pow2Values();
    assert LenBase(8) == 11;
    assert LenBase(16) == 35;
  }

  lemma DstBase28()
    ensures DstBase(28) == 16385
  {
    Pow2Values();
    assert DstBase(8) == 17;
    assert DstBase(16) == 257;
    assert DstBase(22) == 2049;
  }

  lemma LongElementsOk()
    ensures ElementsOk(LongLit(), LongDist(), LongElements())
  {
    Pow2Values();
    var es := LongElements();
    assert es[1..] == [COPY, COPY] && es[1..][1..] == [COPY] && es[1..][1..][1..] == [];
    assert ElementOk(LongLit(), LongDist(), COPY);
  }

  lemma LongExpands(out: seq<byte>)
    requires |out| == 16385
    ensures Expand(LongElements(), out).Some?
  {
    hide LenBase, DstBase, Copy;
    Bases();
    var es := LongElements();
    assert es[1..] == [COPY, COPY] && es[1..][1..] == [COPY] && es[1..][1..][1..] == [];
    var o1 := ExpandOne(es[0], out).value;
    var o2 := ExpandOne(COPY, o1).value;
    assert Expand([COPY], o2).Some?;
    assert Expand([COPY, COPY], o1) == Expand([COPY], o2);
  }

  lemma RawAfter()
    ensures After(LongStream()[0], 0) == BASE
  {
    var b := LongStream()[0];
    EndCat(3, Num(b.pad, 5), RawBits(b.data));
    RawEnd([], 1, b.data);
  }

  lemma LongOk()
    ensures StreamOk(LongStream(), 0) && ExpandStream(LongStream(), []).Some?
  {
    var bs := LongStream();
    Pow2Values();
    LongUsable();
    PlainHeadOk(LongLit(), LongDist());
    LongElementsOk();
    LongExpands([] + bs[0].data);
    assert bs[1..] == [bs[1]] && bs[1..][1..] == [];
    assert BlockOk(bs[0], 3);
    assert BlockOk(bs[1], BASE + 3);
    RawAfter();
  }

  // ---------------------------------------------------------------- what is fetched for it

  function Fetched(x: nat): Reach
  {
    Reach(BASE + x, false)
  }

  /** Refilling at BASE + x goes up to the byte boundary BASE + 8 * m. */
  lemma RefillTo(f: nat, x: nat, m: nat)
    requires f <= 8 * m && x + 25 <= 8 * m < x + 33
    ensures Refill(Fetched(f), BASE + x) == Fetched(8 * m)
  {
    hide Aligned;
    AlignedByte(16390 + m);
    BoundaryIs(BASE + x + 25, BASE + 8 * m);
  }

  lemma {:induction false} ClsFetched(n: nat, cls: seq<nat>)
    requires |cls| <= 19
    ensures Reached(n, Fetched(32), BASE + 17, ClsBits(cls)) ==
            Some(Fetched(if |cls| <= 5 then 32 else if |cls| <= 15 then 64 else 88))
    ensures EndOf(BASE + 17, ClsBits(cls)) == BASE + 17 + 3 * |cls|
    decreases |cls|
  {
    if |cls| == 0 {
    } else {
      var k := |cls| - 1;
      ClsFetched(n, cls[..k]);
      ReachedCat(n, Fetched(32), BASE + 17, ClsBits(cls[..k]), Num(cls[k], 3));
      EndCat(BASE + 17, ClsBits(cls[..k]), Num(cls[k], 3));
      if k == 5 {
        RefillTo(32, 32, 8);
      } else if k == 15 {
        RefillTo(64, 62, 11);
      }
    }
  }

  /** What is fetched after i four-bit codes. */
  function AfterCodes(i: nat): nat
  {
    88 + 16 * ((i + 3) / 4)
  }

  lemma RunFetched(n: nat, i: nat, l: nat)
    requires n >= LAST && i < 313 && l <= 15
    ensures Reached(n, Fetched(AfterCodes(i)), BASE + 74 + 4 * i, RunBits(PlainCl(), Len(l))) == Some(Fetched(AfterCodes(i + 1)))
    ensures EndOf(BASE + 74 + 4 * i, RunBits(PlainCl(), Len(l))) == BASE + 74 + 4 * (i + 1)
  {
    hide AfterCodes, FetchCode, RunBits, Reached;
    RunReached(n, Fetched(AfterCodes(i)), BASE + 74 + 4 * i, PlainCl(), Len(l));
    CodeFetched(n, i);
  }

  lemma {:induction false} RunsFetched(n: nat, ls: seq<nat>, i: nat)
    requires n >= LAST && i + |ls| == 313 && forall j | 0 <= j < |ls| :: ls[j] <= 15
    ensures Reached(n, Fetched(AfterCodes(i)), BASE + 74 + 4 * i, RunsBits(PlainCl(), PlainRuns(ls))) ==
            Some(Fetched(AfterCodes(313)))
    ensures EndOf(BASE + 74 + 4 * i, RunsBits(PlainCl(), PlainRuns(ls))) == BASE + 1326
    decreases |ls|
  {
    hide AfterCodes, RunBits, Fetched, PlainCl;
    if |ls| == 0 {
    } else {
      var us, x := PlainRuns(ls), 74 + 4 * i;
      assert us[1..] == PlainRuns(ls[1..]);
      ReachedCat(n, Fetched(AfterCodes(i)), BASE + x, RunBits(PlainCl(), us[0]), RunsBits(PlainCl(), us[1..]));
      EndCat(BASE + x, RunBits(PlainCl(), us[0]), RunsBits(PlainCl(), us[1..]));
      RunFetched(n, i, ls[0]);
      RunsFetched(n, ls[1..], i + 1);
    }
  }

  lemma CodeFetched(n: nat, i: nat)
    requires n >= LAST && i < 313
    ensures FetchCode(n, Fetched(AfterCodes(i)), BASE + 74 + 4 * i) == Some(Fetched(AfterCodes(i + 1)))
    ensures 74 + 4 * (i + 1) <= AfterCodes(i + 1)
  {
    if i % 4 == 0 {
      RefillTo(AfterCodes(i), 74 + 4 * i, 11 + 2 * ((i + 4) / 4));
    }
  }

  lemma HeadFetched(n: nat)
    requires n >= LAST
    ensures Reached(n, Fetched(32), BASE + 3, HeadBits(LongHead())) == Some(Fetched(1352))
    ensures EndOf(BASE + 3, HeadBits(LongHead())) == BASE + 1326
  {
    hide Rank, Reached, EndOf, RunsBits, ClsBits, CountsBits, PlainRuns, PlainCls, PlainCl, ClFrom, LongLit, LongDist;
    var h := LongHead();
    PlainClFrom();
    LongSmall();
    CountsFetched(n, h.hlit, h.hdist, |h.cls|);
    ClsFetched(n, h.cls);
    RunsFetched(n, LongLit() + LongDist(), 0);
    ReachedThree(n, Fetched(32), BASE + 3, CountsBits(h.hlit, h.hdist, |h.cls|), ClsBits(h.cls), RunsBits(HeadCl(h), h.runs),
                 Fetched(32), BASE + 17, Fetched(88), BASE + 74);
  }

  lemma LongSmall()
    ensures forall j | 0 <= j < 313 :: (LongLit() + LongDist())[j] <= 15
  {
  }

  lemma CountsFetched(n: nat, hlit: nat, hdist: nat, k: nat)
    ensures Reached(n, Fetched(32), BASE + 3, CountsBits(hlit, hdist, k)) == Some(Fetched(32))
    ensures EndOf(BASE + 3, CountsBits(hlit, hdist, k)) == BASE + 17
  {
    var a, b, d := Num(Minus(hlit, 257), 5), Num(Minus(hdist, 1), 5), Num(Minus(k, 4), 4);
    ReachedThree(n, Fetched(32), BASE + 3, a, b, d, Fetched(32), BASE + 8, Fetched(32), BASE + 13);
  }

  /** A copy that starts with 17 bits fetched ends with 17 bits fetched, and never looks at where
      the input ends. */
  lemma CopyFetched(n: nat, k: nat)
    ensures var x := 8 * k + 7;
      && Reached(n, Fetched(x + 17), BASE + x, ElementBits(LongLit(), LongDist(), COPY)) == Some(Fetched(x + 65))
      && EndOf(BASE + x, ElementBits(LongLit(), LongDist(), COPY)) == BASE + x + 48
  {
    hide PairTail, ByteUp, Reached, Refill, EndOf, Sym;
    var x, tail := 8 * k + 7, PairTail(LongDist(), COPY);
    ReachedSym(n, Fetched(x + 17), BASE + x, LongLit(), 281);
    ReachedCat(n, Fetched(x + 17), BASE + x, Sym(LongLit(), 281), tail);
    EndCat(BASE + x, Sym(LongLit(), 281), tail);
    PairPieces([], LongDist(), COPY, BASE + x + 15);
    RefillTo(x + 17, x + 15, k + 6);
    PairReached(n, Fetched(x + 17), BASE + x + 15, LongDist(), COPY, Fetched(x + 41), BASE + x + 20);
    RefillTo(x + 41, x + 35, k + 9);
  }

  lemma LongLayout()
    ensures var copy, end := ElementBits(LongLit(), LongDist(), COPY), Sym(LongLit(), 256);
      ElementsBits(LongLit(), LongDist(), LongElements()) == Cat(Sym(LongLit(), 0), Cat(copy, Cat(copy, end)))
  {
    hide LongLit, LongDist, PairTail;
    var lit, dist, es := LongLit(), LongDist(), LongElements();
    var copy, end := ElementBits(lit, dist, COPY), Sym(lit, 256);
    assert es[1..] == [COPY, COPY] && es[1..][1..] == [COPY] && es[1..][1..][1..] == [];
    assert ElementsBits(lit, dist, es[1..][1..][1..]) == end;
    assert ElementsBits(lit, dist, es[1..][1..]) == Cat(copy, end);
    assert ElementsBits(lit, dist, es[1..]) == Cat(copy, Cat(copy, end));
  }

  lemma FirstFetched(n: nat)
    ensures Reached(n, Fetched(1352), BASE + 1326, Sym(LongLit(), 0)) == Some(Fetched(1352))
    ensures EndOf(BASE + 1326, Sym(LongLit(), 0)) == BASE + 1335
  {
  }

  lemma LastFetched(n: nat)
    ensures Reached(n, Fetched(1448), BASE + 1431, Sym(LongLit(), 256)) == Some(Fetched(1448))
    ensures EndOf(BASE + 1431, Sym(LongLit(), 256)) == BASE + 1439
  {
  }

  lemma ElementsFetched(n: nat)
    ensures DataReached(n, Fetched(1352), BASE + 1326, LongLit(), LongDist(), LongElements()) == Some(Fetched(1448))
    ensures EndOf(BASE + 1326, ElementsBits(LongLit(), LongDist(), LongElements())) == BASE + 1439
  {
    hide Reached, EndOf, Sym, LongLit, LongDist, LongElements, ElementsBits, ElementBits;
    var lit, dist := LongLit(), LongDist();
    var copy, end := ElementBits(lit, dist, COPY), Sym(lit, 256);
    LongLayout();
    FirstFetched(n);
    CopyFetched(n, 166);
    CopyFetched(n, 172);
    LastFetched(n);
    ReachedThree(n, Fetched(1352), BASE + 1335, copy, copy, end, Fetched(1400), BASE + 1383, Fetched(1448), BASE + 1431);
    ReachedCat(n, Fetched(1352), BASE + 1326, Sym(lit, 0), Cat(copy, Cat(copy, end)));
    EndCat(BASE + 1326, Sym(lit, 0), Cat(copy, Cat(copy, end)));
  }

  lemma OwnFetched(n: nat)
    requires n >= LAST
    ensures BlockReached(n, Fetched(32), BASE + 3, LongStream()[1]) == Some(Fetched(1448))
    ensures After(LongStream()[1], BASE) == LAST + 55
  {
    var b := LongStream()[1];
    LongUsable();
    PlainHeadOk(LongLit(), LongDist());
    HeadFetched(n);
    ElementsFetched(n);
    OwnLayout([], BASE + 3, b);
    OwnReached(n, Fetched(32), BASE + 3, b);
  }

  lemma RawFetched(n: nat)
    requires n >= LAST
    ensures BlockReached(n, HeaderReached(Reach(0, false), 0), 3, LongStream()[0]) == Some(Fetched(0))
    ensures HeaderReached(Fetched(0), BASE) == Fetched(32)
  {
    hide BlockBits;
    RawAfter();
    RefillTo(0, 0, 4);
  }

  /** A stream of two blocks. */
  lemma TwoReached(n: nat, r: Reach, pos: nat, a: BlockData, b: BlockData, t: Reach, u: Reach)
    requires BlockReached(n, HeaderReached(r, pos), pos + 3, a) == Some(t)
    requires BlockReached(n, HeaderReached(t, After(a, pos)), After(a, pos) + 3, b) == Some(u)
    ensures StreamReached(n, r, pos, [a, b]) == Some(u)
    ensures EndOf(pos, StreamBits([a, b], pos)) == After(b, After(a, pos))
  {
    hide BlockReached, HeaderReached, After, BlockBits, EndOf;
    assert [a, b][1..] == [b] && [b][1..] == [];
    StreamEnd(pos, [a, b]);
    StreamEnd(After(a, pos), [b]);
    assert StreamReached(n, t, After(a, pos), [b]) == Some(u);
    EndEmpty(After(b, After(a, pos)));
  }

  lemma EndEmpty(pos: nat)
    ensures EndOf(pos, Empty) == pos
  {
  }

  /** The decoder gets to the end of the long example in LAST bits. */
  lemma LongPasses()
    ensures Passes(LAST, false, LongStream()) && StreamStop(false, LongStream()) == LAST + 55
  {
    hide BlockReached, HeaderReached, After, BlockBits, EndOf, StreamReached, StreamBits, LongStream;
    var a, b := LongStream()[0], LongStream()[1];
    RawAfter();
    RawFetched(LAST);
    OwnFetched(LAST);
    TwoReached(LAST, Reach(0, false), 0, a, b, Fetched(0), Fetched(1448));
    assert LongStream() == [a, b];
  }

  // ---------------------------------------------------------------- cutting it off

  ghost predicate SameBits(s: seq<byte>, t: seq<byte>)
  {
    forall i: nat :: Bit(s, i) == Bit(t, i)
  }

  lemma {:induction false} ValSame(s: seq<byte>, t: seq<byte>, pos: nat, n: nat)
    requires SameBits(s, t)
    ensures Val(s, pos, n) == Val(t, pos, n)
    decreases n
  {
    if n == 0 {
    } else {
      ValSame(s, t, pos + 1, n - 1);
    }
  }

  lemma {:induction false} AtSame(s: seq<byte>, t: seq<byte>, pos: nat, l: Layout)
    requires SameBits(s, t) && At(s, pos, l)
    ensures At(t, pos, l)
    decreases l
  {
    match l
    case Empty =>
    case Num(_, n) => ValSame(s, t, pos, n);
    case Huff(_, n) => ValSame(s, t, pos, n);
    case Cat(a, b) =>
      AtSame(s, t, pos, a);
      AtSame(s, t, EndOf(pos, a), b);
  }

  /** A code of zeros, or of a one and then zeros, is there as these bits. */
  lemma CodeAsBits(s: seq<byte>, pos: nat, n: nat)
    requires n > 0
    ensures At(s, pos, Huff(0, n)) ==> Val(s, pos, n) == 0
    ensures At(s, pos, Huff(Pow2(n - 1), n)) ==> Val(s, pos + 1, n - 1) == 0
  {
    TopZero(n);
    TopZero(n - 1);
    TopTop(Val(s, pos, n), n);
    TopTop(1, n);
    assert Top(1, n) == Pow2(n - 1);
  }

  lemma ZeroBits(s: seq<byte>, pos: nat, n: nat, i: nat)
    requires Val(s, pos, n) == 0 && pos <= i < pos + n
    ensures Bit(s, i) == 0
  {
    BitOfVal(s, pos, n, i - pos);
    BitOfZero(i - pos);
  }

  lemma CopyPieces(s: seq<byte>, q: nat)
    requires At(s, q, ElementBits(LongLit(), LongDist(), COPY)) && At(s, q + 48, Sym(LongLit(), 256))
    ensures At(s, q, Huff(16384, 15)) && Val(s, q + 15, 5) == 0 && At(s, q + 20, Huff(0, 15))
    ensures Val(s, q + 35, 13) == 0 && At(s, q + 48, Huff(0, 8))
  {
    hide Val, Code, PairTail, Top, Usable, Pow2;
    LongUsable();
    AtCat(s, q, Sym(LongLit(), 281), PairTail(LongDist(), COPY));
    PairPieces(s, LongDist(), COPY, q + 15);
  }

  /** The last copy and the end of the block, after the first bit of the copy's length code. */
  lemma CopyZeros(s: seq<byte>, q: nat, i: nat)
    requires At(s, q, ElementBits(LongLit(), LongDist(), COPY)) && At(s, q + 48, Sym(LongLit(), 256)) && q < i < q + 56
    ensures Bit(s, i) == 0
  {
    hide At, Val, Bit, Code, Pow2;
    LongUsable();
    Pow2Values();
    CopyPieces(s, q);
    CodeAsBits(s, q, 15);
    CodeAsBits(s, q + 20, 15);
    CodeAsBits(s, q + 48, 8);
    if i < q + 15 {
      ZeroBits(s, q + 1, 14, i);
    } else if i < q + 20 {
      ZeroBits(s, q + 15, 5, i);
    } else if i < q + 35 {
      ZeroBits(s, q + 20, 15, i);
    } else if i < q + 48 {
      ZeroBits(s, q + 35, 13, i);
    } else {
      ZeroBits(s, q + 48, 8, i);
    }
  }

  lemma LongElementsThere(t: seq<byte>)
    requires At(t, 0, StreamBits(LongStream(), 0))
    ensures At(t, BASE + 1326, ElementsBits(LongLit(), LongDist(), LongElements()))
  {
    hide At, EndOf, StreamBits, HeadBits, ElementsBits, LongLit, LongDist, LongElements, HeadLit, HeadDist;
    var bs := LongStream();
    assert bs[1..] == [bs[1]];
    LongUsable();
    PlainHeadOk(LongLit(), LongDist());
    RawAfter();
    StreamLayout(t, 0, bs);
    StreamLayout(t, BASE, bs[1..]);
    OwnLayout(t, BASE + 3, bs[1]);
    HeadFetched(LAST);
  }

  lemma LastCopyThere(t: seq<byte>)
    requires At(t, 0, StreamBits(LongStream(), 0))
    ensures At(t, LAST - 1, ElementBits(LongLit(), LongDist(), COPY)) && At(t, LAST + 47, Sym(LongLit(), 256))
  {
    hide At, EndOf, StreamBits, LongStream, PairTail;
    var lit, dist, es := LongLit(), LongDist(), LongElements();
    var copy, end := ElementBits(lit, dist, COPY), Sym(lit, 256);
    LongElementsThere(t);
    LongLayout();
    CopyFetched(0, 166);
    CopyFetched(0, 172);
    AtCat(t, BASE + 1326, Sym(lit, 0), Cat(copy, Cat(copy, end)));
    ReachedSym(0, Fetched(0), BASE + 1326, lit, 0);
    AtCat(t, BASE + 1335, copy, Cat(copy, end));
    AtCat(t, BASE + 1383, copy, end);
  }

  /** Packed bits that end in zeros can be cut off there. */
  lemma CutBits(bits: seq<bit>, k: nat)
    requires 8 * k <= |bits| && forall i: nat | 8 * k <= i < |bits| :: Bit(Pack(bits), i) == 0
    ensures k <= |Pack(bits)| && SameBits(Pack(bits), Pack(bits)[..k])
  {
    hide Pack, Bit;
    var t := Pack(bits);
    var s := t[..k];
    forall i: nat ensures Bit(t, i) == Bit(s, i) {
      if i < 8 * k {
        assert s + t[k..] == t;
        BitBefore(s, t[k..], i);
      } else {
        BitPastEnd(s, i);
        PackBit(bits, i);
      }
    }
  }

  /** All bits of the long example, and zeros at its end. */
  lemma LongBits() returns (bits: seq<bit>)
    ensures |bits| == LAST + 55 && At(Pack(bits), 0, StreamBits(LongStream(), 0))
    ensures forall i: nat | LAST <= i < |bits| :: Bit(Pack(bits), i) == 0
  {
    hide Flat, StreamBits, LongStream, At, EndOf, Pack, Bit, Has;
    bits := Flat(StreamBits(LongStream(), 0));
    var t := Pack(bits);
    LongOk();
    LongPasses();
    StreamFits(LongStream(), 0);
    Written([], LongStream(), []);
    assert Encode([], LongStream(), []) == t;
    AtIsBits(t, 0, StreamBits(LongStream(), 0));
    LastCopyThere(t);
    forall i: nat | LAST <= i < |bits| ensures Bit(t, i) == 0 {
      CopyZeros(t, LAST - 1, i);
    }
  }

  /** The bytes of the long example, without its last 55 bits, all of which are zeros. */
  lemma Shortened() returns (s: seq<byte>)
    ensures 8 * |s| == LAST && At(s, 0, StreamBits(LongStream(), 0))
  {
    hide StreamBits, LongStream, At, Pack, Bit;
    var bits := LongBits();
    CutBits(bits, LAST / 8);
    s := Pack(bits)[..LAST / 8];
    AtSame(Pack(bits), s, 0, StreamBits(LongStream(), 0));
  }

  /** The bound on how far past its input an accepted stream can end is attained. */
  lemma OverrunAttained() returns (s: seq<byte>)
    ensures Stream(s, false, LongStream()) && StreamStop(false, LongStream()) == 8 * |s| + 55
    ensures ExpandStream(LongStream(), []).Some?
    ensures Inflate(s, |ExpandStream(LongStream(), []).value|, false) == ExpandStream(LongStream(), [])
  {
    LongOk();
    LongPasses();
    s := Shortened();
    InflateExact(s, |ExpandStream(LongStream(), []).value|, false, LongStream());
  }

  // ---------------------------------------------------------------- the short example

  /** The check does not catch every truncated stream: one byte holds a block header and the
      first five bits of the end-of-block code; the two missing bits are taken to be zeros. */
  lemma TruncatedAccepted()
    ensures Inflate([0x03], 1, false) == Some([])
    ensures Stream([0x03], false, [Fixed([])]) && StreamStop(false, [Fixed([])]) == 10
  {
    hide Inflate, Val, At;
    var s: seq<byte>, bs := [0x03], [Fixed([])];
    FixedUsable();
    ShortThere(s);
    ShortPasses();
    assert bs[1..] == [];
    InflateExact(s, 1, false, bs);
  }

  lemma ShortPasses()
    ensures Passes(8, false, [Fixed([])])
  {
    hide BlockBits, FixedLit;
    var r := Reach(0, false);
    assert [Fixed([])][1..] == [];
    assert ByteUp(25) == 4;
    assert HeaderReached(r, 0) == Reach(32, false);
    ShortBlock(Reach(32, false));
  }

  lemma ShortBlock(r: Reach)
    requires r == Reach(32, false)
    ensures BlockReached(8, r, 3, Fixed([])) == Some(r)
  {
  }

  lemma ShortThere(s: seq<byte>)
    requires s == [0x03]
    ensures Stream(s, false, [Fixed([])]) && StreamStop(false, [Fixed([])]) == 10
  {
    hide Val;
    assert [Fixed([])][1..] == [];
    StreamLayout(s, 0, [Fixed([])]);
    ShortVals(s);
    EndThere(s);
  }

  lemma ShortVals(s: seq<byte>)
    requires s == [0x03]
    ensures Val(s, 0, 1) == 1 && Val(s, 1, 2) == 1 && Val(s, 3, 5) == 0
  {
    ValBitsFrom(s, 0, 0, 1);
    ValBitsFrom(s, 0, 1, 2);
    ValBitsFrom(s, 0, 3, 5);
  }

  lemma EndThere(s: seq<byte>)
    requires s == [0x03]
    ensures FixedLit()[256] == 7 && At(s, 3, Sym(FixedLit(), 256))
  {
    hide Val, Top, Code;
    ShortVals(s);
    LitCodes(256);
    ValSplit(s, 3, 5, 2);
    ValPastEnd(s, 8, 2);
    TopZero(7);
  }
}
