/** How far past the end of its input an accepted stream can end.  The decoder does not notice every
    truncated stream, but all bits it takes from beyond the end are zeros, and that bounds what it
    can make of them. */
module DeflateOverrun {
  import opened Bits
  import opened Canonical
  import opened DeflateTables
  import opened Deflate
  import opened DeflateBits
  import opened DeflateFormat
  import opened DeflateFits
  import opened DeflateReach
  import opened DeflateSymbols
  import opened DeflateElements
  import opened DeflateStreams
  import opened DeflateEncoding

  // ---------------------------------------------------------------- the code of zeros

  lemma {:induction false} TopZero(n: nat)
    ensures Top(0, n) == 0
  {
    if n == 0 {
    } else {
      TopZero(n - 1);
    }
  }

  /** A code found past the end is all zeros. */
  lemma ZeroCode(s: seq<byte>, lens: seq<nat>, pos: nat, z: nat)
    requires pos >= 8 * |s| && z < |lens| && At(s, pos, Sym(lens, z))
    ensures Code(lens, z) == 0
  {
    ValPastEnd(s, pos, lens[z]);
    TopZero(lens[z]);
  }

  /** Only one symbol has the code of zeros. */
  lemma ZeroUnique(lens: seq<nat>, i: nat, j: nat)
    requires Usable(lens) && i < |lens| && j < |lens| && lens[i] > 0 && lens[j] > 0
    requires Code(lens, i) == 0 && Code(lens, j) == 0
    ensures i == j
  {
    TopZero(lens[i]);
    TopZero(lens[j]);
    PrefixFree(lens, Prefixes(0), i, j);
  }

  // ---------------------------------------------------------------- how large codes can be

  lemma {:induction false} RankSpan(lens: seq<nat>, a: nat, b: nat, l: nat)
    requires a <= b <= |lens|
    ensures Rank(lens, b, l) <= Rank(lens, a, l) + (b - a)
    decreases b
  {
    if a == b {
    } else {
      RankSpan(lens, a, b - 1, l);
    }
  }

  /** Nothing is shorter than a code of zeros. */
  lemma {:induction false} FirstGrows(lens: seq<nat>, l: nat, m: nat)
    requires l < m
    ensures First(lens, m) >= 2 * Upper(lens, l)
    decreases m
  {
    if l + 1 == m {
    } else {
      FirstGrows(lens, l, m - 1);
    }
  }

  lemma ZeroShortest(lens: seq<nat>, e: nat, z: nat)
    requires e < |lens| && z < |lens| && lens[z] > 0 && Code(lens, e) == 0
    ensures lens[e] <= lens[z]
  {
    if lens[z] < lens[e] {
      CodeBounds(lens, z);
      FirstGrows(lens, lens[z], lens[e]);
    }
  }

  lemma ScaleUp(u: nat, p: nat, b: nat, c: nat)
    requires 2 * u <= p * b && p >= 1
    ensures 2 * (2 * u + c) <= (2 * p) * (b + c)
  {
    MulAtLeastZero(p - 1, c);
    assert (2 * p) * (b + c) == 2 * (p * b) + 2 * (p * c);
    assert p * c == (p - 1) * c + c;
  }

  lemma MulAtLeastZero(a: nat, b: nat)
    ensures a * b >= 0
  {
  }

  /** If the end-of-block symbol, 256, has the code of zeros, of m bits, then at most 32 codes have
      m bits and all others have more: the l-bit prefixes in use are few. */
  lemma {:induction false} UpperSmall(lens: seq<nat>, m: nat, l: nat)
    requires Usable(lens) && 256 < |lens| && 0 < m <= l && First(lens, m) == 0 && Rank(lens, 256, m) == 0
    ensures 2 * Upper(lens, l) <= Pow2(l - m) * (32 + Below(lens, |lens|, l + 1))
    decreases l
  {
    BelowSplit(lens, |lens|, l);
    if l == m {
      RankSpan(lens, 256, |lens|, m);
    } else {
      UpperSmall(lens, m, l - 1);
      assert Pow2(l - m) == 2 * Pow2(l - 1 - m);
      ScaleUp(Upper(lens, l - 1), Pow2(l - 1 - m), 32 + Below(lens, |lens|, l), Rank(lens, |lens|, l));
    }
  }

  lemma HalfBelow(u: nat, p: nat, x: nat)
    requires 2 * u <= p * x && x <= 512
    ensures u <= 256 * p
  {
    MulMono(x, 512, p);
  }

  lemma CodeSmall(lens: seq<nat>, z: nat)
    requires Usable(lens) && 256 < |lens| && z < |lens| && lens[256] > 0 && lens[z] > 0 && Code(lens, 256) == 0
    ensures lens[256] <= lens[z] && Code(lens, z) < Pow2(8 + (lens[z] - lens[256]))
  {
    hide Pow2, Below, First, Upper, Rank;
    var m, l := lens[256], lens[z];
    ZeroShortest(lens, 256, z);
    UpperSmall(lens, m, l);
    CodeBounds(lens, z);
    BelowSplit(lens, |lens|, l + 1);
    HalfBelow(Upper(lens, l), Pow2(l - m), 32 + Below(lens, |lens|, l + 1));
    Pow2Add(8, l - m);
    Pow2Values();
  }

  lemma {:induction false} Pow2Less(a: nat, b: nat)
    requires Pow2(a) < Pow2(b)
    ensures a < b
  {
    if b <= a {
      Pow2Mono(b, a);
    }
  }

  lemma MulTwice(t: nat, p: nat)
    ensures 2 * (t * p) == t * (2 * p)
  {
  }

  /** A code that starts d bits before the end of the input continues with zeros. */
  lemma {:induction false} TailZeros(s: seq<byte>, q: nat, d: nat, l: nat)
    requires q + d >= 8 * |s| && d <= l
    ensures Top(Val(s, q, l), l) == Top(Val(s, q, d), d) * Pow2(l - d)
    decreases l
  {
    hide Top, Val, Pow2, Bit, BitOf;
    if l == d {
      Pow2Next(0);
    } else {
      var t, p := Top(Val(s, q, d), d), Pow2(l - 1 - d);
      TailZeros(s, q, d, l - 1);
      TopStep(Val(s, q, l), l - 1);
      BitOfVal(s, q, l, l - 1);
      BitPastEnd(s, q + (l - 1));
      TopShorter(s, q, l - 1, l);
      Pow2Next(l - 1 - d);
      MulTwice(t, p);
    }
  }

  // ---------------------------------------------------------------- the last element

  /** A length code that starts inside the input and goes on past it: the shorter the end-of-block
      code, the nearer the end it can start. */
  lemma StartsEarly(s: seq<byte>, lit: seq<nat>, q: nat, z: nat)
    requires Usable(lit) && 256 < |lit| && lit[256] > 0 && Code(lit, 256) == 0
    requires 256 < z < |lit| && lit[z] > 0 && At(s, q, Sym(lit, z)) && q < 8 * |s| < q + lit[z]
    ensures lit[256] <= 8 * |s| - q + 7
  {
    hide Top, Val, Pow2, Code, Usable;
    var d, l := 8 * |s| - q, lit[z];
    TailZeros(s, q, d, l);
    CodeSmall(lit, z);
    if Code(lit, z) == 0 {
      ZeroUnique(lit, 256, z);
    } else {
      var t := Top(Val(s, q, d), d);
      assert t >= 1;
      MulAtLeast(t, Pow2(l - d));
      Pow2Less(l - d, 8 + (l - lit[256]));
    }
  }

  lemma PairLength(lit: seq<nat>, dist: seq<nat>, e: Element, q: nat)
    requires Lengths(lit) && Lengths(dist) && ElementOk(lit, dist, e) && e.Pair?
    ensures q + lit[257 + e.lz] < EndOf(q, ElementBits(lit, dist, e)) <= q + lit[257 + e.lz] + 33
  {
    EndCat(q, Sym(lit, 257 + e.lz), PairTail(dist, e));
    PairPieces([], dist, e, q + lit[257 + e.lz]);
  }

  /** An element that starts inside the input, followed by the end of the block past it. */
  lemma LastElement(s: seq<byte>, lit: seq<nat>, dist: seq<nat>, e: Element, q: nat)
    requires Usable(lit) && Usable(dist) && 256 < |lit| && lit[256] > 0 && ElementOk(lit, dist, e)
    requires q < 8 * |s| <= EndOf(q, ElementBits(lit, dist, e)) && At(s, q, ElementBits(lit, dist, e))
    requires At(s, EndOf(q, ElementBits(lit, dist, e)), Sym(lit, 256))
    ensures EndOf(q, ElementBits(lit, dist, e)) + lit[256] <= 8 * |s| + 55
  {
    if e.Pair? {
      var z := 257 + e.lz;
      ZeroCode(s, lit, EndOf(q, ElementBits(lit, dist, e)), 256);
      PairLength(lit, dist, e, q);
      AtCat(s, q, Sym(lit, z), PairTail(dist, e));
      if q + lit[z] > 8 * |s| {
        StartsEarly(s, lit, q, z);
      }
    }
  }

  /** Past the end, every code is the one of zeros; so is the end-of-block code. */
  lemma {:induction false} EndIsZero(s: seq<byte>, lit: seq<nat>, dist: seq<nat>, pos: nat, es: seq<Element>)
    requires pos >= 8 * |s| && 256 < |lit| && At(s, pos, ElementsBits(lit, dist, es))
    ensures Code(lit, 256) == 0
    decreases |es|
  {
    if |es| == 0 {
      ZeroCode(s, lit, pos, 256);
    } else {
      AtCat(s, pos, ElementBits(lit, dist, es[0]), ElementsBits(lit, dist, es[1..]));
      EndIsZero(s, lit, dist, EndOf(pos, ElementBits(lit, dist, es[0])), es[1..]);
    }
  }

  /** No element starts past the end. */
  lemma NoneAfter(s: seq<byte>, lit: seq<nat>, dist: seq<nat>, pos: nat, es: seq<Element>)
    requires Usable(lit) && 256 < |lit| && lit[256] > 0 && ElementsOk(lit, dist, es)
    requires pos >= 8 * |s| && At(s, pos, ElementsBits(lit, dist, es))
    ensures es == []
  {
    EndIsZero(s, lit, dist, pos, es);
    if |es| > 0 {
      AtCat(s, pos, ElementBits(lit, dist, es[0]), ElementsBits(lit, dist, es[1..]));
      var z := if es[0].Lit? then es[0].b else 257 + es[0].lz;
      if es[0].Pair? {
        AtCat(s, pos, Sym(lit, z), PairTail(dist, es[0]));
      }
      ZeroCode(s, lit, pos, z);
      ZeroUnique(lit, z, 256);
    }
  }

  lemma {:induction false} ElementsEnd(s: seq<byte>, lit: seq<nat>, dist: seq<nat>, pos: nat, es: seq<Element>)
    requires Usable(lit) && Usable(dist) && 256 < |lit| && lit[256] > 0 && ElementsOk(lit, dist, es)
    requires pos < 8 * |s| && At(s, pos, ElementsBits(lit, dist, es))
    ensures EndOf(pos, ElementsBits(lit, dist, es)) <= 8 * |s| + 55
    decreases |es|
  {
    if |es| == 0 {
    } else {
      var e, rest := ElementBits(lit, dist, es[0]), ElementsBits(lit, dist, es[1..]);
      AtCat(s, pos, e, rest);
      if EndOf(pos, e) < 8 * |s| {
        ElementsEnd(s, lit, dist, EndOf(pos, e), es[1..]);
      } else {
        NoneAfter(s, lit, dist, EndOf(pos, e), es[1..]);
        LastElement(s, lit, dist, es[0], pos);
      }
    }
  }

  // ---------------------------------------------------------------- the head of a dynamic block

  /** Reading one run fetches nothing once the input is exhausted: a run has at most 14 bits. */
  lemma RunFetches(n: nat, r: Reach, pos: nat, cl: seq<nat>, u: Run)
    requires |cl| == 19 && RunOk(cl, u) && cl[RunSym(u)] < 8 && Sane(n, r, pos) && r.fetched < n + 32
    requires Reached(n, r, pos, RunBits(cl, u)).Some?
    ensures var t := Reached(n, r, pos, RunBits(cl, u)).value;
      Sane(n, t, EndOf(pos, RunBits(cl, u))) && t.fetched < n + 32
  {
    RunReached(n, r, pos, cl, u);
  }

  lemma {:induction false} RunsFetch(n: nat, r: Reach, pos: nat, cl: seq<nat>, us: seq<Run>)
    requires |cl| == 19 && (forall i | 0 <= i < 19 :: cl[i] < 8) && RunsOk(cl, us)
    requires Sane(n, r, pos) && r.fetched < n + 32 && Reached(n, r, pos, RunsBits(cl, us)).Some?
    ensures var t := Reached(n, r, pos, RunsBits(cl, us)).value;
      Sane(n, t, EndOf(pos, RunsBits(cl, us))) && t.fetched < n + 32
    decreases |us|
  {
    if |us| == 0 {
    } else {
      ReachedCat(n, r, pos, RunBits(cl, us[0]), RunsBits(cl, us[1..]));
      EndCat(pos, RunBits(cl, us[0]), RunsBits(cl, us[1..]));
      RunFetches(n, r, pos, cl, us[0]);
      RunsFetch(n, Reached(n, r, pos, RunBits(cl, us[0])).value, EndOf(pos, RunBits(cl, us[0])), cl, us[1..]);
    }
  }

  /** Runs found past the end all have the code of zeros and no extra count. */
  ghost predicate ZeroRuns(cl: seq<nat>, us: seq<Run>)
  {
    |us| == 0 || (RunOk(cl, us[0]) && Code(cl, RunSym(us[0])) == 0 && RunX(us[0]) == 0 && ZeroRuns(cl, us[1..]))
  }

  lemma {:induction false} RunsPastEnd(s: seq<byte>, cl: seq<nat>, pos: nat, us: seq<Run>)
    requires |cl| == 19 && RunsOk(cl, us) && pos >= 8 * |s| && At(s, pos, RunsBits(cl, us))
    ensures ZeroRuns(cl, us)
    decreases |us|
  {
    if |us| == 0 {
    } else {
      var u := us[0];
      AtCat(s, pos, RunBits(cl, u), RunsBits(cl, us[1..]));
      AtCat(s, pos, Sym(cl, RunSym(u)), Num(RunX(u), RunXBits(u)));
      ZeroCode(s, cl, pos, RunSym(u));
      ValPastEnd(s, pos + cl[RunSym(u)], RunXBits(u));
      RunsPastEnd(s, cl, EndOf(pos, RunBits(cl, u)), us[1..]);
    }
  }

  /** Repeats of zero, or of zero lengths, give zeros only. */
  lemma {:induction false} OnlyZeros(cl: seq<nat>, u: Run, us: seq<Run>, acc: seq<nat>)
    requires Usable(cl) && ZeroRuns(cl, us) && RunOk(cl, u) && Code(cl, RunSym(u)) == 0 && u != Prev(0) && RunX(u) == 0
    requires (u.Len? ==> u.l == 0) && (forall i | 0 <= i < |acc| :: acc[i] == 0) && ExpandRuns(us, acc).Some?
    ensures forall i | 0 <= i < |ExpandRuns(us, acc).value| :: ExpandRuns(us, acc).value[i] == 0
    decreases |us|
  {
    if |us| == 0 {
    } else {
      ZeroUnique(cl, RunSym(u), RunSym(us[0]));
      ExpandRunsStep(us, acc);
      OnlyZeros(cl, u, us[1..], acc + RunLengths(us[0], acc).value);
    }
  }

  /** Plain lengths give one length each. */
  lemma {:induction false} OneEach(cl: seq<nat>, u: Run, us: seq<Run>, acc: seq<nat>)
    requires Usable(cl) && ZeroRuns(cl, us) && RunOk(cl, u) && Code(cl, RunSym(u)) == 0 && u.Len?
    requires ExpandRuns(us, acc).Some?
    ensures |ExpandRuns(us, acc).value| == |acc| + |us|
    decreases |us|
  {
    if |us| == 0 {
    } else {
      ZeroUnique(cl, RunSym(u), RunSym(us[0]));
      ExpandRunsStep(us, acc);
      OneEach(cl, u, us[1..], acc + RunLengths(us[0], acc).value);
    }
  }

  /** Nothing more is fetched for plain lengths past the end, so there cannot be many. */
  lemma {:induction false} FewPlain(n: nat, r: Reach, pos: nat, cl: seq<nat>, u: Run, us: seq<Run>)
    requires Usable(cl) && ZeroRuns(cl, us) && RunOk(cl, u) && Code(cl, RunSym(u)) == 0 && u.Len?
    requires Sane(n, r, pos) && r.fetched >= n && Reached(n, r, pos, RunsBits(cl, us)).Some?
    ensures |us| == 0 || pos + |us| <= r.fetched + 1
    decreases |us|
  {
    if |us| == 0 {
    } else {
      ZeroUnique(cl, RunSym(u), RunSym(us[0]));
      ReachedCat(n, r, pos, RunBits(cl, us[0]), RunsBits(cl, us[1..]));
      RunReached(n, r, pos, cl, us[0]);
      var f := FetchCode(n, r, pos).value;
      FetchCodeSane(n, r, pos, cl[RunSym(u)]);
      FewPlain(n, f, pos + cl[RunSym(u)], cl, u, us[1..]);
    }
  }

  /** The code lengths of a block that is accepted start inside the input. */
  lemma RunsStartInside(s: seq<byte>, r: Reach, pos: nat, h: Head)
    requires HeadOk(h) && HeadLit(h)[256] > 0 && At(s, pos, RunsBits(HeadCl(h), h.runs))
    requires Sane(8 * |s|, r, pos) && Reached(8 * |s|, r, pos, RunsBits(HeadCl(h), h.runs)).Some?
    ensures pos < 8 * |s|
  {
    if pos >= 8 * |s| {
      var all := HeadFacts(h);
      var cl, u := HeadCl(h), h.runs[0];
      RunsPastEnd(s, cl, pos, h.runs);
      ExpandRunsStep(h.runs, []);
      if u.Len? && u.l > 0 {
        OneEach(cl, u, h.runs, []);
        FewPlain(8 * |s|, r, pos, cl, u, h.runs);
      } else {
        OnlyZeros(cl, u, h.runs, []);
      }
    }
  }

  /** The decoder never gives up on plain numbers. */
  lemma CountsRead(n: nat, r: Reach, pos: nat, hlit: nat, hdist: nat, k: nat)
    ensures Reached(n, r, pos, CountsBits(hlit, hdist, k)).Some?
  {
    var a, b, d := Num(Minus(hlit, 257), 5), Num(Minus(hdist, 1), 5), Num(Minus(k, 4), 4);
    var t0 := FetchNum(r, pos, 5);
    ReachedThree(n, r, pos, a, b, d, t0, pos + 5, FetchNum(t0, pos + 5, 5), pos + 10);
  }

  lemma {:induction false} ClsRead(n: nat, r: Reach, pos: nat, cls: seq<nat>)
    ensures Reached(n, r, pos, ClsBits(cls)).Some?
    decreases |cls|
  {
    if |cls| == 0 {
    } else {
      ClsRead(n, r, pos, cls[..|cls| - 1]);
      ReachedCat(n, r, pos, ClsBits(cls[..|cls| - 1]), Num(cls[|cls| - 1], 3));
    }
  }

  /** What has been fetched when a dynamic block's runs start. */
  lemma HeadStart(s: seq<byte>, r: Reach, pos: nat, h: Head) returns (t: Reach, p: nat)
    requires HeadOk(h) && Sane(8 * |s|, r, pos) && At(s, pos, HeadBits(h))
    ensures Sane(8 * |s|, t, p) && At(s, p, RunsBits(HeadCl(h), h.runs))
    ensures Reached(8 * |s|, r, pos, HeadBits(h)) == Reached(8 * |s|, t, p, RunsBits(HeadCl(h), h.runs))
    ensures EndOf(pos, HeadBits(h)) == EndOf(p, RunsBits(HeadCl(h), h.runs))
  {
    var n := 8 * |s|;
    var counts, cls, us := CountsBits(h.hlit, h.hdist, |h.cls|), ClsBits(h.cls), RunsBits(HeadCl(h), h.runs);
    HeadFits(h);
    CountsRead(n, r, pos, h.hlit, h.hdist, |h.cls|);
    var t0 := Reached(n, r, pos, counts).value;
    ReachedSane(n, r, pos, counts);
    ClsRead(n, t0, EndOf(pos, counts), h.cls);
    t := Reached(n, t0, EndOf(pos, counts), cls).value;
    ReachedSane(n, t0, EndOf(pos, counts), cls);
    p := EndOf(EndOf(pos, counts), cls);
    ReachedThree(n, r, pos, counts, cls, us, t0, EndOf(pos, counts), t, p);
    AtCat(s, pos, counts, Cat(cls, us));
    AtCat(s, EndOf(pos, counts), cls, us);
  }

  /** A head that goes on past the end of the input has not fetched much more. */
  lemma HeadFetches(s: seq<byte>, r: Reach, pos: nat, h: Head)
    requires HeadOk(h) && HeadLit(h)[256] > 0 && Sane(8 * |s|, r, pos) && At(s, pos, HeadBits(h))
    requires Reached(8 * |s|, r, pos, HeadBits(h)).Some?
    ensures var t := Reached(8 * |s|, r, pos, HeadBits(h)).value;
      Sane(8 * |s|, t, EndOf(pos, HeadBits(h))) && t.fetched < 8 * |s| + 32
  {
    var t, p := HeadStart(s, r, pos, h);
    RunsStartInside(s, t, p, h);
    var all := HeadFacts(h);
    ClFromUnder(h);
    RunsFetch(8 * |s|, t, p, HeadCl(h), h.runs);
  }

  lemma ClFromUnder(h: Head)
    requires HeadOk(h)
    ensures forall i | 0 <= i < 19 :: HeadCl(h)[i] < 8
  {
  }

  // ---------------------------------------------------------------- blocks and streams

  lemma OwnEnd(s: seq<byte>, r: Reach, pos: nat, b: BlockData)
    requires b.Own? && BlockOk(b, pos) && At(s, pos, BlockBits(b, pos)) && Sane(8 * |s|, r, pos)
    requires BlockReached(8 * |s|, r, pos, b).Some?
    ensures EndOf(pos, BlockBits(b, pos)) <= 8 * |s| + 55
  {
    var lit, dist := HeadLit(b.head), HeadDist(b.head);
    var q := EndOf(pos, HeadBits(b.head));
    OwnLayout(s, pos, b);
    OwnReached(8 * |s|, r, pos, b);
    HeadUsable(b.head);
    if q < 8 * |s| {
      ElementsEnd(s, lit, dist, q, b.es);
    } else {
      NoneAfter(s, lit, dist, q, b.es);
      HeadFetches(s, r, pos, b.head);
      EmptyData(8 * |s|, Reached(8 * |s|, r, pos, HeadBits(b.head)).value, q, lit, dist);
    }
  }

  /** A block without elements ends within what was fetched for its end-of-block code. */
  lemma EmptyData(n: nat, r: Reach, q: nat, lit: seq<nat>, dist: seq<nat>)
    requires 256 < |lit| && Sane(n, r, q) && r.fetched < n + 32 && DataReached(n, r, q, lit, dist, []).Some?
    ensures EndOf(q, ElementsBits(lit, dist, [])) < n + 32
  {
  }

  lemma FixedEnd(s: seq<byte>, pos: nat, b: BlockData)
    requires b.Fixed? && BlockOk(b, pos) && At(s, pos, BlockBits(b, pos)) && pos <= 8 * |s| + 1
    ensures EndOf(pos, BlockBits(b, pos)) <= 8 * |s| + 55
  {
    FixedUsable();
    if pos < 8 * |s| {
      ElementsEnd(s, FixedLit(), FixedDist(), pos, b.es);
    } else {
      NoneAfter(s, FixedLit(), FixedDist(), pos, b.es);
    }
  }

  lemma BlockEnd(s: seq<byte>, r: Reach, pos: nat, b: BlockData)
    requires BlockOk(b, pos + 3) && At(s, pos + 3, BlockBits(b, pos + 3)) && Val(s, pos + 1, 2) == Kind(b)
    requires Sane(8 * |s|, r, pos + 3) && BlockReached(8 * |s|, r, pos + 3, b).Some?
    ensures After(b, pos) <= 8 * |s| + 55
  {
    hide BlockOk, At, BlockBits, Val, Sane, EndOf;
    KindPastEnd(s, pos + 1);
    match b
    case Raw(_, _) =>
    case Fixed(_) => FixedEnd(s, pos + 3, b);
    case Own(_, _) => OwnEnd(s, r, pos + 3, b);
  }

  lemma {:induction false} StreamEnds(s: seq<byte>, r: Reach, pos: nat, bs: seq<BlockData>)
    requires StreamOk(bs, pos) && At(s, pos, StreamBits(bs, pos)) && Sane(8 * |s|, r, pos)
    requires StreamReached(8 * |s|, r, pos, bs).Some?
    ensures EndOf(pos, StreamBits(bs, pos)) <= 8 * |s| + 55
    decreases |bs|
  {
    var h := HeaderReached(r, pos);
    StreamLayout(s, pos, bs);
    HeaderSane(8 * |s|, r, pos);
    if |bs| == 1 {
      BlockEnd(s, h, pos, bs[0]);
    } else {
      BlockReachedSane(8 * |s|, h, pos + 3, bs[0]);
      StreamEnds(s, BlockReached(8 * |s|, h, pos + 3, bs[0]).value, After(bs[0], pos), bs[1..]);
    }
  }

  /** Whatever comes out is what some well-formed stream of the zero-extended input stands for, and
      that stream ends less than seven bytes past the input. */
  lemma InflateSound(s: seq<byte>, max: nat, parseHeader: bool) returns (bs: seq<BlockData>)
    requires Inflate(s, max, parseHeader).Some?
    ensures (parseHeader ==> ZlibHeader(s)) && Stream(s, parseHeader, bs) && Passes(8 * |s|, parseHeader, bs)
    ensures StreamStop(parseHeader, bs) <= 8 * |s| + 55
    ensures Inflate(s, max, parseHeader) == ExpandStream(bs, []) && |ExpandStream(bs, []).value| <= max
  {
    bs := StreamSound(s, max, Cursor(Start(parseHeader), 0, false), []);
    InflateExact(s, max, parseHeader, bs);
    StreamEnds(s, Reach(Start(parseHeader), false), Start(parseHeader), bs);
  }
}
