/** Everything well-formed has numbers and codes that fit their widths. */
module DeflateFits {
  import opened Bits
  import opened Canonical
  import opened DeflateTables
  import opened FixedCodes
  import opened DeflateBits
  import opened DeflateFormat

  lemma FixedUsable()
    ensures Usable(FixedLit()) && Usable(FixedDist()) && FixedLit()[256] == 7
  {
    LitFits();
    DistFits();
  }

  lemma RunLengthsSmall(cl: seq<nat>, u: Run, acc: seq<nat>)
    requires RunOk(cl, u) && RunLengths(u, acc).Some? && forall i | 0 <= i < |acc| :: acc[i] <= 15
    ensures var more := acc + RunLengths(u, acc).value; forall i | 0 <= i < |more| :: more[i] <= 15
  {
  }

  lemma FitCat(a: Layout, b: Layout)
    requires Fit(a) && Fit(b)
    ensures Fit(Cat(a, b)) && |Flat(Cat(a, b))| >= |Flat(a)|
  {
  }

  lemma SymFits(lens: seq<nat>, z: nat)
    requires Usable(lens) && z < |lens| && lens[z] > 0
    ensures Fit(Sym(lens, z))
  {
    CodeBounds(lens, z);
  }

  lemma {:induction false} ElementsFit(lit: seq<nat>, dist: seq<nat>, es: seq<Element>)
    requires Usable(lit) && Usable(dist) && 256 < |lit| && lit[256] > 0 && ElementsOk(lit, dist, es)
    ensures Fit(ElementsBits(lit, dist, es))
    decreases |es|
  {
    if |es| == 0 {
      SymFits(lit, 256);
    } else {
      match es[0] {
        case Lit(b) => SymFits(lit, b);
        case Pair(lz, lx, dz, dx) =>
          SymFits(lit, 257 + lz);
          SymFits(dist, dz);
          FitCat(Sym(dist, dz), Num(dx, DstExtra(dz)));
          FitCat(Num(lx, LenExtra(lz)), Cat(Sym(dist, dz), Num(dx, DstExtra(dz))));
      }
      ElementsFit(lit, dist, es[1..]);
    }
  }

  lemma {:induction false} RunsFit(cl: seq<nat>, us: seq<Run>)
    requires Usable(cl) && RunsOk(cl, us)
    ensures Fit(RunsBits(cl, us))
    decreases |us|
  {
    if |us| == 0 {
    } else {
      SymFits(cl, RunSym(us[0]));
      RunsFit(cl, us[1..]);
    }
  }

  lemma {:induction false} ClsFit(cls: seq<nat>)
    requires forall i | 0 <= i < |cls| :: cls[i] < 8
    ensures Fit(ClsBits(cls))
    decreases |cls|
  {
    if |cls| == 0 {
    } else {
      Pow2Values();
      ClsFit(cls[..|cls| - 1]);
    }
  }

  lemma {:induction false} BytesFit(data: seq<byte>)
    ensures Fit(BytesBits(data))
    decreases |data|
  {
    if |data| == 0 {
    } else {
      Pow2Values();
      BytesFit(data[..|data| - 1]);
    }
  }

  lemma HeadFits(h: Head)
    requires HeadOk(h)
    ensures Fit(HeadBits(h))
  {
    ClFromSmall(h.cls);
    ClsFit(h.cls);
    RunsFit(HeadCl(h), h.runs);
    Pow2Values();
    var a, b, d := Num(Minus(h.hlit, 257), 5), Num(Minus(h.hdist, 1), 5), Num(Minus(|h.cls|, 4), 4);
    FitCat(b, d);
    FitCat(a, Cat(b, d));
    FitCat(ClsBits(h.cls), RunsBits(HeadCl(h), h.runs));
  }

  lemma {:induction false} ExpandRunsSmall(cl: seq<nat>, us: seq<Run>, acc: seq<nat>)
    requires RunsOk(cl, us) && ExpandRuns(us, acc).Some? && forall i | 0 <= i < |acc| :: acc[i] <= 15
    ensures forall i | 0 <= i < |ExpandRuns(us, acc).value| :: ExpandRuns(us, acc).value[i] <= 15
    decreases |us|
  {
    if |us| == 0 {
    } else {
      RunLengthsSmall(cl, us[0], acc);
      ExpandRunsSmall(cl, us[1..], acc + RunLengths(us[0], acc).value);
    }
  }

  lemma HeadUsable(h: Head)
    requires HeadOk(h)
    ensures Usable(HeadLit(h)) && Usable(HeadDist(h)) && |HeadLit(h)| == h.hlit
  {
    ExpandRunsSmall(HeadCl(h), h.runs, []);
  }

  lemma BlockFits(b: BlockData, pos: nat)
    requires BlockOk(b, pos)
    ensures Fit(BlockBits(b, pos))
  {
    hide BytesBits, FixedLit, FixedDist, HeadLit, HeadDist, Usable, Pow2, Flat, HeadBits, ElementsOk, ElementsBits;
    match b
    case Raw(_, data) =>
      Pow2Values();
      BytesFit(data);
      FitCat(Num(Minus(0xffff, |data|), 16), BytesBits(data));
      FitCat(Num(|data|, 16), Cat(Num(Minus(0xffff, |data|), 16), BytesBits(data)));
    case Fixed(es) =>
      FixedUsable();
      ElementsFit(FixedLit(), FixedDist(), es);
    case Own(h, es) =>
      HeadFits(h);
      HeadUsable(h);
      ElementsFit(HeadLit(h), HeadDist(h), es);
  }

  lemma {:induction false} StreamFits(bs: seq<BlockData>, pos: nat)
    requires StreamOk(bs, pos)
    ensures Fit(StreamBits(bs, pos)) && |Flat(StreamBits(bs, pos))| > 0
    decreases |bs|
  {
    Pow2Values();
    BlockFits(bs[0], pos + 3);
    if |bs| <= 1 {
    } else {
      StreamFits(bs[1..], After(bs[0], pos));
    }
    var body, rest := BlockBits(bs[0], pos + 3), StreamBits(bs[1..], After(bs[0], pos));
    FitCat(body, rest);
    FitCat(Num(Kind(bs[0]), 2), Cat(body, rest));
    FitCat(Num(if |bs| == 1 then 1 else 0, 1), Cat(Num(Kind(bs[0]), 2), Cat(body, rest)));
  }
}
