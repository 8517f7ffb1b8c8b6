/** The DEFLATE format itself, with no decoder in sight: what blocks there are, what bits they
    are written as (sections 3.2.3 to 3.2.7 of RFC 1951), and what bytes they stand for. */
module DeflateFormat {
  import opened Bits
  import opened Canonical
  import opened DeflateTables
  import opened DeflateBits

  // ---------------------------------------------------------------- compressed data

  /** A literal byte, or a copy given by length and distance symbols with their extra bits. */
  datatype Element = Lit(b: byte) | Pair(lz: nat, lx: nat, dz: nat, dx: nat)

  /** Its symbols are in range and have codes; its extra bits fit. */
  ghost predicate ElementOk(lit: seq<nat>, dist: seq<nat>, e: Element)
  {
    match e
    case Lit(b) => b < |lit| && lit[b] > 0
    case Pair(lz, lx, dz, dx) =>
      && lz < 29 && 257 + lz < |lit| && lit[257 + lz] > 0 && lx < Pow2(LenExtra(lz))
      && dz < 30 && dz < |dist| && dist[dz] > 0 && dx < Pow2(DstExtra(dz))
  }

  /** A copy after its length symbol. */
  function PairTail(dist: seq<nat>, e: Element): (b: Layout)
    requires e.Pair?
  {
    Cat(Num(e.lx, LenExtra(e.lz)), Cat(Sym(dist, e.dz), Num(e.dx, DstExtra(e.dz))))
  }

  function ElementBits(lit: seq<nat>, dist: seq<nat>, e: Element): (b: Layout)
  {
    match e
    case Lit(b) => Sym(lit, b)
    case Pair(lz, lx, dz, dx) =>
      Cat(Sym(lit, 257 + lz), PairTail(dist, e))
  }

  ghost predicate ElementsOk(lit: seq<nat>, dist: seq<nat>, es: seq<Element>)
  {
    |es| == 0 || (ElementOk(lit, dist, es[0]) && ElementsOk(lit, dist, es[1..]))
  }

  /** The elements, then the end-of-block symbol. */
  function ElementsBits(lit: seq<nat>, dist: seq<nat>, es: seq<Element>): (b: Layout)
  {
    if |es| == 0 then Sym(lit, 256)
    else Cat(ElementBits(lit, dist, es[0]), ElementsBits(lit, dist, es[1..]))
  }

  /** What one element makes of the output, unless its distance reaches before the start. */
  function ExpandOne(e: Element, out: seq<byte>): (r: Option<seq<byte>>)
    ensures r.Some? ==> |r.value| >= |out|
  {
    match e
    case Lit(b) => Some(out + [b])
    case Pair(lz, lx, dz, dx) =>
      if 1 <= DstBase(dz) + dx <= |out| then Some(Copy(out, DstBase(dz) + dx, LenBase(lz) + lx)) else None
  }

  function Expand(es: seq<Element>, out: seq<byte>): (r: Option<seq<byte>>)
    ensures r.Some? ==> |r.value| >= |out|
    decreases |es|
  {
    if |es| == 0 then Some(out)
    else
      match ExpandOne(es[0], out)
      case None => None
      case Some(o) => Expand(es[1..], o)
  }

  // ---------------------------------------------------------------- dynamic code lengths

  /** A code length, or a repeat: of the previous length (16), of zero 3-10 times (17) or of zero
      11-138 times (18). */
  datatype Run = Len(l: nat) | Prev(x: nat) | Zeros(x: nat) | ManyZeros(x: nat)

  function RunSym(u: Run): nat
  {
    match u case Len(l) => l case Prev(_) => 16 case Zeros(_) => 17 case ManyZeros(_) => 18
  }

  function RunX(u: Run): nat
  {
    match u case Len(_) => 0 case Prev(x) => x case Zeros(x) => x case ManyZeros(x) => x
  }

  function RunXBits(u: Run): nat
  {
    match u case Len(_) => 0 case Prev(_) => 2 case Zeros(_) => 3 case ManyZeros(_) => 7
  }

  /** The decoder's view of the extra bits. */
  lemma RunXBitsAre(u: Run)
    ensures !u.Len? ==> RunXBits(u) == RepeatBits(RunSym(u))
  {
  }

  ghost predicate RunOk(cl: seq<nat>, u: Run)
  {
    |cl| == 19 && (u.Len? ==> u.l < 16) && cl[RunSym(u)] > 0 && RunX(u) < Pow2(RunXBits(u))
  }

  function RunBits(cl: seq<nat>, u: Run): (b: Layout)
  {
    Cat(Sym(cl, RunSym(u)), Num(RunX(u), RunXBits(u)))
  }

  /** The lengths a run adds after acc; a repeat needs something to repeat. */
  function RunLengths(u: Run, acc: seq<nat>): (r: Option<seq<nat>>)
    ensures r.Some? ==> |r.value| > 0
  {
    match u
    case Len(l) => Some([l])
    case Prev(x) => if |acc| == 0 then None else Some(Repeat(acc[|acc| - 1], 3 + x))
    case Zeros(x) => Some(Repeat(0, 3 + x))
    case ManyZeros(x) => Some(Repeat(0, 11 + x))
  }

  ghost predicate RunsOk(cl: seq<nat>, us: seq<Run>)
  {
    |us| == 0 || (RunOk(cl, us[0]) && RunsOk(cl, us[1..]))
  }

  function RunsBits(cl: seq<nat>, us: seq<Run>): (b: Layout)
  {
    if |us| == 0 then Empty else Cat(RunBits(cl, us[0]), RunsBits(cl, us[1..]))
  }

  function ExpandRuns(us: seq<Run>, acc: seq<nat>): (r: Option<seq<nat>>)
    ensures r.Some? ==> |r.value| >= |acc| + |us|
    decreases |us|
  {
    if |us| == 0 then Some(acc)
    else
      match RunLengths(us[0], acc)
      case None => None
      case Some(more) => ExpandRuns(us[1..], acc + more)
  }

  /** The head of a dynamic block: counts, the 3-bit lengths of the code-length alphabet in their
      peculiar order, and the runs that give all code lengths. */
  datatype Head = Head(hlit: nat, hdist: nat, cls: seq<nat>, runs: seq<Run>)

  function HeadCl(h: Head): (cl: seq<nat>)
    ensures |cl| == 19
  {
    ClFrom(h.cls)
  }

  ghost predicate HeadOk(h: Head)
  {
    match h
    case Head(hlit, hdist, cls, runs) =>
      && 257 <= hlit <= 288 && 1 <= hdist <= 32 && 4 <= |cls| <= 19
      && (forall i | 0 <= i < |cls| :: cls[i] < 8)
      && Codable(HeadCl(h)) && RunsOk(HeadCl(h), runs)
      && HeadLengths(h).Some?
      && Codable(HeadLit(h)) && Codable(HeadDist(h))
  }

  /** The literal/length lengths followed by the distance lengths; a run may cross from one to
      the other. */
  function HeadLengths(h: Head): (r: Option<seq<nat>>)
    ensures r.Some? ==> |r.value| == h.hlit + h.hdist
  {
    match ExpandRuns(h.runs, [])
    case None => None
    case Some(all) => if |all| == h.hlit + h.hdist then Some(all) else None
  }

  function HeadLit(h: Head): seq<nat>
  {
    if HeadLengths(h).Some? then HeadLengths(h).value[..h.hlit] else []
  }

  function HeadDist(h: Head): seq<nat>
  {
    if HeadLengths(h).Some? then HeadLengths(h).value[h.hlit..] else []
  }

  function Minus(a: nat, b: nat): nat { if a < b then 0 else a - b }

  function ClsBits(cls: seq<nat>): (b: Layout)
  {
    if |cls| == 0 then Empty else Cat(ClsBits(cls[..|cls| - 1]), Num(cls[|cls| - 1], 3))
  }

  /** HLIT, HDIST and HCLEN. */
  function CountsBits(hlit: nat, hdist: nat, n: nat): (b: Layout)
  {
    Cat(Num(Minus(hlit, 257), 5), Cat(Num(Minus(hdist, 1), 5), Num(Minus(n, 4), 4)))
  }

  function HeadBits(h: Head): (b: Layout)
  {
    Cat(CountsBits(h.hlit, h.hdist, |h.cls|), Cat(ClsBits(h.cls), RunsBits(HeadCl(h), h.runs)))
  }

  // ---------------------------------------------------------------- blocks and streams

  /** A stored block (with the ignored bits before its byte boundary), one compressed with the
      fixed codes, or one with its own. */
  datatype BlockData = Raw(pad: nat, data: seq<byte>)
                     | Fixed(es: seq<Element>)
                     | Own(head: Head, es: seq<Element>)

  function Kind(b: BlockData): nat
  {
    match b case Raw(_, _) => 0 case Fixed(_) => 1 case Own(_, _) => 2
  }

  /** A block may stand at bit pos, just after its three header bits. */
  ghost predicate BlockOk(b: BlockData, pos: nat)
  {
    match b
    case Raw(pad, data) => pad < Pow2(8 * ByteUp(pos) - pos) && |data| < 0x1_0000
    case Fixed(es) => ElementsOk(FixedLit(), FixedDist(), es)
    case Own(h, es) =>
      HeadOk(h) && HeadLit(h)[256] > 0 && ElementsOk(HeadLit(h), HeadDist(h), es)
  }

  function BytesBits(data: seq<byte>): (b: Layout)
  {
    if |data| == 0 then Empty else Cat(BytesBits(data[..|data| - 1]), Num(data[|data| - 1], 8))
  }

  /** LEN, its complement NLEN, and the bytes. */
  function RawBits(data: seq<byte>): (b: Layout)
  {
    Cat(Num(|data|, 16), Cat(Num(Minus(0xffff, |data|), 16), BytesBits(data)))
  }

  function BlockBits(b: BlockData, pos: nat): (r: Layout)
  {
    match b
    case Raw(pad, data) => Cat(Num(pad, 8 * ByteUp(pos) - pos), RawBits(data))
    case Fixed(es) => ElementsBits(FixedLit(), FixedDist(), es)
    case Own(h, es) => Cat(HeadBits(h), ElementsBits(HeadLit(h), HeadDist(h), es))
  }

  /** What a block makes of the output so far. */
  function ExpandBlock(b: BlockData, out: seq<byte>): (r: Option<seq<byte>>)
    ensures r.Some? ==> |r.value| >= |out|
  {
    match b
    case Raw(_, data) => Some(out + data)
    case Fixed(es) => Expand(es, out)
    case Own(_, es) => Expand(es, out)
  }

  /** Where a block that starts at bit pos ends. */
  function After(b: BlockData, pos: nat): nat
  {
    EndOf(pos + 3, BlockBits(b, pos + 3))
  }

  /** Consecutive blocks from bit pos. */
  ghost predicate StreamOk(bs: seq<BlockData>, pos: nat)
    decreases |bs|
  {
    && |bs| > 0 && BlockOk(bs[0], pos + 3)
    && (|bs| > 1 ==> StreamOk(bs[1..], After(bs[0], pos)))
  }

  /** Each block after its header: one bit marking the last, two for the kind. */
  function StreamBits(bs: seq<BlockData>, pos: nat): (r: Layout)
    decreases |bs|
  {
    if |bs| == 0 then Empty
    else
      Cat(Num(if |bs| == 1 then 1 else 0, 1),
          Cat(Num(Kind(bs[0]), 2), Cat(BlockBits(bs[0], pos + 3), StreamBits(bs[1..], After(bs[0], pos)))))
  }

  /** The bytes a stream stands for, if no distance reaches before the start. */
  function ExpandStream(bs: seq<BlockData>, out: seq<byte>): (r: Option<seq<byte>>)
    ensures r.Some? ==> |r.value| >= |out|
    decreases |bs|
  {
    if |bs| == 0 then Some(out)
    else
      match ExpandBlock(bs[0], out)
      case None => None
      case Some(o) => ExpandStream(bs[1..], o)
  }
}
