/** How far into its input the decoder has fetched after reading a piece of a stream.  It is a
    function of the widths of the pieces and of the length of the input alone: no bit is looked
    at.  It decides which of the streams that run past the end of the input are noticed. */
module DeflateReach {
  import opened Bits
  import opened Canonical
  import opened DeflateTables
  import opened DeflateBits
  import opened DeflateFormat
  import opened DeflateFits

  /** Bits fetched so far, in bytes of the input and zero bytes after it; and whether the Huffman
      decoder has, once, counted 16 more that were never fetched. */
  datatype Reach = Reach(fetched: nat, padded: bool)
  {
    /** The bits that the reader believes it has. */
    function Counted(): (n: nat)
      ensures n >= fetched
    {
      fetched + if padded then 16 else 0
    }
  }

  /** Bytes are fetched until more than 24 bits after pos are counted. */
  function Refill(r: Reach, pos: nat): (t: Reach)
    ensures r.fetched <= t.fetched && pos + 25 <= t.Counted() && t.padded == r.padded
    ensures r.Counted() <= pos + 32 ==> t.Counted() <= pos + 32
  {
    var all := 8 * ByteUp(pos + 25);
    if all < r.Counted() then r else Reach(all - (if r.padded then 16 else 0), r.padded)
  }

  /** A number of w bits is asked for at pos. */
  function FetchNum(r: Reach, pos: nat, w: nat): Reach
  {
    if pos + w <= r.Counted() then r else Refill(r, pos)
  }

  /** A code is asked for at pos, in an input of n bits: 16 bits must be counted.  At the end of
      the input they are padded, once; the second time the decoder gives up. */
  function FetchCode(n: nat, r: Reach, pos: nat): Option<Reach>
  {
    if pos + 16 <= r.Counted() then Some(r)
    else if r.fetched < n then Some(Refill(r, pos))
    else if r.padded then None
    else Some(Reach(r.fetched, true))
  }

  /** After a piece of a stream, or None when the decoder gives up inside it. */
  function Reached(n: nat, r: Reach, pos: nat, l: Layout): Option<Reach>
    decreases l
  {
    match l
    case Empty => Some(r)
    case Num(_, w) => Some(FetchNum(r, pos, w))
    case Huff(_, w) => FetchCode(n, r, pos)
    case Cat(a, b) =>
      match Reached(n, r, pos, a)
      case None => None
      case Some(t) => Reached(n, t, EndOf(pos, a), b)
  }

  /** Only if everything up to end has been fetched. */
  function Within(end: nat, r: Option<Reach>): Option<Reach>
  {
    if r.Some? && end <= r.value.fetched then r else None
  }

  /** After a block whose three header bits end at pos.  A stored block must end inside the input;
      a compressed one must end within what has been fetched. */
  function BlockReached(n: nat, r: Reach, pos: nat, b: BlockData): Option<Reach>
  {
    var end := EndOf(pos, BlockBits(b, pos));
    if b.Raw? then if end <= n then Some(Reach(end, r.padded)) else None
    else Within(end, Reached(n, r, pos, BlockBits(b, pos)))
  }

  /** After the header bits of a block at pos. */
  function HeaderReached(r: Reach, pos: nat): Reach
  {
    FetchNum(FetchNum(r, pos, 1), pos + 1, 2)
  }

  function StreamReached(n: nat, r: Reach, pos: nat, bs: seq<BlockData>): Option<Reach>
    decreases |bs|
  {
    if |bs| == 0 then Some(r)
    else
      match BlockReached(n, HeaderReached(r, pos), pos + 3, bs[0])
      case None => None
      case Some(t) => StreamReached(n, t, After(bs[0], pos), bs[1..])
  }

  /** What the reader keeps: at most 32 bits ahead of pos are counted, and it pads only at the end
      of the input. */
  predicate Sane(n: nat, r: Reach, pos: nat)
  {
    pos <= r.Counted() <= pos + 32 && (r.padded ==> n <= r.fetched)
  }

  lemma FetchNumSane(n: nat, r: Reach, pos: nat, w: nat)
    requires Sane(n, r, pos) && w <= 16
    ensures Sane(n, FetchNum(r, pos, w), pos + w)
  {
  }

  lemma FetchCodeSane(n: nat, r: Reach, pos: nat, w: nat)
    requires Sane(n, r, pos) && w <= 15 && FetchCode(n, r, pos).Some?
    ensures Sane(n, FetchCode(n, r, pos).value, pos + w)
  {
  }

  lemma {:induction false} ReachedSane(n: nat, r: Reach, pos: nat, l: Layout)
    requires Sane(n, r, pos) && Fit(l) && Reached(n, r, pos, l).Some?
    ensures Sane(n, Reached(n, r, pos, l).value, EndOf(pos, l))
    decreases l
  {
    match l
    case Empty =>
    case Num(_, w) => FetchNumSane(n, r, pos, w);
    case Huff(_, w) => FetchCodeSane(n, r, pos, w);
    case Cat(a, b) =>
      ReachedSane(n, r, pos, a);
      ReachedSane(n, Reached(n, r, pos, a).value, EndOf(pos, a), b);
  }

  lemma HeaderSane(n: nat, r: Reach, pos: nat)
    requires Sane(n, r, pos)
    ensures Sane(n, HeaderReached(r, pos), pos + 3)
  {
    FetchNumSane(n, r, pos, 1);
    FetchNumSane(n, FetchNum(r, pos, 1), pos + 1, 2);
  }

  lemma ReachedSym(n: nat, r: Reach, pos: nat, lens: seq<nat>, z: nat)
    requires z < |lens|
    ensures Reached(n, r, pos, Sym(lens, z)) == FetchCode(n, r, pos) && EndOf(pos, Sym(lens, z)) == pos + lens[z]
  {
  }

  lemma ReachedCat(n: nat, r: Reach, pos: nat, a: Layout, b: Layout)
    ensures Reached(n, r, pos, Cat(a, b)) ==
            if Reached(n, r, pos, a).None? then None
            else Reached(n, Reached(n, r, pos, a).value, EndOf(pos, a), b)
  {
  }

  // ---------------------------------------------------------------- inside the input

  /** The decoder never gives up inside its input, and has fetched what it consumed. */
  lemma {:induction false} ReachedInside(n: nat, r: Reach, pos: nat, l: Layout)
    requires Sane(n, r, pos) && Fit(l) && EndOf(pos, l) <= n
    ensures Reached(n, r, pos, l).Some?
    ensures EndOf(pos, l) <= Reached(n, r, pos, l).value.fetched
    decreases l
  {
    match l
    case Empty =>
    case Num(_, w) => FetchNumSane(n, r, pos, w);
    case Huff(_, w) => FetchCodeSane(n, r, pos, w);
    case Cat(a, b) =>
      ReachedInside(n, r, pos, a);
      ReachedSane(n, r, pos, a);
      ReachedInside(n, Reached(n, r, pos, a).value, EndOf(pos, a), b);
  }

  lemma RawLength(b: BlockData, pos: nat)
    requires b.Raw?
    ensures EndOf(pos, BlockBits(b, pos)) >= pos + 32
  {
    var k := 8 * ByteUp(pos);
    var len, nlen := Num(|b.data|, 16), Num(Minus(0xffff, |b.data|), 16);
    EndCat(pos, Num(b.pad, k - pos), RawBits(b.data));
    EndCat(k, len, Cat(nlen, BytesBits(b.data)));
    EndCat(k + 16, nlen, BytesBits(b.data));
  }

  /** A stored block is never accepted once the reader has padded. */
  lemma RawUnpadded(n: nat, r: Reach, pos: nat, b: BlockData)
    requires Sane(n, r, pos) && b.Raw? && BlockReached(n, r, pos, b).Some?
    ensures !r.padded
  {
    RawLength(b, pos);
  }

  lemma BlockReachedSane(n: nat, r: Reach, pos: nat, b: BlockData)
    requires Sane(n, r, pos) && BlockOk(b, pos) && BlockReached(n, r, pos, b).Some?
    ensures Sane(n, BlockReached(n, r, pos, b).value, EndOf(pos, BlockBits(b, pos)))
  {
    if b.Raw? {
      RawUnpadded(n, r, pos, b);
    } else {
      BlockFits(b, pos);
      ReachedSane(n, r, pos, BlockBits(b, pos));
    }
  }

  lemma BlockInside(n: nat, r: Reach, pos: nat, b: BlockData)
    requires Sane(n, r, pos) && BlockOk(b, pos) && EndOf(pos, BlockBits(b, pos)) <= n
    ensures BlockReached(n, r, pos, b).Some?
  {
    if !b.Raw? {
      BlockFits(b, pos);
      ReachedInside(n, r, pos, BlockBits(b, pos));
    }
  }

  lemma StreamEnd(pos: nat, bs: seq<BlockData>)
    requires |bs| > 0
    ensures EndOf(pos, StreamBits(bs, pos)) == EndOf(After(bs[0], pos), StreamBits(bs[1..], After(bs[0], pos)))
  {
    var body, rest := BlockBits(bs[0], pos + 3), StreamBits(bs[1..], After(bs[0], pos));
    assert EndOf(pos + 1, Cat(Num(Kind(bs[0]), 2), Cat(body, rest))) == EndOf(pos + 3, Cat(body, rest));
  }

  /** Every well-formed stream that ends inside the input is read to its end. */
  lemma {:induction false} StreamInside(n: nat, r: Reach, pos: nat, bs: seq<BlockData>)
    requires Sane(n, r, pos) && StreamOk(bs, pos) && EndOf(pos, StreamBits(bs, pos)) <= n
    ensures StreamReached(n, r, pos, bs).Some?
    decreases |bs|
  {
    var h := HeaderReached(r, pos);
    StreamEnd(pos, bs);
    HeaderSane(n, r, pos);
    BlockInside(n, h, pos + 3, bs[0]);
    BlockReachedSane(n, h, pos + 3, bs[0]);
    if |bs| == 1 {
    } else {
      StreamInside(n, BlockReached(n, h, pos + 3, bs[0]).value, After(bs[0], pos), bs[1..]);
    }
  }
}
