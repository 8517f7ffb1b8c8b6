/** A reference decoder for DEFLATE (RFC 1951) over the zero-extended bit stream, with the two
    things about stbi__parse_zlib that the format does not fix: how far its bit reader looks
    ahead, which decides what happens at the end of the input, and how large its output may get. */
module Deflate {
  import opened Bits
  import opened Canonical
  import opened DeflateTables

  // ---------------------------------------------------------------- the reader

  /** pos bits are consumed and the ahead bits after them are buffered; hitEof records that the
      Huffman decoder has padded the buffer with 16 zero bits. */
  datatype Cursor = Cursor(pos: nat, ahead: nat, hitEof: bool)

  /** Buffered bits end at a byte boundary; once padded, at least 16 bits past the end of the
      input, of which fewer than 16 were left. */
  ghost predicate Good(s: seq<byte>, c: Cursor)
  {
    match c
    case Cursor(pos, ahead, hitEof) =>
      && ahead <= 32 && Aligned(pos + ahead)
      && (hitEof ==> pos + ahead >= 8 * |s| + 16 && pos + 16 > 8 * |s|)
  }

  /** A multiple of eight. */
  predicate Aligned(n: nat)
  {
    if n < 8 then n == 0 else Aligned(n - 8)
  }

  /** Refilling by bytes while at most 24 bits are buffered. */
  function Filled(ahead: nat): (r: nat)
    requires ahead <= 32
    ensures ahead <= r <= 32 && r > 24
    decreases 32 - ahead
  {
    if ahead > 24 then ahead else Filled(ahead + 8)
  }

  lemma {:induction false} FilledAligned(pos: nat, ahead: nat)
    requires ahead <= 32 && Aligned(pos + ahead)
    ensures Aligned(pos + Filled(ahead))
    decreases 32 - ahead
  {
    if ahead > 24 {
    } else {
      assert Aligned(pos + (ahead + 8));
      FilledAligned(pos, ahead + 8);
    }
  }

  lemma AlignedMod(n: nat)
    ensures Aligned(n) <==> n % 8 == 0
  {
  }

  function Take(c: Cursor, n: nat): (r: Cursor)
    requires n <= 16 && c.ahead <= 32
    ensures r.pos == c.pos + n
  {
    Cursor(c.pos + n, (if c.ahead < n then Filled(c.ahead) else c.ahead) - n, c.hitEof)
  }

  lemma TakeGood(s: seq<byte>, c: Cursor, n: nat)
    requires Good(s, c) && n <= 16
    ensures Good(s, Take(c, n))
  {
    FilledAligned(c.pos, c.ahead);
  }

  /** At least 16 bits buffered, or None when that needs padding a second time. */
  function Ready(s: seq<byte>, c: Cursor): (r: Option<Cursor>)
    requires Good(s, c)
    ensures r.Some? ==> Good(s, r.value) && r.value.ahead >= 16 && r.value.pos == c.pos
  {
    assert Aligned(c.pos + (c.ahead + 16)) by { assert Aligned(c.pos + (c.ahead + 8)); }
    if c.ahead >= 16 then Some(c)
    else if c.pos + c.ahead >= 8 * |s| then
      if c.hitEof then None else Some(Cursor(c.pos, c.ahead + 16, true))
    else
      FilledAligned(c.pos, c.ahead);
      Some(Cursor(c.pos, Filled(c.ahead), c.hitEof))
  }

  /** The symbol whose code the stream has at pos. */
  ghost function SymbolAt(s: seq<byte>, lens: seq<nat>, pos: nat): Option<nat>
  {
    Decode(lens, Prefixes(Val(s, pos, 15)))
  }

  ghost function Symbol(s: seq<byte>, lens: seq<nat>, c: Cursor): (r: Option<(nat, Cursor)>)
    requires Good(s, c) && Lengths(lens)
    ensures r.Some? ==> r.value.0 < |lens| && Good(s, r.value.1) && r.value.1.pos > c.pos
  {
    match Ready(s, c)
    case None => None
    case Some(c1) =>
      match SymbolAt(s, lens, c.pos)
      case None => None
      case Some(z) => Some((z, Cursor(c1.pos + lens[z], c1.ahead - lens[z], c1.hitEof)))
  }

  // ---------------------------------------------------------------- LZ77

  /** What one step of a compressed block says. */
  datatype Op = Literal(b: byte) | End | Match(len: nat, back: nat)

  /** The next literal, match or end of block. */
  ghost function NextOp(s: seq<byte>, lit: seq<nat>, dist: seq<nat>, c: Cursor): (r: Option<(Op, Cursor)>)
    requires Good(s, c) && Lengths(lit) && Lengths(dist)
    ensures r.Some? ==> Good(s, r.value.1) && r.value.1.pos > c.pos
    ensures r.Some? && r.value.0.Match? ==> r.value.0.len >= 3 && r.value.0.back >= 1
  {
    match Symbol(s, lit, c)
    case None => None
    case Some(r) =>
      var z, c1 := r.0, r.1;
      if z < 256 then Some((Literal(z), c1))
      else if z == 256 then if c1.hitEof && c1.ahead < 16 then None else Some((End, c1))
      else if z >= 286 then None
      else MatchOp(s, dist, z - 257, c1)
  }

  /** After length symbol 257 + z: its extra bits and a distance. */
  ghost function MatchOp(s: seq<byte>, dist: seq<nat>, z: nat, c: Cursor): (r: Option<(Op, Cursor)>)
    requires Good(s, c) && Lengths(dist) && z < 29
    ensures r.Some? ==> Good(s, r.value.1) && r.value.1.pos > c.pos
    ensures r.Some? ==> r.value.0.Match? && r.value.0.len >= 3 && r.value.0.back >= 1
  {
    var l := LengthAt(s, z, c);
    match Symbol(s, dist, l.1)
    case None => None
    case Some(r) =>
      if r.0 >= 30 then None
      else
        var d := DistAt(s, r.0, r.1);
        Some((Match(l.0, d.0), d.1))
  }

  /** Appending an operation's bytes to an output of at most max bytes. */
  function Apply(op: Op, max: nat, out: seq<byte>): (r: Option<seq<byte>>)
    ensures r.Some? && |out| <= max ==> |out| <= |r.value| <= max
  {
    match op
    case Literal(b) => if |out| >= max then None else Some(out + [b])
    case End => Some(out)
    case Match(len, back) =>
      if !(1 <= back <= |out|) || |out| + len > max then None else Some(Copy(out, back, len))
  }

  /** The operations of one compressed block, appended to out, which may not exceed max bytes. */
  ghost function Codes(s: seq<byte>, lit: seq<nat>, dist: seq<nat>, max: nat, c: Cursor, out: seq<byte>)
    : (r: Option<(Cursor, seq<byte>)>)
    requires Good(s, c) && Lengths(lit) && Lengths(dist) && |out| <= max
    ensures r.Some? ==> Good(s, r.value.0) && r.value.0.pos > c.pos && |out| <= |r.value.1| <= max
    decreases max - |out|
  {
    match NextOp(s, lit, dist, c)
    case None => None
    case Some(r) =>
      match Apply(r.0, max, out)
      case None => None
      case Some(out1) =>
        if r.0.End? then Some((r.1, out1)) else Codes(s, lit, dist, max, r.1, out1)
  }

  function LengthAt(s: seq<byte>, z: nat, c: Cursor): (r: (nat, Cursor))
    requires Good(s, c) && z < 29
    ensures r.0 >= 3 && Good(s, r.1) && r.1.pos >= c.pos
  {
    TakeGood(s, c, LenExtra(z));
    (LenBase(z) + Val(s, c.pos, LenExtra(z)), Take(c, LenExtra(z)))
  }

  function DistAt(s: seq<byte>, z: nat, c: Cursor): (r: (nat, Cursor))
    requires Good(s, c) && z < 30
    ensures r.0 >= 1 && Good(s, r.1) && r.1.pos >= c.pos
  {
    TakeGood(s, c, DstExtra(z));
    (DstBase(z) + Val(s, c.pos, DstExtra(z)), Take(c, DstExtra(z)))
  }

  // ---------------------------------------------------------------- dynamic code lengths

  /** After k three-bit numbers. */
  function TakeThrees(s: seq<byte>, c: Cursor, k: nat): (r: Cursor)
    requires Good(s, c)
    ensures Good(s, r) && r.pos == c.pos + 3 * k
  {
    if k == 0 then c else
      TakeGood(s, TakeThrees(s, c, k - 1), 3);
      Take(TakeThrees(s, c, k - 1), 3)
  }

  /** The n three-bit numbers at pos. */
  function Threes(s: seq<byte>, pos: nat, n: nat): (r: seq<nat>)
    ensures |r| == n
  {
    if n == 0 then [] else Threes(s, pos, n - 1) + [Val(s, pos + 3 * (n - 1), 3)]
  }

  lemma {:induction false} ThreesSmall(s: seq<byte>, pos: nat, n: nat)
    ensures forall i | 0 <= i < n :: Threes(s, pos, n)[i] < 8
  {
    if n == 0 {
    } else {
      ThreesSmall(s, pos, n - 1);
      Pow2Values();
    }
  }

  /** One symbol of the code-length alphabet and its repeat count, as the lengths it adds. */
  ghost function NextRun(s: seq<byte>, cl: seq<nat>, c: Cursor, acc: seq<nat>): (r: Option<(seq<nat>, Cursor)>)
    requires Good(s, c) && Lengths(cl) && |cl| == 19 && forall i | 0 <= i < |acc| :: acc[i] <= 15
    ensures r.Some? ==> Good(s, r.value.1) && r.value.1.pos > c.pos && |r.value.0| > 0
    ensures r.Some? ==> forall i | 0 <= i < |r.value.0| :: r.value.0[i] <= 15
  {
    match Symbol(s, cl, c)
    case None => None
    case Some(r) =>
      var z, c1 := r.0, r.1;
      if z < 16 then Some(([z], c1))
      else if z == 16 && |acc| == 0 then None
      else
        var n := RepeatBits(z);
        TakeGood(s, c1, n);
        var count := Val(s, c1.pos, n) + RepeatBase(z);
        Some((Repeat(if z == 16 then acc[|acc| - 1] else 0, count), Take(c1, n)))
  }

  /** Run-length coded code lengths until there are total of them. */
  ghost function CodeLengths(s: seq<byte>, cl: seq<nat>, total: nat, c: Cursor, acc: seq<nat>)
    : (r: Option<(Cursor, seq<nat>)>)
    requires Good(s, c) && Lengths(cl) && |cl| == 19 && |acc| <= total
    requires forall i | 0 <= i < |acc| :: acc[i] <= 15
    ensures r.Some? ==> Good(s, r.value.0) && r.value.0.pos >= c.pos && |r.value.1| == total
    ensures r.Some? ==> forall i | 0 <= i < total :: r.value.1[i] <= 15
    decreases total - |acc|
  {
    if |acc| == total then Some((c, acc))
    else
      match NextRun(s, cl, c, acc)
      case None => None
      case Some(r) =>
        if total - |acc| < |r.0| then None else CodeLengths(s, cl, total, r.1, acc + r.0)
  }

  /** The literal/length and distance lengths at the head of a dynamic block. */
  ghost function Dynamic(s: seq<byte>, c: Cursor): (r: Option<(Cursor, seq<nat>, seq<nat>)>)
    requires Good(s, c)
    ensures r.Some? ==> Good(s, r.value.0) && r.value.0.pos > c.pos
    ensures r.Some? ==> Lengths(r.value.1) && Lengths(r.value.2)
    ensures r.Some? ==> Codable(r.value.1) && Codable(r.value.2)
  {
    var h := CountsAt(s, c);
    var cls := Threes(s, h.3.pos, h.2);
    ThreesSmall(s, h.3.pos, h.2);
    ClFromSmall(cls);
    DynamicFrom(s, h.0, h.1, ClFrom(cls), TakeThrees(s, h.3, h.2))
  }

  /** HLIT, HDIST and HCLEN. */
  function CountsAt(s: seq<byte>, c: Cursor): (r: (nat, nat, nat, Cursor))
    requires Good(s, c)
    ensures 257 <= r.0 <= 288 && 1 <= r.1 <= 32 && 4 <= r.2 <= 19 && Good(s, r.3) && r.3.pos == c.pos + 14
  {
    Pow2Values();
    TakeGood(s, c, 5);
    TakeGood(s, Take(c, 5), 5);
    TakeGood(s, Take(Take(c, 5), 5), 4);
    (Val(s, c.pos, 5) + 257, Val(s, c.pos + 5, 5) + 1, Val(s, c.pos + 10, 4) + 4, Take(Take(Take(c, 5), 5), 4))
  }

  /** The rest of a dynamic block's head, once its counts and code-length code are known. */
  ghost function DynamicFrom(s: seq<byte>, hlit: nat, hdist: nat, cl: seq<nat>, c: Cursor)
    : (r: Option<(Cursor, seq<nat>, seq<nat>)>)
    requires Good(s, c) && hlit <= 288 && hdist <= 32 && Lengths(cl) && |cl| == 19
    ensures r.Some? ==> Good(s, r.value.0) && r.value.0.pos >= c.pos
    ensures r.Some? ==> Lengths(r.value.1) && Lengths(r.value.2)
    ensures r.Some? ==> Codable(r.value.1) && Codable(r.value.2)
  {
    if Codable(cl) then SplitLengths(s, hlit, hdist, cl, c) else None
  }

  ghost function SplitLengths(s: seq<byte>, hlit: nat, hdist: nat, cl: seq<nat>, c: Cursor)
    : (r: Option<(Cursor, seq<nat>, seq<nat>)>)
    requires Good(s, c) && hlit <= 288 && hdist <= 32 && Lengths(cl) && |cl| == 19
    ensures r.Some? ==> Good(s, r.value.0) && r.value.0.pos >= c.pos
    ensures r.Some? ==> Lengths(r.value.1) && Lengths(r.value.2)
    ensures r.Some? ==> Codable(r.value.1) && Codable(r.value.2)
  {
    match CodeLengths(s, cl, hlit + hdist, c, [])
    case None => None
    case Some(r) =>
      if Codable(r.1[..hlit]) && Codable(r.1[hlit..]) then Some((r.0, r.1[..hlit], r.1[hlit..]))
      else None
  }

  // ---------------------------------------------------------------- blocks

  lemma {:induction false} AlignedByte(b: nat)
    ensures Aligned(8 * b)
  {
    if b == 0 {
    } else {
      AlignedByte(b - 1);
    }
  }

  /** LEN and NLEN at the next byte boundary, then LEN bytes. */
  function Stored(s: seq<byte>, max: nat, c: Cursor, out: seq<byte>): (r: Option<(Cursor, seq<byte>)>)
    requires Good(s, c) && |out| <= max
    ensures r.Some? ==> Good(s, r.value.0) && c.pos < r.value.0.pos <= 8 * |s|
    ensures r.Some? ==> |r.value.1| <= max
  {
    StoredAt(s, max, ByteUp(c.pos), c.hitEof, out)
  }

  function StoredAt(s: seq<byte>, max: nat, b: nat, hitEof: bool, out: seq<byte>): (r: Option<(Cursor, seq<byte>)>)
    ensures r.Some? ==> 8 * b < r.value.0.pos <= 8 * |s| && r.value.0.ahead == 0 && Aligned(r.value.0.pos)
    ensures r.Some? ==> r.value.0.pos >= 8 * b + 32 && r.value.0.hitEof == hitEof && |r.value.1| <= max
  {
    var len, nlen := Val(s, 8 * b, 16), Val(s, 8 * b + 16, 16);
    AlignedByte(b + 4 + len);
    if nlen + len != 0xffff || b + 4 + len > |s| || |out| + len > max then None
    else Some((Cursor(8 * (b + 4 + len), 0, hitEof), out + s[b + 4..b + 4 + len]))
  }

  ghost function Block(s: seq<byte>, max: nat, kind: nat, c: Cursor, out: seq<byte>)
    : (r: Option<(Cursor, seq<byte>)>)
    requires Good(s, c) && |out| <= max
    ensures r.Some? ==> Good(s, r.value.0) && r.value.0.pos > c.pos && |r.value.1| <= max
    ensures r.Some? && kind == 0 ==> r.value.0.pos <= 8 * |s|
  {
    if kind == 0 then Stored(s, max, c, out)
    else if kind <= 2 then
      match BlockTables(s, kind, c)
      case None => None
      case Some(r) => Codes(s, r.1, r.2, max, r.0, out)
    else None
  }

  /** The code lengths of a fixed (1) or dynamic (2) block. */
  ghost function BlockTables(s: seq<byte>, kind: nat, c: Cursor): (r: Option<(Cursor, seq<nat>, seq<nat>)>)
    requires Good(s, c)
    ensures r.Some? ==> Good(s, r.value.0) && r.value.0.pos >= c.pos
    ensures r.Some? ==> Lengths(r.value.1) && Lengths(r.value.2)
  {
    if kind == 1 then Some((c, FixedLit(), FixedDist())) else Dynamic(s, c)
  }

  lemma KindPastEnd(s: seq<byte>, pos: nat)
    ensures pos >= 8 * |s| ==> Val(s, pos, 2) == 0
  {
    if pos >= 8 * |s| {
      ValPastEnd(s, pos, 2);
    }
  }

  /** A block is accepted only if it starts inside the input, and it goes on from there. */
  lemma BlockStarts(s: seq<byte>, max: nat, c: Cursor, out: seq<byte>)
    requires Good(s, c) && |out| <= max
    ensures Good(s, Take(Take(c, 1), 2)) && Take(Take(c, 1), 2).pos == c.pos + 3
    ensures var r := Block(s, max, Val(s, c.pos + 1, 2), Take(Take(c, 1), 2), out);
      r.Some? ==> Good(s, r.value.0) && |r.value.1| <= max && c.pos < 8 * |s| && c.pos < r.value.0.pos
  {
    hide Val, Block;
    TakeGood(s, c, 1);
    TakeGood(s, Take(c, 1), 2);
    KindPastEnd(s, c.pos + 1);
  }

  /** Blocks up to the final one.  A header read wholly past the end is that of a stored block
      whose length check fails, so the bits left bound the number of blocks. */
  ghost function Blocks(s: seq<byte>, max: nat, c: Cursor, out: seq<byte>)
    : (r: Option<(Cursor, seq<byte>)>)
    requires Good(s, c) && |out| <= max
    ensures r.Some? ==> Good(s, r.value.0) && |r.value.1| <= max
    decreases if c.pos < 8 * |s| then 8 * |s| - c.pos else 0
  {
    BlockStarts(s, max, c, out);
    match Block(s, max, Val(s, c.pos + 1, 2), Take(Take(c, 1), 2), out)
    case None => None
    case Some(r) => if Val(s, c.pos, 1) == 1 then Some(r) else Blocks(s, max, r.0, r.1)
  }

  /** The two-byte zlib header (section 2.2 of RFC 1950), without a preset dictionary. */
  predicate ZlibHeader(s: seq<byte>)
  {
    |s| > 2 && (s[0] as int * 256 + s[1]) % 31 == 0 && (s[1] / 32) % 2 == 0 && s[0] % 16 == 8
  }

  /** In bits: compression method 8, no preset dictionary, and check bits that make the two bytes a multiple of 31; the
      decoder wants at least one more byte. */
  lemma ZlibHeaderIs(s: seq<byte>)
    ensures ZlibHeader(s) <==>
            |s| >= 3 && Val(s, 0, 4) == 8 && Bit(s, 13) == 0 && exists q: nat :: 256 * s[0] as int + s[1] == 31 * q
  {
    hide Val, Bit;
    if |s| >= 3 {
      HeaderBits(s);
      Multiple(s[0] as int * 256 + s[1]);
    }
  }

  lemma HeaderBits(s: seq<byte>)
    requires |s| >= 3
    ensures Val(s, 0, 4) == s[0] % 16 && Bit(s, 13) == (s[1] / 32) % 2
  {
    hide Val, Bit;
    ValByte(s, 0);
    ValTakeDrop(s, 0, 4, 8);
    BitIs(s, 13);
    Pow2Values();
  }

  lemma Multiple(v: nat)
    ensures v % 31 == 0 <==> exists q: nat :: v == 31 * q
  {
    if v % 31 == 0 {
      assert v == 31 * (v / 31);
    }
  }

  /** What the decoder delivers for s with at most max bytes of output. */
  ghost function Inflate(s: seq<byte>, max: nat, parseHeader: bool): Option<seq<byte>>
  {
    if parseHeader && !ZlibHeader(s) then None
    else
      match Blocks(s, max, Cursor(if parseHeader then 16 else 0, 0, false), [])
      case None => None
      case Some(r) => Some(r.1)
  }

  // ---------------------------------------------------------------- one step at a time

  lemma SymbolIs(s: seq<byte>, lens: seq<nat>, c: Cursor, c1: Cursor, sym: int, n: nat)
    requires Good(s, c) && Lengths(lens) && Ready(s, c) == Some(c1)
    requires sym >= -1 && (sym == -1 <==> SymbolAt(s, lens, c.pos) == None)
    requires sym >= 0 ==> sym < |lens| && SymbolAt(s, lens, c.pos) == Some(sym) && n == lens[sym]
    ensures sym < 0 ==> Symbol(s, lens, c) == None
    ensures sym >= 0 ==> n <= c1.ahead
    ensures sym >= 0 ==> Symbol(s, lens, c) == Some((sym, Cursor(c1.pos + n, c1.ahead - n, c1.hitEof)))
  {
  }

  lemma NextOpIs(s: seq<byte>, lit: seq<nat>, dist: seq<nat>, c: Cursor, z: int, c1: Cursor)
    requires Good(s, c) && Lengths(lit) && Lengths(dist) && z >= -1
    requires if z < 0 then Symbol(s, lit, c).None? else Symbol(s, lit, c) == Some((z, c1))
    ensures NextOp(s, lit, dist, c) ==
            if z < 0 then None
            else if z < 256 then Some((Literal(z), c1))
            else if z == 256 then if c1.hitEof && c1.ahead < 16 then None else Some((End, c1))
            else if z >= 286 then None
            else MatchOp(s, dist, z - 257, c1)
  {
  }

  /** What a block amounts to after reading one operation. */
  lemma CodesStep(s: seq<byte>, lit: seq<nat>, dist: seq<nat>, max: nat, c: Cursor, out: seq<byte>,
                  op: Option<Op>, c1: Cursor)
    requires Good(s, c) && Lengths(lit) && Lengths(dist) && |out| <= max
    requires if op.None? then NextOp(s, lit, dist, c).None?
             else NextOp(s, lit, dist, c) == Some((op.value, c1))
    ensures op.None? ==> Codes(s, lit, dist, max, c, out) == None
    ensures op.Some? && Apply(op.value, max, out).None? ==> Codes(s, lit, dist, max, c, out) == None
    ensures op.Some? && Apply(op.value, max, out).Some? ==>
      Good(s, c1) && Codes(s, lit, dist, max, c, out) ==
                       if op.value.End? then Some((c1, Apply(op.value, max, out).value))
                       else Codes(s, lit, dist, max, c1, Apply(op.value, max, out).value)
    ensures op.Some? && !op.value.End? && Apply(op.value, max, out).Some? ==>
      |Apply(op.value, max, out).value| > |out|
  {
  }

  lemma NextRunIs(s: seq<byte>, cl: seq<nat>, c: Cursor, acc: seq<nat>, z: int, c1: Cursor)
    requires Good(s, c) && Lengths(cl) && |cl| == 19 && forall i | 0 <= i < |acc| :: acc[i] <= 15
    requires z >= -1 && (if z < 0 then Symbol(s, cl, c).None? else Symbol(s, cl, c) == Some((z, c1)))
    ensures z < 19
    ensures z < 0 ==> NextRun(s, cl, c, acc) == None
    ensures 0 <= z < 16 ==> NextRun(s, cl, c, acc) == Some(([z], c1))
    ensures z == 16 && |acc| == 0 ==> NextRun(s, cl, c, acc) == None
    ensures z >= 16 ==> c1.ahead <= 32
    ensures z >= 16 && !(z == 16 && |acc| == 0) ==>
      var n := Val(s, c1.pos, RepeatBits(z)) + RepeatBase(z);
      var fill := if z == 16 then acc[|acc| - 1] else 0;
      NextRun(s, cl, c, acc) == Some((Repeat(fill, n), Take(c1, RepeatBits(z))))
  {
  }

  lemma SplitIs(s: seq<byte>, hlit: nat, hdist: nat, cl: seq<nat>, c: Cursor, c1: Cursor, all: seq<nat>)
    requires Good(s, c) && hlit <= 288 && hdist <= 32 && Lengths(cl) && |cl| == 19
    requires CodeLengths(s, cl, hlit + hdist, c, []) == Some((c1, all))
    ensures |all| == hlit + hdist && Lengths(all[..hlit]) && Lengths(all[hlit..])
    ensures SplitLengths(s, hlit, hdist, cl, c) ==
            if Codable(all[..hlit]) && Codable(all[hlit..]) then Some((c1, all[..hlit], all[hlit..])) else None
  {
  }

  lemma MatchOpIs(s: seq<byte>, dist: seq<nat>, z: nat, c: Cursor, d: nat, c2: Cursor)
    requires Good(s, c) && Lengths(dist) && z < 29 && d < 30
    requires Symbol(s, dist, LengthAt(s, z, c).1) == Some((d, c2))
    ensures Good(s, c2)
    ensures MatchOp(s, dist, z, c) == Some((Match(LengthAt(s, z, c).0, DistAt(s, d, c2).0), DistAt(s, d, c2).1))
  {
  }

  /** What the stream amounts to after one block. */
  lemma BlocksStep(s: seq<byte>, max: nat, c: Cursor, out: seq<byte>, r: Option<(Cursor, seq<byte>)>)
    requires Good(s, c) && Good(s, Take(Take(c, 1), 2)) && |out| <= max
    requires r == Block(s, max, Val(s, c.pos + 1, 2), Take(Take(c, 1), 2), out)
    ensures r.None? ==> Blocks(s, max, c, out) == None
    ensures r.Some? ==> Good(s, r.value.0) && |r.value.1| <= max && c.pos < 8 * |s| && c.pos < r.value.0.pos
    ensures r.Some? && Val(s, c.pos, 1) == 1 ==> Blocks(s, max, c, out) == r
    ensures r.Some? && Val(s, c.pos, 1) != 1 ==> Blocks(s, max, c, out) == Blocks(s, max, r.value.0, r.value.1)
  {
    KindPastEnd(s, c.pos + 1);
  }
}
