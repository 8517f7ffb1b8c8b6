/** stbi__zbuf and the functions that decode a zlib stream into it, each proved to do on every
    input what the reference decoder of module Deflate says. */
module InflateDecoder {
  import opened Bits
  import opened Canonical
  import opened ZHuffmanTables
  import opened DeflateTables
  import opened Deflate
  import opened Reversal
  import opened FixedCodes

  const UINT_MAX: nat := 0xFFFF_FFFF

  const LENGTH_BASE: seq<nat> := [3,4,5,6,7,8,9,10,11,13,
    15,17,19,23,27,31,35,43,51,59,
    67,83,99,115,131,163,195,227,258,0,0]
  const LENGTH_EXTRA: seq<nat> := [0,0,0,0,0,0,0,0,1,1,1,1,2,2,2,2,3,3,3,3,4,4,4,4,5,5,5,5,0,0,0]
  const DIST_BASE: seq<nat> := [1,2,3,4,5,7,9,13,17,25,33,49,65,97,129,193,
    257,385,513,769,1025,1537,2049,3073,4097,6145,8193,12289,16385,24577,0,0]
  const DIST_EXTRA: seq<nat> := [0,0,0,0,1,1,2,2,3,3,4,4,5,5,6,6,7,7,8,8,9,9,10,10,11,11,12,12,13,13,0,0]

  const LENGTH_DEZIGZAG: seq<nat> := [16,17,18,0,8,7,9,6,10,5,11,4,12,3,13,2,14,1,15]

  /** The decoder's tables are the format's. */
  lemma Dezigzag(i: nat)
    requires i < 19
    ensures LENGTH_DEZIGZAG[i] == ClOrder(i) == [16, 17, 18, 0, 8, 7, 9, 6, 10, 5, 11, 4, 12, 3, 13, 2, 14, 1, 15][i]
  {
  }

  /** Entry z of a table of bases, when each entry starts where the one before ends. */
  lemma LengthTables(z: nat)
    requires z < 29
    ensures LENGTH_BASE[z] == LenBase(z) == [3, 4, 5, 6, 7, 8, 9, 10, 11, 13, 15, 17, 19, 23, 27, 31, 35, 43, 51, 59, 67, 83, 99, 115,
                                             131, 163, 195, 227, 258][z]
    ensures LENGTH_EXTRA[z] == LenExtra(z) == [0, 0, 0, 0, 0, 0, 0, 0, 1, 1, 1, 1, 2, 2, 2, 2, 3, 3, 3, 3, 4, 4, 4, 4, 5, 5, 5, 5, 0][z]
    decreases z
  {
    LengthExtras(z);
    if z == 0 || z == 28 {
    } else {
      LengthTables(z - 1);
      LengthSteps(z - 1);
    }
  }

  lemma LengthExtras(z: nat)
    requires z < 29
    ensures LENGTH_EXTRA[z] == LenExtra(z)
  {
  }

  lemma LengthSteps(z: nat)
    requires z < 27
    ensures LENGTH_BASE[z + 1] == LENGTH_BASE[z] + Pow2(LENGTH_EXTRA[z])
  {
    Pow2Values();
  }

  lemma DistTables(z: nat)
    requires z < 30
    ensures DIST_BASE[z] == DstBase(z) == [1, 2, 3, 4, 5, 7, 9, 13, 17, 25, 33, 49, 65, 97, 129, 193, 257, 385, 513, 769, 1025, 1537,
                                           2049, 3073, 4097, 6145, 8193, 12289, 16385, 24577][z]
    ensures DIST_EXTRA[z] == DstExtra(z) == [0, 0, 0, 0, 1, 1, 2, 2, 3, 3, 4, 4, 5, 5, 6, 6, 7, 7, 8, 8, 9, 9, 10, 10, 11, 11, 12, 12, 13,
                                             13][z]
    decreases z
  {
    DistExtras(z);
    if z == 0 {
    } else {
      DistTables(z - 1);
      DistSteps(z - 1);
    }
  }

  lemma DistExtras(z: nat)
    requires z < 30
    ensures DIST_EXTRA[z] == DstExtra(z)
  {
  }

  lemma DistSteps(z: nat)
    requires z < 29
    ensures DIST_BASE[z + 1] == DIST_BASE[z] + Pow2(DIST_EXTRA[z])
  {
    Pow2Values();
  }

  /** The largest output buffer doubling can reach from cap: limit *= 2 while it fits 32 bits,
      as long as the allocator grants it (it grants blocks of at most budget bytes). */
  ghost function MaxOut(cap: nat, expandable: bool, budget: nat): (m: nat)
    requires cap <= UINT_MAX && (expandable ==> cap > 0)
    ensures cap <= m <= UINT_MAX
    decreases UINT_MAX - cap
  {
    if !expandable || cap > UINT_MAX / 2 || 2 * cap > budget then cap
    else MaxOut(2 * cap, expandable, budget)
  }

  /** It is a doubling of cap that the allocator grants, and the next one is refused or does not fit 32 bits. */
  lemma {:induction false} MaxOutIs(cap: nat, budget: nat) returns (k: nat)
    requires 0 < cap <= UINT_MAX
    ensures MaxOut(cap, true, budget) == cap * Pow2(k) && (k > 0 ==> cap * Pow2(k) <= budget)
    ensures 2 * MaxOut(cap, true, budget) > budget || 2 * MaxOut(cap, true, budget) > 0xFFFF_FFFF
    ensures MaxOut(cap, false, budget) == cap
    decreases UINT_MAX - cap
  {
    k := 0;
    if !(cap > UINT_MAX / 2 || 2 * cap > budget) {
      k := MaxOutIs(2 * cap, budget);
      MulAssoc(cap, 2, Pow2(k));
      MulAssoc(2, cap, Pow2(k));
      k := k + 1;
    }
  }

  /** The input side of a stbi__zbuf: zpos is zbuffer as an index, pos counts consumed bits. */
  datatype ReaderState = Reader(input: seq<byte>, zpos: nat, numBits: nat, hitZeofOnce: bool,
                                codeBuffer: nat, pos: nat)
  {
    function Cur(): Cursor
    {
      Cursor(pos, numBits, hitZeofOnce)
    }

    /** The buffer holds the next numBits bits of the zero-extended input, LSB first, and zpos is
        where they end, unless they run into padding. */
    ghost predicate Valid()
    {
      && zpos <= |input|
      && codeBuffer == Val(input, pos, numBits)
      && Good(input, Cur())
      && (pos + numBits == 8 * zpos || (zpos == |input| && pos + numBits > 8 * zpos))
    }
  }

  lemma DropValid(r: ReaderState, n: nat)
    requires r.Valid() && n <= r.numBits
    ensures Low(r.codeBuffer, n) == Val(r.input, r.pos, n)
    ensures Reader(r.input, r.zpos, r.numBits - n, r.hitZeofOnce, Shr(r.codeBuffer, n), r.pos + n).Valid()
  {
    ValLowShr(r.input, r.pos, n, r.numBits);
  }

  type BitReader = r: ReaderState | r.Valid() witness Reader([], 0, 0, false, 0, 0)

  /** The output side of a stbi__zbuf: buf is zout_start .. zout_end, zout an index into it. */
  datatype Writer = Writer(buf: array<byte>, zout: nat, expandable: bool, budget: nat)
  {
    predicate Valid()
    {
      zout <= buf.Length <= UINT_MAX && (expandable ==> buf.Length > 0)
    }

    ghost function Max(): (m: nat)
      requires Valid()
      ensures zout <= buf.Length <= m <= UINT_MAX
    {
      MaxOut(buf.Length, expandable, budget)
    }

    ghost function Output(): (o: seq<byte>)
      requires Valid()
      reads buf
      ensures |o| == zout <= Max()
    {
      buf[..zout]
    }
  }

  class ZBuf {
    var r: BitReader
    var w: Writer
    var zLength: ZHuffman
    var zDistance: ZHuffman

    /** stbi__do_zlib's set-up, with an output block of size bytes. */
    constructor (input: seq<byte>, size: nat, expandable: bool, budget: nat)
      requires size < 0x8000_0000 && (expandable ==> size > 0)
      ensures r == Reader(input, 0, 0, false, 0, 0)
      ensures w.Valid() && w.Output() == [] && w.Max() == MaxOut(size, expandable, budget)
      ensures fresh(w.buf)
    {
      r := Reader(input, 0, 0, false, 0, 0);
      var buf := new byte[size](_ => 0);
      w := Writer(buf, 0, expandable, budget);
      zLength, zDistance := NoCodes(), NoCodes();
    }

    // ---------------------------------------------------------------- bit reader

    /** stbi__zget8 at zpos, without the advance: zero at the end. */
    function Zpeek8(): byte
      reads `r
    {
      if r.zpos >= |r.input| then 0 else r.input[r.zpos]
    }

    function Znext(): nat
      reads `r
    {
      if r.zpos >= |r.input| then r.zpos else r.zpos + 1
    }

    /** stbi__fill_bits. */
    method FillBits()
      requires r.numBits <= 24
      modifies `r
      ensures r.input == old(r.input) && r.Cur() == Cursor(old(r.pos), Filled(old(r.numBits)), old(r.hitZeofOnce))
    {
      FillByte();
      while r.numBits <= 24
        invariant r.input == old(r.input) && r.pos == old(r.pos) && r.hitZeofOnce == old(r.hitZeofOnce)
        invariant r.numBits <= 32 && Filled(r.numBits) == Filled(old(r.numBits))
        decreases 32 - r.numBits
      {
        FillByte();
      }
    }

    /** One byte into the buffer.  The early return of lines 4205-4208 is unreachable. */
    method FillByte()
      requires r.numBits <= 24
      modifies `r
      ensures r.input == old(r.input) && r.Cur() == Cursor(old(r.pos), old(r.numBits) + 8, old(r.hitZeofOnce))
    {
      if r.codeBuffer >= Pow2(r.numBits) {
        assert false;
      }
      AppendByte(r.input, r.pos, r.numBits, r.zpos);
      assert Aligned(r.pos + (r.numBits + 8));
      r := r.(codeBuffer := r.codeBuffer + Shl(Zpeek8(), r.numBits), zpos := Znext(), numBits := r.numBits + 8);
    }

    /** stbi__zreceive: the next n bits of the stream. */
    method Zreceive(n: nat) returns (k: nat)
      requires n <= 16
      modifies `r
      ensures k == Val(r.input, old(r.pos), n)
      ensures r.input == old(r.input) && r.Cur() == Take(old(r.Cur()), n)
    {
      if r.numBits < n {
        FillBits();
      }
      k := Drop(n);
    }

    method Drop(n: nat) returns (k: nat)
      requires n <= r.numBits
      modifies `r
      ensures k == Val(r.input, old(r.pos), n)
      ensures r.input == old(r.input)
      ensures r.Cur() == Cursor(old(r.pos) + n, old(r.numBits) - n, old(r.hitZeofOnce))
    {
      DropValid(r, n);
      k := Low(r.codeBuffer, n);
      r := r.(codeBuffer := Shr(r.codeBuffer, n), numBits := r.numBits - n, pos := r.pos + n);
    }

    /** Lines 4245-4262: have 16 bits buffered, padding with zeros once at the end. */
    method MakeReady() returns (ok: bool)
      modifies `r
      ensures r.input == old(r.input)
      ensures Ready(r.input, old(r.Cur())) == if ok then Some(r.Cur()) else None
    {
      ok := true;
      if r.numBits < 16 {
        if r.zpos >= |r.input| {
          if !r.hitZeofOnce {
            PadZeros(r.input, r.pos, r.numBits);
            assert Aligned(r.pos + (r.numBits + 8));
            assert Aligned(r.pos + (r.numBits + 16));
            r := r.(hitZeofOnce := true, numBits := r.numBits + 16);
          } else {
            ok := false;
          }
        } else {
          FillBits();
        }
      }
    }

    /** stbi__zhuffman_decode: the symbol canonical decoding finds in the stream, or -1. */
    method HuffmanDecode(z: ZHuffman) returns (sym: int)
      modifies `r
      ensures r.input == old(r.input) && sym >= -1
      ensures Symbol(r.input, z.lens, old(r.Cur())) == if sym < 0 then None else Some((sym, r.Cur()))
    {
      ghost var c := r.Cur();
      var ok := MakeReady();
      if !ok { return -1; }
      ghost var c1 := r.Cur();
      PrefixesOfStream(r.input, r.pos, r.numBits);
      var s: nat;
      sym, s := z.LookUp(r.codeBuffer);
      SymbolIs(r.input, z.lens, c, c1, sym, s);
      if sym >= 0 {
        var _ := Drop(s);
        assert r.Cur() == Cursor(c1.pos + s, c1.ahead - s, c1.hitEof);
      }
    }

    // ---------------------------------------------------------------- output

    /** stbi__zexpand: room for n more bytes, keeping every byte written; it fails exactly when no
        reachable buffer size has that room. */
    method Zexpand(n: nat) returns (ok: bool)
      requires w.Valid()
      modifies `w
      ensures w.Valid() && w.Max() == old(w.Max()) && w.Output() == old(w.Output())
      ensures w.buf == old(w.buf) || fresh(w.buf)
      ensures old(w.zout + n > w.buf.Length) ==> (ok <==> w.zout + n <= w.Max())
      ensures ok ==> w.zout + n <= w.buf.Length
    {
      if !w.expandable { return false; }
      var limit := w.buf.Length;
      if UINT_MAX - w.zout < n { return false; }
      while w.zout + n > limit
        invariant w.buf.Length <= limit <= UINT_MAX
        invariant limit <= w.Max() ==> MaxOut(limit, w.expandable, w.budget) == w.Max()
        invariant w.buf.Length < limit <= w.Max() ==> limit <= w.budget
        invariant limit > w.Max() ==> limit > w.budget && w.zout + n > w.Max()
        decreases w.zout + n - limit
      {
        if limit > UINT_MAX / 2 { return false; }
        limit := limit * 2;
      }
      ok := Realloc(limit);
    }

    /** STBI_REALLOC_SIZED: a larger block with the same contents, if the allocator grants it. */
    method Realloc(limit: nat) returns (ok: bool)
      requires w.Valid() && w.buf.Length <= limit <= UINT_MAX
      requires limit <= w.budget ==> limit <= w.Max() && MaxOut(limit, w.expandable, w.budget) == w.Max()
      modifies `w
      ensures ok <==> limit <= w.budget
      ensures w.Valid() && w.Max() == old(w.Max()) && w.Output() == old(w.Output()) && w.budget == old(w.budget)
      ensures w.buf == old(w.buf) || fresh(w.buf)
      ensures w.zout == old(w.zout) && (ok ==> w.buf.Length == limit)
    {
      if limit > w.budget { return false; }
      var p := w.buf;
      var q := new byte[limit](i requires 0 <= i reads p => if i < p.Length then p[i] else 0);
      assert q[..w.zout] == p[..w.zout];
      w := w.(buf := q);
      ok := true;
    }

    /** Lines 4316-4320. */
    method EmitLiteral(b: byte) returns (ok: bool)
      requires w.Valid()
      modifies `w, w.buf
      ensures w.Valid() && w.Max() == old(w.Max()) && (w.buf == old(w.buf) || fresh(w.buf))
      ensures ok <==> old(w.zout) < w.Max()
      ensures ok ==> w.Output() == old(w.Output()) + [b]
    {
      ok := true;
      if w.zout >= w.buf.Length {
        ok := Zexpand(1);
        if !ok { return; }
      }
      w.buf[w.zout] := b;
      w := w.(zout := w.zout + 1);
    }

    /** Lines 4343-4354: room for len bytes, then copy them from dist back, overlapping or not. */
    method EmitCopy(dist: nat, len: nat) returns (ok: bool)
      requires w.Valid() && 1 <= dist <= w.zout
      modifies `w, w.buf
      ensures w.Valid() && w.Max() == old(w.Max()) && (w.buf == old(w.buf) || fresh(w.buf))
      ensures ok <==> old(w.zout) + len <= w.Max()
      ensures ok ==> w.Output() == Copy(old(w.Output()), dist, len)
    {
      hide ReaderState.Valid, Copy;
      ok := true;
      if len > w.buf.Length - w.zout {
        ok := Zexpand(len);
        if !ok { return; }
      }
      if dist == 1 {
        CopyRun(w.buf, w.zout, len);
      } else {
        CopyBack(w.buf, w.zout, dist, len);
      }
      w := w.(zout := w.zout + len);
    }

    /** Lines 4316-4320 and 4343-4354: write the operation's bytes, if they fit. */
    method EmitOp(op: Op) returns (ok: bool)
      requires w.Valid()
      modifies `w, w.buf
      ensures w.Valid() && w.Max() == old(w.Max()) && (w.buf == old(w.buf) || fresh(w.buf))
      ensures Apply(op, w.Max(), old(w.Output())) == if ok then Some(w.Output()) else None
    {
      match op
      case Literal(b) =>
        ok := EmitLiteral(b);
      case End =>
        ok := true;
      case Match(len, back) =>
        if w.zout < back || back == 0 { return false; }
        ok := EmitCopy(back, len);
    }

    // ---------------------------------------------------------------- compressed blocks

    /** stbi__parse_huffman_block. */
    method ParseHuffmanBlock() returns (ok: bool)
      requires w.Valid()
      modifies `r, `w, w.buf
      ensures w.Valid() && w.Max() == old(w.Max()) && (w.buf == old(w.buf) || fresh(w.buf))
      ensures r.input == old(r.input)
      ensures Codes(r.input, zLength.lens, zDistance.lens, w.Max(), old(r.Cur()), old(w.Output())) ==
              if ok then Some((r.Cur(), w.Output())) else None
    {
      ghost var goal := Codes(r.input, zLength.lens, zDistance.lens, w.Max(), r.Cur(), w.Output());
      while true
        invariant w.Valid() && w.Max() == old(w.Max()) && (w.buf == old(w.buf) || fresh(w.buf))
        invariant r.input == old(r.input)
        invariant Codes(r.input, zLength.lens, zDistance.lens, w.Max(), r.Cur(), w.Output()) == goal
        decreases w.Max() - w.zout
      {
        var status := CodeStep();
        if status != More {
          return status == Done;
        }
      }
    }

    /** One pass of the symbol loop: it returns, or appends at least one byte. */
    method CodeStep() returns (status: Status)
      requires w.Valid()
      modifies `r, `w, w.buf
      ensures w.Valid() && w.Max() == old(w.Max()) && (w.buf == old(w.buf) || fresh(w.buf))
      ensures r.input == old(r.input) && (status == More ==> w.zout > old(w.zout))
      ensures Codes(r.input, zLength.lens, zDistance.lens, w.Max(), old(r.Cur()), old(w.Output())) ==
              match status
              case More => Codes(r.input, zLength.lens, zDistance.lens, w.Max(), r.Cur(), w.Output())
              case Done => Some((r.Cur(), w.Output()))
              case Failed => None
    {
      ghost var c, o := r.Cur(), w.Output();
      var next := ReadOp();
      CodesStep(r.input, zLength.lens, zDistance.lens, w.Max(), c, o, next, r.Cur());
      if next.None? { return Failed; }
      var ok := EmitOp(next.value);
      status := if !ok then Failed else if next.value.End? then Done else More;
    }

    /** Reading a literal/length symbol and, for a match, its length and distance. */
    method ReadOp() returns (op: Option<Op>)
      modifies `r
      ensures r.input == old(r.input)
      ensures NextOp(r.input, zLength.lens, zDistance.lens, old(r.Cur())) ==
              if op.None? then None else Some((op.value, r.Cur()))
    {
      ghost var c := r.Cur();
      var z := HuffmanDecode(zLength);
      NextOpIs(r.input, zLength.lens, zDistance.lens, c, z, r.Cur());
      if z < 256 {
        if z < 0 { return None; }
        return Some(Literal(z));
      }
      if z == 256 {
        if r.hitZeofOnce && r.numBits < 16 { return None; }
        return Some(End);
      }
      if z >= 286 { return None; }
      op := ReadMatch(z - 257);
    }

    /** Lines 4335-4342. */
    method ReadMatch(z0: nat) returns (op: Option<Op>)
      requires z0 < 29
      modifies `r
      ensures r.input == old(r.input)
      ensures MatchOp(r.input, zDistance.lens, z0, old(r.Cur())) ==
              if op.None? then None else Some((op.value, r.Cur()))
    {
      var len := ReadLength(z0);
      var z := HuffmanDecode(zDistance);
      if z < 0 || z >= 30 { return None; }
      var back := ReadDistance(z);
      op := Some(Match(len, back));
    }

    method ReadLength(z: nat) returns (len: nat)
      requires z < 29
      modifies `r
      ensures r.input == old(r.input) && LengthAt(r.input, z, old(r.Cur())) == (len, r.Cur())
    {
      LengthTables(z);
      len := LENGTH_BASE[z];
      if LENGTH_EXTRA[z] != 0 {
        var x := Zreceive(LENGTH_EXTRA[z]);
        len := len + x;
      }
    }

    method ReadDistance(z: nat) returns (back: nat)
      requires z < 30
      modifies `r
      ensures r.input == old(r.input) && DistAt(r.input, z, old(r.Cur())) == (back, r.Cur())
    {
      hide DstBase, DstExtra, Val;
      DistTables(z);
      back := DIST_BASE[z];
      if DIST_EXTRA[z] != 0 {
        var x := Zreceive(DIST_EXTRA[z]);
        back := back + x;
      }
    }

    // ---------------------------------------------------------------- dynamic code lengths

    /** stbi__compute_huffman_codes: the code lengths at the head of a dynamic block, as tables. */
    method ComputeHuffmanCodes() returns (ok: bool)
      modifies `r, `zLength, `zDistance
      ensures r.input == old(r.input)
      ensures Dynamic(r.input, old(r.Cur())) ==
              if ok then Some((r.Cur(), zLength.lens, zDistance.lens)) else None
    {
      var hlit, hdist, hclen := ReadCounts();
      ghost var p := r.pos;
      var sizes := CodeLengthSizes(hclen);
      ThreesSmall(r.input, p, hclen);
      ClFromSmall(Threes(r.input, p, hclen));
      ok := ReadBothCodes(hlit, hdist, sizes);
    }

    /** Lines 4367-4369. */
    method ReadCounts() returns (hlit: nat, hdist: nat, hclen: nat)
      modifies `r
      ensures r.input == old(r.input) && CountsAt(r.input, old(r.Cur())) == (hlit, hdist, hclen, r.Cur())
    {
      hlit := Zreceive(5);
      hdist := Zreceive(5);
      hclen := Zreceive(4);
      hlit, hdist, hclen := hlit + 257, hdist + 1, hclen + 4;
    }

    /** Lines 4372-4376. */
    method CodeLengthSizes(hclen: nat) returns (sizes: seq<nat>)
      requires hclen <= 19
      modifies `r
      ensures r.input == old(r.input) && r.Cur() == TakeThrees(r.input, old(r.Cur()), hclen)
      ensures sizes == ClFrom(Threes(r.input, old(r.pos), hclen))
    {
      hide Val, Take, ClOrder, ClFrom, Threes, TakeThrees;
      sizes := seq(19, i => 0);
      ghost var c := r.Cur();
      SizesNone(r.input, c, 0);
      var i := 0;
      while i < hclen
        invariant 0 <= i <= hclen && r.input == old(r.input)
        invariant r.Cur() == TakeThrees(r.input, c, i)
        invariant sizes == ClFrom(Threes(r.input, c.pos, i))
      {
        var s := Zreceive(3);
        SizesNext(r.input, c, i);
        sizes := sizes[LENGTH_DEZIGZAG[i] := s];
        i := i + 1;
      }
    }

    method ReadBothCodes(hlit: nat, hdist: nat, sizes: seq<nat>) returns (ok: bool)
      requires hlit <= 288 && hdist <= 32 && Lengths(sizes) && |sizes| == 19
      modifies `r, `zLength, `zDistance
      ensures r.input == old(r.input)
      ensures DynamicFrom(r.input, hlit, hdist, sizes, old(r.Cur())) ==
              if ok then Some((r.Cur(), zLength.lens, zDistance.lens)) else None
    {
      var zc: ZHuffman;
      ok, zc := BuildHuffman(sizes);
      if ok {
        ok := ReadWith(zc, hlit, hdist);
      }
    }

    method ReadWith(zc: ZHuffman, hlit: nat, hdist: nat) returns (ok: bool)
      requires hlit <= 288 && hdist <= 32 && |zc.lens| == 19
      modifies `r, `zLength, `zDistance
      ensures r.input == old(r.input)
      ensures SplitLengths(r.input, hlit, hdist, zc.lens, old(r.Cur())) ==
              if ok then Some((r.Cur(), zLength.lens, zDistance.lens)) else None
    {
      hide ReaderState.Cur, Lengths, Codable, Good, CodeLengths;
      var lencodes;
      ghost var c := r.Cur();
      ok, lencodes := ReadCodeLengths(zc, hlit + hdist);
      if !ok { return; }
      SplitIs(r.input, hlit, hdist, zc.lens, c, r.Cur(), lencodes);
      ok := BuildBoth(lencodes[..hlit], lencodes[hlit..]);
    }

    method BuildBoth(lit: seq<nat>, dist: seq<nat>) returns (ok: bool)
      requires Lengths(lit) && Lengths(dist)
      modifies `zLength, `zDistance
      ensures ok <==> Codable(lit) && Codable(dist)
      ensures ok ==> zLength.lens == lit && zDistance.lens == dist
    {
      ok, zLength := BuildHuffman(lit);
      if !ok { return; }
      ok, zDistance := BuildHuffman(dist);
    }

    /** Lines 4379-4402: run-length coded lengths, for both alphabets together. */
    method ReadCodeLengths(zc: ZHuffman, ntot: nat) returns (ok: bool, lencodes: seq<nat>)
      requires |zc.lens| == 19
      modifies `r
      ensures r.input == old(r.input)
      ensures CodeLengths(r.input, zc.lens, ntot, old(r.Cur()), []) ==
              if ok then Some((r.Cur(), lencodes)) else None
    {
      lencodes := [];
      ghost var goal := CodeLengths(r.input, zc.lens, ntot, r.Cur(), []);
      while |lencodes| < ntot
        invariant r.input == old(r.input) && |lencodes| <= ntot
        invariant forall i | 0 <= i < |lencodes| :: lencodes[i] <= 15
        invariant CodeLengths(r.input, zc.lens, ntot, r.Cur(), lencodes) == goal
        decreases ntot - |lencodes|
      {
        var run := ReadRun(zc, lencodes);
        if run.None? || ntot - |lencodes| < |run.value| { return false, []; }
        lencodes := lencodes + run.value;
      }
      ok := true;
    }

    /** One code-length symbol and its repeat count: the lengths it stands for. */
    method ReadRun(zc: ZHuffman, acc: seq<nat>) returns (run: Option<seq<nat>>)
      requires |zc.lens| == 19 && forall i | 0 <= i < |acc| :: acc[i] <= 15
      modifies `r
      ensures r.input == old(r.input)
      ensures NextRun(r.input, zc.lens, old(r.Cur()), acc) ==
              if run.None? then None else Some((run.value, r.Cur()))
    {
      hide NextRun, Repeat, Take, RepeatBits, Val, RepeatBase, Symbol, Good, Lengths;
      ghost var c0 := r.Cur();
      var c := HuffmanDecode(zc);
      NextRunIs(r.input, zc.lens, c0, acc, c, r.Cur());
      if c < 0 { return None; }
      if c < 16 { return Some([c]); }
      var n := RepeatCount(c);
      if c == 16 {
        if |acc| == 0 { return None; }
        return Some(Repeat(acc[|acc| - 1], n));
      }
      run := Some(Repeat(0, n));
    }

    method RepeatCount(c: nat) returns (n: nat)
      requires 16 <= c < 19
      modifies `r
      ensures r.input == old(r.input) && r.Cur() == Take(old(r.Cur()), RepeatBits(c))
      ensures n == Val(r.input, old(r.pos), RepeatBits(c)) + RepeatBase(c)
    {
      if c == 16 {
        n := Zreceive(2);
        n := n + 3;
      } else if c == 17 {
        n := Zreceive(3);
        n := n + 3;
      } else {
        n := Zreceive(7);
        n := n + 11;
      }
    }

    // ---------------------------------------------------------------- stored blocks

    /** stbi__parse_uncompressed_block. */
    method ParseUncompressedBlock() returns (ok: bool)
      requires w.Valid() && r.numBits <= 31
      modifies `r, `w, w.buf
      ensures w.Valid() && w.Max() == old(w.Max()) && (w.buf == old(w.buf) || fresh(w.buf))
      ensures r.input == old(r.input)
      ensures Stored(r.input, w.Max(), old(r.Cur()), old(w.Output())) ==
              if ok then Some((r.Cur(), w.Output())) else None
    {
      hide Writer.Valid, Writer.Output, ByteUp, Val;
      ghost var b := ByteUp(r.pos);
      var len, nlen := ReadStoredHeader();
      StoredHeader(r.input, b, r.zpos, len, nlen);
      if nlen + len != 0xffff { return false; }  // nlen != (len ^ 0xffff) on 16 bits
      if r.zpos + len > |r.input| { return false; }
      ok := EmitInput(len);
    }

    /** Lines 4413-4427: drop to a byte boundary, drain the look-ahead, read the rest. */
    method ReadStoredHeader() returns (len: nat, nlen: nat)
      requires r.numBits <= 31
      modifies `r
      ensures r.input == old(r.input) && r.Cur() == Cursor(8 * ByteUp(old(r.pos)) + 32, 0, old(r.hitZeofOnce))
      ensures len == Val(r.input, 8 * ByteUp(old(r.pos)), 16)
      ensures nlen == Val(r.input, 8 * ByteUp(old(r.pos)) + 16, 16)
    {
      hide ByteUp, Val, ByteAt, Aligned;
      ghost var b := ByteUp(r.pos);
      DropToByte();
      var header := DrainHeader(b);
      TwoBytes(r.input, b);
      TwoBytes(r.input, b + 2);
      len := header[1] as int * 256 + header[0];
      nlen := header[3] as int * 256 + header[2];
    }

    /** Lines 4413-4414. */
    method DropToByte()
      requires r.numBits <= 31
      modifies `r
      ensures r.input == old(r.input) && r.hitZeofOnce == old(r.hitZeofOnce)
      ensures r.pos == 8 * ByteUp(old(r.pos)) && r.numBits <= 24 && r.numBits % 8 == 0
    {
      hide ByteUp, Val, Aligned;
      Alignment(r.pos, r.numBits);
      var extra := r.numBits % 8;
      if extra != 0 {
        var _ := Drop(extra);
      }
    }

    /** At most three look-ahead bytes go into the header; the rest comes from the input. */
    method DrainHeader(ghost k: nat) returns (header: seq<byte>)
      requires r.numBits <= 24 && r.numBits % 8 == 0 && r.pos == 8 * k
      modifies `r
      ensures r.input == old(r.input) && r.Cur() == Cursor(8 * k + 32, 0, old(r.hitZeofOnce)) && |header| == 4
      ensures forall j | 0 <= j < 4 :: header[j] == ByteAt(r.input, k + j)
    {
      hide ByteAt;
      header := DrainBytes(k);
      while |header| < 4
        invariant r.input == old(r.input) && r.hitZeofOnce == old(r.hitZeofOnce)
        invariant r.numBits == 0 && r.pos == 8 * (k + |header|) && |header| <= 4
        invariant forall j | 0 <= j < |header| :: header[j] == ByteAt(r.input, k + j)
        decreases 4 - |header|
      {
        var b := NextByte(k + |header|);
        header := header + [b];
      }
    }

    /** Lines 4417-4421: the whole bytes that are buffered. */
    method DrainBytes(ghost k: nat) returns (header: seq<byte>)
      requires r.numBits <= 24 && r.numBits % 8 == 0 && r.pos == 8 * k
      modifies `r
      ensures r.input == old(r.input) && r.numBits == 0 && r.hitZeofOnce == old(r.hitZeofOnce)
      ensures 8 * |header| == old(r.numBits) && r.pos == 8 * (k + |header|)
      ensures forall j | 0 <= j < |header| :: header[j] == ByteAt(r.input, k + j)
    {
      hide ByteAt;
      ghost var m := r.numBits / 8;
      header := [];
      while r.numBits > 0
        invariant r.input == old(r.input) && r.hitZeofOnce == old(r.hitZeofOnce)
        invariant r.pos == 8 * (k + |header|) && r.numBits == 8 * (m - |header|)
        invariant forall j | 0 <= j < |header| :: header[j] == ByteAt(r.input, k + j)
        decreases r.numBits
      {
        var b := DropByte(k + |header|);
        header := header + [b];
      }
    }

    method DropByte(ghost k: nat) returns (b: byte)
      requires r.pos == 8 * k && 8 <= r.numBits
      modifies `r
      ensures r.input == old(r.input) && b == ByteAt(r.input, k)
      ensures r.Cur() == Cursor(8 * (k + 1), old(r.numBits) - 8, old(r.hitZeofOnce))
    {
      ValByte(r.input, k);
      b := Drop(8);
    }

    method NextByte(ghost k: nat) returns (b: byte)
      requires r.pos == 8 * k && r.numBits == 0
      modifies `r
      ensures r.input == old(r.input) && b == ByteAt(r.input, k)
      ensures r.Cur() == Cursor(8 * (k + 1), 0, old(r.hitZeofOnce))
    {
      b := Zpeek8();
      r := r.(zpos := Znext(), pos := r.pos + 8);
    }

    /** Lines 4430-4434: copy len bytes of input to the output. */
    method EmitInput(len: nat) returns (ok: bool)
      requires w.Valid() && r.numBits == 0 && r.pos == 8 * r.zpos && r.zpos + len <= |r.input| && !r.hitZeofOnce
      modifies `r, `w, w.buf
      ensures w.Valid() && w.Max() == old(w.Max()) && (w.buf == old(w.buf) || fresh(w.buf))
      ensures r.input == old(r.input) && (ok <==> old(w.zout) + len <= w.Max())
      ensures ok ==> r.Cur() == Cursor(8 * (old(r.zpos) + len), 0, false)
      ensures ok ==> w.Output() == old(w.Output()) + r.input[old(r.zpos)..old(r.zpos) + len]
    {
      ok := true;
      if w.zout + len > w.buf.Length {
        ok := Zexpand(len);
        if !ok { return; }
      }
      CopyInput(w.buf, w.zout, r.input[r.zpos..r.zpos + len]);
      SkipInput(len);
      w := w.(zout := w.zout + len);
    }

    method SkipInput(len: nat)
      requires r.numBits == 0 && r.pos == 8 * r.zpos && r.zpos + len <= |r.input| && !r.hitZeofOnce
      modifies `r
      ensures r.input == old(r.input) && r.Cur() == Cursor(8 * (old(r.zpos) + len), 0, false)
    {
      AlignedByte(r.zpos + len);
      r := r.(zpos := r.zpos + len, pos := r.pos + 8 * len);
    }

    // ---------------------------------------------------------------- the stream

    /** stbi__parse_zlib_header. */
    method ParseZlibHeader() returns (ok: bool)
      requires r == Reader(r.input, 0, 0, false, 0, 0)
      modifies `r
      ensures r.input == old(r.input) && (ok <==> ZlibHeader(r.input))
      ensures ok ==> r == Reader(r.input, 2, 0, false, 0, 16)
    {
      var cmf := Zpeek8();
      r := r.(zpos := Znext(), pos := r.pos + 8);
      var flg := Zpeek8();
      r := r.(zpos := Znext(), pos := r.pos + 8);
      if r.zpos >= |r.input| { return false; }
      if (cmf as int * 256 + flg) % 31 != 0 { return false; }
      if (flg / 32) % 2 == 1 { return false; }
      if cmf % 16 != 8 { return false; }
      ok := true;
    }

    /** stbi__parse_zlib: for every input, the reference decoder's verdict and output. */
    method ParseZlib(parseHeader: bool) returns (ok: bool)
      requires w.Valid() && w.zout == 0 && r == Reader(r.input, 0, 0, false, 0, 0)
      modifies this, w.buf
      ensures w.Valid() && w.Max() == old(w.Max())
      ensures Inflate(old(r.input), w.Max(), parseHeader) == if ok then Some(w.Output()) else None
    {
      if parseHeader {
        ok := ParseZlibHeader();
        if !ok { return; }
      }
      ghost var goal := Blocks(r.input, w.Max(), r.Cur(), w.Output());
      var final := false;
      while !final
        invariant w.Valid() && w.Max() == old(w.Max()) && (w.buf == old(w.buf) || fresh(w.buf))
        invariant r.input == old(r.input)
        invariant goal == if final then Some((r.Cur(), w.Output()))
                          else Blocks(r.input, w.Max(), r.Cur(), w.Output())
        decreases !final, if r.pos < 8 * |r.input| then 8 * |r.input| - r.pos else 0
      {
        ok, final := ParseNextBlock();
        if !ok { return; }
      }
      ok := true;
    }

    /** One pass of the block loop. */
    method ParseNextBlock() returns (ok: bool, final: bool)
      requires w.Valid()
      modifies `r, `zLength, `zDistance, `w, w.buf
      ensures w.Valid() && w.Max() == old(w.Max()) && (w.buf == old(w.buf) || fresh(w.buf))
      ensures r.input == old(r.input) && (ok ==> old(r.pos) < 8 * |r.input| && old(r.pos) < r.pos)
      ensures Blocks(r.input, w.Max(), old(r.Cur()), old(w.Output())) ==
              if !ok then None
              else if final then Some((r.Cur(), w.Output()))
              else Blocks(r.input, w.Max(), r.Cur(), w.Output())
    {
      ghost var c, o := r.Cur(), w.Output();
      var f := Zreceive(1);
      var kind := Zreceive(2);
      final := f == 1;
      ok := ParseBlock(kind);
      BlocksStep(r.input, w.Max(), c, o, if ok then Some((r.Cur(), w.Output())) else None);
    }

    method ParseBlock(kind: nat) returns (ok: bool)
      requires w.Valid() && r.numBits <= 31
      modifies `r, `zLength, `zDistance, `w, w.buf
      ensures w.Valid() && w.Max() == old(w.Max()) && (w.buf == old(w.buf) || fresh(w.buf))
      ensures r.input == old(r.input)
      ensures Block(r.input, w.Max(), kind, old(r.Cur()), old(w.Output())) ==
              if ok then Some((r.Cur(), w.Output())) else None
    {
      if kind == 0 {
        ok := ParseUncompressedBlock();
        return;
      }
      if kind >= 3 { return false; }
      ok := SetTables(kind);
      if !ok { return; }
      ok := ParseHuffmanBlock();
    }

    method SetTables(kind: nat) returns (ok: bool)
      requires 1 <= kind <= 2
      modifies `r, `zLength, `zDistance
      ensures r.input == old(r.input)
      ensures BlockTables(r.input, kind, old(r.Cur())) ==
              if ok then Some((r.Cur(), zLength.lens, zDistance.lens)) else None
    {
      if kind == 1 {
        LitFits();
        DistFits();
        ok := BuildBoth(FixedLit(), FixedDist());
      } else {
        ok := ComputeHuffmanCodes();
      }
    }
  }

  datatype Status = More | Done | Failed

  // ---------------------------------------------------------------- entry points

  /** stbi_zlib_decode_malloc_guesssize_headerflag, from which the other allocating entry points
      differ only in the arguments they fix. */
  method ZlibDecodeMalloc(input: seq<byte>, initialSize: nat, parseHeader: bool, budget: nat)
    returns (result: Option<seq<byte>>)
    requires 0 < initialSize < 0x8000_0000
    ensures result == if initialSize > budget then None
                      else Inflate(input, MaxOut(initialSize, true, budget), parseHeader)
  {
    if initialSize > budget { return None; }
    var z := new ZBuf(input, initialSize, true, budget);
    var ok := z.ParseZlib(parseHeader);
    result := if ok then Some(z.w.buf[..z.w.zout]) else None;
  }

  /** stbi_zlib_decode_buffer (with a header) and stbi_zlib_decode_noheader_buffer: a caller's
      buffer of olen bytes, which never grows. */
  method ZlibDecodeBuffer(input: seq<byte>, olen: nat, parseHeader: bool) returns (result: Option<seq<byte>>)
    requires olen < 0x8000_0000
    ensures result == Inflate(input, olen, parseHeader)
  {
    var z := new ZBuf(input, olen, false, 0);
    var ok := z.ParseZlib(parseHeader);
    result := if ok then Some(z.w.buf[..z.w.zout]) else None;
  }

  // ---------------------------------------------------------------- copies into the output

  /** The dist == 1 shortcut: a run of one byte. */
  method CopyRun(buf: array<byte>, zout0: nat, len0: nat)
    requires 1 <= zout0 && zout0 + len0 <= buf.Length
    modifies buf
    ensures buf[..zout0 + len0] == Copy(old(buf[..zout0]), 1, len0)
    ensures buf[..zout0] == old(buf[..zout0]) && forall k | zout0 <= k < zout0 + len0 :: buf[k] == buf[k - 1]
  {
    var v := buf[zout0 - 1];
    var zout, len := zout0, len0;
    while len > 0
      invariant zout0 <= zout && zout + len == zout0 + len0 && buf[zout - 1] == v
      invariant Copy(buf[..zout], 1, len) == Copy(old(buf[..zout0]), 1, len0)
    {
      ghost var o := buf[..zout];
      buf[zout] := v;
      zout := zout + 1;
      len := len - 1;
      assert buf[..zout] == o + [v];
    }
    CopiedIn(buf[..], old(buf[..zout0]), 1, len0);
  }

  /** A buffer that starts with a copy. */
  lemma CopiedIn(buf: seq<byte>, out: seq<byte>, dist: nat, len: nat)
    requires 1 <= dist <= |out| && |out| + len <= |buf| && buf[..|out| + len] == Copy(out, dist, len)
    ensures buf[..|out|] == out && forall k | |out| <= k < |out| + len :: buf[k] == buf[k - dist]
  {
    CopyIs(out, dist, len);
    assert buf[..|out|] == buf[..|out| + len][..|out|];
    forall k | |out| <= k < |out| + len ensures buf[k] == buf[k - dist] {
      assert buf[k] == buf[..|out| + len][k] && buf[k - dist] == buf[..|out| + len][k - dist];
    }
  }

  /** The byte loop: every byte is the one dist before it. */
  method CopyBack(buf: array<byte>, zout0: nat, dist: nat, len0: nat)
    requires 1 <= dist <= zout0 && zout0 + len0 <= buf.Length
    modifies buf
    ensures buf[..zout0 + len0] == Copy(old(buf[..zout0]), dist, len0)
    ensures buf[..zout0] == old(buf[..zout0]) && forall k | zout0 <= k < zout0 + len0 :: buf[k] == buf[k - dist]
  {
    var p, zout, len := zout0 - dist, zout0, len0;
    while len > 0
      invariant 0 <= len && zout0 <= zout && zout + len == zout0 + len0 && p == zout - dist
      invariant Copy(buf[..zout], dist, len) == Copy(old(buf[..zout0]), dist, len0)
    {
      ghost var o := buf[..zout];
      buf[zout] := buf[p];
      zout := zout + 1;
      p := p + 1;
      len := len - 1;
      assert buf[..zout] == o + [o[|o| - dist]];
    }
    CopiedIn(buf[..], old(buf[..zout0]), dist, len0);
  }

  /** memcpy from the input. */
  method CopyInput(buf: array<byte>, zout: nat, src: seq<byte>)
    requires zout + |src| <= buf.Length
    modifies buf
    ensures buf[..zout + |src|] == old(buf[..zout]) + src
  {
    var i := 0;
    while i < |src|
      invariant 0 <= i <= |src|
      invariant buf[..zout + i] == old(buf[..zout]) + src[..i]
    {
      buf[zout + i] := src[i];
      i := i + 1;
    }
  }

  lemma ClFromStep(cls: seq<nat>, x: nat)
    requires |cls| < 19
    ensures ClFrom(cls + [x]) == ClFrom(cls)[ClOrder(|cls|) := x]
  {
    ClOrderInverse(|cls|);
    forall k | 0 <= k < 19 && k != ClOrder(|cls|) ensures ClPos(k) != |cls| {
      ClOrderInverse(k);
    }
  }

  lemma SizesNone(s: seq<byte>, c: Cursor, i: nat)
    requires Good(s, c) && i == 0
    ensures TakeThrees(s, c, i) == c && ClFrom(Threes(s, c.pos, i)) == seq(19, k => 0)
  {
  }

  /** One more of the three-bit sizes. */
  lemma SizesNext(s: seq<byte>, c: Cursor, i: nat)
    requires Good(s, c) && i < 19
    ensures TakeThrees(s, c, i + 1) == Take(TakeThrees(s, c, i), 3)
    ensures LENGTH_DEZIGZAG[i] < |ClFrom(Threes(s, c.pos, i))|
    ensures ClFrom(Threes(s, c.pos, i + 1)) ==
            ClFrom(Threes(s, c.pos, i))[LENGTH_DEZIGZAG[i] := Val(s, TakeThrees(s, c, i).pos, 3)]
  {
    hide Val, Take, ClOrder;
    ClFromStep(Threes(s, c.pos, i), Val(s, c.pos + 3 * i, 3));
    Dezigzag(i);
  }

  lemma Alignment(pos: nat, n: nat)
    requires Aligned(pos + n)
    ensures pos + n % 8 == 8 * ByteUp(pos) && (n - n % 8) % 8 == 0
  {
    AlignedMod(pos + n);
  }

  lemma TwoBytes(s: seq<byte>, k: nat)
    ensures Val(s, 8 * k, 16) == ByteAt(s, k + 1) as int * 256 + ByteAt(s, k)
  {
    ValSplit(s, 8 * k, 8, 8);
    ValByte(s, k);
    ValByte(s, k + 1);
    Pow2Values();
  }

  /** Given a matching NLEN, a header that reads past the end has a LEN of at least 0xff00, which
      cannot be satisfied either; so the two bounds checks agree. */
  lemma StoredHeader(s: seq<byte>, b: nat, zpos: nat, len: nat, nlen: nat)
    requires zpos <= |s| && (b + 4 == zpos || (zpos == |s| && b + 4 > zpos))
    requires len == Val(s, 8 * b, 16) && nlen == Val(s, 8 * b + 16, 16)
    ensures nlen + len == 0xffff ==> (zpos + len <= |s| <==> b + 4 + len <= |s|)
    ensures nlen + len == 0xffff && zpos + len <= |s| ==> b + 4 == zpos
  {
    if nlen + len == 0xffff && b + 4 > zpos {
      TwoBytes(s, b);
      TwoBytes(s, b + 2);
    }
  }

  lemma AppendByte(s: seq<byte>, pos: nat, n: nat, k: nat)
    requires k <= |s| && (pos + n == 8 * k || (k == |s| && pos + n > 8 * k))
    ensures Val(s, pos, n + 8) == Val(s, pos, n) + Shl(ByteAt(s, k), n)
  {
    ShlIsMul(ByteAt(s, k), n);
    ValSplit(s, pos, n, 8);
    if pos + n == 8 * k {
      ValByte(s, k);
    } else {
      ValPastEnd(s, pos + n, 8);
    }
  }

  lemma PadZeros(s: seq<byte>, pos: nat, n: nat)
    requires pos + n >= 8 * |s|
    ensures Val(s, pos, n + 16) == Val(s, pos, n)
  {
    ValSplit(s, pos, n, 16);
    ValPastEnd(s, pos + n, 16);
  }

  /** Decoding needs only the first 15 bits of the buffer. */
  lemma PrefixesOfStream(s: seq<byte>, pos: nat, n: nat)
    requires n >= 16
    ensures Prefixes(Val(s, pos, n)) == Prefixes(Val(s, pos, 15))
  {
    ValTakeDrop(s, pos, 15, n);
    forall l | 0 <= l < 16 ensures Top(Val(s, pos, n), l) == Top(Val(s, pos, 15), l) {
      TopMod(Val(s, pos, n), l, 15);
    }
  }
}
