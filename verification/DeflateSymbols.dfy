/** The reader's steps against the format: a code is decoded exactly where its bits are, and how
    far the reader has fetched is what the layout alone says. */
module DeflateSymbols {
  import opened Bits
  import opened Canonical
  import opened DeflateTables
  import opened Deflate
  import opened DeflateBits
  import opened DeflateFormat
  import opened DeflateReach

  /** Decoding finds symbol z at pos exactly when its code is there. */
  lemma SymbolAtIff(s: seq<byte>, lens: seq<nat>, pos: nat, z: nat)
    requires Usable(lens) && z < |lens|
    ensures SymbolAt(s, lens, pos) == Some(z) <==> lens[z] > 0 && At(s, pos, Sym(lens, z))
  {
    var v := Val(s, pos, 15);
    if lens[z] > 0 {
      CodeBounds(lens, z);
      TopShorter(s, pos, lens[z], 15);
      if At(s, pos, Sym(lens, z)) {
        DecodeIs(lens, Prefixes(v), z);
      }
    }
  }

  lemma SymbolSound(s: seq<byte>, lens: seq<nat>, c: Cursor)
    requires Good(s, c) && Usable(lens) && Symbol(s, lens, c).Some?
    ensures var (z, c1) := Symbol(s, lens, c).value;
      lens[z] > 0 && At(s, c.pos, Sym(lens, z)) && c1.pos == EndOf(c.pos, Sym(lens, z))
  {
    SymbolAtIff(s, lens, c.pos, SymbolAt(s, lens, c.pos).value);
  }

  // ---------------------------------------------------------------- cursors and what is fetched

  function ReachOf(c: Cursor): Reach
  {
    Reach(Minus(c.pos + c.ahead, if c.hitEof then 16 else 0), c.hitEof)
  }

  /** c is a reader at pos that has fetched what r says. */
  ghost predicate Lands(s: seq<byte>, c: Cursor, pos: nat, r: Reach)
  {
    Good(s, c) && c.pos == pos && ReachOf(c) == r
  }

  lemma GoodSane(s: seq<byte>, c: Cursor)
    requires Good(s, c)
    ensures Sane(8 * |s|, ReachOf(c), c.pos) && ReachOf(c).Counted() == c.pos + c.ahead
  {
  }

  /** There is only one byte boundary within eight bits. */
  lemma BoundaryIs(pos: nat, e: nat)
    requires Aligned(e) && pos <= e < pos + 8
    ensures e == 8 * ByteUp(pos)
  {
    AlignedByte(ByteUp(pos));
    AlignedMod(e);
    AlignedMod(8 * ByteUp(pos));
  }

  /** Refilling by bytes is fetching up to the first byte boundary at least 25 bits on. */
  lemma FilledIs(s: seq<byte>, c: Cursor)
    requires Good(s, c) && c.ahead <= 24
    ensures Lands(s, Cursor(c.pos, Filled(c.ahead), c.hitEof), c.pos, Refill(ReachOf(c), c.pos))
  {
    FilledAligned(c.pos, c.ahead);
    BoundaryIs(c.pos + 25, c.pos + Filled(c.ahead));
  }

  lemma TakeExact(s: seq<byte>, c: Cursor, w: nat)
    requires Good(s, c) && w <= 16
    ensures Lands(s, Take(c, w), c.pos + w, FetchNum(ReachOf(c), c.pos, w))
  {
    TakeGood(s, c, w);
    GoodSane(s, c);
    if c.ahead < w {
      FilledIs(s, c);
    }
  }

  lemma ReadyExact(s: seq<byte>, c: Cursor) returns (c1: Cursor)
    requires Good(s, c)
    ensures FetchCode(8 * |s|, ReachOf(c), c.pos).None? <==> Ready(s, c) == None
    ensures Ready(s, c).Some? ==>
      Ready(s, c) == Some(c1) && Lands(s, c1, c.pos, FetchCode(8 * |s|, ReachOf(c), c.pos).value) && c1.ahead >= 16
  {
    GoodSane(s, c);
    c1 := if Ready(s, c).Some? then Ready(s, c).value else c;
    if c.ahead < 16 && c.pos + c.ahead < 8 * |s| {
      FilledIs(s, c);
    }
  }

  /** A code that is there is decoded exactly if enough can be fetched for it. */
  lemma SymbolExact(s: seq<byte>, lens: seq<nat>, c: Cursor, z: nat) returns (c1: Cursor)
    requires Good(s, c) && Usable(lens) && z < |lens| && lens[z] > 0 && At(s, c.pos, Sym(lens, z))
    ensures var f := FetchCode(8 * |s|, ReachOf(c), c.pos);
      && (f.None? ==> Symbol(s, lens, c) == None)
      && (f.Some? ==> Symbol(s, lens, c) == Some((z, c1)) && Lands(s, c1, c.pos + lens[z], f.value))
  {
    hide Good, At, Sym, FetchCode, Ready, SymbolAt;
    SymbolAtIff(s, lens, c.pos, z);
    var c0 := ReadyExact(s, c);
    c1 := if Ready(s, c).Some? then Cursor(c0.pos + lens[z], c0.ahead - lens[z], c0.hitEof) else c;
  }
}
