/** Compressed data: the reference decoder reads exactly the elements the format lays out. */
module DeflateElements {
  import opened Bits
  import opened Canonical
  import opened DeflateTables
  import opened Deflate
  import opened DeflateBits
  import opened DeflateFormat
  import opened DeflateReach
  import opened DeflateSymbols

  function OpOf(e: Element): Op
  {
    match e
    case Lit(b) => Literal(b)
    case Pair(lz, lx, dz, dx) => Match(LenBase(lz) + lx, DstBase(dz) + dx)
  }

  lemma ApplyIsExpandOne(e: Element, max: nat, out: seq<byte>)
    requires |out| <= max
    ensures Apply(OpOf(e), max, out) ==
            if ExpandOne(e, out).Some? && |ExpandOne(e, out).value| <= max then ExpandOne(e, out) else None
  {
  }

  // ---------------------------------------------------------------- what is there is read

  /** o is the operation that ends at pos, or failure where the decoder gives up. */
  ghost predicate OpIs(s: seq<byte>, o: Option<(Op, Cursor)>, op: Op, pos: nat, r: Option<Reach>)
  {
    match r
    case None => o == None
    case Some(t) => o.Some? && o.value.0 == op && Lands(s, o.value.1, pos, t)
  }

  lemma LengthExact(s: seq<byte>, z: nat, x: nat, c: Cursor)
    requires Good(s, c) && z < 29 && At(s, c.pos, Num(x, LenExtra(z)))
    ensures LengthAt(s, z, c).0 == LenBase(z) + x
    ensures Lands(s, LengthAt(s, z, c).1, c.pos + LenExtra(z), FetchNum(ReachOf(c), c.pos, LenExtra(z)))
  {
    TakeExact(s, c, LenExtra(z));
  }

  lemma DistExact(s: seq<byte>, z: nat, x: nat, c: Cursor)
    requires Good(s, c) && z < 30 && At(s, c.pos, Num(x, DstExtra(z)))
    ensures DistAt(s, z, c).0 == DstBase(z) + x
    ensures Lands(s, DistAt(s, z, c).1, c.pos + DstExtra(z), FetchNum(ReachOf(c), c.pos, DstExtra(z)))
  {
    TakeExact(s, c, DstExtra(z));
  }

  lemma PairPieces(s: seq<byte>, dist: seq<nat>, e: Element, pos: nat)
    requires e.Pair? && e.dz < |dist|
    ensures var p1 := pos + LenExtra(e.lz);
      && (At(s, pos, PairTail(dist, e)) <==>
          && At(s, pos, Num(e.lx, LenExtra(e.lz)))
          && At(s, p1, Sym(dist, e.dz))
          && At(s, p1 + dist[e.dz], Num(e.dx, DstExtra(e.dz))))
      && EndOf(pos, PairTail(dist, e)) == p1 + dist[e.dz] + DstExtra(e.dz)
  {
    var p1 := pos + LenExtra(e.lz);
    AtCat(s, pos, Num(e.lx, LenExtra(e.lz)), Cat(Sym(dist, e.dz), Num(e.dx, DstExtra(e.dz))));
    AtCat(s, p1, Sym(dist, e.dz), Num(e.dx, DstExtra(e.dz)));
  }

  /** What is fetched for a copy after its length symbol: r1 up to p1 for its extra bits. */
  lemma PairReached(n: nat, r: Reach, pos: nat, dist: seq<nat>, e: Element, r1: Reach, p1: nat)
    requires e.Pair? && e.dz < |dist| && p1 == pos + LenExtra(e.lz) && r1 == FetchNum(r, pos, LenExtra(e.lz))
    ensures Reached(n, r, pos, PairTail(dist, e)) ==
            if FetchCode(n, r1, p1).None? then None
            else Some(FetchNum(FetchCode(n, r1, p1).value, p1 + dist[e.dz], DstExtra(e.dz)))
  {
    var a, b, d := Num(e.lx, LenExtra(e.lz)), Sym(dist, e.dz), Num(e.dx, DstExtra(e.dz));
    ReachedCat(n, r, pos, a, Cat(b, d));
    ReachedCat(n, r1, p1, b, d);
  }

  /** The copy's distance, after its length has been read up to c. */
  lemma TailExact(s: seq<byte>, dist: seq<nat>, c: Cursor, z: nat, x: nat) returns (c1: Cursor)
    requires Good(s, c) && Usable(dist) && z < 30 && z < |dist| && dist[z] > 0
    requires At(s, c.pos, Sym(dist, z)) && At(s, c.pos + dist[z], Num(x, DstExtra(z)))
    ensures var f := FetchCode(8 * |s|, ReachOf(c), c.pos);
      && (f.None? ==> Symbol(s, dist, c) == None)
      && (f.Some? ==>
          && Symbol(s, dist, c) == Some((z, c1)) && Good(s, c1) && DistAt(s, z, c1).0 == DstBase(z) + x
          && Lands(s, DistAt(s, z, c1).1, c.pos + dist[z] + DstExtra(z), FetchNum(f.value, c.pos + dist[z], DstExtra(z))))
  {
    c1 := SymbolExact(s, dist, c, z);
    if FetchCode(8 * |s|, ReachOf(c), c.pos).Some? {
      DistExact(s, z, x, c1);
    }
  }

  /** The copy's operation, from the pieces that were read. */
  lemma PairRead(s: seq<byte>, dist: seq<nat>, c: Cursor, e: Element, c3: Cursor, pos: nat, r: Reach)
    requires Good(s, c) && Lengths(dist) && e.Pair? && e.lz < 29 && e.dz < 30
    requires LengthAt(s, e.lz, c).0 == LenBase(e.lz) + e.lx
    requires Symbol(s, dist, LengthAt(s, e.lz, c).1) == Some((e.dz, c3)) && Good(s, c3)
    requires DistAt(s, e.dz, c3).0 == DstBase(e.dz) + e.dx && Lands(s, DistAt(s, e.dz, c3).1, pos, r)
    ensures OpIs(s, MatchOp(s, dist, e.lz, c), OpOf(e), pos, Some(r))
  {
    MatchOpIs(s, dist, e.lz, c, e.dz, c3);
  }

  lemma PairNone(s: seq<byte>, dist: seq<nat>, c: Cursor, e: Element, pos: nat)
    requires Good(s, c) && Lengths(dist) && e.Pair? && e.lz < 29
    requires Symbol(s, dist, LengthAt(s, e.lz, c).1) == None
    ensures OpIs(s, MatchOp(s, dist, e.lz, c), OpOf(e), pos, None)
  {
  }

  /** The copy's operation, once its length has been read up to c2. */
  lemma PairFrom(s: seq<byte>, dist: seq<nat>, c: Cursor, e: Element, c2: Cursor, end: nat, r: Option<Reach>)
    requires Good(s, c) && Usable(dist) && e.Pair? && e.lz < 29 && e.dz < 30 && e.dz < |dist| && dist[e.dz] > 0
    requires LengthAt(s, e.lz, c) == (LenBase(e.lz) + e.lx, c2) && Good(s, c2)
    requires At(s, c2.pos, Sym(dist, e.dz)) && At(s, c2.pos + dist[e.dz], Num(e.dx, DstExtra(e.dz)))
    requires end == c2.pos + dist[e.dz] + DstExtra(e.dz)
    requires var f := FetchCode(8 * |s|, ReachOf(c2), c2.pos);
      r == if f.None? then None else Some(FetchNum(f.value, c2.pos + dist[e.dz], DstExtra(e.dz)))
    ensures OpIs(s, MatchOp(s, dist, e.lz, c), OpOf(e), end, r)
  {
    var c3 := TailExact(s, dist, c2, e.dz, e.dx);
    if r.Some? {
      PairRead(s, dist, c, e, c3, end, r.value);
    } else {
      PairNone(s, dist, c, e, end);
    }
  }

  lemma PairExact(s: seq<byte>, dist: seq<nat>, c: Cursor, e: Element)
    requires Good(s, c) && Usable(dist) && e.Pair? && e.lz < 29
    requires e.dz < 30 && e.dz < |dist| && dist[e.dz] > 0 && At(s, c.pos, PairTail(dist, e))
    ensures OpIs(s, MatchOp(s, dist, e.lz, c), OpOf(e), EndOf(c.pos, PairTail(dist, e)),
                 Reached(8 * |s|, ReachOf(c), c.pos, PairTail(dist, e)))
  {
    hide Good, Usable, At, PairTail, OpIs, MatchOp, OpOf, EndOf, Reached, ReachOf, LengthAt, LenExtra, FetchNum,
         FetchCode, DstExtra, Sym, LenBase, Lands;
    PairPieces(s, dist, e, c.pos);
    LengthExact(s, e.lz, e.lx, c);
    var c2 := LengthAt(s, e.lz, c).1;
    PairReached(8 * |s|, ReachOf(c), c.pos, dist, e, ReachOf(c2), c2.pos);
    PairFrom(s, dist, c, e, c2, EndOf(c.pos, PairTail(dist, e)), Reached(8 * |s|, ReachOf(c), c.pos, PairTail(dist, e)));
  }

  /** An element that is there is read, exactly if enough can be fetched for it. */
  lemma ElementExact(s: seq<byte>, lit: seq<nat>, dist: seq<nat>, c: Cursor, e: Element)
    requires Good(s, c) && Usable(lit) && Usable(dist) && ElementOk(lit, dist, e)
    requires At(s, c.pos, ElementBits(lit, dist, e))
    ensures OpIs(s, NextOp(s, lit, dist, c), OpOf(e), EndOf(c.pos, ElementBits(lit, dist, e)),
                 Reached(8 * |s|, ReachOf(c), c.pos, ElementBits(lit, dist, e)))
  {
    hide Good, At, NextOp, ReachOf, Symbol, PairTail, Lengths, MatchOp, FetchCode;
    match e
    case Lit(b) =>
      var c1 := SymbolExact(s, lit, c, b);
      NextOpIs(s, lit, dist, c, if Symbol(s, lit, c).None? then -1 else b, c1);
    case Pair(lz, lx, dz, dx) =>
      AtCat(s, c.pos, Sym(lit, 257 + lz), PairTail(dist, e));
      ReachedCat(8 * |s|, ReachOf(c), c.pos, Sym(lit, 257 + lz), PairTail(dist, e));
      var c1 := SymbolExact(s, lit, c, 257 + lz);
      NextOpIs(s, lit, dist, c, if Symbol(s, lit, c).None? then -1 else 257 + lz, c1);
      if Symbol(s, lit, c).Some? {
        PairExact(s, dist, c1, e);
      }
  }

  /** The end of a block is accepted exactly within what has been fetched. */
  lemma EndExact(s: seq<byte>, lit: seq<nat>, dist: seq<nat>, c: Cursor)
    requires Good(s, c) && Usable(lit) && Usable(dist) && 256 < |lit| && lit[256] > 0 && At(s, c.pos, Sym(lit, 256))
    ensures OpIs(s, NextOp(s, lit, dist, c), End, c.pos + lit[256],
                 Within(c.pos + lit[256], FetchCode(8 * |s|, ReachOf(c), c.pos)))
  {
    var c1 := SymbolExact(s, lit, c, 256);
    NextOpIs(s, lit, dist, c, if Symbol(s, lit, c).None? then -1 else 256, c1);
    if Symbol(s, lit, c).Some? {
      GoodSane(s, c1);
    }
  }

  /** o is the expansion x, ending at pos; or failure, because the decoder gives up, or because
      there is no expansion or no room for it. */
  ghost predicate DataIs(s: seq<byte>, max: nat, o: Option<(Cursor, seq<byte>)>, x: Option<seq<byte>>, pos: nat,
                         r: Option<Reach>)
  {
    if r.Some? && x.Some? && |x.value| <= max then o.Some? && Lands(s, o.value.0, pos, r.value) && o.value.1 == x.value
    else o == None
  }

  /** Where the reader is after a compressed block's data. */
  function DataReached(n: nat, r: Reach, pos: nat, lit: seq<nat>, dist: seq<nat>, es: seq<Element>): Option<Reach>
  {
    Within(EndOf(pos, ElementsBits(lit, dist, es)), Reached(n, r, pos, ElementsBits(lit, dist, es)))
  }

  /** Every element list that is there is read and expanded, exactly if its end is within what is
      fetched and the decoder does not give up before. */
  lemma {:induction false} CodesExact(s: seq<byte>, lit: seq<nat>, dist: seq<nat>, max: nat, c: Cursor,
                                      out: seq<byte>, es: seq<Element>)
    requires Good(s, c) && Usable(lit) && Usable(dist) && |out| <= max
    requires 256 < |lit| && lit[256] > 0 && ElementsOk(lit, dist, es)
    requires At(s, c.pos, ElementsBits(lit, dist, es))
    ensures DataIs(s, max, Codes(s, lit, dist, max, c, out), Expand(es, out), EndOf(c.pos, ElementsBits(lit, dist, es)),
                   DataReached(8 * |s|, ReachOf(c), c.pos, lit, dist, es))
    decreases |es|
  {
    var o := NextOp(s, lit, dist, c);
    if |es| == 0 {
      EndExact(s, lit, dist, c);
      CodesStep(s, lit, dist, max, c, out, if o.None? then None else Some(End), if o.None? then c else o.value.1);
    } else {
      var e := ElementBits(lit, dist, es[0]);
      AtCat(s, c.pos, e, ElementsBits(lit, dist, es[1..]));
      ReachedCat(8 * |s|, ReachOf(c), c.pos, e, ElementsBits(lit, dist, es[1..]));
      ElementExact(s, lit, dist, c, es[0]);
      ApplyIsExpandOne(es[0], max, out);
      CodesStep(s, lit, dist, max, c, out, if o.None? then None else Some(OpOf(es[0])), if o.None? then c else o.value.1);
      if o.Some? && Apply(OpOf(es[0]), max, out).Some? {
        CodesExact(s, lit, dist, max, o.value.1, ExpandOne(es[0], out).value, es[1..]);
      }
    }
  }

  // ---------------------------------------------------------------- soundness

  lemma LengthSound(s: seq<byte>, z: nat, c: Cursor) returns (x: nat)
    requires Good(s, c) && z < 29
    ensures x < Pow2(LenExtra(z)) && At(s, c.pos, Num(x, LenExtra(z)))
    ensures LengthAt(s, z, c).0 == LenBase(z) + x && LengthAt(s, z, c).1.pos == EndOf(c.pos, Num(x, LenExtra(z)))
  {
    x := Val(s, c.pos, LenExtra(z));
  }

  lemma DistSound(s: seq<byte>, z: nat, c: Cursor) returns (x: nat)
    requires Good(s, c) && z < 30
    ensures x < Pow2(DstExtra(z)) && At(s, c.pos, Num(x, DstExtra(z)))
    ensures DistAt(s, z, c).0 == DstBase(z) + x && DistAt(s, z, c).1.pos == EndOf(c.pos, Num(x, DstExtra(z)))
  {
    x := Val(s, c.pos, DstExtra(z));
  }

  lemma PairSound(s: seq<byte>, dist: seq<nat>, c: Cursor, lz: nat) returns (e: Element)
    requires Good(s, c) && Usable(dist) && lz < 29 && MatchOp(s, dist, lz, c).Some?
    ensures e.Pair? && e.lz == lz && e.lx < Pow2(LenExtra(lz))
    ensures e.dz < 30 && e.dz < |dist| && dist[e.dz] > 0 && e.dx < Pow2(DstExtra(e.dz))
    ensures At(s, c.pos, PairTail(dist, e))
    ensures MatchOp(s, dist, lz, c).value.0 == OpOf(e)
    ensures MatchOp(s, dist, lz, c).value.1.pos == EndOf(c.pos, PairTail(dist, e))
  {
    var lx := LengthSound(s, lz, c);
    var c2 := LengthAt(s, lz, c).1;
    SymbolSound(s, dist, c2);
    var dz, c3 := Symbol(s, dist, c2).value.0, Symbol(s, dist, c2).value.1;
    var dx := DistSound(s, dz, c3);
    e := Pair(lz, lx, dz, dx);
    PairPieces(s, dist, e, c.pos);
  }

  /** Every operation read is an element laid out at that place. */
  lemma ElementSound(s: seq<byte>, lit: seq<nat>, dist: seq<nat>, c: Cursor) returns (e: Element)
    requires Good(s, c) && Usable(lit) && Usable(dist)
    requires NextOp(s, lit, dist, c).Some? && !NextOp(s, lit, dist, c).value.0.End?
    ensures ElementOk(lit, dist, e) && At(s, c.pos, ElementBits(lit, dist, e))
    ensures NextOp(s, lit, dist, c).value.0 == OpOf(e)
    ensures NextOp(s, lit, dist, c).value.1.pos == EndOf(c.pos, ElementBits(lit, dist, e))
  {
    SymbolSound(s, lit, c);
    var z, c1 := Symbol(s, lit, c).value.0, Symbol(s, lit, c).value.1;
    if z < 256 {
      e := Lit(z);
    } else {
      e := PairSound(s, dist, c1, z - 257);
    }
  }

  lemma {:induction false} CodesSound(s: seq<byte>, lit: seq<nat>, dist: seq<nat>, max: nat, c: Cursor,
                                      out: seq<byte>) returns (es: seq<Element>)
    requires Good(s, c) && Usable(lit) && Usable(dist) && |out| <= max
    requires Codes(s, lit, dist, max, c, out).Some?
    ensures 256 < |lit| && lit[256] > 0 && ElementsOk(lit, dist, es)
    ensures At(s, c.pos, ElementsBits(lit, dist, es))
    ensures var r := Codes(s, lit, dist, max, c, out).value;
      r.0.pos == EndOf(c.pos, ElementsBits(lit, dist, es)) && Expand(es, out) == Some(r.1)
    decreases max - |out|
  {
    var op, c1 := NextOp(s, lit, dist, c).value.0, NextOp(s, lit, dist, c).value.1;
    if op.End? {
      SymbolSound(s, lit, c);
      es := [];
    } else {
      var e := ElementSound(s, lit, dist, c);
      ApplyIsExpandOne(e, max, out);
      CodesStep(s, lit, dist, max, c, out, Some(op), c1);
      var o := ExpandOne(e, out).value;
      var rest := CodesSound(s, lit, dist, max, c1, o);
      es := [e] + rest;
      assert es[1..] == rest;
      assert c1.pos == EndOf(c.pos, ElementBits(lit, dist, e));
      AtCat(s, c.pos, ElementBits(lit, dist, e), ElementsBits(lit, dist, rest));
    }
  }
}
