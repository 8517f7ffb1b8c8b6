/** Dynamic block heads, blocks and whole streams: the reference decoder and the format agree. */
module DeflateStreams {
  import opened Bits
  import opened Canonical
  import opened DeflateTables
  import opened Deflate
  import opened DeflateBits
  import opened DeflateFormat
  import opened DeflateFits
  import opened DeflateReach
  import opened DeflateSymbols
  import opened DeflateElements

  // ---------------------------------------------------------------- runs of code lengths

  /** What is fetched for a run. */
  lemma RunReached(n: nat, r: Reach, pos: nat, cl: seq<nat>, u: Run)
    requires |cl| == 19 && (u.Len? ==> u.l < 16)
    ensures Reached(n, r, pos, RunBits(cl, u)) ==
            if FetchCode(n, r, pos).None? then None
            else Some(FetchNum(FetchCode(n, r, pos).value, pos + cl[RunSym(u)], RunXBits(u)))
    ensures EndOf(pos, RunBits(cl, u)) == pos + cl[RunSym(u)] + RunXBits(u)
  {
    ReachedCat(n, r, pos, Sym(cl, RunSym(u)), Num(RunX(u), RunXBits(u)));
    EndCat(pos, Sym(cl, RunSym(u)), Num(RunX(u), RunXBits(u)));
  }

  /** o is the run's lengths, ending at pos, or failure where the decoder gives up. */
  ghost predicate RunIs(s: seq<byte>, o: Option<(seq<nat>, Cursor)>, more: seq<nat>, pos: nat, r: Option<Reach>)
  {
    match r
    case None => o == None
    case Some(t) => o.Some? && o.value.0 == more && Lands(s, o.value.1, pos, t)
  }

  /** The lengths of a run whose symbol has been read up to c1. */
  lemma RunRead(s: seq<byte>, cl: seq<nat>, c: Cursor, acc: seq<nat>, u: Run, c1: Cursor)
    requires Good(s, c) && Usable(cl) && RunOk(cl, u) && forall i | 0 <= i < |acc| :: acc[i] <= 15
    requires RunLengths(u, acc).Some? && Symbol(s, cl, c) == Some((RunSym(u), c1)) && Good(s, c1)
    requires At(s, c1.pos, Num(RunX(u), RunXBits(u)))
    ensures RunIs(s, NextRun(s, cl, c, acc), RunLengths(u, acc).value, c1.pos + RunXBits(u),
                  Some(FetchNum(ReachOf(c1), c1.pos, RunXBits(u))))
  {
    NextRunIs(s, cl, c, acc, RunSym(u), c1);
    TakeExact(s, c1, RunXBits(u));
  }

  /** What reading one run gives: the lengths it adds, exactly if enough can be fetched for it. */
  lemma RunExact(s: seq<byte>, cl: seq<nat>, c: Cursor, acc: seq<nat>, u: Run)
    requires Good(s, c) && Usable(cl) && RunOk(cl, u) && forall i | 0 <= i < |acc| :: acc[i] <= 15
    requires At(s, c.pos, RunBits(cl, u)) && RunLengths(u, acc).Some?
    ensures RunIs(s, NextRun(s, cl, c, acc), RunLengths(u, acc).value, EndOf(c.pos, RunBits(cl, u)),
                  Reached(8 * |s|, ReachOf(c), c.pos, RunBits(cl, u)))
  {
    hide Good, At, RunLengths, NextRun, Reached, ReachOf, RunSym, RunX, RunXBits, FetchCode, Lengths, Symbol;
    AtCat(s, c.pos, Sym(cl, RunSym(u)), Num(RunX(u), RunXBits(u)));
    RunReached(8 * |s|, ReachOf(c), c.pos, cl, u);
    var c1 := SymbolExact(s, cl, c, RunSym(u));
    if FetchCode(8 * |s|, ReachOf(c), c.pos).Some? {
      RunRead(s, cl, c, acc, u, c1);
    } else {
      NextRunIs(s, cl, c, acc, -1, c1);
    }
  }

  lemma RunSound(s: seq<byte>, cl: seq<nat>, c: Cursor, acc: seq<nat>) returns (u: Run)
    requires Good(s, c) && Usable(cl) && |cl| == 19 && forall i | 0 <= i < |acc| :: acc[i] <= 15
    requires NextRun(s, cl, c, acc).Some?
    ensures RunOk(cl, u) && At(s, c.pos, RunBits(cl, u))
    ensures RunLengths(u, acc) == Some(NextRun(s, cl, c, acc).value.0)
    ensures NextRun(s, cl, c, acc).value.1.pos == EndOf(c.pos, RunBits(cl, u))
  {
    hide Good, Symbol, Val, RepeatBits, Sym, Lengths, Repeat;
    SymbolSound(s, cl, c);
    var z, c1 := Symbol(s, cl, c).value.0, Symbol(s, cl, c).value.1;
    NextRunIs(s, cl, c, acc, z, c1);
    var x := Val(s, c1.pos, RepeatBits(z));
    u := if z < 16 then Len(z) else if z == 16 then Prev(x) else if z == 17 then Zeros(x) else ManyZeros(x);
    RunXBitsAre(u);
    AtCat(s, c.pos, Sym(cl, z), Num(RunX(u), RunXBits(u)));
  }

  /** o is the list of all lengths, ending at pos, or failure where the decoder gives up. */
  ghost predicate AllIs(s: seq<byte>, o: Option<(Cursor, seq<nat>)>, all: seq<nat>, pos: nat, r: Option<Reach>)
  {
    match r
    case None => o == None
    case Some(t) => o.Some? && o == Some((o.value.0, all)) && Lands(s, o.value.0, pos, t)
  }

  lemma CodeLengthsStep(s: seq<byte>, cl: seq<nat>, total: nat, c: Cursor, acc: seq<nat>)
    requires Good(s, c) && Lengths(cl) && |cl| == 19 && |acc| < total
    requires forall i | 0 <= i < |acc| :: acc[i] <= 15
    ensures var o := NextRun(s, cl, c, acc);
      && (o.None? ==> CodeLengths(s, cl, total, c, acc) == None)
      && (o.Some? && |acc| + |o.value.0| <= total ==>
          CodeLengths(s, cl, total, c, acc) == CodeLengths(s, cl, total, o.value.1, acc + o.value.0))
  {
  }

  lemma ExpandRunsStep(us: seq<Run>, acc: seq<nat>)
    requires |us| > 0 && ExpandRuns(us, acc).Some?
    ensures RunLengths(us[0], acc).Some?
    ensures ExpandRuns(us, acc) == ExpandRuns(us[1..], acc + RunLengths(us[0], acc).value)
  {
  }

  /** Every list of runs that is there is read as its lengths, exactly if enough can be fetched. */
  lemma {:induction false} RunsExact(s: seq<byte>, cl: seq<nat>, total: nat, c: Cursor, acc: seq<nat>, us: seq<Run>,
                                     all: seq<nat>)
    requires Good(s, c) && Usable(cl) && |cl| == 19 && RunsOk(cl, us)
    requires forall i | 0 <= i < |acc| :: acc[i] <= 15
    requires At(s, c.pos, RunsBits(cl, us)) && ExpandRuns(us, acc) == Some(all) && |all| == total
    ensures |acc| <= total
    ensures AllIs(s, CodeLengths(s, cl, total, c, acc), all, EndOf(c.pos, RunsBits(cl, us)),
                  Reached(8 * |s|, ReachOf(c), c.pos, RunsBits(cl, us)))
    decreases |us|
  {
    if |us| == 0 {
    } else {
      AtCat(s, c.pos, RunBits(cl, us[0]), RunsBits(cl, us[1..]));
      ReachedCat(8 * |s|, ReachOf(c), c.pos, RunBits(cl, us[0]), RunsBits(cl, us[1..]));
      ExpandRunsStep(us, acc);
      RunExact(s, cl, c, acc, us[0]);
      RunLengthsSmall(cl, us[0], acc);
      CodeLengthsStep(s, cl, total, c, acc);
      var o := NextRun(s, cl, c, acc);
      if o.Some? {
        RunsExact(s, cl, total, o.value.1, acc + o.value.0, us[1..], all);
      }
    }
  }

  lemma {:induction false} RunsSound(s: seq<byte>, cl: seq<nat>, total: nat, c: Cursor, acc: seq<nat>)
    returns (us: seq<Run>)
    requires Good(s, c) && Usable(cl) && |cl| == 19 && |acc| <= total
    requires forall i | 0 <= i < |acc| :: acc[i] <= 15
    requires CodeLengths(s, cl, total, c, acc).Some?
    ensures RunsOk(cl, us) && At(s, c.pos, RunsBits(cl, us))
    ensures var r := CodeLengths(s, cl, total, c, acc).value;
      r.0.pos == EndOf(c.pos, RunsBits(cl, us)) && ExpandRuns(us, acc) == Some(r.1)
    decreases total - |acc|
  {
    if |acc| == total {
      us := [];
    } else {
      var u := RunSound(s, cl, c, acc);
      var more, c1 := NextRun(s, cl, c, acc).value.0, NextRun(s, cl, c, acc).value.1;
      var rest := RunsSound(s, cl, total, c1, acc + more);
      us := [u] + rest;
      assert us[1..] == rest;
      assert c1.pos == EndOf(c.pos, RunBits(cl, u));
      AtCat(s, c.pos, RunBits(cl, u), RunsBits(cl, rest));
    }
  }

  // ---------------------------------------------------------------- the head of a dynamic block

  lemma {:induction false} ClsAt(s: seq<byte>, pos: nat, cls: seq<nat>)
    ensures At(s, pos, ClsBits(cls)) <==> cls == Threes(s, pos, |cls|)
    ensures EndOf(pos, ClsBits(cls)) == pos + 3 * |cls|
    decreases |cls|
  {
    if |cls| == 0 {
    } else {
      var n := |cls| - 1;
      ClsAt(s, pos, cls[..n]);
      AtCat(s, pos, ClsBits(cls[..n]), Num(cls[n], 3));
      assert cls == cls[..n] + [cls[n]];
      if cls == Threes(s, pos, |cls|) {
        assert cls[..n] == Threes(s, pos, n);
      }
    }
  }

  lemma CountsBitsAt(s: seq<byte>, pos: nat, hlit: nat, hdist: nat, n: nat)
    ensures At(s, pos, CountsBits(hlit, hdist, n)) <==>
            && Val(s, pos, 5) == Minus(hlit, 257) && Val(s, pos + 5, 5) == Minus(hdist, 1)
            && Val(s, pos + 10, 4) == Minus(n, 4)
    ensures EndOf(pos, CountsBits(hlit, hdist, n)) == pos + 14
  {
    var a, b, d := Num(Minus(hlit, 257), 5), Num(Minus(hdist, 1), 5), Num(Minus(n, 4), 4);
    AtCat(s, pos, a, Cat(b, d));
    AtCat(s, pos + 5, b, d);
  }

  lemma HeadLayout(s: seq<byte>, pos: nat, h: Head)
    ensures var p2 := EndOf(pos + 14, ClsBits(h.cls));
      var us := RunsBits(HeadCl(h), h.runs);
      && EndOf(pos, HeadBits(h)) == EndOf(p2, us) && p2 == pos + 14 + 3 * |h.cls|
      && (At(s, pos, HeadBits(h)) <==>
          At(s, pos, CountsBits(h.hlit, h.hdist, |h.cls|)) && At(s, pos + 14, ClsBits(h.cls)) && At(s, p2, us))
  {
    var us := RunsBits(HeadCl(h), h.runs);
    CountsBitsAt(s, pos, h.hlit, h.hdist, |h.cls|);
    AtCat(s, pos, CountsBits(h.hlit, h.hdist, |h.cls|), Cat(ClsBits(h.cls), us));
    ClsAt(s, pos + 14, h.cls);
    AtCat(s, pos + 14, ClsBits(h.cls), us);
  }

  /** What a dynamic head is decoded from: its counts, the code-length code, and where the runs start. */
  datatype Parts = Parts(hlit: nat, hdist: nat, n: nat, cl: seq<nat>, c: Cursor)

  ghost predicate PartsAt(s: seq<byte>, pos: nat, p: Parts)
  {
    match p
    case Parts(hlit, hdist, n, cl, c) =>
      && Good(s, c) && Lengths(cl) && |cl| == 19
      && 257 <= hlit <= 288 && 1 <= hdist <= 32 && 4 <= n <= 19
      && At(s, pos, CountsBits(hlit, hdist, n))
      && cl == ClFrom(Threes(s, pos + 14, n)) && c.pos == pos + 14 + 3 * n
  }

  lemma DynamicParts(s: seq<byte>, c: Cursor) returns (p: Parts)
    requires Good(s, c)
    ensures PartsAt(s, c.pos, p) && p.c == TakeThrees(s, CountsAt(s, c).3, p.n)
    ensures Dynamic(s, c) == if Codable(p.cl) then SplitLengths(s, p.hlit, p.hdist, p.cl, p.c) else None
  {
    hide Good, TakeThrees, Codable, SplitLengths, Threes, ClFrom, At, CountsBits, Val, EndOf, Lengths;
    var h := CountsAt(s, c);
    ThreesSmall(s, c.pos + 14, h.2);
    ClFromSmall(Threes(s, c.pos + 14, h.2));
    p := Parts(h.0, h.1, h.2, ClFrom(Threes(s, c.pos + 14, h.2)), TakeThrees(s, h.3, h.2));
    CountsBitsAt(s, c.pos, h.0, h.1, h.2);
  }

  lemma ReachedThree(n: nat, r: Reach, pos: nat, a: Layout, b: Layout, d: Layout, t0: Reach, p0: nat, t1: Reach, p1: nat)
    requires Reached(n, r, pos, a) == Some(t0) && EndOf(pos, a) == p0
    requires Reached(n, t0, p0, b) == Some(t1) && EndOf(p0, b) == p1
    ensures Reached(n, r, pos, Cat(a, Cat(b, d))) == Reached(n, t1, p1, d)
    ensures EndOf(pos, Cat(a, Cat(b, d))) == EndOf(p1, d)
  {
    ReachedCat(n, r, pos, a, Cat(b, d));
    ReachedCat(n, t0, p0, b, d);
    EndCat(pos, a, Cat(b, d));
    EndCat(p0, b, d);
  }

  lemma CountsExact(s: seq<byte>, c: Cursor, hlit: nat, hdist: nat, n: nat) returns (t: Reach)
    requires Good(s, c)
    ensures Reached(8 * |s|, ReachOf(c), c.pos, CountsBits(hlit, hdist, n)) == Some(t)
    ensures Lands(s, CountsAt(s, c).3, c.pos + 14, t)
  {
    var c1, c2 := Take(c, 5), Take(Take(c, 5), 5);
    TakeExact(s, c, 5);
    TakeExact(s, c1, 5);
    TakeExact(s, c2, 4);
    t := FetchNum(ReachOf(c2), c.pos + 10, 4);
    ReachedThree(8 * |s|, ReachOf(c), c.pos, Num(Minus(hlit, 257), 5), Num(Minus(hdist, 1), 5), Num(Minus(n, 4), 4),
                 ReachOf(c1), c.pos + 5, ReachOf(c2), c.pos + 10);
  }

  lemma {:induction false} ThreesExact(s: seq<byte>, c: Cursor, cls: seq<nat>) returns (t: Reach)
    requires Good(s, c)
    ensures Reached(8 * |s|, ReachOf(c), c.pos, ClsBits(cls)) == Some(t)
    ensures Lands(s, TakeThrees(s, c, |cls|), c.pos + 3 * |cls|, t)
    decreases |cls|
  {
    hide Good, ReachOf, FetchNum, At, Threes, EndOf, Take;
    if |cls| == 0 {
      t := ReachOf(c);
    } else {
      var n := |cls| - 1;
      var t1 := ThreesExact(s, c, cls[..n]);
      ClsAt(s, c.pos, cls[..n]);
      TakeExact(s, TakeThrees(s, c, n), 3);
      ReachedCat(8 * |s|, ReachOf(c), c.pos, ClsBits(cls[..n]), Num(cls[n], 3));
      t := FetchNum(t1, c.pos + 3 * n, 3);
    }
  }

  /** What is fetched for a head is what is fetched for its runs, from where they start. */
  lemma HeadReached(s: seq<byte>, c: Cursor, h: Head, c1: Cursor)
    requires Good(s, c) && c1 == TakeThrees(s, CountsAt(s, c).3, |h.cls|)
    ensures Good(s, c1)
    ensures Reached(8 * |s|, ReachOf(c), c.pos, HeadBits(h)) ==
            Reached(8 * |s|, ReachOf(c1), c1.pos, RunsBits(HeadCl(h), h.runs))
    ensures EndOf(c.pos, HeadBits(h)) == EndOf(c1.pos, RunsBits(HeadCl(h), h.runs))
  {
    hide TakeThrees, CountsAt, Reached, ReachOf, RunsBits, HeadCl, EndOf, CountsBits, ClsBits, At, Threes, Val, Minus;
    CountsBitsAt(s, c.pos, h.hlit, h.hdist, |h.cls|);
    ClsAt(s, c.pos + 14, h.cls);
    var t0 := CountsExact(s, c, h.hlit, h.hdist, |h.cls|);
    var t1 := ThreesExact(s, CountsAt(s, c).3, h.cls);
    ReachedThree(8 * |s|, ReachOf(c), c.pos, CountsBits(h.hlit, h.hdist, |h.cls|), ClsBits(h.cls),
                 RunsBits(HeadCl(h), h.runs), t0, c.pos + 14, t1, c1.pos);
  }

  /** The counts and code-length lengths of a head that is there. */
  lemma CountsOfHead(s: seq<byte>, pos: nat, hlit: nat, hdist: nat, n: nat, h: Head)
    requires 257 <= hlit <= 288 && 1 <= hdist <= 32 && 4 <= n <= 19
    requires 257 <= h.hlit <= 288 && 1 <= h.hdist <= 32 && 4 <= |h.cls| <= 19
    requires At(s, pos, CountsBits(hlit, hdist, n))
    requires At(s, pos, HeadBits(h))
    ensures hlit == h.hlit && hdist == h.hdist && n == |h.cls| && h.cls == Threes(s, pos + 14, n)
    ensures At(s, pos + 14 + 3 * n, RunsBits(HeadCl(h), h.runs))
  {
    HeadLayout(s, pos, h);
    CountsBitsAt(s, pos, h.hlit, h.hdist, |h.cls|);
    CountsBitsAt(s, pos, hlit, hdist, n);
    ClsAt(s, pos + 14, h.cls);
  }

  /** o is the two length lists, ending at pos, or failure where the decoder gives up. */
  ghost predicate ListsAre(s: seq<byte>, o: Option<(Cursor, seq<nat>, seq<nat>)>, lit: seq<nat>, dist: seq<nat>, pos: nat,
                           r: Option<Reach>)
  {
    match r
    case None => o == None
    case Some(t) => o.Some? && o == Some((o.value.0, lit, dist)) && Lands(s, o.value.0, pos, t)
  }

  lemma SplitNone(s: seq<byte>, hlit: nat, hdist: nat, cl: seq<nat>, c: Cursor)
    requires Good(s, c) && hlit <= 288 && hdist <= 32 && Lengths(cl) && |cl| == 19
    requires CodeLengths(s, cl, hlit + hdist, c, []) == None
    ensures SplitLengths(s, hlit, hdist, cl, c) == None
  {
  }

  /** Runs that give all lengths, from where they start. */
  lemma SplitExact(s: seq<byte>, hlit: nat, hdist: nat, cl: seq<nat>, c: Cursor, us: seq<Run>, all: seq<nat>)
    requires Good(s, c) && hlit <= 288 && hdist <= 32 && Usable(cl) && |cl| == 19 && RunsOk(cl, us)
    requires At(s, c.pos, RunsBits(cl, us)) && ExpandRuns(us, []) == Some(all) && |all| == hlit + hdist
    requires Codable(all[..hlit]) && Codable(all[hlit..])
    ensures ListsAre(s, SplitLengths(s, hlit, hdist, cl, c), all[..hlit], all[hlit..], EndOf(c.pos, RunsBits(cl, us)),
                     Reached(8 * |s|, ReachOf(c), c.pos, RunsBits(cl, us)))
  {
    hide CodeLengths, SplitLengths, Codable, Reached, RunsBits, ExpandRuns;
    RunsExact(s, cl, hlit + hdist, c, [], us, all);
    var o := CodeLengths(s, cl, hlit + hdist, c, []);
    if o.Some? {
      SplitIs(s, hlit, hdist, cl, c, o.value.0, all);
    } else {
      SplitNone(s, hlit, hdist, cl, c);
    }
  }

  /** What makes a head well-formed, in terms of its lengths. */
  lemma HeadFacts(h: Head) returns (all: seq<nat>)
    requires HeadOk(h)
    ensures 257 <= h.hlit <= 288 && 1 <= h.hdist <= 32 && 4 <= |h.cls| <= 19
    ensures Usable(HeadCl(h)) && RunsOk(HeadCl(h), h.runs)
    ensures ExpandRuns(h.runs, []) == Some(all) && |all| == h.hlit + h.hdist
    ensures HeadLit(h) == all[..h.hlit] && HeadDist(h) == all[h.hlit..]
    ensures Codable(all[..h.hlit]) && Codable(all[h.hlit..])
  {
    ClFromSmall(h.cls);
    all := HeadLengths(h).value;
  }

  /** Every well-formed head that is there is accepted, exactly if enough can be fetched for it. */
  lemma HeadExact(s: seq<byte>, c: Cursor, h: Head)
    requires Good(s, c) && HeadOk(h) && At(s, c.pos, HeadBits(h))
    ensures ListsAre(s, Dynamic(s, c), HeadLit(h), HeadDist(h), EndOf(c.pos, HeadBits(h)),
                     Reached(8 * |s|, ReachOf(c), c.pos, HeadBits(h)))
  {
    var all := HeadFacts(h);
    HeadFrom(s, c, h, all);
  }

  lemma HeadFrom(s: seq<byte>, c: Cursor, h: Head, all: seq<nat>)
    requires Good(s, c) && At(s, c.pos, HeadBits(h))
    requires 257 <= h.hlit <= 288 && 1 <= h.hdist <= 32 && 4 <= |h.cls| <= 19
    requires Usable(HeadCl(h)) && RunsOk(HeadCl(h), h.runs)
    requires ExpandRuns(h.runs, []) == Some(all) && |all| == h.hlit + h.hdist
    requires Codable(all[..h.hlit]) && Codable(all[h.hlit..])
    ensures ListsAre(s, Dynamic(s, c), all[..h.hlit], all[h.hlit..], EndOf(c.pos, HeadBits(h)),
                     Reached(8 * |s|, ReachOf(c), c.pos, HeadBits(h)))
  {
    hide SplitLengths, Dynamic, Codable, Reached, RunsBits, ExpandRuns, HeadBits;
    var p := DynamicParts(s, c);
    CountsOfHead(s, c.pos, p.hlit, p.hdist, p.n, h);
    assert p.cl == HeadCl(h);
    HeadReached(s, c, h, p.c);
    SplitExact(s, h.hlit, h.hdist, HeadCl(h), p.c, h.runs, all);
  }

  /** h is the head at pos, with the code lengths and the end that d gives. */
  ghost predicate HeadRead(s: seq<byte>, pos: nat, d: (Cursor, seq<nat>, seq<nat>), h: Head)
  {
    match d
    case (c, lit, dist) =>
      && HeadOk(h) && At(s, pos, HeadBits(h)) && c.pos == EndOf(pos, HeadBits(h))
      && lit == HeadLit(h) && dist == HeadDist(h) && Usable(lit) && Usable(dist)
  }

  /** The head that was read. */
  lemma HeadSound(s: seq<byte>, c: Cursor) returns (h: Head)
    requires Good(s, c) && Dynamic(s, c).Some?
    ensures HeadRead(s, c.pos, Dynamic(s, c).value, h)
  {
    var p := DynamicParts(s, c);
    h := PartsSound(s, c.pos, p, Dynamic(s, c).value);
  }

  lemma PartsSound(s: seq<byte>, pos: nat, p: Parts, d: (Cursor, seq<nat>, seq<nat>)) returns (h: Head)
    requires PartsAt(s, pos, p) && Codable(p.cl) && SplitLengths(s, p.hlit, p.hdist, p.cl, p.c) == Some(d)
    ensures HeadRead(s, pos, d, h)
  {
    var r := SplitSome(s, p.hlit, p.hdist, p.cl, p.c);
    h := HeadOfParts(s, pos, p, r.0, r.1);
  }

  lemma SplitSome(s: seq<byte>, hlit: nat, hdist: nat, cl: seq<nat>, c: Cursor) returns (r: (Cursor, seq<nat>))
    requires Good(s, c) && hlit <= 288 && hdist <= 32 && Lengths(cl) && |cl| == 19
    requires SplitLengths(s, hlit, hdist, cl, c).Some?
    ensures CodeLengths(s, cl, hlit + hdist, c, []) == Some(r) && |r.1| == hlit + hdist
    ensures SplitLengths(s, hlit, hdist, cl, c) == Some((r.0, r.1[..hlit], r.1[hlit..]))
    ensures Usable(r.1[..hlit]) && Usable(r.1[hlit..])
  {
    r := CodeLengths(s, cl, hlit + hdist, c, []).value;
    SplitIs(s, hlit, hdist, cl, c, r.0, r.1);
  }

  lemma HeadOfParts(s: seq<byte>, pos: nat, p: Parts, c: Cursor, all: seq<nat>) returns (h: Head)
    requires PartsAt(s, pos, p) && Codable(p.cl)
    requires CodeLengths(s, p.cl, p.hlit + p.hdist, p.c, []) == Some((c, all)) && |all| == p.hlit + p.hdist
    requires Codable(all[..p.hlit]) && Codable(all[p.hlit..])
    ensures HeadOk(h) && At(s, pos, HeadBits(h)) && c.pos == EndOf(pos, HeadBits(h))
    ensures all[..p.hlit] == HeadLit(h) && all[p.hlit..] == HeadDist(h)
  {
    hide Codable, CodeLengths, HeadOk, At, HeadBits, EndOf, HeadLit, HeadDist, CountsBits, ClFrom, Threes, RunsOk,
         RunsBits, ExpandRuns, Good, Usable;
    var us := RunsSound(s, p.cl, p.hlit + p.hdist, p.c, []);
    h := HeadOfRuns(s, pos, p.hlit, p.hdist, p.n, p.cl, us, all);
  }

  /** The head with the given parts. */
  lemma HeadOfRuns(s: seq<byte>, pos: nat, hlit: nat, hdist: nat, n: nat, cl: seq<nat>, us: seq<Run>, all: seq<nat>)
    returns (h: Head)
    requires 257 <= hlit <= 288 && 1 <= hdist <= 32 && 4 <= n <= 19
    requires At(s, pos, CountsBits(hlit, hdist, n))
    requires cl == ClFrom(Threes(s, pos + 14, n)) && Codable(cl)
    requires RunsOk(cl, us) && At(s, pos + 14 + 3 * n, RunsBits(cl, us))
    requires ExpandRuns(us, []) == Some(all) && |all| == hlit + hdist
    requires Codable(all[..hlit]) && Codable(all[hlit..])
    ensures HeadOk(h) && At(s, pos, HeadBits(h)) && EndOf(pos + 14 + 3 * n, RunsBits(cl, us)) == EndOf(pos, HeadBits(h))
    ensures all[..hlit] == HeadLit(h) && all[hlit..] == HeadDist(h)
  {
    h := Head(hlit, hdist, Threes(s, pos + 14, n), us);
    assert HeadCl(h) == cl;
    ThreesSmall(s, pos + 14, n);
    HeadOkOf(h, all);
    HeadThere(s, pos, h);
  }

  lemma HeadThere(s: seq<byte>, pos: nat, h: Head)
    requires h.hlit >= 257 && h.hdist >= 1 && |h.cls| >= 4 && h.cls == Threes(s, pos + 14, |h.cls|)
    requires At(s, pos, CountsBits(h.hlit, h.hdist, |h.cls|))
    requires At(s, pos + 14 + 3 * |h.cls|, RunsBits(HeadCl(h), h.runs))
    ensures At(s, pos, HeadBits(h))
    ensures EndOf(pos, HeadBits(h)) == EndOf(pos + 14 + 3 * |h.cls|, RunsBits(HeadCl(h), h.runs))
  {
    HeadLayout(s, pos, h);
    ClsAt(s, pos + 14, h.cls);
  }

  lemma HeadOkOf(h: Head, all: seq<nat>)
    requires 257 <= h.hlit <= 288 && 1 <= h.hdist <= 32 && 4 <= |h.cls| <= 19
    requires forall i | 0 <= i < |h.cls| :: h.cls[i] < 8
    requires Codable(HeadCl(h)) && RunsOk(HeadCl(h), h.runs)
    requires ExpandRuns(h.runs, []) == Some(all) && |all| == h.hlit + h.hdist
    requires Codable(all[..h.hlit]) && Codable(all[h.hlit..])
    ensures HeadOk(h) && HeadLit(h) == all[..h.hlit] && HeadDist(h) == all[h.hlit..]
  {
  }

  // ---------------------------------------------------------------- stored blocks

  lemma {:induction false} BytesAt(s: seq<byte>, k: nat, data: seq<byte>)
    ensures At(s, 8 * k, BytesBits(data)) <==> forall i | 0 <= i < |data| :: ByteAt(s, k + i) == data[i]
    ensures EndOf(8 * k, BytesBits(data)) == 8 * (k + |data|)
    decreases |data|
  {
    if |data| == 0 {
    } else {
      var n := |data| - 1;
      BytesAt(s, k, data[..n]);
      AtCat(s, 8 * k, BytesBits(data[..n]), Num(data[n], 8));
      ValByte(s, k + n);
      assert forall i | 0 <= i < n :: data[..n][i] == data[i];
    }
  }

  lemma BytesSlice(s: seq<byte>, k: nat, data: seq<byte>)
    requires k + |data| <= |s|
    ensures At(s, 8 * k, BytesBits(data)) <==> data == s[k..k + |data|]
    ensures EndOf(8 * k, BytesBits(data)) == 8 * (k + |data|)
  {
    BytesAt(s, k, data);
    if forall i | 0 <= i < |data| :: ByteAt(s, k + i) == data[i] {
      forall i | 0 <= i < |data| ensures data[i] == s[k..k + |data|][i] {
        assert ByteAt(s, k + i) == data[i];
      }
    }
  }

  /** LEN and NLEN followed by the data, at a byte boundary. */
  lemma RawAt(s: seq<byte>, b: nat, data: seq<byte>)
    requires |data| < 0x1_0000 && b + 4 + |data| <= |s|
    ensures At(s, 8 * b, RawBits(data)) <==>
            Val(s, 8 * b, 16) == |data| && Val(s, 8 * b + 16, 16) == 0xffff - |data| && data == s[b + 4..b + 4 + |data|]
    ensures EndOf(8 * b, RawBits(data)) == 8 * (b + 4 + |data|)
  {
    var l, m, d := Num(|data|, 16), Num(Minus(0xffff, |data|), 16), BytesBits(data);
    AtCat(s, 8 * b, l, Cat(m, d));
    AtCat(s, 8 * b + 16, m, d);
    assert 8 * b + 16 + 16 == 8 * (b + 4);
    BytesSlice(s, b + 4, data);
  }

  /** Every stored block that is there is copied, exactly if it ends inside the input. */
  lemma StoredExact(s: seq<byte>, max: nat, c: Cursor, out: seq<byte>, b: BlockData)
    requires Good(s, c) && b.Raw? && BlockOk(b, c.pos) && At(s, c.pos, BlockBits(b, c.pos)) && |out| <= max
    ensures DataIs(s, max, Stored(s, max, c, out), Some(out + b.data), EndOf(c.pos, BlockBits(b, c.pos)),
                   BlockReached(8 * |s|, ReachOf(c), c.pos, b))
  {
    hide Good, At, ByteUp, RawBits, Val;
    var k := ByteUp(c.pos);
    AtCat(s, c.pos, Num(b.pad, 8 * k - c.pos), RawBits(b.data));
    RawEnd(s, k, b.data);
    RawHeader(s, k, b.data);
    if k + 4 + |b.data| <= |s| {
      StoredInside(s, max, c, out, b);
    }
  }

  lemma StoredInside(s: seq<byte>, max: nat, c: Cursor, out: seq<byte>, b: BlockData)
    requires Good(s, c) && b.Raw? && |b.data| < 0x1_0000 && |out| <= max
    requires EndOf(c.pos, BlockBits(b, c.pos)) == 8 * (ByteUp(c.pos) + 4 + |b.data|) <= 8 * |s|
    requires At(s, 8 * ByteUp(c.pos), RawBits(b.data))
    ensures Stored(s, max, c, out) ==
            if |out| + |b.data| > max then None
            else Some((Cursor(8 * (ByteUp(c.pos) + 4 + |b.data|), 0, false), out + b.data))
    ensures Good(s, Cursor(8 * (ByteUp(c.pos) + 4 + |b.data|), 0, false)) && !c.hitEof
  {
    hide EndOf, ByteUp, ReachOf, Val, Sane, Aligned, Reach.Counted;
    hide RawBits, BlockBits, At;
    GoodSane(s, c);
    RawUnpadded(8 * |s|, ReachOf(c), c.pos, b);
    RawAt(s, ByteUp(c.pos), b.data);
    AlignedByte(ByteUp(c.pos) + 4 + |b.data|);
  }

  lemma RawHeader(s: seq<byte>, b: nat, data: seq<byte>)
    requires |data| < 0x1_0000 && At(s, 8 * b, RawBits(data))
    ensures Val(s, 8 * b, 16) == |data| && Val(s, 8 * b + 16, 16) == 0xffff - |data|
  {
    var l, m, d := Num(|data|, 16), Num(Minus(0xffff, |data|), 16), BytesBits(data);
    AtCat(s, 8 * b, l, Cat(m, d));
    AtCat(s, 8 * b + 16, m, d);
  }

  lemma RawEnd(s: seq<byte>, b: nat, data: seq<byte>)
    ensures EndOf(8 * b, RawBits(data)) == 8 * (b + 4 + |data|)
  {
    var l, m, d := Num(|data|, 16), Num(Minus(0xffff, |data|), 16), BytesBits(data);
    AtCat(s, 8 * b, l, Cat(m, d));
    AtCat(s, 8 * b + 16, m, d);
    BytesAt(s, b + 4, data);
    assert 8 * b + 16 + 16 == 8 * (b + 4);
  }

  lemma StoredSound(s: seq<byte>, max: nat, c: Cursor, out: seq<byte>) returns (b: BlockData)
    requires Good(s, c) && |out| <= max && Stored(s, max, c, out).Some?
    ensures b.Raw? && BlockOk(b, c.pos) && At(s, c.pos, BlockBits(b, c.pos))
    ensures Stored(s, max, c, out).value.0.pos == EndOf(c.pos, BlockBits(b, c.pos))
    ensures Stored(s, max, c, out).value.1 == out + b.data
  {
    hide Good, ByteUp, Val, RawBits, Pow2;
    var k := ByteUp(c.pos);
    var len := Val(s, 8 * k, 16);
    var data := s[k + 4..k + 4 + len];
    b := Raw(Val(s, c.pos, 8 * k - c.pos), data);
    Pow2Values();
    RawAt(s, k, data);
    AtCat(s, c.pos, Num(b.pad, 8 * k - c.pos), RawBits(data));
  }

  // ---------------------------------------------------------------- blocks

  lemma OwnLayout(s: seq<byte>, pos: nat, b: BlockData)
    requires b.Own?
    ensures var e := ElementsBits(HeadLit(b.head), HeadDist(b.head), b.es);
      && EndOf(pos, BlockBits(b, pos)) == EndOf(EndOf(pos, HeadBits(b.head)), e)
      && (At(s, pos, BlockBits(b, pos)) <==> At(s, pos, HeadBits(b.head)) && At(s, EndOf(pos, HeadBits(b.head)), e))
  {
    AtCat(s, pos, HeadBits(b.head), ElementsBits(HeadLit(b.head), HeadDist(b.head), b.es));
  }

  lemma OwnReached(n: nat, r: Reach, pos: nat, b: BlockData)
    requires b.Own?
    ensures var h := Reached(n, r, pos, HeadBits(b.head));
      BlockReached(n, r, pos, b) ==
      if h.None? then None
      else DataReached(n, h.value, EndOf(pos, HeadBits(b.head)), HeadLit(b.head), HeadDist(b.head), b.es)
  {
    var e := ElementsBits(HeadLit(b.head), HeadDist(b.head), b.es);
    ReachedCat(n, r, pos, HeadBits(b.head), e);
    EndCat(pos, HeadBits(b.head), e);
  }

  /** The data of a dynamic block whose head has been read up to c1. */
  lemma OwnData(s: seq<byte>, max: nat, c1: Cursor, out: seq<byte>, b: BlockData, end: nat, r: Option<Reach>)
    requires Good(s, c1) && b.Own? && BlockOk(b, 0) && |out| <= max
    requires At(s, c1.pos, ElementsBits(HeadLit(b.head), HeadDist(b.head), b.es))
    requires end == EndOf(c1.pos, ElementsBits(HeadLit(b.head), HeadDist(b.head), b.es))
    requires r == DataReached(8 * |s|, ReachOf(c1), c1.pos, HeadLit(b.head), HeadDist(b.head), b.es)
    ensures Usable(HeadLit(b.head)) && Usable(HeadDist(b.head))
    ensures DataIs(s, max, Codes(s, HeadLit(b.head), HeadDist(b.head), max, c1, out), Expand(b.es, out), end, r)
  {
    HeadUsable(b.head);
    CodesExact(s, HeadLit(b.head), HeadDist(b.head), max, c1, out, b.es);
  }

  lemma OwnExact(s: seq<byte>, max: nat, c: Cursor, out: seq<byte>, b: BlockData)
    requires Good(s, c) && b.Own? && BlockOk(b, c.pos) && At(s, c.pos, BlockBits(b, c.pos)) && |out| <= max
    ensures DataIs(s, max, Block(s, max, 2, c, out), ExpandBlock(b, out), EndOf(c.pos, BlockBits(b, c.pos)),
                   BlockReached(8 * |s|, ReachOf(c), c.pos, b))
  {
    hide Good, At, BlockBits, EndOf, BlockReached, ReachOf, Dynamic, HeadOk, HeadBits, HeadLit, HeadDist, Reached;
    OwnLayout(s, c.pos, b);
    OwnReached(8 * |s|, ReachOf(c), c.pos, b);
    HeadExact(s, c, b.head);
    var d := Dynamic(s, c);
    if d.Some? {
      OwnData(s, max, d.value.0, out, b, EndOf(c.pos, BlockBits(b, c.pos)), BlockReached(8 * |s|, ReachOf(c), c.pos, b));
    }
  }

  /** Every block that is there is accepted and expanded, exactly if its end is reached. */
  lemma BlockExact(s: seq<byte>, max: nat, c: Cursor, out: seq<byte>, b: BlockData)
    requires Good(s, c) && BlockOk(b, c.pos) && At(s, c.pos, BlockBits(b, c.pos)) && |out| <= max
    ensures DataIs(s, max, Block(s, max, Kind(b), c, out), ExpandBlock(b, out), EndOf(c.pos, BlockBits(b, c.pos)),
                   BlockReached(8 * |s|, ReachOf(c), c.pos, b))
  {
    match b
    case Raw(_, data) =>
      StoredExact(s, max, c, out, b);
    case Fixed(es) =>
      FixedUsable();
      CodesExact(s, FixedLit(), FixedDist(), max, c, out, es);
    case Own(h, es) =>
      OwnExact(s, max, c, out, b);
  }

  lemma OwnSound(s: seq<byte>, max: nat, c: Cursor, out: seq<byte>) returns (b: BlockData)
    requires Good(s, c) && |out| <= max && Dynamic(s, c).Some?
    requires var r := Dynamic(s, c).value; Codes(s, r.1, r.2, max, r.0, out).Some?
    ensures b.Own? && BlockOk(b, c.pos) && At(s, c.pos, BlockBits(b, c.pos))
    ensures var r := Dynamic(s, c).value; var d := Codes(s, r.1, r.2, max, r.0, out).value;
      d.0.pos == EndOf(c.pos, BlockBits(b, c.pos)) && Expand(b.es, out) == Some(d.1)
  {
    var h := HeadSound(s, c);
    var c1 := Dynamic(s, c).value.0;
    assert c1.pos == EndOf(c.pos, HeadBits(h));
    var es := CodesSound(s, HeadLit(h), HeadDist(h), max, c1, out);
    b := Own(h, es);
    OwnLayout(s, c.pos, b);
  }

  lemma BlockSound(s: seq<byte>, max: nat, kind: nat, c: Cursor, out: seq<byte>) returns (b: BlockData)
    requires Good(s, c) && |out| <= max && Block(s, max, kind, c, out).Some?
    ensures Kind(b) == kind && BlockOk(b, c.pos) && At(s, c.pos, BlockBits(b, c.pos))
    ensures Block(s, max, kind, c, out).value.0.pos == EndOf(c.pos, BlockBits(b, c.pos))
    ensures ExpandBlock(b, out) == Some(Block(s, max, kind, c, out).value.1)
  {
    if kind == 0 {
      b := StoredSound(s, max, c, out);
    } else if kind == 1 {
      FixedUsable();
      var es := CodesSound(s, FixedLit(), FixedDist(), max, c, out);
      b := Fixed(es);
    } else {
      b := OwnSound(s, max, c, out);
    }
  }

  // ---------------------------------------------------------------- streams

  lemma StreamLayout(s: seq<byte>, pos: nat, bs: seq<BlockData>)
    requires |bs| > 0
    ensures var rest := StreamBits(bs[1..], After(bs[0], pos));
      && EndOf(pos, StreamBits(bs, pos)) == EndOf(After(bs[0], pos), rest)
      && (At(s, pos, StreamBits(bs, pos)) <==>
          && Val(s, pos, 1) == (if |bs| == 1 then 1 else 0) && Val(s, pos + 1, 2) == Kind(bs[0])
          && At(s, pos + 3, BlockBits(bs[0], pos + 3)) && At(s, After(bs[0], pos), rest))
  {
    var body, rest := BlockBits(bs[0], pos + 3), StreamBits(bs[1..], After(bs[0], pos));
    var final := Num(if |bs| == 1 then 1 else 0, 1);
    AtCat(s, pos, final, Cat(Num(Kind(bs[0]), 2), Cat(body, rest)));
    AtCat(s, pos + 1, Num(Kind(bs[0]), 2), Cat(body, rest));
    AtCat(s, pos + 3, body, rest);
  }

  /** One block of a stream: fetching its header, its data, and going on after it. */
  lemma StreamStep(s: seq<byte>, max: nat, c: Cursor, out: seq<byte>, bs: seq<BlockData>)
    returns (o: Option<(Cursor, seq<byte>)>)
    requires Good(s, c) && |out| <= max && StreamOk(bs, c.pos) && At(s, c.pos, StreamBits(bs, c.pos))
    ensures DataIs(s, max, o, ExpandBlock(bs[0], out), After(bs[0], c.pos),
                   BlockReached(8 * |s|, HeaderReached(ReachOf(c), c.pos), c.pos + 3, bs[0]))
    ensures o.None? ==> Blocks(s, max, c, out) == None
    ensures o.Some? ==> |o.value.1| <= max && Good(s, o.value.0)
    ensures o.Some? ==> Blocks(s, max, c, out) == if |bs| == 1 then o else Blocks(s, max, o.value.0, o.value.1)
  {
    hide Block, Blocks, BlockReached, ExpandBlock, BlockBits, StreamBits, FetchNum, BlockOk, At;
    StreamLayout(s, c.pos, bs);
    var c0 := Take(Take(c, 1), 2);
    TakeExact(s, c, 1);
    TakeExact(s, Take(c, 1), 2);
    o := Block(s, max, Kind(bs[0]), c0, out);
    BlockExact(s, max, c0, out, bs[0]);
    BlocksStep(s, max, c, out, o);
  }

  /** Every well-formed stream that is there is accepted with its LZ77 meaning, exactly if the end
      of each of its blocks is reached, and rejected otherwise. */
  lemma {:induction false} StreamExact(s: seq<byte>, max: nat, c: Cursor, out: seq<byte>, bs: seq<BlockData>)
    requires Good(s, c) && |out| <= max && StreamOk(bs, c.pos) && At(s, c.pos, StreamBits(bs, c.pos))
    ensures DataIs(s, max, Blocks(s, max, c, out), ExpandStream(bs, out), EndOf(c.pos, StreamBits(bs, c.pos)),
                   StreamReached(8 * |s|, ReachOf(c), c.pos, bs))
    decreases |bs|
  {
    hide Good, ReachOf, After, HeaderReached, Val, Kind, BlockBits;
    hide Blocks, BlockReached, ExpandBlock, BlockOk, At;
    StreamLayout(s, c.pos, bs);
    var o := StreamStep(s, max, c, out, bs);
    if |bs| == 1 {
    } else if o.Some? {
      StreamExact(s, max, o.value.0, o.value.1, bs[1..]);
    }
  }

  /** There is block b at pos, after a header that marks it as the last or not. */
  ghost predicate BlockThere(s: seq<byte>, pos: nat, b: BlockData, last: bool)
  {
    && BlockOk(b, pos + 3) && At(s, pos + 3, BlockBits(b, pos + 3))
    && Val(s, pos, 1) == (if last then 1 else 0) && Val(s, pos + 1, 2) == Kind(b)
  }

  lemma ConsStream(s: seq<byte>, pos: nat, b: BlockData, next: nat, rest: seq<BlockData>)
    requires BlockThere(s, pos, b, |rest| == 0) && next == After(b, pos)
    requires |rest| > 0 ==> StreamOk(rest, next) && At(s, next, StreamBits(rest, next))
    ensures var bs := [b] + rest;
      && StreamOk(bs, pos) && At(s, pos, StreamBits(bs, pos))
      && EndOf(pos, StreamBits(bs, pos)) == EndOf(next, StreamBits(rest, next))
  {
    var bs := [b] + rest;
    assert bs[1..] == rest;
    StreamLayout(s, pos, bs);
  }

  /** The first block of what is accepted. */
  lemma FirstBlockSound(s: seq<byte>, max: nat, c: Cursor, out: seq<byte>) returns (b: BlockData, c1: Cursor, o: seq<byte>)
    requires Good(s, c) && |out| <= max && Blocks(s, max, c, out).Some?
    ensures BlockThere(s, c.pos, b, Val(s, c.pos, 1) == 1) && c1.pos == After(b, c.pos) && ExpandBlock(b, out) == Some(o)
    ensures Good(s, c1) && |o| <= max && c.pos < 8 * |s| && c.pos < c1.pos
    ensures Blocks(s, max, c, out) == if Val(s, c.pos, 1) == 1 then Some((c1, o)) else Blocks(s, max, c1, o)
  {
    hide Blocks, Val, ExpandBlock, Block, Kind, BlockOk, At, BlockBits, EndOf;
    var c0 := Take(Take(c, 1), 2);
    TakeGood(s, c, 1);
    TakeGood(s, Take(c, 1), 2);
    assert c0.pos == c.pos + 3;
    var kind := Val(s, c.pos + 1, 2);
    var r := Block(s, max, kind, c0, out);
    BlocksStep(s, max, c, out, r);
    b := BlockSound(s, max, kind, c0, out);
    c1, o := r.value.0, r.value.1;
  }

  /** Whatever is accepted is a well-formed stream of the zero-extended input, and the output is
      what it stands for. */
  lemma {:induction false} StreamSound(s: seq<byte>, max: nat, c: Cursor, out: seq<byte>) returns (bs: seq<BlockData>)
    requires Good(s, c) && |out| <= max && Blocks(s, max, c, out).Some?
    ensures StreamOk(bs, c.pos) && At(s, c.pos, StreamBits(bs, c.pos))
    ensures Blocks(s, max, c, out).value.0.pos == EndOf(c.pos, StreamBits(bs, c.pos))
    ensures ExpandStream(bs, out) == Some(Blocks(s, max, c, out).value.1)
    decreases if c.pos < 8 * |s| then 8 * |s| - c.pos else 0
  {
    var b, c1, o := FirstBlockSound(s, max, c, out);
    var rest := [];
    if Val(s, c.pos, 1) == 1 {
    } else {
      rest := StreamSound(s, max, c1, o);
    }
    ConsStream(s, c.pos, b, c1.pos, rest);
    bs := [b] + rest;
    assert bs[1..] == rest;
  }
}
