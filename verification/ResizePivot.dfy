/** Turning gather weights into scatter weights (the pivot in stbir__calculate_filters of
    external/stb/stb_image_resize2.h): for each input the outputs it goes to, from the inputs each output
    takes from. */
module ResizePivot {
  import opened Bits
  import opened Chunks
  import opened ResizeSplits
  import opened ResizeWindows

  const SMALL: real := 1.0 / 1329227995784915872903807060280344576.0   // 2 to the power of -120

  predicate Negligible(x: real)
  {
    -SMALL < x < SMALL
  }

  const NONE: Contributors := Contributors(0, -1)

  predicate Covers(g: Window, k: int)
  {
    g.n0 <= k <= g.n1
  }

  // ---------------------------------------------------------------- the loops, on values

  /** The scatter windows, one for every input from -margin on, and the place of the highest one set. */
  datatype Scatter = Scatter(cs: seq<Contributors>, gs: seq<seq<real>>, highest: int)
  {
    function At(q: nat): Window
      requires q < |cs| == |gs|
    {
      Window(cs[q].n0, cs[q].n1, gs[q])
    }

    ghost predicate Ok(width: nat)
    {
      && width > 0 && |cs| == |gs| && -1 <= highest < |cs| && Wide(gs, width)
      && forall q | 0 <= q <= highest :: Fits(At(q))
    }
  }

  function Cleared(cs: seq<Contributors>, lo: int, hi: int): (r: seq<Contributors>)
    ensures |r| == |cs|
    ensures forall i | 0 <= i < |cs| :: r[i] == if lo <= i < hi then NONE else cs[i]
  {
    seq(|cs|, i requires 0 <= i < |cs| => if lo <= i < hi then NONE else cs[i])
  }

  /** Lines 4020-4044 for one weight: of output n, at place q. */
  function PutWeight(s: Scatter, q: nat, n: int, gc: real): (r: Scatter)
    requires q < |s.cs| == |s.gs| && |s.gs[q]| > 0 && (q <= s.highest ==> Fits(s.At(q)))
    ensures |r.cs| == |s.cs| && |r.gs| == |s.gs|
  {
    if Negligible(gc) then s
    else if q > s.highest || s.cs[q].n0 > s.cs[q].n1 then
      Scatter(Cleared(s.cs, s.highest + 1, q)[q := Contributors(n, n)], s.gs[q := s.gs[q][0 := gc]], q)
    else
      var r := Inserted(s.At(q), n, gc);
      Scatter(s.cs[q := Contributors(r.n0, r.n1)], s.gs[q := r.w], s.highest)
  }

  lemma PutWeightOk(s: Scatter, q: nat, n: int, gc: real, width: nat)
    requires s.Ok(width) && q < |s.cs|
    ensures PutWeight(s, q, n, gc).Ok(width)
  {
    var r := PutWeight(s, q, n, gc);
    forall p | 0 <= p <= r.highest ensures Fits(r.At(p)) {
      if p != q && p <= s.highest {
        assert Fits(s.At(p)) && r.At(p) == s.At(p);
      }
    }
  }

  /** The windows stay inside the scatter arrays. */
  ghost predicate InReach(g: Window, margin: nat, size: nat)
  {
    Fits(g) && (g.n0 <= g.n1 ==> g.n0 + margin >= 0 && g.n1 + margin < size)
  }

  /** The weights of g's inputs before k. */
  ghost function PutWindow(s: Scatter, margin: nat, width: nat, g: Window, n: int, k: int): (r: Scatter)
    requires s.Ok(width) && InReach(g, margin, |s.cs|) && g.n0 <= k <= g.n1 + 1
    ensures r.Ok(width) && |r.cs| == |s.cs|
    decreases k - g.n0
  {
    if k == g.n0 then s
    else
      var t := PutWindow(s, margin, width, g, n, k - 1);
      PutWeightOk(t, k - 1 + margin, n, Weight(g, k - 1), width);
      PutWeight(t, k - 1 + margin, n, Weight(g, k - 1))
  }

  /** A whole window, if it is not empty. */
  ghost function PutOne(s: Scatter, margin: nat, width: nat, g: Window, n: int): (r: Scatter)
    requires s.Ok(width) && InReach(g, margin, |s.cs|)
    ensures r.Ok(width) && |r.cs| == |s.cs|
  {
    if g.n0 > g.n1 then s else PutWindow(s, margin, width, g, n, g.n1 + 1)
  }

  /** The first n windows. */
  ghost function PutAll(s: Scatter, margin: nat, width: nat, gather: seq<Window>, n: nat): (r: Scatter)
    requires s.Ok(width) && n <= |gather| && forall i | 0 <= i < |gather| :: InReach(gather[i], margin, |s.cs|)
    ensures r.Ok(width) && |r.cs| == |s.cs|
    decreases n
  {
    if n == 0 then s else PutOne(PutAll(s, margin, width, gather, n - 1), margin, width, gather[n - 1], n - 1)
  }

  /** Lines 4053-4063: what was never set is empty. */
  function Finish(s: Scatter): Scatter
  {
    s.(cs := Cleared(s.cs, s.highest + 1, |s.cs|))
  }

  ghost function Pivoted(s: Scatter, margin: nat, width: nat, gather: seq<Window>): (r: Scatter)
    requires s.Ok(width) && forall i | 0 <= i < |gather| :: InReach(gather[i], margin, |s.cs|)
  {
    Finish(PutAll(s, margin, width, gather, |gather|))
  }

  // ---------------------------------------------------------------- what the weights mean

  /** The weight of g at input k that the pivot does not skip. */
  function Kept(g: Window, k: int): real
  {
    if Fits(g) && Covers(g, k) && !Negligible(g.w[k - g.n0]) then g.w[k - g.n0] else 0.0
  }

  /** Skipped are the weights between -2^-120 and 2^-120. */
  lemma KeptIs(g: Window, k: int)
    ensures var w := if g.n0 <= k <= g.n1 && g.n1 - g.n0 + 1 <= |g.w| then g.w[k - g.n0] else 0.0;
      Kept(g, k) == if -1.0 < w * Pow2(120) as real < 1.0 then 0.0 else w
  {
    hide Pow2;
    Pow2Add(60, 60);
    Pow2Add(30, 30);
    Pow2Add(15, 15);
    Pow2Values();
    assert Pow2(30) == 0x4000_0000 && Pow2(60) == 0x1000_0000_0000_0000;
    var w := if Fits(g) && Covers(g, k) then g.w[k - g.n0] else 0.0;
    Scaled(w);
  }

  lemma Scaled(w: real)
    ensures Negligible(w) <==> -1.0 < w * 1329227995784915872903807060280344576.0 < 1.0
  {
  }

  predicate Taken(g: Window, k: int)
  {
    Kept(g, k) != 0.0
  }

  /** The weight stored for output m at place q; nothing counts beyond the highest place. */
  function Stored(s: Scatter, q: nat, m: int): real
    requires q < |s.cs| == |s.gs|
  {
    if q <= s.highest && Fits(s.At(q)) then Weight(s.At(q), m) else 0.0
  }

  /** The weight of output m at input j, once the outputs before n, and output n before input k, are in. */
  function Due(gather: seq<Window>, n: nat, k: int, m: int, j: int): real
  {
    if 0 <= m < |gather| && (m < n || (m == n && j < k)) then Kept(gather[m], j) else 0.0
  }

  ghost predicate Faithful(gather: seq<Window>, margin: nat, n: nat, k: int, s: Scatter)
  {
    |s.cs| == |s.gs| && forall q, m | 0 <= q < |s.cs| :: Stored(s, q, m) == Due(gather, n, k, m, q - margin)
  }

  /** No stored window is wider than it has to be. */
  ghost predicate Tight(win: Window)
  {
    && Fits(win)
    && (if win.n0 <= win.n1 then !Negligible(win.w[0]) && !Negligible(win.w[win.n1 - win.n0]) else win.n0 == 0 && win.n1 == -1)
  }

  ghost predicate Trim(s: Scatter)
  {
    && |s.cs| == |s.gs| && s.highest < |s.cs|
    && (forall q | 0 <= q <= s.highest :: Tight(s.At(q)))
    && (s.highest >= 0 ==> s.cs[s.highest].n0 <= s.cs[s.highest].n1)
  }

  ghost predicate Building(gather: seq<Window>, margin: nat, width: nat, n: nat, k: int, s: Scatter)
  {
    match s
    case Scatter(_, _, _) => s.Ok(width) && Faithful(gather, margin, n, k, s) && Trim(s)
  }

  ghost predicate Gone(gather: seq<Window>, margin: nat, n: nat, k: int, s: Scatter, q: nat, m: int)
  {
    q < |s.cs| == |s.gs| && Stored(s, q, m) == 0.0 != Due(gather, n, k, m, q - margin)
  }

  /** Some weight that was put is not there any more. */
  ghost predicate Losing(gather: seq<Window>, margin: nat, width: nat, n: nat, k: int, s: Scatter)
  {
    match s
    case Scatter(_, _, _) => s.Ok(width) && exists q: nat, m :: Gone(gather, margin, n, k, s, q, m)
  }

  // ---------------------------------------------------------------- exactly when it is a transpose

  /** Input k lies beyond all the inputs that the outputs before n take from. */
  ghost predicate Beyond(gather: seq<Window>, n: nat, k: int)
    requires n <= |gather|
  {
    forall m, j | 0 <= m < n && Taken(gather[m], j) :: j < k
  }

  /** Some output before n takes from input k, and none of them is `width` outputs or more before n. */
  ghost predicate Shared(gather: seq<Window>, width: nat, n: nat, k: int)
    requires n <= |gather|
  {
    && (exists m :: 0 <= m < n && Taken(gather[m], k))
    && forall m | 0 <= m < n && Taken(gather[m], k) :: n - m < width
  }

  ghost predicate SafeAt(gather: seq<Window>, width: nat, n: nat, k: int)
    requires n < |gather|
  {
    Taken(gather[n], k) ==> Beyond(gather, n, k) || Shared(gather, width, n, k)
  }

  /** All is safe before input k of output n. */
  ghost predicate SafeBefore(gather: seq<Window>, width: nat, n: nat, k: int)
  {
    forall m, j | 0 <= m < |gather| && (m < n || (m == n && j < k)) :: SafeAt(gather, width, m, j)
  }

  /** Every input an output takes from is new, beyond all before, or one that outputs not too far back
      take from as well. */
  ghost predicate Safe(gather: seq<Window>, width: nat)
  {
    forall n, k | 0 <= n < |gather| :: SafeAt(gather, width, n, k)
  }

  /** What stb_image_resize2's own windows aim at: starts never go back, no weight inside a window is
      negligible, and the outputs that share an input fit a scatter window. */
  ghost predicate Regular(gather: seq<Window>, width: nat)
  {
    && (forall a, b | 0 <= a < b < |gather| && gather[a].n0 <= gather[a].n1 && gather[b].n0 <= gather[b].n1 ::
          gather[a].n0 <= gather[b].n0)
    && (forall a, k | 0 <= a < |gather| && Covers(gather[a], k) :: Taken(gather[a], k))
    && (forall a, b, k | 0 <= a <= b < |gather| && Covers(gather[a], k) && Covers(gather[b], k) :: b - a < width)
  }

  lemma RegularSafe(gather: seq<Window>, width: nat)
    requires Regular(gather, width)
    ensures Safe(gather, width)
  {
    forall n, k | 0 <= n < |gather| && Taken(gather[n], k) && !Beyond(gather, n, k)
      ensures Shared(gather, width, n, k)
    {
      var m, j :| 0 <= m < n && Taken(gather[m], j) && j >= k;
      assert Covers(gather[m], k);
    }
  }

  // ---------------------------------------------------------------- one weight

  /** Putting a weight leaves every other weight as it was, or loses it. */
  lemma PutOthers(s: Scatter, width: nat, p: nat, n: int, gc: real, q: nat, m: int)
    requires s.Ok(width) && p < |s.cs| && q < |s.cs| && (q != p || m != n)
    ensures PutWeight(s, p, n, gc).Ok(width)
    ensures var r := Stored(PutWeight(s, p, n, gc), q, m); r == Stored(s, q, m) || r == 0.0
  {
    PutWeightOk(s, p, n, gc, width);
    if p <= s.highest && s.cs[p].n0 <= s.cs[p].n1 {
      InsertedIf(s.At(p), n, gc, m);
    }
  }

  lemma LosingStays(gather: seq<Window>, margin: nat, width: nat, n: nat, k: int, s: Scatter)
    requires Losing(gather, margin, width, n, k, s) && n < |gather| && 0 <= k + margin < |s.cs|
    ensures Losing(gather, margin, width, n, k + 1, PutWeight(s, k + margin, n, Kept(gather[n], k)))
  {
    var r := PutWeight(s, k + margin, n, Kept(gather[n], k));
    var q: nat, m :| Gone(gather, margin, n, k, s, q, m);
    PutOthers(s, width, k + margin, n, Kept(gather[n], k), q, m);
    assert Gone(gather, margin, n, k + 1, r, q, m);
  }

  /** What is stored and what ends the windows are weights of outputs put before. */
  lemma EndsDue(gather: seq<Window>, margin: nat, width: nat, n: nat, k: int, s: Scatter, q: nat)
    requires Building(gather, margin, width, n, k, s) && q <= s.highest && s.cs[q].n0 <= s.cs[q].n1
    ensures Due(gather, n, k, s.cs[q].n0, q - margin) != 0.0 && Due(gather, n, k, s.cs[q].n1, q - margin) != 0.0
  {
    assert Tight(s.At(q));
    assert Stored(s, q, s.cs[q].n0) != 0.0 && Stored(s, q, s.cs[q].n1) != 0.0;
  }

  /** r is s with the weight gc of output n at place p. */
  ghost predicate Puts(s: Scatter, r: Scatter, width: nat, p: nat, n: int, gc: real)
  {
    && s.Ok(width) && r.Ok(width) && |r.cs| == |s.cs|
    && forall q, m | 0 <= q < |s.cs| :: Stored(r, q, m) == if q == p && m == n then gc else Stored(s, q, m)
  }

  lemma PutBeyond(gather: seq<Window>, margin: nat, width: nat, n: nat, k: int, s: Scatter)
    requires Building(gather, margin, width, n, k, s) && n < |gather| && 0 <= k + margin < |s.cs|
    requires Taken(gather[n], k) && Beyond(gather, n, k)
    ensures k + margin > s.highest
    ensures var r := PutWeight(s, k + margin, n, Kept(gather[n], k)); Puts(s, r, width, k + margin, n, Kept(gather[n], k)) && Trim(r)
  {
    if s.highest >= 0 {
      EndsDue(gather, margin, width, n, k, s, s.highest);
      assert Kept(gather[s.cs[s.highest].n0], s.highest - margin) != 0.0;
      assert Taken(gather[s.cs[s.highest].n0], s.highest - margin);
    }
    var gc := Kept(gather[n], k);
    PutWeightOk(s, k + margin, n, gc, width);
    var r := PutWeight(s, k + margin, n, gc);
    forall q | 0 <= q <= r.highest ensures Tight(r.At(q)) {
      if q <= s.highest {
        assert Tight(s.At(q)) && r.At(q) == s.At(q);
      }
    }
  }

  /** An input that earlier outputs take from. */
  lemma SharedPlace(gather: seq<Window>, margin: nat, width: nat, n: nat, k: int, s: Scatter, m: int)
    requires Building(gather, margin, width, n, k, s) && n < |gather| && 0 <= k + margin < |s.cs|
    requires 0 <= m < n && Taken(gather[m], k)
    ensures k + margin <= s.highest && s.cs[k + margin].n0 <= m <= s.cs[k + margin].n1 < n
    ensures 0 <= s.cs[k + margin].n0 && Taken(gather[s.cs[k + margin].n0], k)
  {
    assert Stored(s, k + margin, m) == Due(gather, n, k, m, k + margin - margin);
    EndsDue(gather, margin, width, n, k, s, k + margin);
  }

  lemma PutShared(gather: seq<Window>, margin: nat, width: nat, n: nat, k: int, s: Scatter)
    requires Building(gather, margin, width, n, k, s) && n < |gather| && 0 <= k + margin < |s.cs|
    requires Taken(gather[n], k) && Shared(gather, width, n, k)
    ensures var r := PutWeight(s, k + margin, n, Kept(gather[n], k)); Puts(s, r, width, k + margin, n, Kept(gather[n], k)) && Trim(r)
  {
    var p, gc := k + margin, Kept(gather[n], k);
    var m0 :| 0 <= m0 < n && Taken(gather[m0], k);
    SharedPlace(gather, margin, width, n, k, s, m0);
    PutWeightOk(s, p, n, gc, width);
    var r := PutWeight(s, p, n, gc);
    forall m ensures Stored(r, p, m) == if m == n then gc else Stored(s, p, m) {
      InsertedIf(s.At(p), n, gc, m);
    }
    assert Tight(s.At(p));
    forall q | 0 <= q <= r.highest ensures Tight(r.At(q)) {
      if q != p {
        assert Tight(s.At(q)) && r.At(q) == s.At(q);
      }
    }
  }

  lemma PutsFaithful(gather: seq<Window>, margin: nat, width: nat, n: nat, k: int, s: Scatter, r: Scatter)
    requires Building(gather, margin, width, n, k, s) && n < |gather| && 0 <= k + margin < |s.cs|
    requires Puts(s, r, width, k + margin, n, Kept(gather[n], k)) && Trim(r)
    ensures Building(gather, margin, width, n, k + 1, r)
  {
    forall q, m | 0 <= q < |r.cs| ensures Stored(r, q, m) == Due(gather, n, k + 1, m, q - margin) {
      assert Stored(s, q, m) == Due(gather, n, k, m, q - margin);
    }
  }

  /** A weight at an input between those of earlier outputs that none of them takes from: its place looks
      reached and empty, and filling it makes every place above look unreached. */
  lemma PutLowers(gather: seq<Window>, margin: nat, width: nat, n: nat, k: int, s: Scatter)
    requires Building(gather, margin, width, n, k, s) && n < |gather| && 0 <= k + margin < |s.cs|
    requires forall i | 0 <= i < |gather| :: InReach(gather[i], margin, |s.cs|)
    requires Taken(gather[n], k) && !Beyond(gather, n, k) && forall m | 0 <= m < n :: !Taken(gather[m], k)
    ensures Losing(gather, margin, width, n, k + 1, PutWeight(s, k + margin, n, Kept(gather[n], k)))
  {
    var p, gc := k + margin, Kept(gather[n], k);
    PutWeightOk(s, p, n, gc, width);
    var m, j :| 0 <= m < n && Taken(gather[m], j) && j >= k;
    assert InReach(gather[m], margin, |s.cs|);
    assert Stored(s, j + margin, m) == Due(gather, n, k, m, j + margin - margin);
    if s.cs[p].n0 <= s.cs[p].n1 {
      EndsDue(gather, margin, width, n, k, s, p);
    }
    assert Gone(gather, margin, n, k + 1, PutWeight(s, p, n, gc), j + margin, m);
  }

  /** A weight too far from the first output of its input: it is dropped. */
  lemma PutDrops(gather: seq<Window>, margin: nat, width: nat, n: nat, k: int, s: Scatter, m: int)
    requires Building(gather, margin, width, n, k, s) && n < |gather| && 0 <= k + margin < |s.cs|
    requires Taken(gather[n], k) && 0 <= m < n && Taken(gather[m], k) && n - m >= width
    ensures Losing(gather, margin, width, n, k + 1, PutWeight(s, k + margin, n, Kept(gather[n], k)))
  {
    var p, gc := k + margin, Kept(gather[n], k);
    SharedPlace(gather, margin, width, n, k, s, m);
    PutWeightOk(s, p, n, gc, width);
    assert Gone(gather, margin, n, k + 1, PutWeight(s, p, n, gc), p, n);
  }

  // ---------------------------------------------------------------- all weights

  /** The pivot's invariant: all weights so far are there as long as all has been safe, and one is lost
      for good otherwise. */
  ghost predicate Going(gather: seq<Window>, margin: nat, width: nat, n: nat, k: int, s: Scatter)
  {
    if SafeBefore(gather, width, n, k) then Building(gather, margin, width, n, k, s)
    else Losing(gather, margin, width, n, k, s)
  }

  lemma PutGoes(gather: seq<Window>, margin: nat, width: nat, n: nat, k: int, s: Scatter)
    requires Building(gather, margin, width, n, k, s) && n < |gather| && 0 <= k + margin < |s.cs|
    requires forall i | 0 <= i < |gather| :: InReach(gather[i], margin, |s.cs|)
    ensures var r := PutWeight(s, k + margin, n, Kept(gather[n], k));
      if SafeAt(gather, width, n, k) then Building(gather, margin, width, n, k + 1, r)
      else Losing(gather, margin, width, n, k + 1, r)
  {
    var r := PutWeight(s, k + margin, n, Kept(gather[n], k));
    if !Taken(gather[n], k) {
      assert Negligible(Kept(gather[n], k)) && r == s;
      PutsFaithful(gather, margin, width, n, k, s, s);
    } else if Beyond(gather, n, k) {
      PutBeyond(gather, margin, width, n, k, s);
      PutsFaithful(gather, margin, width, n, k, s, r);
    } else if Shared(gather, width, n, k) {
      PutShared(gather, margin, width, n, k, s);
      PutsFaithful(gather, margin, width, n, k, s, r);
    } else if m :| 0 <= m < n && Taken(gather[m], k) && n - m >= width {
      PutDrops(gather, margin, width, n, k, s, m);
    } else {
      PutLowers(gather, margin, width, n, k, s);
    }
  }

  lemma SafeStep(gather: seq<Window>, width: nat, n: nat, k: int)
    requires n < |gather|
    ensures SafeBefore(gather, width, n, k + 1) <==> SafeBefore(gather, width, n, k) && SafeAt(gather, width, n, k)
  {
    if SafeBefore(gather, width, n, k) && SafeAt(gather, width, n, k) {
      forall m, j | 0 <= m < |gather| && (m < n || (m == n && j < k + 1)) ensures SafeAt(gather, width, m, j) {
        if m == n && j == k {
        } else {
          assert m < n || (m == n && j < k);
        }
      }
    }
  }

  lemma PutKeeps(gather: seq<Window>, margin: nat, width: nat, n: nat, k: int, s: Scatter)
    requires Going(gather, margin, width, n, k, s) && n < |gather| && s.Ok(width) && 0 <= k + margin < |s.cs|
    requires forall i | 0 <= i < |gather| :: InReach(gather[i], margin, |s.cs|)
    ensures Going(gather, margin, width, n, k + 1, PutWeight(s, k + margin, n, Kept(gather[n], k)))
  {
    SafeStep(gather, width, n, k);
    if SafeBefore(gather, width, n, k) {
      PutGoes(gather, margin, width, n, k, s);
    } else {
      LosingStays(gather, margin, width, n, k, s);
    }
  }

  /** The weight put is the one kept. */
  lemma PutWindowStep(s: Scatter, margin: nat, width: nat, g: Window, n: int, k: int)
    requires s.Ok(width) && InReach(g, margin, |s.cs|) && Covers(g, k)
    ensures PutWindow(s, margin, width, g, n, k + 1) ==
            PutWeight(PutWindow(s, margin, width, g, n, k), k + margin, n, Kept(g, k))
  {
  }

  lemma {:induction false} WindowKeeps(gather: seq<Window>, margin: nat, width: nat, n: nat, k: int, s: Scatter)
    requires n < |gather| && s.Ok(width) && gather[n].n0 <= k <= gather[n].n1 + 1
    requires forall i | 0 <= i < |gather| :: InReach(gather[i], margin, |s.cs|)
    requires Going(gather, margin, width, n, gather[n].n0, s)
    ensures Going(gather, margin, width, n, k, PutWindow(s, margin, width, gather[n], n, k))
    decreases k - gather[n].n0
  {
    hide Going, SafeBefore, Building, Losing, PutWeight, Kept, Scatter.Ok;
    if k <= gather[n].n0 {
    } else {
      WindowKeeps(gather, margin, width, n, k - 1, s);
      var t := PutWindow(s, margin, width, gather[n], n, k - 1);
      PutWindowStep(s, margin, width, gather[n], n, k - 1);
      PutKeeps(gather, margin, width, n, k - 1, t);
    }
  }

  /** Where output n starts. */
  function StartOf(gather: seq<Window>, n: nat): int
  {
    if n < |gather| then gather[n].n0 else 0
  }

  /** Cursors between which there is no weight are as good as each other. */
  lemma Skip(gather: seq<Window>, margin: nat, width: nat, n: nat, k: int, n': nat, k': int, s: Scatter)
    requires Going(gather, margin, width, n, k, s)
    requires forall m, j | 0 <= m < |gather| :: Due(gather, n, k, m, j) == Due(gather, n', k', m, j)
    requires SafeBefore(gather, width, n, k) <==> SafeBefore(gather, width, n', k')
    ensures Going(gather, margin, width, n', k', s)
  {
    if SafeBefore(gather, width, n, k) {
      forall q, m | 0 <= q < |s.cs| ensures Stored(s, q, m) == Due(gather, n', k', m, q - margin) {
        assert Stored(s, q, m) == Due(gather, n, k, m, q - margin);
      }
    } else {
      var q: nat, m :| Gone(gather, margin, n, k, s, q, m);
      assert Due(gather, n, k, m, q - margin) == Due(gather, n', k', m, q - margin);
      assert Gone(gather, margin, n', k', s, q, m);
    }
  }

  /** Where output n is done. */
  function EndOf(g: Window): int
  {
    if g.n0 <= g.n1 then g.n1 + 1 else g.n0
  }

  lemma NextWindow(gather: seq<Window>, margin: nat, width: nat, n: nat, s: Scatter)
    requires n < |gather| && Going(gather, margin, width, n, EndOf(gather[n]), s)
    ensures Going(gather, margin, width, n + 1, StartOf(gather, n + 1), s)
  {
    SafeNext(gather, width, n);
    Skip(gather, margin, width, n, EndOf(gather[n]), n + 1, StartOf(gather, n + 1), s);
  }

  lemma SafeNext(gather: seq<Window>, width: nat, n: nat)
    requires n < |gather|
    ensures SafeBefore(gather, width, n, EndOf(gather[n])) <==> SafeBefore(gather, width, n + 1, StartOf(gather, n + 1))
  {
    if SafeBefore(gather, width, n, EndOf(gather[n])) {
      forall m, j | 0 <= m < |gather| && (m < n + 1 || (m == n + 1 && j < StartOf(gather, n + 1)))
        ensures SafeAt(gather, width, m, j)
      {
        if m < n || (m == n && j < EndOf(gather[n])) {
          assert SafeAt(gather, width, m, j);
        }
      }
    }
    if SafeBefore(gather, width, n + 1, StartOf(gather, n + 1)) {
      forall m, j | 0 <= m < |gather| && (m < n || (m == n && j < EndOf(gather[n])))
        ensures SafeAt(gather, width, m, j)
      {
        assert m < n + 1;
      }
    }
  }

  lemma OneKeeps(gather: seq<Window>, margin: nat, width: nat, n: nat, s: Scatter)
    requires n < |gather| && s.Ok(width)
    requires forall i | 0 <= i < |gather| :: InReach(gather[i], margin, |s.cs|)
    requires Going(gather, margin, width, n, StartOf(gather, n), s)
    ensures Going(gather, margin, width, n + 1, StartOf(gather, n + 1), PutOne(s, margin, width, gather[n], n))
  {
    if gather[n].n0 <= gather[n].n1 {
      WindowKeeps(gather, margin, width, n, gather[n].n1 + 1, s);
    }
    NextWindow(gather, margin, width, n, PutOne(s, margin, width, gather[n], n));
  }

  lemma StartGoes(gather: seq<Window>, margin: nat, width: nat, s: Scatter)
    requires s.Ok(width) && s.highest == -1
    ensures Going(gather, margin, width, 0, StartOf(gather, 0), s)
  {
    forall m, j | 0 <= m < |gather| && (m < 0 || (m == 0 && j < StartOf(gather, 0))) ensures SafeAt(gather, width, m, j) {
      assert !Covers(gather[m], j);
    }
  }

  lemma {:induction false} AllKeep(gather: seq<Window>, margin: nat, width: nat, n: nat, s: Scatter)
    requires n <= |gather| && s.Ok(width) && s.highest == -1
    requires forall i | 0 <= i < |gather| :: InReach(gather[i], margin, |s.cs|)
    ensures Going(gather, margin, width, n, StartOf(gather, n), PutAll(s, margin, width, gather, n))
    decreases n
  {
    if n == 0 {
      StartGoes(gather, margin, width, s);
    } else {
      AllKeep(gather, margin, width, n - 1, s);
      OneKeeps(gather, margin, width, n - 1, PutAll(s, margin, width, gather, n - 1));
    }
  }

  /** r is the transpose: the weight of output m at input k is that of input k at output m, for all of
      them, and an input that goes nowhere is marked empty. */
  ghost predicate Transposed(r: Scatter, gather: seq<Window>, margin: nat)
  {
    && |r.cs| == |r.gs|
    && (forall q | 0 <= q < |r.cs| :: Fits(r.At(q)))
    && (forall q, m | 0 <= q < |r.cs| && 0 <= m < |gather| :: Weight(r.At(q), m) == Kept(gather[m], q - margin))
    && (forall q | 0 <= q < |r.cs| && (forall m | 0 <= m < |gather| :: !Taken(gather[m], q - margin)) :: r.cs[q] == Contributors(0, -1))
  }

  lemma FinishStored(t: Scatter, width: nat, q: nat, m: int)
    requires t.Ok(width) && q < |t.cs|
    ensures Finish(t).cs[q] == (if q <= t.highest then t.cs[q] else NONE) && Fits(Finish(t).At(q))
    ensures Weight(Finish(t).At(q), m) == Stored(t, q, m)
  {
    assert q <= t.highest ==> Fits(t.At(q)) && Finish(t).At(q) == t.At(q);
  }

  lemma BuiltTransposed(gather: seq<Window>, margin: nat, width: nat, t: Scatter)
    requires Building(gather, margin, width, |gather|, 0, t)
    ensures Transposed(Finish(t), gather, margin)
  {
    var r := Finish(t);
    forall q, m | 0 <= q < |r.cs| && 0 <= m < |gather|
      ensures Fits(r.At(q)) && Weight(r.At(q), m) == Kept(gather[m], q - margin)
    {
      FinishStored(t, width, q, m);
      assert Stored(t, q, m) == Due(gather, |gather|, 0, m, q - margin);
    }
    forall q | 0 <= q < |r.cs| ensures Fits(r.At(q)) {
      FinishStored(t, width, q, 0);
    }
    forall q | 0 <= q < |r.cs| && (forall m | 0 <= m < |gather| :: !Taken(gather[m], q - margin)) ensures r.cs[q] == NONE {
      if q <= t.highest {
        assert Tight(t.At(q));
        if t.cs[q].n0 <= t.cs[q].n1 {
          EndsDue(gather, margin, width, |gather|, 0, t, q);
        }
      }
    }
  }

  lemma LostNot(gather: seq<Window>, margin: nat, width: nat, t: Scatter)
    requires Losing(gather, margin, width, |gather|, 0, t)
    ensures !Transposed(Finish(t), gather, margin)
  {
    var q: nat, m :| Gone(gather, margin, |gather|, 0, t, q, m);
    FinishStored(t, width, q, m);
    assert Weight(Finish(t).At(q), m) != Kept(gather[m], q - margin);
  }

  /** The pivot is a sparse transpose exactly when it is safe: for all windows, in all of the arrays'
      earlier states. */
  lemma PivotTransposes(s: Scatter, margin: nat, width: nat, gather: seq<Window>)
    requires s.Ok(width) && s.highest == -1
    requires forall i | 0 <= i < |gather| :: InReach(gather[i], margin, |s.cs|)
    ensures Transposed(Pivoted(s, margin, width, gather), gather, margin) <==> Safe(gather, width)
  {
    AllKeep(gather, margin, width, |gather|, s);
    var t := PutAll(s, margin, width, gather, |gather|);
    SafeAll(gather, width);
    assert StartOf(gather, |gather|) == 0;
    if Safe(gather, width) {
      BuiltTransposed(gather, margin, width, t);
    } else {
      LostNot(gather, margin, width, t);
    }
  }

  lemma SafeAll(gather: seq<Window>, width: nat)
    ensures SafeBefore(gather, width, |gather|, 0) <==> Safe(gather, width)
  {
    if SafeBefore(gather, width, |gather|, 0) {
      forall n, k | 0 <= n < |gather| ensures SafeAt(gather, width, n, k) {
        assert n < |gather|;
      }
    }
  }

  /** Starts that never go back are not enough: a zero weight inside a window can cost another weight.
      Output 0 takes input 1 and not input 0, output 1 takes both. */
  lemma ZeroInsideUnsafe()
    ensures var gather := [Window(0, 1, [0.0, 1.0]), Window(0, 1, [1.0, 1.0])];
      && (forall i | 0 <= i < |gather| :: InReach(gather[i], 0, 2)) && !Safe(gather, 2)
  {
    var gather := [Window(0, 1, [0.0, 1.0]), Window(0, 1, [1.0, 1.0])];
    assert Taken(gather[1], 0) && Taken(gather[0], 1) && !Taken(gather[0], 0);
    assert !Beyond(gather, 1, 0) && !Shared(gather, 2, 1, 0);
    assert !SafeAt(gather, 2, 1, 0);
  }

  // ---------------------------------------------------------------- in place

  /** The arrays hold s. */
  ghost predicate Holds(contribs: array<Contributors>, coeffs: array<real>, s: Scatter)
    reads contribs, coeffs
  {
    contribs[..] == s.cs && coeffs[..] == Flat(s.gs)
  }

  method ClearContributors(contribs: array<Contributors>, lo: nat, hi: nat)
    requires hi <= contribs.Length
    modifies contribs
    ensures contribs[..] == Cleared(old(contribs[..]), lo, hi)
  {
    var i := lo;
    while i < hi
      invariant lo <= i && (lo <= hi ==> i <= hi) && (lo > hi ==> i == lo)
      invariant forall j | 0 <= j < contribs.Length :: contribs[j] == if lo <= j < i then NONE else old(contribs[j])
    {
      contribs[i] := NONE;
      i := i + 1;
    }
    ghost var r := Cleared(old(contribs[..]), lo, hi);
    forall j | 0 <= j < contribs.Length ensures contribs[..][j] == r[j] {
      assert old(contribs[..])[j] == old(contribs[j]);
    }
  }

  method SetFirst(coeffs: array<real>, q: nat, width: nat, gc: real, ghost gs: seq<seq<real>>)
    requires width > 0 && Wide(gs, width) && q < |gs| && coeffs[..] == Flat(gs)
    modifies coeffs
    ensures coeffs[..] == Flat(gs[q := gs[q][0 := gc]])
  {
    FlatGroup(gs, width, q);
    FlatUpdate(gs, width, q, gs[q][0 := gc]);
    ghost var before := coeffs[..];
    var at := Times(q, width);
    coeffs[at] := gc;
    FirstSet(before, coeffs[..], at, width, gs[q], gc);
  }

  lemma FirstSet(before: seq<real>, after: seq<real>, at: nat, width: nat, g: seq<real>, gc: real)
    requires 0 < width && at + width <= |before| && g == before[at..at + width] && after == before[at := gc]
    ensures after == before[..at] + (g[0 := gc] + before[at + width..])
  {
  }

  method InsertAt(contribs: array<Contributors>, coeffs: array<real>, q: nat, width: nat, n: int, gc: real, ghost s: Scatter)
    requires s.Ok(width) && q < |s.cs| && Holds(contribs, coeffs, s) && Fits(s.At(q))
    modifies contribs, coeffs
    ensures var r := Inserted(s.At(q), n, gc);
      contribs[..] == s.cs[q := Contributors(r.n0, r.n1)] && coeffs[..] == Flat(s.gs[q := r.w])
  {
    FlatGroup(s.gs, width, q);
    ghost var r := Inserted(s.At(q), n, gc);
    FlatUpdate(s.gs, width, q, r.w);
    var at := Times(q, width);
    ghost var before := coeffs[..];
    assert Group(coeffs, at, width) == before[at..at + width] == s.gs[q];
    var c := InsertCoeff(contribs[q], coeffs, at, width, n, gc);
    assert coeffs[..][..at] == before[..at] && coeffs[..][at + width..] == before[at + width..];
    GroupReplaced(before, coeffs[..], at, width, r.w);
    contribs[q] := c;
  }

  lemma GroupReplaced(before: seq<real>, after: seq<real>, at: nat, width: nat, g: seq<real>)
    requires at + width <= |before| == |after| && after[..at] == before[..at] && after[at + width..] == before[at + width..]
    requires after[at..at + width] == g
    ensures after == before[..at] + (g + before[at + width..])
  {
    assert after == after[..at] + (after[at..at + width] + after[at + width..]);
  }

  /** Lines 4020-4044. */
  method PivotWeight(contribs: array<Contributors>, coeffs: array<real>, q: nat, width: nat, n: int, gc: real, highest0: int,
                     ghost s: Scatter) returns (highest: int)
    requires s.Ok(width) && q < |s.cs| && Holds(contribs, coeffs, s) && highest0 == s.highest
    modifies contribs, coeffs
    ensures Holds(contribs, coeffs, PutWeight(s, q, n, gc)) && highest == PutWeight(s, q, n, gc).highest
  {
    highest := highest0;
    if gc >= SMALL || gc <= -SMALL {
      if q > highest || contribs[q].n0 > contribs[q].n1 {
        ClearContributors(contribs, highest + 1, q);
        contribs[q] := Contributors(n, n);
        SetFirst(coeffs, q, width, gc, s.gs);
        highest := q;
      } else {
        InsertAt(contribs, coeffs, q, width, n, gc, s);
      }
    }
  }

  /** One gather window. */
  method PivotWindow(contribs: array<Contributors>, coeffs: array<real>, margin: nat, width: nat, g: Window, n: int, highest0: int,
                     ghost s: Scatter) returns (highest: int)
    requires s.Ok(width) && InReach(g, margin, |s.cs|) && Holds(contribs, coeffs, s) && highest0 == s.highest
    modifies contribs, coeffs
    ensures Holds(contribs, coeffs, PutOne(s, margin, width, g, n)) && highest == PutOne(s, margin, width, g, n).highest
  {
    highest := highest0;
    var k := g.n0;
    while k <= g.n1
      invariant g.n0 <= k && (g.n0 <= g.n1 ==> k <= g.n1 + 1) && (g.n0 > g.n1 ==> k == g.n0)
      invariant g.n0 <= g.n1 ==> Holds(contribs, coeffs, PutWindow(s, margin, width, g, n, k))
      invariant g.n0 <= g.n1 ==> highest == PutWindow(s, margin, width, g, n, k).highest
      invariant g.n0 > g.n1 ==> Holds(contribs, coeffs, s) && highest == s.highest
    {
      ghost var t := PutWindow(s, margin, width, g, n, k);
      highest := PivotWeight(contribs, coeffs, k + margin, width, n, g.w[k - g.n0], highest, t);
      k := k + 1;
    }
  }

  /** Lines 4004-4063: the pivot; the arrays may hold anything before. */
  method Pivot(contribs: array<Contributors>, coeffs: array<real>, margin: nat, width: nat, gather: seq<Window>)
    returns (ghost r: Scatter)
    requires width > 0 && coeffs.Length == Times(contribs.Length, width)
    requires forall i | 0 <= i < |gather| :: InReach(gather[i], margin, contribs.Length)
    modifies contribs, coeffs
    ensures Holds(contribs, coeffs, r) && |r.cs| == |r.gs| == contribs.Length
    ensures Transposed(r, gather, margin) <==> Safe(gather, width)
  {
    ghost var gs := Groups(coeffs[..], contribs.Length, width);
    ghost var s := Scatter(contribs[..], gs, -1);
    ghost var t := s;
    var highest, n := -1, 0;
    while n < |gather|
      invariant 0 <= n <= |gather| && s.Ok(width) && |s.cs| == contribs.Length && t == PutAll(s, margin, width, gather, n)
      invariant Holds(contribs, coeffs, t) && highest == t.highest
    {
      highest := PivotWindow(contribs, coeffs, margin, width, gather[n], n, highest, t);
      t := PutOne(t, margin, width, gather[n], n);
      n := n + 1;
    }
    ClearContributors(contribs, highest + 1, contribs.Length);
    r := Finish(t);
    PivotTransposes(s, margin, width, gather);
  }

  /** Any array of m groups of width. */
  lemma {:induction false} Groups(a: seq<real>, m: nat, width: nat) returns (gs: seq<seq<real>>)
    requires |a| == Times(m, width)
    ensures |gs| == m && Wide(gs, width) && Flat(gs) == a
    decreases m
  {
    if m == 0 {
      gs := [];
    } else {
      var k := Times(m - 1, width);
      var front := Groups(a[..k], m - 1, width);
      gs := front + [a[k..]];
      FlatSnoc(front, a[k..]);
    }
  }
}
