/** stbir__double_to_rational (external/stb/stb_image_resize2.h): a continued-fraction search for a
    fraction close to a scale factor, in exact arithmetic. */
module ResizeRational {
  import opened Bits

  const SCALE: nat := 0x200_0000      // 1 << 25
  const WORD: nat := 0x1_0000_0000
  const TOLERANCE: real := 1.0 / 16777216.0

  function Abs(x: real): real { if x < 0.0 then -x else x }

  /** How far a fraction is from f. */
  function Error(numer: nat, denom: nat, f: real): real
    requires denom > 0
  {
    Abs(numer as real / denom as real - f)
  }

  /** Close means less than 2^-24 above or below. */
  lemma ErrorIs(numer: nat, denom: nat, f: real)
    requires denom > 0
    ensures Error(numer, denom, f) < TOLERANCE <==>
            var n, d := numer as real, denom as real;
            (f * 16777216.0 - 1.0) * d < n * 16777216.0 && n * 16777216.0 < (f * 16777216.0 + 1.0) * d
  {
    var n, d := numer as real, denom as real;
    var q := n / d;
    assert Error(numer, denom, f) < TOLERANCE <==> f * 16777216.0 - 1.0 < q * 16777216.0 < f * 16777216.0 + 1.0;
    Cleared(f * 16777216.0 - 1.0, n, d);
    Cleared(f * 16777216.0 + 1.0, n, d);
  }

  lemma Cleared(x: real, n: real, d: real)
    requires d > 0.0
    ensures x < n / d * 16777216.0 <==> x * d < n * 16777216.0
    ensures n / d * 16777216.0 < x <==> n * 16777216.0 < x * d
  {
    Numerator(n, d);
    ScaledBy(x, n / d * 16777216.0, d);
    ScaledBy(n / d * 16777216.0, x, d);
  }

  lemma Numerator(n: real, d: real)
    requires d > 0.0
    ensures n / d * 16777216.0 * d == n * 16777216.0
  {
    assert n / d * d == n;
  }

  lemma ScaledBy(x: real, y: real, d: real)
    requires d > 0.0
    ensures x < y <==> x * d < y * d
  {
  }

  /** No number but 1 divides both. */
  ghost predicate LowestTerms(a: nat, b: nat)
  {
    forall d: nat, x: nat, y: nat | d * x == a && d * y == b :: d == 1
  }

  /** The search's variables: the remainders of Euclid's algorithm on top0 and SCALE, and the last two
      estimates. */
  datatype Search = Search(top: nat, bot: nat, numer: nat, denom: nat, numerLast: nat, denomLast: nat)

  /** What every step keeps: the remainders and estimates make up the starting values, and consecutive
      estimates have a cross-determinant of plus or minus one. */
  ghost predicate Balanced(top0: nat, s: Search)
  {
    match s
    case Search(top, bot, numer, denom, numerLast, denomLast) =>
      && (if denom == 0 then bot == SCALE && numer == 1 else bot < top)
      && top0 == numer * top + numerLast * bot && SCALE == denom * top + denomLast * bot
      && (numer * denomLast - numerLast * denom == 1 || numer * denomLast - numerLast * denom == -1)
  }

  lemma StepSum(est: nat, bot: nat, rem: nat, cur: nat, last: nat)
    ensures (est * cur + last) * bot + cur * rem == cur * (est * bot + rem) + last * bot
  {
    MulAdd(est * cur, last, bot);
    MulAssoc(est, cur, bot);
    MulAssoc(cur, est, bot);
    assert cur * (est * bot + rem) == cur * (est * bot) + cur * rem;
    assert est * cur == cur * est;
    MulAssoc(est, cur, bot);
    assert (est * cur) * bot == cur * (est * bot);
  }

  lemma StepDeterminant(est: nat, numer: nat, denom: nat, numerLast: nat, denomLast: nat)
    ensures (est * numer + numerLast) * denom - numer * (est * denom + denomLast) ==
            -(numer * denomLast - numerLast * denom)
  {
    MulAdd(est * numer, numerLast, denom);
    MulAssoc(est, numer, denom);
    assert numer * (est * denom + denomLast) == numer * (est * denom) + numer * denomLast;
    MulAssoc(numer, est, denom);
    assert est * numer == numer * est;
  }

  function Step(s: Search): Search
    requires s.bot > 0
  {
    DivNat(s.top, s.bot);
    var est := s.top / s.bot;
    MulMono(0, est, s.denom);
    MulMono(0, est, s.numer);
    Search(s.bot, s.top % s.bot, est * s.numer + s.numerLast, est * s.denom + s.denomLast, s.numer, s.denom)
  }

  lemma EstAtLeastOne(top: nat, bot: nat)
    requires 0 < bot < top
    ensures top / bot >= 1
  {
    DivModDef(top, bot);
    if top / bot < 1 {
      MulMono(top / bot, 0, bot);
    }
  }

  lemma StepBalanced(top0: nat, s: Search)
    requires Balanced(top0, s) && s.bot > 0
    ensures Balanced(top0, Step(s)) && Step(s).bot < s.bot && Step(s).denom > 0
  {
    var est, rem := s.top / s.bot, s.top % s.bot;
    DivModDef(s.top, s.bot);
    DivNat(s.top, s.bot);
    StepSum(est, s.bot, rem, s.numer, s.numerLast);
    StepSum(est, s.bot, rem, s.denom, s.denomLast);
    StepDeterminant(est, s.numer, s.denom, s.numerLast, s.denomLast);
    if s.denom > 0 {
      EstAtLeastOne(s.top, s.bot);
      MulMono(1, est, s.denom);
    }
  }

  // ---------------------------------------------------------------- consequences

  lemma DivisorOfOne(d: nat, z: int)
    requires d * z == 1 || d * z == -1
    ensures d == 1
  {
    if d >= 2 {
      if z >= 1 {
        MulMono(1, z, d);
      } else if z <= -1 {
        MulMono(z, -1, d);
      }
    }
  }

  /** Every estimate is in lowest terms. */
  lemma BalancedLowest(top0: nat, s: Search)
    requires Balanced(top0, s)
    ensures LowestTerms(s.numer, s.denom)
  {
    forall d: nat, x: nat, y: nat | d * x == s.numer && d * y == s.denom ensures d == 1 {
      MulAssoc(d, x, s.denomLast);
      MulAssoc(d, y, s.numerLast);
      assert s.numerLast * s.denom == s.denom * s.numerLast;
      var a, b := x * s.denomLast, y * s.numerLast;
      assert d * a - d * b == d * (a - b);
      DivisorOfOne(d, a - b);
    }
  }

  /** Estimates never exceed the starting values, or 1. */
  lemma BalancedBounds(top0: nat, s: Search)
    requires Balanced(top0, s)
    ensures s.denom <= SCALE && (s.numer <= top0 || s.numer == 1)
  {
    MulMono(0, s.numerLast, s.bot);
    MulMono(0, s.denomLast, s.bot);
    if s.denom > 0 {
      MulMono(1, s.top, s.numer);
      MulMono(1, s.top, s.denom);
      assert s.top * s.numer == s.numer * s.top && s.top * s.denom == s.denom * s.top;
    }
  }

  /** When nothing is left to refine, the estimate is the starting fraction itself. */
  lemma ExhaustedExact(top0: nat, s: Search)
    requires Balanced(top0, s) && s.bot == 0
    ensures s.denom > 0 && s.numer * SCALE == top0 * s.denom
  {
    assert top0 == s.numer * s.top && SCALE == s.denom * s.top;
    MulAssoc(s.numer, s.denom, s.top);
    MulAssoc(s.numer, s.top, s.denom);
    assert s.numer * (s.denom * s.top) == s.numer * (s.top * s.denom);
  }

  /** top0 is f * 2^25 rounded down. */
  ghost predicate IsTop(f: real, top0: nat)
  {
    top0 as real <= f * 33554432.0 < top0 as real + 1.0
  }

  lemma SameFraction(a: nat, b: nat, c: nat, d: nat)
    requires b > 0 && d > 0 && a * d == c * b
    ensures a as real / b as real == c as real / d as real
  {
    var x, y, z, w := a as real, b as real, c as real, d as real;
    assert x * w == z * y by {
      assert (a * d) as real == x * w;
      assert (c * b) as real == z * y;
    }
    assert x / y == (x * w) / (y * w) == (z * y) / (y * w) == z / w;
  }

  /** And that is close enough: the search never runs out of bits without an answer. */
  lemma ExhaustedClose(f: real, top0: nat, s: Search)
    requires IsTop(f, top0) && Balanced(top0, s) && s.bot == 0
    ensures s.denom > 0 && Error(s.numer, s.denom, f) < TOLERANCE
  {
    ExhaustedExact(top0, s);
    SameFraction(s.numer, s.denom, top0, SCALE);
  }

  // ---------------------------------------------------------------- the search

  /** The estimate that is being limited. */
  function Limited(s: Search, limitDenom: bool): nat
  {
    if limitDenom then s.denom else s.numer
  }

  predicate Close(s: Search, f: real)
  {
    s.denom > 0 && Error(s.numer, s.denom, f) < TOLERANCE
  }

  /** The estimate at which the search stops early, from s on: the first that is close to f, unless the limit is
      reached before. */
  ghost function FoundFrom(f: real, limit: nat, limitDenom: bool, top0: nat, s: Search): Option<Search>
    requires Balanced(top0, s)
    decreases s.bot
  {
    if Limited(s, limitDenom) >= limit then None
    else if Close(s, f) then Some(s)
    else if s.bot == 0 then None
    else
      StepBalanced(top0, s);
      FoundFrom(f, limit, limitDenom, top0, Step(s))
  }

  /** The early estimate for f, in the 64 bits the search works in. */
  ghost function EarlyEstimate(f: real, limit: nat, limitDenom: bool): Option<Search>
    requires f > 0.0
  {
    FoundFrom(f, limit, limitDenom, (f * 33554432.0).Floor, First((f * 33554432.0).Floor))
  }

  function First(top0: nat): (s: Search)
    ensures Balanced(top0, s)
  {
    Search(top0, SCALE, 1, 0, 0, 1)
  }

  /** An early estimate is close to f, in lowest terms, below the limit, and no larger than the starting values. */
  lemma {:induction false} FoundIs(f: real, limit: nat, limitDenom: bool, top0: nat, s: Search)
    requires Balanced(top0, s) && FoundFrom(f, limit, limitDenom, top0, s).Some?
    ensures var e := FoundFrom(f, limit, limitDenom, top0, s).value;
      && Close(e, f) && LowestTerms(e.numer, e.denom) && Limited(e, limitDenom) < limit
      && e.denom <= SCALE && (e.numer <= top0 || e.numer == 1)
    decreases s.bot
  {
    if Close(s, f) {
      BalancedLowest(top0, s);
      BalancedBounds(top0, s);
    } else {
      StepBalanced(top0, s);
      FoundIs(f, limit, limitDenom, top0, Step(s));
    }
  }

  /** The loop of lines 7583-7626 finds that estimate, or stops because the limit is reached.  The test for
      bot == 0 never ends it. */
  method Refine(f: real, limit: nat, limitDenom: bool, top0: nat) returns (found: bool, s: Search)
    requires IsTop(f, top0)
    ensures FoundFrom(f, limit, limitDenom, top0, First(top0)) == if found then Some(s) else None
    ensures s.denom <= SCALE && (s.numer <= top0 || s.numer == 1)
    ensures !found ==> Limited(s, limitDenom) >= limit
  {
    s := First(top0);
    while true
      invariant Balanced(top0, s)
      invariant FoundFrom(f, limit, limitDenom, top0, First(top0)) == FoundFrom(f, limit, limitDenom, top0, s)
      decreases s.bot
    {
      BalancedBounds(top0, s);
      if Limited(s, limitDenom) >= limit { return false, s; }
      if s.denom != 0 {
        if Error(s.numer, s.denom, f) < TOLERANCE { return true, s; }
      }
      if s.bot == 0 {
        ExhaustedClose(f, top0, s);
        assert false;
      }
      StepBalanced(top0, s);
      s := Step(s);
    }
  }

  /** Lines 7628-7645: the limit itself as one of the numbers. */
  method FullRange(f: real, limit: nat, limitDenom: bool) returns (ok: bool, numer: nat, denom: nat)
    requires f > 0.0 && limit < WORD
    ensures numer < WORD && denom < WORD && (if limitDenom then denom == limit else numer == limit)
    ensures ok <==> denom > 0 && Error(numer, denom, f) < TOLERANCE
    ensures NearestTo(if limitDenom then f * limit as real else limit as real / f, if limitDenom then numer else denom)
  {
    if limitDenom {
      NonNegativeProduct(f, limit as real);
      numer, denom := Rounded(f * limit as real), limit;
      RoundedNearest(f * limit as real);
    } else {
      NonNegative(limit as real, f);
      numer, denom := limit, Rounded(limit as real / f);
      RoundedNearest(limit as real / f);
    }
    ok := denom != 0 && Error(numer, denom, f) < TOLERANCE;
  }

  /** n is an integer nearest to x, of those nearest to it the larger, as long as that has 32 bits. */
  ghost predicate NearestTo(x: real, n: nat)
  {
    x < 4294967295.5 ==> x - 0.5 < n as real <= x + 0.5
  }

  lemma RoundedNearest(x: real)
    requires x >= 0.0
    ensures NearestTo(x, Rounded(x))
  {
    if x < 4294967295.5 {
      var n := (x + 0.5).Floor;
      assert n < WORD;
      DivMod(n, WORD, 0, n);
    }
  }

  /** To the nearest integer, then to 32 bits. */
  function Rounded(x: real): (n: nat)
    requires x >= 0.0
    ensures n < WORD
  {
    (x + 0.5).Floor % WORD
  }

  lemma NonNegativeProduct(f: real, x: real)
    requires x >= 0.0 && f > 0.0
    ensures f * x >= 0.0
  {
  }

  lemma NonNegative(x: real, f: real)
    requires x >= 0.0 && f > 0.0
    ensures x / f >= 0.0
  {
  }

  // ---------------------------------------------------------------- 32 bits

  /** Cutting an estimate to 32 bits leaves it close to f exactly if it fits: a denominator is at most 2^25, so
      that a numerator short of 2^32 is off by at least 128. */
  lemma CutExact(f: real, numer: nat, denom: nat)
    requires 0 < denom <= SCALE && Error(numer, denom, f) < TOLERANCE
    ensures Error(numer % WORD, denom, f) < TOLERANCE <==> numer < WORD
  {
    if numer < WORD {
      DivMod(numer, WORD, 0, numer);
    } else {
      var cut := numer % WORD;
      DivModDef(numer, WORD);
      assert cut <= numer - WORD;
      var x, y, d := numer as real, cut as real, denom as real;
      assert y <= x - 4294967296.0;
      QuotientGap(x, y, d);
    }
  }

  lemma QuotientGap(x: real, y: real, d: real)
    requires 0.0 < d <= 33554432.0 && y <= x - 4294967296.0
    ensures y / d <= x / d - 128.0
  {
    assert x / d - y / d == (x - y) / d;
    assert (x - y) / d >= 128.0 by {
      assert 128.0 * d <= 4294967296.0 <= x - y;
    }
  }

  lemma ProductBelow(x: real, d: real, g: real, limit: real)
    requires d > 0.0 && x / d < g && g > 0.0 && d <= limit
    ensures x < g * limit
  {
    assert x == (x / d) * d;
    assert (x / d) * d < g * d <= g * limit;
  }

  lemma ProductAbove(x: real, d: real, g: real)
    requires d >= 1.0 && x / d > g && g >= 0.0
    ensures x > g
  {
    assert x == (x / d) * d;
    assert (x / d) * d >= x / d;
  }

  /** The early estimate fits 32 bits if the numerator is limited, or if f times the limit does. */
  lemma EstimateFits(f: real, limit: nat, limitDenom: bool)
    requires f > 0.0 && limit < WORD && EarlyEstimate(f, limit, limitDenom).Some?
    requires limitDenom ==> (f + TOLERANCE) * limit as real <= 4294967296.0
    ensures EarlyEstimate(f, limit, limitDenom).value.numer < WORD
  {
    hide FoundFrom, LowestTerms, Balanced;
    var e := EarlyEstimate(f, limit, limitDenom).value;
    FoundIs(f, limit, limitDenom, (f * 33554432.0).Floor, First((f * 33554432.0).Floor));
    if limitDenom {
      ProductBelow(e.numer as real, e.denom as real, f + TOLERANCE, limit as real);
    }
  }

  /** From 2^32 on no early estimate fits. */
  lemma EstimateTooLarge(f: real, limit: nat, limitDenom: bool)
    requires f >= 4294967296.0 && EarlyEstimate(f, limit, limitDenom).Some?
    ensures EarlyEstimate(f, limit, limitDenom).value.numer >= WORD
  {
    hide FoundFrom, LowestTerms, Balanced;
    var e := EarlyEstimate(f, limit, limitDenom).value;
    FoundIs(f, limit, limitDenom, (f * 33554432.0).Floor, First((f * 33554432.0).Floor));
    ProductAbove(e.numer as real, e.denom as real, f - TOLERANCE);
  }

  lemma FirstStep(w: nat)
    ensures Step(First(w * SCALE)) == Search(SCALE, 0, w, 1, 1, 0)
  {
    DivMod(w * SCALE, SCALE, w, 0);
  }

  lemma WholeTop(w: nat)
    ensures (w as real * 33554432.0).Floor == w * SCALE
  {
    assert (w * SCALE) as real == w as real * 33554432.0;
  }

  /** A whole scale w is found at once, as w over 1. */
  lemma WholeScale(w: nat, limit: nat)
    requires w > 0 && limit >= 2
    ensures EarlyEstimate(w as real, limit, true) == Some(Search(SCALE, 0, w, 1, 1, 0))
  {
    WholeTop(w);
    FirstStep(w);
    StepBalanced(w * SCALE, First(w * SCALE));
    var s1 := Step(First(w * SCALE));
    assert Close(s1, w as real);
    assert FoundFrom(w as real, limit, true, w * SCALE, s1) == Some(s1);
  }

  /** The scale 2^32 with a denominator below 2, as for a thin slice of two pixels: the estimate is exact, but its
      numerator is cut to 0. */
  lemma WrapExample(limit: nat)
    requires limit == 2
    ensures var e := EarlyEstimate(WORD as real, limit, true);
      e.Some? && e.value.numer == WORD && e.value.denom == 1 && e.value.numer % WORD == 0
    ensures !(Error(0, 1, WORD as real) < TOLERANCE)
  {
    hide EarlyEstimate;
    WholeScale(WORD, limit);
  }

  /** stbir__double_to_rational.  It succeeds early, with the estimate e cut to 32 bits, or with the limit itself as one
      of the numbers.  What it then returns is within the tolerance exactly unless the cut has lost something. */
  method DoubleToRational(f: real, limit: nat, limitDenom: bool)
    returns (ok: bool, numer: nat, denom: nat, ghost early: Option<Search>)
    requires f > 0.0 && limit < WORD
    ensures numer < 0x1_0000_0000 && denom < 0x1_0000_0000 && early == EarlyEstimate(f, limit, limitDenom)
    ensures early.Some? ==>
      var e := early.value;
      && ok && numer == e.numer % 0x1_0000_0000 && denom == e.denom && 0 < denom <= SCALE
      && Error(e.numer, denom, f) < TOLERANCE && LowestTerms(e.numer, denom)
      && (if limitDenom then denom < limit else e.numer < limit)
      && (e.numer as real <= f * 33554432.0 || e.numer == 1)
      && (Error(numer, denom, f) < TOLERANCE <==> e.numer < 0x1_0000_0000)
    ensures early.None? ==> if limitDenom then denom == limit else numer == limit
    ensures early.None? ==> (ok <==> denom > 0 && Error(numer, denom, f) < TOLERANCE)
    ensures early.None? ==> NearestTo(if limitDenom then f * limit as real else limit as real / f, if limitDenom then numer else denom)
  {
    var top := (f * 33554432.0).Floor;
    var found, s := Refine(f, limit, limitDenom, top);
    early := EarlyEstimate(f, limit, limitDenom);
    if found {
      FoundIs(f, limit, limitDenom, top, First(top));
      ok, numer, denom := true, s.numer % WORD, s.denom % WORD;
      CutExact(f, s.numer, s.denom);
    } else {
      ok, numer, denom := FullRange(f, limit, limitDenom);
    }
  }
}
