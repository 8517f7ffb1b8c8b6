/** Canonical Huffman codes, as section 3.2.2 of RFC 1951 and Annex C of ITU-T T.81 assign
    them to a list of code lengths (0 = symbol unused), and decoding them from a bit
    string.  Nothing here mentions a table. */
module Canonical {
  import opened Bits

  /** Among the first n symbols, how many have length l. */
  function Rank(lens: seq<nat>, n: nat, l: nat): nat
    requires n <= |lens|
  {
    if n == 0 then 0 else Rank(lens, n - 1, l) + if lens[n - 1] == l then 1 else 0
  }

  /** bl_count of RFC 1951, with bl_count[0] = 0. */
  function Count(lens: seq<nat>, l: nat): nat
  {
    if l == 0 then 0 else Rank(lens, |lens|, l)
  }

  /** next_code of RFC 1951: the smallest code of length l. */
  function First(lens: seq<nat>, l: nat): nat
  {
    if l == 0 then 0 else 2 * (First(lens, l - 1) + Count(lens, l - 1))
  }

  /** One more than the largest code of length l. */
  function Upper(lens: seq<nat>, l: nat): nat
  {
    First(lens, l) + Count(lens, l)
  }

  /** The code of symbol i, a number of lens[i] bits. */
  function Code(lens: seq<nat>, i: nat): nat
    requires i < |lens|
  {
    First(lens, lens[i]) + Rank(lens, i, lens[i])
  }

  /** No length has more codes than bit strings left for it. */
  ghost predicate Fits(lens: seq<nat>, m: nat)
  {
    && (forall i | 0 <= i < |lens| :: lens[i] <= m)
    && (forall l {:trigger Upper(lens, l)} | 1 <= l <= m :: Upper(lens, l) <= Pow2(l))
  }

  /** The lengths of a DEFLATE alphabet leave a bit string for every code. */
  ghost predicate Codable(lens: seq<nat>)
  {
    forall l {:trigger Upper(lens, l)} | 1 <= l <= 15 :: Upper(lens, l) <= Pow2(l)
  }

  /** Length lists of a DEFLATE alphabet: at most 288 symbols with lengths of at most 15. */
  predicate Lengths(lens: seq<nat>)
  {
    |lens| <= 288 && forall i | 0 <= i < |lens| :: lens[i] <= 15
  }

  /** p[l] is the number formed by the first l bits of some bit string, first bit most
      significant. */
  ghost predicate IsPrefixes(p: seq<nat>)
  {
    |p| > 0 && p[0] == 0 && forall l | 0 < l < |p| :: p[l] / 2 == p[l - 1]
  }

  /** The prefixes, most significant bit first, of the LSB-first bit buffer v. */
  ghost function Prefixes(v: nat): (p: seq<nat>)
    ensures |p| == 16 && IsPrefixes(p)
  {
    var p := seq(16, l requires 0 <= l => Top(v, l));
    assert IsPrefixes(p) by {
      forall l | 0 < l < 16 ensures p[l] / 2 == p[l - 1] {
        TopStep(v, l - 1);
      }
    }
    p
  }

  /** The code of symbol i is a prefix of the bit string. */
  ghost predicate Matches(lens: seq<nat>, p: seq<nat>, i: nat)
  {
    i < |lens| && 0 < lens[i] < |p| && p[lens[i]] == Code(lens, i)
  }

  /** Bit-by-bit decoding: the symbol whose code is a prefix of the bit string, if any. */
  ghost function Decode(lens: seq<nat>, p: seq<nat>): Option<nat>
  {
    if i: nat :| Matches(lens, p, i) then Some(i) else None
  }

  lemma {:induction false} RankMono(lens: seq<nat>, i: nat, j: nat, l: nat)
    requires i <= j <= |lens|
    ensures Rank(lens, i, l) <= Rank(lens, j, l)
    ensures i < j && lens[i] == l ==> Rank(lens, i, l) < Rank(lens, j, l)
    decreases j
  {
    if i >= j {
    } else {
      RankMono(lens, i, j - 1, l);
    }
  }

  lemma {:induction false} RankLe(lens: seq<nat>, n: nat, l: nat)
    requires n <= |lens|
    ensures Rank(lens, n, l) <= n
  {
    if n == 0 {
    } else {
      RankLe(lens, n - 1, l);
    }
  }

  /** Some symbol of length l has any given rank below the count. */
  lemma {:induction false} Nth(lens: seq<nat>, n: nat, l: nat, r: nat) returns (i: nat)
    requires n <= |lens| && r < Rank(lens, n, l)
    ensures i < n && lens[i] == l && Rank(lens, i, l) == r
  {
    if lens[n - 1] == l && Rank(lens, n - 1, l) == r {
      i := n - 1;
    } else {
      i := Nth(lens, n - 1, l, r);
    }
  }

  lemma CodeBounds(lens: seq<nat>, i: nat)
    requires i < |lens| && lens[i] > 0
    ensures First(lens, lens[i]) <= Code(lens, i) < Upper(lens, lens[i])
  {
    RankMono(lens, i, |lens|, lens[i]);
  }

  /** No symbol from i to j has length l. */
  lemma {:induction false} RankStays(lens: seq<nat>, i: nat, j: nat, l: nat)
    requires i <= j <= |lens| && forall k | i <= k < j :: lens[k] != l
    ensures Rank(lens, j, l) == Rank(lens, i, l)
    decreases j
  {
    if i >= j {
    } else {
      RankStays(lens, i, j - 1, l);
    }
  }

  /** Lengths that no symbol has double the first code. */
  lemma {:induction false} FirstDoubles(lens: seq<nat>, a: nat, b: nat)
    requires 0 < a < b && forall k | 0 <= k < |lens| :: !(a < lens[k] < b)
    ensures First(lens, b) == Upper(lens, a) * Pow2(b - a)
    decreases b
  {
    if a + 1 == b {
      assert Pow2(1) == 2;
    } else {
      FirstDoubles(lens, a, b - 1);
      RankStays(lens, 0, |lens|, b - 1);
      MulAssoc(Upper(lens, a), 2, Pow2(b - 1 - a));
      MulAssoc(2, Upper(lens, a), Pow2(b - 1 - a));
    }
  }

  /** The two rules that fix a canonical code.  The first symbol, by length and then by number, has the code 0. */
  lemma {:induction false} CodeStarts(lens: seq<nat>, i: nat)
    requires i < |lens| && lens[i] > 0
    requires forall k | 0 <= k < |lens| && lens[k] > 0 :: lens[k] > lens[i] || (lens[k] == lens[i] && k >= i)
    ensures Code(lens, i) == 0
  {
    RankStays(lens, 0, i, lens[i]);
    FirstNone(lens, lens[i]);
  }

  lemma {:induction false} FirstNone(lens: seq<nat>, l: nat)
    requires forall k | 0 <= k < |lens| :: lens[k] == 0 || lens[k] >= l
    ensures First(lens, l) == 0
    decreases l
  {
    if l == 0 {
    } else {
      FirstNone(lens, l - 1);
      if l > 1 {
        RankStays(lens, 0, |lens|, l - 1);
      }
    }
  }

  /** And the symbol j that comes next after symbol i has the next code, with zeros appended if it is longer. */
  lemma CodeFollows(lens: seq<nat>, i: nat, j: nat)
    requires i < |lens| && j < |lens| && lens[i] > 0
    requires lens[i] < lens[j] || (lens[i] == lens[j] && i < j)
    requires forall k | 0 <= k < |lens| ::
               && !((lens[i] < lens[k] || (lens[i] == lens[k] && i < k)) && (lens[k] < lens[j] || (lens[k] == lens[j] && k < j)))
    ensures Code(lens, j) == (Code(lens, i) + 1) * Pow2(lens[j] - lens[i])
  {
    if lens[i] == lens[j] {
      RankStays(lens, i + 1, j, lens[i]);
      assert Pow2(0) == 1;
    } else {
      RankStays(lens, i + 1, |lens|, lens[i]);
      RankStays(lens, 0, j, lens[j]);
      FirstDoubles(lens, lens[i], lens[j]);
    }
  }

  /** A match of length at most l keeps every longer prefix below the codes of that length. */
  lemma {:induction false} MatchUpper(lens: seq<nat>, p: seq<nat>, i: nat, l: nat)
    requires IsPrefixes(p) && Matches(lens, p, i) && lens[i] <= l < |p|
    ensures p[l] < Upper(lens, l)
    ensures lens[i] < l ==> p[l] < First(lens, l)
    decreases l
  {
    CodeBounds(lens, i);
    if lens[i] >= l {
    } else {
      MatchUpper(lens, p, i, l - 1);
    }
  }

  /** Conversely a prefix below Upper continues some code of at most that length. */
  lemma {:induction false} UpperMatch(lens: seq<nat>, p: seq<nat>, l: nat) returns (i: nat)
    requires IsPrefixes(p) && l < |p| && p[l] < Upper(lens, l)
    ensures Matches(lens, p, i) && lens[i] <= l
    ensures p[l] >= First(lens, l) ==> lens[i] == l && Rank(lens, i, l) == p[l] - First(lens, l)
    decreases l
  {
    if p[l] >= First(lens, l) {
      i := Nth(lens, |lens|, l, p[l] - First(lens, l));
    } else {
      assert p[l - 1] == p[l] / 2;
      i := UpperMatch(lens, p, l - 1);
    }
  }

  /** Canonical codes are prefix-free: at most one symbol's code is a prefix of a bit string. */
  lemma PrefixFree(lens: seq<nat>, p: seq<nat>, i: nat, j: nat)
    requires IsPrefixes(p) && Matches(lens, p, i) && Matches(lens, p, j)
    ensures i == j
  {
    CodeBounds(lens, i);
    CodeBounds(lens, j);
    if lens[i] < lens[j] {
      MatchUpper(lens, p, i, lens[j]);
    } else if lens[j] < lens[i] {
      MatchUpper(lens, p, j, lens[i]);
    } else if i < j {
      RankMono(lens, i, j, lens[i]);
    } else if j < i {
      RankMono(lens, j, i, lens[i]);
    }
  }

  lemma DecodeIs(lens: seq<nat>, p: seq<nat>, i: nat)
    requires IsPrefixes(p) && Matches(lens, p, i)
    ensures Decode(lens, p) == Some(i)
  {
    PrefixFree(lens, p, i, Decode(lens, p).value);
  }

  lemma DecodeNone(lens: seq<nat>, p: seq<nat>)
    requires IsPrefixes(p)
    requires forall i | 0 <= i < |lens| :: lens[i] < |p|
    ensures Decode(lens, p) == None <==> p[|p| - 1] >= Upper(lens, |p| - 1)
  {
    if Decode(lens, p).Some? {
      MatchUpper(lens, p, Decode(lens, p).value, |p| - 1);
    } else if p[|p| - 1] < Upper(lens, |p| - 1) {
      var i := UpperMatch(lens, p, |p| - 1);
      DecodeIs(lens, p, i);
    }
  }

  // ---------------------------------------------------------------- slots

  /** How many symbols have a non-zero length below l: where length l starts when symbols are
      sorted by length. */
  function FirstSlot(lens: seq<nat>, l: nat): nat
  {
    if l <= 1 then 0 else FirstSlot(lens, l - 1) + Count(lens, l - 1)
  }

  /** The place of symbol i in the list sorted by length, then by symbol. */
  function Slot(lens: seq<nat>, i: nat): nat
    requires i < |lens|
  {
    FirstSlot(lens, lens[i]) + Rank(lens, i, lens[i])
  }

  lemma {:induction false} FirstSlotMono(lens: seq<nat>, a: nat, b: nat)
    requires 0 < a < b
    ensures FirstSlot(lens, a) + Count(lens, a) <= FirstSlot(lens, b)
    decreases b
  {
    if a + 1 >= b {
    } else {
      FirstSlotMono(lens, a, b - 1);
    }
  }

  lemma SlotInjective(lens: seq<nat>, i: nat, j: nat)
    requires i < |lens| && j < |lens| && lens[i] > 0 && lens[j] > 0
    requires Slot(lens, i) == Slot(lens, j)
    ensures i == j
  {
    RankMono(lens, i, |lens|, lens[i]);
    RankMono(lens, j, |lens|, lens[j]);
    if lens[i] < lens[j] {
      FirstSlotMono(lens, lens[i], lens[j]);
    } else if lens[j] < lens[i] {
      FirstSlotMono(lens, lens[j], lens[i]);
    } else if i < j {
      RankMono(lens, i, j, lens[i]);
    } else if j < i {
      RankMono(lens, j, i, lens[i]);
    }
  }

  /** Symbols with a length in 1..l among the first n. */
  function Below(lens: seq<nat>, n: nat, l: nat): nat
    requires n <= |lens|
  {
    if n == 0 then 0 else Below(lens, n - 1, l) + if 0 < lens[n - 1] < l then 1 else 0
  }

  lemma {:induction false} BelowSplit(lens: seq<nat>, n: nat, l: nat)
    requires n <= |lens| && l > 0
    ensures Below(lens, n, l + 1) == Below(lens, n, l) + Rank(lens, n, l)
    ensures Below(lens, n, 1) == 0
    ensures Below(lens, n, l) <= n
  {
    if n == 0 {
    } else {
      BelowSplit(lens, n - 1, l);
    }
  }

  /** Slots never reach past the number of symbols. */
  lemma {:induction false} FirstSlotIsBelow(lens: seq<nat>, l: nat)
    requires l > 0
    ensures FirstSlot(lens, l) == Below(lens, |lens|, l) <= |lens|
  {
    BelowSplit(lens, |lens|, l);
    if l <= 1 {
    } else {
      FirstSlotIsBelow(lens, l - 1);
      BelowSplit(lens, |lens|, l - 1);
    }
  }

  lemma SlotBound(lens: seq<nat>, i: nat)
    requires i < |lens| && lens[i] > 0
    ensures Slot(lens, i) < FirstSlot(lens, lens[i] + 1) <= |lens|
  {
    RankMono(lens, i, |lens|, lens[i]);
    FirstSlotIsBelow(lens, lens[i] + 1);
  }

  // ---------------------------------------------------------------- Kraft

  /** The Kraft sum of the lengths, scaled by 2^m. */
  function Kraft(lens: seq<nat>, n: nat, m: nat): nat
    requires n <= |lens| && forall i | 0 <= i < |lens| :: lens[i] <= m
  {
    if n == 0 then 0
    else Kraft(lens, n - 1, m) + if lens[n - 1] > 0 then Pow2(m - lens[n - 1]) else 0
  }

  /** The part of the Kraft sum from lengths up to l. */
  function KraftTo(lens: seq<nat>, n: nat, m: nat, l: nat): nat
    requires n <= |lens| && l <= m
  {
    if n == 0 then 0
    else KraftTo(lens, n - 1, m, l) + if 0 < lens[n - 1] <= l then Pow2(m - lens[n - 1]) else 0
  }

  lemma {:induction false} KraftToStep(lens: seq<nat>, n: nat, m: nat, l: nat)
    requires n <= |lens| && 0 < l <= m
    ensures KraftTo(lens, n, m, l) == KraftTo(lens, n, m, l - 1) + Rank(lens, n, l) * Pow2(m - l)
  {
    if n == 0 {
    } else {
      KraftToStep(lens, n - 1, m, l);
      if lens[n - 1] == l {
        MulAdd(Rank(lens, n - 1, l), 1, Pow2(m - l));
      }
    }
  }

  lemma {:induction false} KraftToZero(lens: seq<nat>, n: nat, m: nat)
    requires n <= |lens|
    ensures KraftTo(lens, n, m, 0) == 0
  {
    if n == 0 {
    } else {
      KraftToZero(lens, n - 1, m);
    }
  }

  lemma {:induction false} UpperIsKraft(lens: seq<nat>, m: nat, l: nat)
    requires l <= m
    ensures Upper(lens, l) * Pow2(m - l) == KraftTo(lens, |lens|, m, l)
    decreases l
  {
    if l == 0 {
      KraftToZero(lens, |lens|, m);
    } else {
      UpperIsKraft(lens, m, l - 1);
      KraftToStep(lens, |lens|, m, l);
      var u, d := Upper(lens, l - 1), Pow2(m - l);
      assert Pow2(m - (l - 1)) == 2 * d;
      MulAdd(2 * u, Count(lens, l), d);
      MulAssoc(u, 2, d);
      MulAssoc(2, u, d);
    }
  }

  lemma {:induction false} KraftToAll(lens: seq<nat>, n: nat, m: nat, l: nat)
    requires n <= |lens| && l <= m && forall i | 0 <= i < |lens| :: lens[i] <= m
    ensures KraftTo(lens, n, m, l) <= KraftTo(lens, n, m, m) == Kraft(lens, n, m)
  {
    if n == 0 {
    } else {
      KraftToAll(lens, n - 1, m, l);
    }
  }

  /** A length list can be coded exactly when its Kraft sum is at most one. */
  lemma FitsIffKraft(lens: seq<nat>, m: nat)
    requires m > 0 && forall i | 0 <= i < |lens| :: lens[i] <= m
    ensures Fits(lens, m) <==> Kraft(lens, |lens|, m) <= Pow2(m)
  {
    if Fits(lens, m) {
      UpperIsKraft(lens, m, m);
      KraftToAll(lens, |lens|, m, m);
    }
    if Kraft(lens, |lens|, m) <= Pow2(m) {
      forall l | 1 <= l <= m ensures Upper(lens, l) <= Pow2(l) {
        UpperIsKraft(lens, m, l);
        KraftToAll(lens, |lens|, m, l);
        Pow2Add(l, m - l);
        if Upper(lens, l) > Pow2(l) {
          MulSub(Upper(lens, l), Pow2(l), Pow2(m - l));
          MulAtLeast(Upper(lens, l) - Pow2(l), Pow2(m - l));
        }
      }
    }
  }
}
