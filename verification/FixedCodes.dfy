/** The fixed Huffman codes of section 3.2.6 of RFC 1951, which the decoder gets by building
    tables from stbi__zdefault_length and stbi__zdefault_distance. */
module FixedCodes {
  import opened Bits
  import opened Canonical
  import opened DeflateTables

  function Clamp(x: int, hi: nat): nat
  {
    if x < 0 then 0 else if x > hi then hi else x
  }

  lemma {:induction false} LitRank(n: nat, l: nat)
    requires n <= 288
    ensures Rank(FixedLit(), n, l) ==
            if l == 8 then Clamp(n, 144) + Clamp(n - 280, 8)
            else if l == 9 then Clamp(n - 144, 112)
            else if l == 7 then Clamp(n - 256, 24)
            else 0
    decreases n
  {
    if n == 0 {
    } else {
      LitRank(n - 1, l);
    }
  }

  lemma {:induction false} DistRank(n: nat, l: nat)
    requires n <= 32
    ensures Rank(FixedDist(), n, l) == if l == 5 then n else 0
    decreases n
  {
    if n == 0 {
    } else {
      DistRank(n - 1, l);
    }
  }

  /** Once every code of length l is used, none is left for longer lengths. */
  lemma {:induction false} Complete(lens: seq<nat>, l: nat, k: nat)
    requires l <= k && Upper(lens, l) == Pow2(l) && forall j | l < j <= k :: Count(lens, j) == 0
    ensures Upper(lens, k) == Pow2(k)
    decreases k
  {
    if l >= k {
    } else {
      Complete(lens, l, k - 1);
    }
  }

  lemma LitFirst()
    ensures var f := FixedLit();
      First(f, 7) == 0 && Upper(f, 7) == 24 && First(f, 8) == 48 && Upper(f, 8) == 200 &&
      First(f, 9) == 400 && Upper(f, 9) == 512
    ensures forall l | 0 <= l < 7 :: Upper(FixedLit(), l) == 0
  {
    var f := FixedLit();
    forall l: nat ensures Rank(f, 288, l) == if l == 8 then 152 else if l == 9 then 112 else if l == 7 then 24 else 0 {
      LitRank(288, l);
    }
    NoneBelow(f, 6);
    forall l | 0 <= l < 7 ensures Upper(f, l) == 0 {
      NoneBelow(f, l);
    }
  }

  lemma {:induction false} NoneBelow(lens: seq<nat>, l: nat)
    requires forall j | 0 < j <= l :: Count(lens, j) == 0
    ensures Upper(lens, l) == 0
    decreases l
  {
    if l == 0 {
    } else {
      NoneBelow(lens, l - 1);
    }
  }

  lemma LitUpper(l: nat)
    requires l > 9
    ensures Upper(FixedLit(), l) == Pow2(l)
  {
    LitFirst();
    Pow2Values();
    forall j | 9 < j <= l ensures Count(FixedLit(), j) == 0 {
      LitRank(288, j);
    }
    Complete(FixedLit(), 9, l);
  }

  /** The builder accepts the fixed lengths. */
  lemma LitFits()
    ensures Lengths(FixedLit()) && Codable(FixedLit())
  {
    forall l | 1 <= l <= 15 ensures Upper(FixedLit(), l) <= Pow2(l) {
      if l > 9 {
        LitUpper(l);
      } else {
        LitFirst();
        Pow2Values();
      }
    }
  }

  lemma DistFits()
    ensures Lengths(FixedDist()) && Codable(FixedDist())
  {
    var f := FixedDist();
    Pow2Values();
    forall j: nat ensures Count(f, j) == if j == 5 then 32 else 0 {
      DistRank(32, j);
    }
    NoneBelow(f, 4);
    forall l | 1 <= l <= 15 ensures Upper(f, l) <= Pow2(l) {
      if l < 5 {
        NoneBelow(f, l);
      } else {
        Complete(f, 5, l);
      }
    }
  }

  /** The codes are those the table of section 3.2.6 lists: 00110000 on for literals 0-143,
      110010000 on for 144-255, 0000000 on for 256-279, 11000000 on for 280-287. */
  lemma LitCodes(i: nat)
    requires i < 288
    ensures Code(FixedLit(), i) ==
            if i <= 143 then 0x30 + i
            else if i <= 255 then 0x190 + (i - 144)
            else if i <= 279 then i - 256
            else 0xC0 + (i - 280)
  {
    LitFirst();
    LitRank(i, FixedLit()[i]);
  }

  /** Distance codes are the five-bit numbers. */
  lemma DistCodes(i: nat)
    requires i < 32
    ensures Code(FixedDist(), i) == i
  {
    var f := FixedDist();
    forall j: nat ensures Count(f, j) == if j == 5 then 32 else 0 {
      DistRank(32, j);
    }
    NoneBelow(f, 4);
    DistRank(i, 5);
  }
}
