/** The JPEG decoder's Huffman tables (stbi__huffman): stbi__build_huffman, stbi__jpeg_huff_decode and
    the combined tables of stbi__build_fast_ac, against Annex C and section F.2.2 of ITU-T T.81. */
module JpegHuffman {
  import opened Bits
  import opened Canonical

  const FAST_BITS: nat := 9

  // ---------------------------------------------------------------- lists of sizes

  /** HUFFSIZE of Annex C: count[i] symbols of size i + 1, for the first n sizes. */
  function SizeList(count: seq<nat>, n: nat): (r: seq<nat>)
    requires n <= |count|
  {
    if n == 0 then [] else SizeList(count, n - 1) + seq(count[n - 1], i => n)
  }

  /** Positive and non-decreasing. */
  ghost predicate Sorted(lens: seq<nat>, m: nat)
  {
    && (forall i | 0 <= i < |lens| :: 0 < lens[i] <= m)
    && (forall i, j | 0 <= i < j < |lens| :: lens[i] <= lens[j])
  }

  lemma {:induction false} SizeListSorted(count: seq<nat>, n: nat)
    requires n <= |count|
    ensures Sorted(SizeList(count, n), n)
  {
    if n == 0 {
    } else {
      SizeListSorted(count, n - 1);
    }
  }

  lemma {:induction false} BelowPrefix(lens: seq<nat>, n: nat, l: nat)
    requires n <= |lens| && forall i | n <= i < |lens| :: lens[i] >= l
    ensures Below(lens, |lens|, l) == Below(lens, n, l)
    decreases |lens| - n
  {
    if n >= |lens| {
    } else {
      BelowPrefix(lens, n + 1, l);
    }
  }

  lemma {:induction false} BelowAndRank(lens: seq<nat>, n: nat, l: nat)
    requires n <= |lens| && forall i | 0 <= i < n :: 0 < lens[i] <= l
    ensures Below(lens, n, l) + Rank(lens, n, l) == n
  {
    if n == 0 {
    } else {
      BelowAndRank(lens, n - 1, l);
    }
  }

  /** In a sorted list every symbol is in its slot. */
  lemma SortedSlot(lens: seq<nat>, i: nat, m: nat)
    requires Sorted(lens, m) && i < |lens|
    ensures Slot(lens, i) == i
  {
    FirstSlotIsBelow(lens, lens[i]);
    BelowPrefix(lens, i, lens[i]);
    BelowAndRank(lens, i, lens[i]);
  }

  /** The symbols of size j are the slots from FirstSlot(j) up to FirstSlot(j + 1). */
  lemma SortedRun(lens: seq<nat>, j: nat, k: nat, m: nat)
    requires Sorted(lens, m) && j > 0 && FirstSlot(lens, j) <= k
    ensures FirstSlot(lens, j + 1) <= |lens|
    ensures k < FirstSlot(lens, j + 1) <==> k < |lens| && lens[k] == j
  {
    FirstSlotIsBelow(lens, j + 1);
    if k < |lens| {
      SortedSlot(lens, k, m);
      SlotBound(lens, k);
      if lens[k] < j {
        FirstSlotMono(lens, lens[k], j);
      } else if lens[k] > j {
        FirstSlotMono(lens, j, lens[k]);
      }
    }
  }

  // ---------------------------------------------------------------- the bit buffer

  /** The first l bits of a 32-bit buffer whose first bit is the most significant. */
  function Head(v: nat, l: nat): nat
    requires l <= 32
  {
    DivNat(v, Pow2(32 - l));
    v / Pow2(32 - l)
  }

  lemma HeadStep(v: nat, l: nat)
    requires 0 < l <= 32
    ensures Head(v, l) / 2 == Head(v, l - 1)
  {
    DivDiv(v, Pow2(32 - l), 2);
  }

  lemma HeadHead(v: nat, a: nat, l: nat)
    requires l <= a <= 32
    ensures Head(v, a) / Pow2(a - l) == Head(v, l)
  {
    DivDiv(v, Pow2(32 - a), Pow2(a - l));
    Pow2Add(32 - a, a - l);
  }

  ghost function HeadPrefixes(v: nat): (p: seq<nat>)
    requires v < Pow2(32)
    ensures |p| == 17 && IsPrefixes(p) && forall l | 0 <= l < 17 :: p[l] == Head(v, l)
  {
    var p := seq(17, l requires 0 <= l < 17 => Head(v, l));
    assert IsPrefixes(p) by {
      assert p[0] == 0 by { DivMod(v, Pow2(32), 0, v); }
      forall l | 0 < l < 17 ensures p[l] / 2 == p[l - 1] {
        HeadStep(v, l);
      }
    }
    p
  }

  // ---------------------------------------------------------------- tables

  /** Fast slot x belongs to symbol i. */
  ghost predicate FastHit(lens: seq<nat>, i: nat, x: nat)
    requires i < |lens|
  {
    0 < lens[i] <= FAST_BITS && x / Pow2(FAST_BITS - lens[i]) == Code(lens, i)
  }

  /** A fast slot as a run of slots. */
  lemma FastHitRun(lens: seq<nat>, i: nat, x: nat)
    requires i < |lens| && 0 < lens[i] <= FAST_BITS
    ensures var m := Pow2(FAST_BITS - lens[i]);
      FastHit(lens, i, x) <==> Code(lens, i) * m <= x < Code(lens, i) * m + m
  {
    var m, c := Pow2(FAST_BITS - lens[i]), Code(lens, i);
    DivModDef(x, m);
    if c * m <= x < c * m + m {
      DivMod(x, m, c, x - c * m);
    }
  }

  lemma FastHitUnique(lens: seq<nat>, i: nat, j: nat, x: nat)
    requires i < |lens| && j < |lens| && x < 512 && FastHit(lens, i, x) && FastHit(lens, j, x)
    ensures i == j
  {
    var v := x * Pow2(23);
    Pow2Add(9, 23);
    Pow2Values();
    MulMono(x + 1, Pow2(9), Pow2(23));
    MulAdd(x, 1, Pow2(23));
    DivMod(v, Pow2(23), x, 0);
    HeadHead(v, 9, lens[i]);
    HeadHead(v, 9, lens[j]);
    PrefixFree(lens, HeadPrefixes(v), i, j);
  }

  /** The contents of a stbi__huffman, with the sizes it came from. */
  datatype Tables = Tables(fast: seq<byte>, code: seq<u16>, size: seq<byte>, maxcode: seq<nat>, delta: seq<int>,
                           lens: seq<nat>)
  {
    ghost predicate Shape()
    {
      |fast| == 512 && |code| == 256 && |size| == 257 && |maxcode| == 18 && |delta| == 17
    }

    /** The tables hold the canonical code of the sizes. */
    ghost predicate Built()
    {
      && Shape() && |lens| <= 256 && Sorted(lens, 16) && Fits(lens, 16) && maxcode[17] == 0xffff_ffff
      && (forall l | 1 <= l <= 16 ::
            delta[l] == FirstSlot(lens, l) - First(lens, l) && maxcode[l] == Upper(lens, l) * Pow2(16 - l))
      && (forall i | 0 <= i < |lens| :: size[i] == lens[i] && code[i] == Code(lens, i))
      && (forall i, x | 0 <= i < |lens| && 0 <= x < 512 :: FastHit(lens, i, x) ==> fast[x] == i)
      && (forall x | 0 <= x < 512 :: fast[x] != 255 ==> fast[x] < |lens| && FastHit(lens, fast[x], x))
    }

    /** The buffer v does not start with symbol 255 in the fast table. */
    ghost predicate Clear(v: nat)
    {
      |lens| <= 255 || !FastHit(lens, 255, Head(v, 9))
    }

    /** Symbol and size say what decoding gives. */
    ghost predicate Agrees(d: Option<nat>, sym: int, s: nat)
    {
      match d
      case None => sym == -1 && s == 17
      case Some(i) => sym == i < |lens| && s == lens[i]
    }

    /** What comes out instead: ten bits, counted back from the first code of ten bits, which there is not. */
    function Misread(v: nat): int
    {
      var c := Head(v, 10) + 256 - First(lens, 10);
      if 0 <= c < 256 then c else -1
    }

    /** The look-up of stbi__jpeg_huff_decode on a 32-bit buffer v: symbol number and size.  It is that of
        canonical decoding exactly when the buffer is clear of the reserved number. */
    method LookUp(v: nat) returns (sym: int, s: nat)
      requires Built() && v < Pow2(32)
      ensures Clear(v) ==> Agrees(Decode(lens, HeadPrefixes(v)), sym, s)
      ensures -1 <= sym < 256 && (sym >= 0 ==> s <= 16)
      ensures !Clear(v) ==> Decode(lens, HeadPrefixes(v)) == Some(255) && s == 10 && s != lens[255] && sym == Misread(v)
    {
      HeadSmall(v);
      var x := Head(v, 9);
      var k := fast[x];
      if k < 255 {
        FastMatch(v);
        return k, size[k];
      }
      sym, s := SlowLookUp(v);
      if !Clear(v) {
        Reserved(v);
      }
    }

    lemma Reserved(v: nat)
      requires Built() && v < Pow2(32) && !Clear(v)
      ensures Decode(lens, HeadPrefixes(v)) == Some(255) && lens[255] <= 9
    {
      hide Tables.Built, Pow2, Decode, HeadPrefixes, IsPrefixes, Matches, Head;
      HeadHead(v, 9, lens[255]);
      DecodeIs(lens, HeadPrefixes(v), 255);
    }

    /** All codes have fewer than ten bits, so that the slow path stops at once. */
    lemma ReservedSlow(v: nat)
      requires Built() && v < Pow2(32) && !Clear(v)
      ensures Head(v, 16) < maxcode[10] && delta[10] == 256 - First(lens, 10)
    {
      hide Pow2, Head, First, HeadPrefixes, IsPrefixes, Upper, Sorted, Top, Prefixes, FirstSlot, Below, Count;
      hide Decode, Slot;
      Reserved(v);
      var p, s := HeadPrefixes(v), lens[255];
      HeadHead(v, 9, s);
      assert Matches(lens, p, 255);
      MatchUpper(lens, p, 255, 10);
      CompareAt(v, 10);
      SortedSlot(lens, 255, 16);
      SlotBound(lens, 255);
      FirstSlotIsBelow(lens, 10);
      if s + 1 < 10 {
        FirstSlotMono(lens, s + 1, 10);
      }
    }

    lemma FastMatch(v: nat)
      requires Built() && v < Pow2(32) && Head(v, 9) < 512 && fast[Head(v, 9)] < 255
      ensures var i := fast[Head(v, 9)]; i < |lens| && Decode(lens, HeadPrefixes(v)) == Some(i)
    {
      var i := fast[Head(v, 9)];
      HeadHead(v, 9, lens[i]);
      DecodeIs(lens, HeadPrefixes(v), i);
    }

    method SlowLookUp(v: nat) returns (sym: int, s: nat)
      requires Built() && v < Pow2(32) && Head(v, 9) < 512 && Head(v, 16) < 0x1_0000 && fast[Head(v, 9)] == 255
      ensures Clear(v) ==> Agrees(Decode(lens, HeadPrefixes(v)), sym, s)
      ensures !Clear(v) ==> s == 10 && sym == Misread(v)
      ensures -1 <= sym < 256 && s >= 10 && (sym >= 0 ==> s <= 16)
    {
      hide Pow2, Head, Tables.Clear, Decode, HeadPrefixes, Top, Prefixes, Matches, Rank, First, Slot, Store.Shape;
      if !Clear(v) {
        ReservedSlow(v);
      }
      s := SlowSize(Head(v, 16));
      if s == 17 {
        AboveIsNone(v);
        return -1, s;
      }
      var c := Head(v, s) + delta[s];
      if Clear(v) {
        ghost var i := SlowMatch(v, s);
        assert c == i;
      }
      if c < 0 || c >= 256 { return -1, s; }
      sym := c;
    }

    /** Lines 2124-2126: the sentinel stops the loop. */
    method SlowSize(temp: nat) returns (k: nat)
      requires Shape() && maxcode[17] == 0xffff_ffff && temp < 0x1_0000
      ensures 10 <= k <= 17 && temp < maxcode[k] && forall l | 10 <= l < k :: temp >= maxcode[l]
    {
      k := FAST_BITS + 1;
      while temp >= maxcode[k]
        invariant 10 <= k <= 17
        invariant forall l | 10 <= l < k :: temp >= maxcode[l]
        decreases 17 - k
      {
        k := k + 1;
      }
    }

    lemma CompareAt(v: nat, l: nat)
      requires Built() && 1 <= l <= 16
      ensures Head(v, 16) < maxcode[l] <==> Head(v, l) < Upper(lens, l)
    {
      HeadHead(v, 16, l);
      ShiftCompare(Head(v, 16), Pow2(16 - l), Upper(lens, l));
    }

    lemma AboveIsNone(v: nat)
      requires Built() && v < Pow2(32) && Head(v, 16) >= maxcode[16]
      ensures Decode(lens, HeadPrefixes(v)) == None
    {
      CompareAt(v, 16);
      DecodeNone(lens, HeadPrefixes(v));
    }

    /** What the fast table does not have is longer. */
    lemma FastMissed(v: nat, i: nat)
      requires Built() && Clear(v) && v < Pow2(32) && Head(v, 9) < 512 && fast[Head(v, 9)] == 255
      requires i < |lens| && Matches(lens, HeadPrefixes(v), i)
      ensures lens[i] > 9
    {
      hide Built, FastHit, Matches, Head, HeadPrefixes, Pow2;
      if lens[i] <= 9 {
        MatchHits(v, i);
        FastEntry(i, Head(v, 9));
        assert false;
      }
    }

    lemma MatchHits(v: nat, i: nat)
      requires v < Pow2(32) && i < |lens| && lens[i] <= 9 && Matches(lens, HeadPrefixes(v), i)
      ensures FastHit(lens, i, Head(v, 9))
    {
      hide Head, Pow2;
      HeadHead(v, 9, lens[i]);
    }

    lemma FastEntry(i: nat, x: nat)
      requires Built() && i < |lens| && x < 512 && FastHit(lens, i, x)
      ensures fast[x] == i && |lens| <= 256
    {
      hide FastHit;
    }

    /** A shorter code would have been found before. */
    lemma NoShorter(v: nat, s: nat, i: nat)
      requires Built() && v < Pow2(32) && 10 <= s <= 16
      requires forall l | 10 <= l < s :: Head(v, 16) >= maxcode[l]
      requires i < |lens| && Matches(lens, HeadPrefixes(v), i) && 10 <= lens[i] <= s
      ensures lens[i] == s
    {
      if lens[i] < s {
        MatchUpper(lens, HeadPrefixes(v), i, s - 1);
        CompareAt(v, s - 1);
      }
    }

    lemma SlowMatch(v: nat, s: nat) returns (i: nat)
      requires Built() && Clear(v) && v < Pow2(32) && Head(v, 9) < 512 && fast[Head(v, 9)] == 255 && 10 <= s <= 16
      requires Head(v, 16) < maxcode[s] && forall l | 10 <= l < s :: Head(v, 16) >= maxcode[l]
      ensures i < |lens| && lens[i] == s && i == Head(v, s) + delta[s]
      ensures Decode(lens, HeadPrefixes(v)) == Some(i)
    {
      var p := HeadPrefixes(v);
      CompareAt(v, s);
      i := UpperMatch(lens, p, s);
      FastMissed(v, i);
      NoShorter(v, s, i);
      DecodeIs(lens, p, i);
      SortedSlot(lens, i, 16);
    }
  }

  lemma HeadSmall(v: nat)
    requires v < Pow2(32)
    ensures Head(v, 9) < 512 && Head(v, 16) < 0x1_0000
  {
    Pow2Values();
    Pow2Add(9, 23);
    Pow2Add(16, 16);
    ShiftCompare(v, Pow2(23), Pow2(9));
    ShiftCompare(v, Pow2(16), Pow2(16));
  }

  /** The excluded case is a real one: with 256 symbols and a last code of at most FAST_BITS bits,
      that code is decodable but looked up as something else. */
  lemma ReservedSymbol(t: Tables) returns (v: nat)
    requires t.Built() && |t.lens| == 256 && t.lens[255] <= 9
    ensures v < Pow2(32) && Decode(t.lens, HeadPrefixes(v)) == Some(255) && FastHit(t.lens, 255, Head(v, 9))
  {
    CodeBounds(t.lens, 255);
    v := CodeAlone(Code(t.lens, 255), t.lens[255]);
    DecodeIs(t.lens, HeadPrefixes(v), 255);
    HeadHead(v, 9, t.lens[255]);
  }

  /** A code followed by zeros. */
  lemma CodeAlone(c: nat, s: nat) returns (v: nat)
    requires s <= 32 && c < Pow2(s)
    ensures v < Pow2(32) && Head(v, s) == c
  {
    v := c * Pow2(32 - s);
    Pow2Add(s, 32 - s);
    MulMono(c + 1, Pow2(s), Pow2(32 - s));
    MulAdd(c, 1, Pow2(32 - s));
    DivMod(v, Pow2(32 - s), c, 0);
  }

  /** A stbi__huffman in memory while stbi__build_huffman fills it. */
  class Store {
    const fast: array<byte>
    const code: array<u16>
    const size: array<byte>
    const maxcode: array<nat>
    const delta: array<int>

    constructor ()
      ensures Shape() && fresh(fast) && fresh(code) && fresh(size) && fresh(maxcode) && fresh(delta)
    {
      fast := new byte[512](_ => 0);
      code := new u16[256](_ => 0);
      size := new byte[257](_ => 0);
      maxcode := new nat[18](_ => 0);
      delta := new int[17](_ => 0);
    }

    ghost predicate Shape()
    {
      && fast.Length == 512 && code.Length == 256 && size.Length == 257 && maxcode.Length == 18 && delta.Length == 17
      && fast != size
    }

    function Contents(lens: seq<nat>): Tables
      reads fast, code, size, maxcode, delta
    {
      Tables(fast[..], code[..], size[..], maxcode[..], delta[..], lens)
    }

    /** stbi__build_huffman: fails exactly when there are too many symbols or the sizes are
        over-subscribed, and otherwise leaves their canonical code. */
    method Build(count: seq<nat>) returns (ok: bool)
      requires Shape() && |count| == 16
      modifies fast, code, size, maxcode, delta
      ensures ok <==> |SizeList(count, 16)| <= 256 && Fits(SizeList(count, 16), 16)
      ensures ok ==> Contents(SizeList(count, 16)).Built()
    {
      ghost var lens := SizeList(count, 16);
      SizeListSorted(count, 16);
      var k;
      ok, k := FillSizes(count);
      if !ok { return; }
      assert Sized(lens) by {
        assert size[k] == size[..k + 1][k];
        forall i | 0 <= i < k ensures size[i] == lens[i] { assert size[i] == size[..k + 1][i]; }
      }
      ok := AssignCodes(lens);
      if !ok { return; }
      FillFast(lens, k);
      FilledIsBuilt(lens);
    }

    /** Lines 2008-2014. */
    method FillSizes(count: seq<nat>) returns (ok: bool, k: nat)
      requires Shape() && |count| == 16
      modifies size
      ensures ok <==> |SizeList(count, 16)| <= 256
      ensures ok ==> k == |SizeList(count, 16)| && size[..k + 1] == SizeList(count, 16) + [0]
    {
      k := 0;
      var i := 0;
      SizeListGrows(count, 0, 16);
      while i < 16
        invariant 0 <= i <= 16 && k == |SizeList(count, i)| <= 256
        invariant size[..k] == SizeList(count, i)
      {
        SizeListGrows(count, i + 1, 16);
        var j := 0;
        while j < count[i]
          invariant 0 <= j <= count[i] && k == |SizeList(count, i)| + j <= 256
          invariant size[..k] == SizeList(count, i) + seq(j, n => i + 1)
        {
          size[k] := i + 1;
          k := k + 1;
          j := j + 1;
          if k >= 257 { return false, k; }
        }
        i := i + 1;
      }
      size[k] := 0;
      ok := true;
    }

    /** Sizes as FillSizes leaves them. */
    ghost predicate Sized(lens: seq<nat>)
      requires Shape()
      reads size
    {
      |lens| <= 256 && size[|lens|] == 0 && forall i | 0 <= i < |lens| :: size[i] == lens[i]
    }

    /** Everything about sizes below j is settled. */
    ghost predicate Assigned(lens: seq<nat>, j: nat)
      requires Shape() && 1 <= j <= 17
      reads maxcode, delta
    {
      forall l | 1 <= l < j ::
        && Upper(lens, l) <= Pow2(l) && delta[l] == FirstSlot(lens, l) - First(lens, l)
        && maxcode[l] == Upper(lens, l) * Pow2(16 - l)
    }

    /** The first k symbols have their codes. */
    ghost predicate Coded(lens: seq<nat>, k: nat)
      requires Shape()
      reads code
    {
      k <= |lens| <= 256 && forall i | 0 <= i < k :: code[i] == Code(lens, i) % 0x1_0000
    }

    /** Lines 2016-2031. */
    method AssignCodes(ghost lens: seq<nat>) returns (ok: bool)
      requires Shape() && Sorted(lens, 16) && Sized(lens)
      modifies code, maxcode, delta
      ensures ok <==> Fits(lens, 16)
      ensures ok ==> Assigned(lens, 17) && Coded(lens, |lens|) && maxcode[17] == 0xffff_ffff
    {
      hide Tables.Shape, Pow2, Lengths;
      var c, k, j := 0, 0, 1;
      while j <= 16
        invariant 1 <= j <= 17 && c == First(lens, j) && k == FirstSlot(lens, j)
        invariant Assigned(lens, j) && Coded(lens, k)
      {
        ok, c, k := AssignSize(lens, j, c, k);
        if !ok { return; }
        c := c * 2;
        j := j + 1;
      }
      maxcode[17] := 0xffff_ffff;
      AllSlots(lens);
      ok := true;
    }

    method AssignSize(ghost lens: seq<nat>, j: nat, c0: nat, k0: nat) returns (ok: bool, c: nat, k: nat)
      requires Shape() && Sorted(lens, 16) && Sized(lens) && 1 <= j <= 16
      requires c0 == First(lens, j) && k0 == FirstSlot(lens, j) && Assigned(lens, j) && Coded(lens, k0)
      modifies code, maxcode, delta
      ensures ok <==> Upper(lens, j) <= Pow2(j)
      ensures ok ==> c == Upper(lens, j) && k == FirstSlot(lens, j + 1) && Assigned(lens, j + 1) && Coded(lens, k)
    {
      c, k := c0, k0;
      delta[j] := k - c;
      SortedRun(lens, j, k, 16);
      if size[k] == j {
        c, k := CodesOfSize(lens, j, c, k);
        if c - 1 >= Pow2(j) { return false, c, k; }
      } else if j > 1 {
        assert Upper(lens, j - 1) <= Pow2(j - 1);
      }
      SetMax(lens, j, c);
      ok := true;
    }

    method SetMax(ghost lens: seq<nat>, j: nat, c: nat)
      requires Shape() && 1 <= j <= 16 && Assigned(lens, j) && delta[j] == FirstSlot(lens, j) - First(lens, j)
      requires c == Upper(lens, j) <= Pow2(j)
      modifies maxcode
      ensures Assigned(lens, j + 1)
    {
      hide Tables.Shape, FirstSlot, First, Upper, Pow2;
      MulMono(0, c, Pow2(16 - j));
      maxcode[j] := c * Pow2(16 - j);
    }

    method CodesOfSize(ghost lens: seq<nat>, j: nat, c0: nat, k0: nat) returns (c: nat, k: nat)
      requires Shape() && Sorted(lens, 16) && Sized(lens) && 1 <= j <= 16
      requires c0 == First(lens, j) && k0 == FirstSlot(lens, j) && Coded(lens, k0)
      modifies code
      ensures c == Upper(lens, j) && k == FirstSlot(lens, j + 1) && Coded(lens, k)
    {
      c, k := c0, k0;
      SortedRun(lens, j, k, 16);
      while size[k] == j
        invariant k0 <= k <= FirstSlot(lens, j + 1) <= |lens| && c - c0 == k - k0 && Coded(lens, k)
        decreases |lens| - k
      {
        SortedRun(lens, j, k, 16);
        SortedSlot(lens, k, 16);
        code[k] := c % 0x1_0000;
        c, k := c + 1, k + 1;
      }
      SortedRun(lens, j, k, 16);
    }

    /** The first n symbols' codes of at most FAST_BITS bits are in the fast table. */
    ghost predicate FastTable(lens: seq<nat>, n: nat)
      requires Shape() && n <= |lens| <= 256
      reads fast
    {
      && (forall i, x | 0 <= i < n && 0 <= x < 512 :: FastHit(lens, i, x) ==> fast[x] == i)
      && (forall x | 0 <= x < 512 :: fast[x] != 255 ==> fast[x] < n && FastHit(lens, fast[x], x))
    }

    /** Lines 2034-2044. */
    method FillFast(ghost lens: seq<nat>, k: nat)
      requires Shape() && k == |lens| && Sorted(lens, 16) && Sized(lens) && Fits(lens, 16) && Coded(lens, k)
      modifies fast
      ensures FastTable(lens, k)
    {
      var x := 0;
      while x < 512
        invariant 0 <= x <= 512 && forall y | 0 <= y < x :: fast[y] == 255
      {
        fast[x] := 255;
        x := x + 1;
      }
      var i := 0;
      while i < k
        invariant 0 <= i <= k && FastTable(lens, i)
      {
        var s := size[i];
        if s <= FAST_BITS {
          EnterFast(lens, i, s);
        }
        i := i + 1;
      }
    }

    method EnterFast(ghost lens: seq<nat>, i: byte, s: nat)
      requires Shape() && i < |lens| && Sorted(lens, 16) && Fits(lens, 16) && Coded(lens, |lens|)
      requires s == lens[i] <= FAST_BITS && FastTable(lens, i)
      modifies fast
      ensures FastTable(lens, i + 1)
    {
      CodeIsExact(lens, i);
      CodeRun(lens, i);
      var c, m := code[i] * Pow2(FAST_BITS - s), Pow2(FAST_BITS - s);
      ghost var before := fast[..];
      var j := 0;
      while j < m
        invariant 0 <= j <= m
        invariant forall x | 0 <= x < 512 :: fast[x] == if c <= x < c + j then i else before[x]
      {
        fast[c + j] := i;
        j := j + 1;
      }
      forall x | 0 <= x < 512 ensures fast[x] == if FastHit(lens, i, x) then i else before[x] {
        FastHitRun(lens, i, x);
      }
      forall h, x | 0 <= h < i && 0 <= x < 512 && FastHit(lens, h, x) ensures fast[x] == h {
        if FastHit(lens, i, x) { FastHitUnique(lens, h, i, x); }
      }
    }

    lemma FilledIsBuilt(lens: seq<nat>)
      requires Shape() && Sorted(lens, 16) && Sized(lens) && Fits(lens, 16) && maxcode[17] == 0xffff_ffff
      requires Assigned(lens, 17) && Coded(lens, |lens|) && FastTable(lens, |lens|)
      ensures Contents(lens).Built()
    {
      forall i | 0 <= i < |lens| ensures code[i] == Code(lens, i) {
        CodeIsExact(lens, i);
      }
    }
  }

  lemma AllSlots(lens: seq<nat>)
    requires Sorted(lens, 16)
    ensures FirstSlot(lens, 17) == |lens|
  {
    FirstSlotIsBelow(lens, 16);
    BelowAndRank(lens, |lens|, 16);
  }

  /** No code of an accepted table is cut off. */
  lemma CodeIsExact(lens: seq<nat>, i: nat)
    requires i < |lens| && Sorted(lens, 16) && Fits(lens, 16)
    ensures Code(lens, i) % 0x1_0000 == Code(lens, i) < Pow2(lens[i])
  {
    CodeBounds(lens, i);
    Pow2Mono(lens[i], 16);
    Pow2Values();
  }

  lemma CodeRun(lens: seq<nat>, i: nat)
    requires i < |lens| && 0 < lens[i] <= FAST_BITS && Code(lens, i) < Pow2(lens[i])
    ensures 0 <= Code(lens, i) * Pow2(FAST_BITS - lens[i])
    ensures Code(lens, i) * Pow2(FAST_BITS - lens[i]) + Pow2(FAST_BITS - lens[i]) <= 512
  {
    Pow2Add(lens[i], FAST_BITS - lens[i]);
    Pow2Values();
    MulMono(Code(lens, i) + 1, Pow2(lens[i]), Pow2(FAST_BITS - lens[i]));
    MulAdd(Code(lens, i), 1, Pow2(FAST_BITS - lens[i]));
    MulMono(0, Code(lens, i), Pow2(FAST_BITS - lens[i]));
  }

  lemma {:induction false} SizeListGrows(count: seq<nat>, i: nat, n: nat)
    requires i <= n <= |count|
    ensures |SizeList(count, i)| <= |SizeList(count, n)|
    decreases n
  {
    if i >= n {
    } else {
      SizeListGrows(count, i, n - 1);
    }
  }

  /** stbi__build_huffman into a fresh table. */
  method BuildHuffman(count: seq<nat>) returns (ok: bool, t: Tables)
    requires |count| == 16
    ensures ok <==> |SizeList(count, 16)| <= 256 && Fits(SizeList(count, 16), 16)
    ensures ok ==> t.Built() && t.lens == SizeList(count, 16)
  {
    var store := new Store();
    ok := store.Build(count);
    t := store.Contents(SizeList(count, 16));
  }

  // ---------------------------------------------------------------- a table with the reserved symbol

  lemma {:induction false} RankConcat(a: seq<nat>, b: seq<nat>, n: nat, l: nat)
    requires n <= |b|
    ensures Rank(a + b, |a| + n, l) == Rank(a, |a|, l) + Rank(b, n, l)
    decreases n
  {
    if n > 0 {
      RankConcat(a, b, n - 1, l);
    } else {
      RankPrefix(a, b, |a|, l);
    }
  }

  lemma {:induction false} RankPrefix(a: seq<nat>, b: seq<nat>, n: nat, l: nat)
    requires n <= |a|
    ensures Rank(a + b, n, l) == Rank(a, n, l)
    decreases n
  {
    if n == 0 {
    } else {
      RankPrefix(a, b, n - 1, l);
    }
  }

  lemma {:induction false} RankRepeat(x: nat, k: nat, n: nat, l: nat)
    requires n <= k
    ensures Rank(seq(k, i => x), n, l) == if l == x then n else 0
    decreases n
  {
    if n == 0 {
    } else {
      RankRepeat(x, k, n - 1, l);
    }
  }

  /** The size list has the given number of symbols of each size. */
  lemma {:induction false} CountOfSizes(count: seq<nat>, n: nat, l: nat)
    requires n <= |count|
    ensures var lens := SizeList(count, n); Rank(lens, |lens|, l) == if 1 <= l <= n then count[l - 1] else 0
    decreases n
  {
    if n == 0 {
    } else {
      var a, b := SizeList(count, n - 1), seq(count[n - 1], i => n);
      CountOfSizes(count, n - 1, l);
      RankConcat(a, b, |b|, l);
      RankRepeat(n, count[n - 1], count[n - 1], l);
    }
  }

  /** 256 symbols, one of 8 bits and the rest of 9: a table that is accepted and has the reserved
      symbol in its fast part. */
  lemma ReservedExample(count: seq<nat>)
    requires |count| == 16 && forall i | 0 <= i < 16 :: count[i] == if i == 7 then 1 else if i == 8 then 255 else 0
    ensures |SizeList(count, |count|)| == 256 && Fits(SizeList(count, |count|), 16)
    ensures SizeList(count, |count|)[255] <= FAST_BITS
  {
    var lens := SizeList(count, |count|);
    SizeListSorted(count, |count|);
    forall l: nat ensures Count(lens, l) == if l == 8 then 1 else if l == 9 then 255 else 0 {
      CountOfSizes(count, |count|, l);
    }
    forall l | 1 <= l <= 16 ensures Upper(lens, l) <= Pow2(l) {
      UpperOfExample(lens, l);
    }
    AllSlots(lens);
    FirstSlotOfExample(lens, 17);
    FirstSlotOfExample(lens, 9);
    FirstSlotOfExample(lens, 10);
    SortedRun(lens, 9, 255, 16);
  }

  lemma {:induction false} UpperOfExample(lens: seq<nat>, l: nat)
    requires forall l: nat :: Count(lens, l) == if l == 8 then 1 else if l == 9 then 255 else 0
    ensures Upper(lens, l) <= Pow2(l) && (l < 8 ==> Upper(lens, l) == 0) && (l == 8 ==> Upper(lens, l) == 1)
    decreases l
  {
    if l == 0 {
    } else {
      UpperOfExample(lens, l - 1);
      Pow2Values();
    }
  }

  lemma {:induction false} FirstSlotOfExample(lens: seq<nat>, l: nat)
    requires forall l: nat :: Count(lens, l) == if l == 8 then 1 else if l == 9 then 255 else 0
    ensures FirstSlot(lens, l) == if l <= 8 then 0 else if l == 9 then 1 else 256
    decreases l
  {
    if l <= 1 {
    } else {
      FirstSlotOfExample(lens, l - 1);
    }
  }
}
