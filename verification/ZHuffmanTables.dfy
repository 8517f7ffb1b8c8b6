/** The zlib decoder's Huffman tables (stbi__zhuffman): stbi__zbuild_huffman and the two
    look-ups, against canonical decoding. */
module ZHuffmanTables {
  import opened Bits
  import opened Canonical
  import opened Reversal

  const ZFAST_BITS: nat := 9
  const ZNSYMS: nat := 288

  /** The fast table's slot x belongs to symbol i. */
  ghost predicate FastHit(lens: seq<nat>, i: nat, x: nat)
    requires i < |lens|
  {
    0 < lens[i] <= ZFAST_BITS && Top(x, lens[i]) == Code(lens, i)
  }

  lemma FirstFits16(lens: seq<nat>, i: nat)
    requires Lengths(lens) && 1 <= i < 16 && forall l | 1 <= l < i :: Upper(lens, l) <= Pow2(l)
    ensures First(lens, i) <= Pow2(i) <= 32768 && FirstSlot(lens, i) <= 288
  {
    Pow2Values();
    Pow2Mono(i, 15);
    FirstSlotIsBelow(lens, i);
    if i > 1 {
      assert Upper(lens, i - 1) <= Pow2(i - 1);
    }
  }

  /** Two symbols never claim the same fast slot. */
  lemma FastHitUnique(lens: seq<nat>, i: nat, j: nat, x: nat)
    requires i < |lens| && j < |lens| && FastHit(lens, i, x) && FastHit(lens, j, x)
    ensures i == j
  {
    PrefixFree(lens, Prefixes(x), i, j);
  }

  /** A fast slot is a code's reversed bits in its low end. */
  lemma FastHitResidue(lens: seq<nat>, i: nat, x: nat)
    requires i < |lens| && 0 < lens[i] <= ZFAST_BITS && Code(lens, i) < Pow2(lens[i])
    ensures FastHit(lens, i, x) <==> x % Pow2(lens[i]) == Top(Code(lens, i), lens[i])
  {
    var s := lens[i];
    TopMod(x, s, s);
    DivModDef(x, Pow2(s));
    TopTop(x % Pow2(s), s);
    TopTop(Code(lens, i), s);
  }

  /** The next slot with the same low bits is d further on. */
  lemma {:induction false} NextSlot(j: nat, x: nat, d: nat)
    requires d > 0 && j < x < j + d
    ensures Residue(x, d) != Residue(j, d)
  {
    if j < d {
    } else {
      NextSlot(j - d, x - d, d);
    }
  }

  lemma SlotsBetween(j: nat, d: nat)
    requires d > 0
    ensures Residue(j + d, d) == Residue(j, d)
    ensures forall x | j < x < j + d :: Residue(x, d) != Residue(j, d)
  {
    forall x | j < x < j + d ensures Residue(x, d) != Residue(j, d) {
      NextSlot(j, x, d);
    }
  }

  lemma SlotsBelow(j: nat, d: nat)
    requires j < d
    ensures Residue(j, d) == j && forall x | 0 <= x < j :: Residue(x, d) != j
  {
  }

  /** The contents of a stbi__zhuffman, with the code lengths they came from. */
  datatype Tables = Tables(fast: seq<u16>, firstcode: seq<u16>, maxcode: seq<int>,
                           firstsymbol: seq<u16>, size: seq<byte>, value: seq<u16>, lens: seq<nat>)
  {
    ghost predicate Shape()
    {
      && |fast| == 512 && |firstcode| == 16 && |maxcode| == 17
      && |firstsymbol| == 16 && |size| == |value| == ZNSYMS
    }

    /** The tables hold the canonical code of the lengths: every per-length entry, every used
        symbol in the list sorted by length, and in the fast table exactly the codes of at most
        ZFAST_BITS bits. */
    ghost predicate Built()
    {
      && Shape() && Lengths(lens) && Fits(lens, 15) && maxcode[16] == 0x10000
      && (forall l | 1 <= l < 16 ::
            && firstcode[l] == First(lens, l)
            && firstsymbol[l] == FirstSlot(lens, l)
            && maxcode[l] == Shl(Upper(lens, l), 16 - l))
      && (forall i | 0 <= i < |lens| && lens[i] > 0 ::
            Slot(lens, i) < ZNSYMS && size[Slot(lens, i)] == lens[i] && value[Slot(lens, i)] == i)
      && (forall i, x | 0 <= i < |lens| && 0 <= x < 512 ::
            FastHit(lens, i, x) ==> fast[x] == lens[i] * 512 + i)
      && (forall x | 0 <= x < 512 ::
            fast[x] != 0 ==> fast[x] % 512 < |lens| && FastHit(lens, fast[x] % 512, x))
    }

    /** Lines 4263-4270, without the shifts: fast table, else slow path. */
    method LookUp(v: nat) returns (sym: int, s: nat)
      requires Built()
      ensures sym >= -1 && (sym == -1 <==> Decode(lens, Prefixes(v)) == None)
      ensures sym >= 0 ==> sym < |lens| && Decode(lens, Prefixes(v)) == Some(sym) && s == lens[sym]
    {
      var b := fast[v % 512];
      if b != 0 {
        FastMatch(v);
        s, sym := b / 512, b % 512;
      } else {
        sym, s := SlowLookUp(v);
      }
    }

    /** stbi__zhuffman_decode_slowpath on the bit buffer v, without the shifts: the size-and-symbol
        checks of lines 4236-4237 reject nothing. */
    method SlowLookUp(v: nat) returns (sym: int, s: nat)
      requires Built() && fast[v % 512] == 0
      ensures sym == -1 <==> Decode(lens, Prefixes(v)) == None
      ensures sym >= 0 ==> sym < |lens| && Decode(lens, Prefixes(v)) == Some(sym) && s == lens[sym]
      ensures sym >= -1
    {
      var k := BitReverse(v, 16);
      BitReverseCorrect(v, 16);
      Pow2Values();
      s := SlowLength(k);
      if s >= 16 {
        AboveIsNone(v);
        return -1, s;
      }
      ghost var i := SlowMatch(v, s);
      SlowSlot(v, s, i);
      var b := Shr(k, 16 - s) - firstcode[s] + firstsymbol[s];
      if b >= ZNSYMS { return -1, s; }
      if size[b] != s { return -1, s; }
      sym := value[b];
    }

    lemma SlowSlot(v: nat, s: nat, i: nat)
      requires Built() && 10 <= s <= 15 && Matches(lens, Prefixes(v), i) && lens[i] == s
      requires Rank(lens, i, s) == Top(v, s) - First(lens, s)
      ensures Shr(Top(v, 16), 16 - s) - firstcode[s] + firstsymbol[s] == Slot(lens, i)
    {
      TopShr(v, 16, 16 - s);
    }

    /** The unbounded loop of lines 4230-4232 stops at the sentinel at the latest. */
    method SlowLength(k: nat) returns (s: nat)
      requires Shape() && maxcode[16] == 0x10000 && k < 0x10000
      ensures 10 <= s <= 16 && k < maxcode[s] && forall l | 10 <= l < s :: k >= maxcode[l]
    {
      s := ZFAST_BITS + 1;
      while k >= maxcode[s]
        invariant 10 <= s <= 16
        invariant forall l | 10 <= l < s :: k >= maxcode[l]
        decreases 16 - s
      {
        s := s + 1;
      }
    }

    lemma AboveIsNone(v: nat)
      requires Built() && Top(v, 16) >= maxcode[15]
      ensures Decode(lens, Prefixes(v)) == None
    {
      CompareAt(v, 15);
      DecodeNone(lens, Prefixes(v));
    }

    /** Comparing with the preshifted maxcode compares the l-bit prefix with Upper. */
    lemma CompareAt(v: nat, l: nat)
      requires Built() && 1 <= l <= 15
      ensures Top(v, 16) < maxcode[l] <==> Prefixes(v)[l] < Upper(lens, l)
    {
      TopShr(v, 16, 16 - l);
      ShrIsDiv(Top(v, 16), 16 - l);
      ShlIsMul(Upper(lens, l), 16 - l);
      ShiftCompare(Top(v, 16), Pow2(16 - l), Upper(lens, l));
    }

    /** Preshifted ends never decrease, up to the sentinel. */
    lemma MaxcodeMonotone(l: nat)
      requires Built() && 1 <= l <= 15
      ensures maxcode[l] <= maxcode[l + 1]
    {
      var u, d := Upper(lens, l), Pow2(16 - (l + 1));
      ShlIsMul(u, 16 - l);
      assert Pow2(16 - l) == 2 * d;
      MulAssoc(u, 2, d);
      MulAssoc(2, u, d);
      if l < 15 {
        ShlIsMul(Upper(lens, l + 1), 16 - (l + 1));
        MulMono(2 * u, Upper(lens, l + 1), d);
      } else {
        Pow2Values();
      }
    }

    lemma SlowMatch(v: nat, s: nat) returns (i: nat)
      requires Built() && fast[v % 512] == 0 && 10 <= s <= 15
      requires Top(v, 16) < maxcode[s]
      requires forall l | 10 <= l < s :: Top(v, 16) >= maxcode[l]
      ensures Matches(lens, Prefixes(v), i) && lens[i] == s
      ensures Rank(lens, i, s) == Top(v, s) - First(lens, s)
      ensures Decode(lens, Prefixes(v)) == Some(i)
      ensures Slot(lens, i) < ZNSYMS && size[Slot(lens, i)] == s && value[Slot(lens, i)] == i
    {
      var p := Prefixes(v);
      CompareAt(v, s);
      i := UpperMatch(lens, p, s);
      if lens[i] < s {
        MatchUpper(lens, p, i, s - 1);
        if s > 10 {
          CompareAt(v, s - 1);
        } else {
          Pow2Values();
          TopMod(v, lens[i], 9);
          assert FastHit(lens, i, v % 512);
        }
      }
      DecodeIs(lens, p, i);
    }

    /** A fast hit is the canonical symbol. */
    lemma FastMatch(v: nat)
      requires Built() && fast[v % 512] != 0
      ensures var i := fast[v % 512] % 512;
        i < |lens| && Decode(lens, Prefixes(v)) == Some(i) && fast[v % 512] / 512 == lens[i] > 0
    {
      var x := v % 512;
      var i := fast[x] % 512;
      assert FastHit(lens, i, x);
      Pow2Values();
      TopMod(v, lens[i], 9);
      DecodeIs(lens, Prefixes(v), i);
    }
  }

  lemma {:induction false} NoFirst(l: nat)
    ensures First([], l) == 0 && Upper([], l) == 0 && FirstSlot([], l) == 0
  {
    if l == 0 {
    } else {
      NoFirst(l - 1);
    }
  }

  lemma {:induction false} ShlZero(g: nat)
    ensures Shl(0, g) == 0
    decreases g
  {
    if g == 0 {
    } else {
      ShlZero(g - 1);
    }
  }

  /** Tables of the empty code. */
  function NoCodes(): (t: Tables)
    ensures t.Built() && t.lens == []
  {
    var t := Tables(seq(512, i => 0), seq(16, i => 0), seq(17, i => if i < 16 then 0 else 0x10000),
                    seq(16, i => 0), seq(ZNSYMS, i => 0), seq(ZNSYMS, i => 0), []);
    assert t.Built() by {
      forall l: nat ensures First([], l) == 0 && Upper([], l) == 0 && FirstSlot([], l) == 0 {
        NoFirst(l);
      }
      forall g: nat ensures Shl(0, g) == 0 {
        ShlZero(g);
      }
    }
    t
  }

  /** Tables that hold the canonical code of their lengths. */
  type ZHuffman = t: Tables | t.Built() witness NoCodes()

  /** A stbi__zhuffman in memory while stbi__zbuild_huffman fills it in place. */
  class ZHuffmanStore {
    const fast: array<u16>
    const firstcode: array<u16>
    const maxcode: array<int>
    const firstsymbol: array<u16>
    const size: array<byte>
    const value: array<u16>
    const nextCode: array<int>   // the builder's local next_code
    const sizes: array<int>      // the builder's local sizes

    constructor ()
      ensures Shape()
      ensures fresh(Repr())
    {
      fast := new u16[512](_ => 0);
      firstcode := new u16[16](_ => 0);
      maxcode := new int[17](_ => 0);
      firstsymbol := new u16[16](_ => 0);
      size := new byte[ZNSYMS](_ => 0);
      value := new u16[ZNSYMS](_ => 0);
      nextCode := new int[16](_ => 0);
      sizes := new int[17](_ => 0);
    }

    ghost function Repr(): set<object>
    {
      {fast as object, firstcode as object, maxcode as object, firstsymbol as object,
       size as object, value as object, nextCode as object, sizes as object}
    }

    ghost predicate Shape()
    {
      && fast.Length == 512 && firstcode.Length == 16 && maxcode.Length == 17
      && firstsymbol.Length == 16 && size.Length == ZNSYMS && value.Length == ZNSYMS
      && nextCode.Length == 16 && sizes.Length == 17
      && fast != firstcode && fast != firstsymbol && fast != value
      && firstcode != firstsymbol && firstcode != value && firstsymbol != value
      && maxcode != nextCode && maxcode != sizes && nextCode != sizes
    }

    /** The per-length tables describe the canonical code. */
    ghost predicate LengthTables(lens: seq<nat>, n: nat)
      requires Shape() && n <= 16
      reads firstcode, maxcode, firstsymbol
    {
      forall l | 1 <= l < n ::
        && firstcode[l] == First(lens, l)
        && firstsymbol[l] == FirstSlot(lens, l)
        && maxcode[l] == Shl(Upper(lens, l), 16 - l)
    }

    /** The first n symbols are in the list sorted by length. */
    ghost predicate SymbolTables(lens: seq<nat>, n: nat)
      requires Shape() && n <= |lens| <= ZNSYMS
      reads size, value
    {
      forall i | 0 <= i < n && lens[i] > 0 ::
        Slot(lens, i) < ZNSYMS && size[Slot(lens, i)] == lens[i] && value[Slot(lens, i)] == i
    }

    /** The fast table knows exactly the first n symbols' codes of at most ZFAST_BITS bits. */
    ghost predicate FastTable(lens: seq<nat>, n: nat)
      requires Shape() && n <= |lens| <= ZNSYMS
      reads fast
    {
      && (forall i, x | 0 <= i < n && 0 <= x < 512 ::
            FastHit(lens, i, x) ==> fast[x] == lens[i] * 512 + i)
      && (forall x | 0 <= x < 512 ::
            fast[x] != 0 ==> fast[x] % 512 < n && FastHit(lens, fast[x] % 512, x))
    }

    ghost predicate Filled(lens: seq<nat>)
      reads Repr()
    {
      && Shape() && Lengths(lens) && Fits(lens, 15)
      && LengthTables(lens, 16) && maxcode[16] == 0x10000
      && SymbolTables(lens, |lens|) && FastTable(lens, |lens|)
    }

    /** The struct's value. */
    function Contents(lens: seq<nat>): Tables
      reads Repr()
    {
      Tables(fast[..], firstcode[..], maxcode[..], firstsymbol[..], size[..], value[..], lens)
    }

    lemma FilledIsBuilt(lens: seq<nat>)
      requires Filled(lens)
      ensures Contents(lens).Built()
    {
    }

    /** stbi__zbuild_huffman: fails exactly when the lengths are over-subscribed, and otherwise
        leaves their canonical code in the tables. */
    method Build(sizelist: seq<nat>) returns (ok: bool)
      requires Shape() && Lengths(sizelist)
      modifies Repr()
      ensures ok <==> Fits(sizelist, 15)
      ensures ok ==> Contents(sizelist).Built()
    {
      Tally(sizelist);
      ok := AssignCodes(sizelist);
      if ok {
        FillTables(sizelist);
        FilledIsBuilt(sizelist);
      }
    }

    /** Lines 4129-4134: clear the tables and count how many codes have each length. */
    method Tally(lens: seq<nat>)
      requires Shape() && Lengths(lens)
      modifies sizes, fast
      ensures sizes[0] == 0 && forall l | 1 <= l < 16 :: sizes[l] == Count(lens, l)
      ensures forall x | 0 <= x < 512 :: fast[x] == 0
    {
      var z := 0;
      while z < 17
        invariant 0 <= z <= 17
        invariant forall l | 0 <= l < z :: sizes[l] == 0
        modifies sizes
      {
        sizes[z] := 0;
        z := z + 1;
      }
      z := 0;
      while z < 512
        invariant 0 <= z <= 512
        invariant forall x | 0 <= x < z :: fast[x] == 0
        modifies fast
      {
        fast[z] := 0;
        z := z + 1;
      }
      var i := 0;
      while i < |lens|
        invariant 0 <= i <= |lens|
        invariant forall l | 0 <= l < 17 :: sizes[l] == Rank(lens, i, l)
        modifies sizes
      {
        sizes[lens[i]] := sizes[lens[i]] + 1;
        i := i + 1;
      }
      sizes[0] := 0;
    }

    /** Everything about lengths below i is settled. */
    ghost predicate Assigned(lens: seq<nat>, i: nat)
      requires Shape() && 1 <= i <= 16
      reads firstcode, maxcode, firstsymbol, nextCode
    {
      && LengthTables(lens, i)
      && (forall l | 1 <= l < i :: Upper(lens, l) <= Pow2(l) && nextCode[l] == First(lens, l))
    }

    /** Lines 4135-4150: the first code, first symbol and end of every length. */
    method AssignCodes(ghost lens: seq<nat>) returns (ok: bool)
      requires Shape() && Lengths(lens)
      requires forall l | 1 <= l < 16 :: sizes[l] == Count(lens, l)
      modifies nextCode, firstcode, firstsymbol, maxcode
      ensures ok <==> Fits(lens, 15)
      ensures ok ==> Assigned(lens, 16) && maxcode[16] == 0x10000
    {
      hide Tables.Shape, Upper, Pow2;
      ok := CheckSizes(lens);
      if !ok { return; }
      var code, k, i := 0, 0, 1;
      while i < 16
        invariant 1 <= i <= 16 && code == First(lens, i) && k == FirstSlot(lens, i)
        invariant Assigned(lens, i)
      {
        ok, code, k := AssignLength(lens, i, code, k);
        if !ok { return; }
        i := i + 1;
      }
      maxcode[16] := 0x10000;
    }

    method AssignLength(ghost lens: seq<nat>, i: nat, code0: nat, k0: nat)
      returns (ok: bool, code: nat, k: nat)
      requires Shape() && Lengths(lens) && 1 <= i < 16 && sizes[i] == Count(lens, i)
      requires Assigned(lens, i) && code0 == First(lens, i) && k0 == FirstSlot(lens, i)
      modifies nextCode, firstcode, firstsymbol, maxcode
      ensures if ok then Assigned(lens, i + 1) else Upper(lens, i) > Pow2(i)
      ensures ok ==> code == First(lens, i + 1) && k == FirstSlot(lens, i + 1)
    {
      FirstFits16(lens, i);
      SetStart(lens, i, code0, k0);
      code, k := code0 + sizes[i], k0;
      if sizes[i] != 0 {
        if code - 1 >= Pow2(i) {
          return false, code, k;
        }
      }
      SetEnd(lens, i, code);
      ok, code, k := true, code * 2, k + sizes[i];
    }

    method CheckSizes(ghost lens: seq<nat>) returns (ok: bool)
      requires Shape() && forall l | 1 <= l < 16 :: sizes[l] == Count(lens, l)
      ensures !ok ==> !Fits(lens, 15)
    {
      var i := 1;
      while i < 16
        invariant 1 <= i <= 16
      {
        if sizes[i] > Pow2(i) {
          assert Upper(lens, i) > Pow2(i);
          return false;
        }
        i := i + 1;
      }
      ok := true;
    }

    method SetStart(ghost lens: seq<nat>, i: nat, code: u16, k: u16)
      requires Shape() && 1 <= i < 16 && Assigned(lens, i)
      requires code == First(lens, i) && k == FirstSlot(lens, i)
      modifies nextCode, firstcode, firstsymbol
      ensures Assigned(lens, i)
      ensures nextCode[i] == firstcode[i] == code && firstsymbol[i] == k
    {
      nextCode[i] := code;
      firstcode[i] := code;
      firstsymbol[i] := k;
    }

    method SetEnd(ghost lens: seq<nat>, i: nat, code: nat)
      requires Shape() && 1 <= i < 16 && Assigned(lens, i)
      requires code == Upper(lens, i) <= Pow2(i)
      requires nextCode[i] == firstcode[i] == First(lens, i) && firstsymbol[i] == FirstSlot(lens, i)
      modifies maxcode
      ensures Assigned(lens, i + 1)
    {
      maxcode[i] := Shl(code, 16 - i);
    }

    /** Lines 4151-4167: enter every symbol. */
    method FillTables(lens: seq<nat>)
      requires Shape() && Lengths(lens) && Fits(lens, 15) && Assigned(lens, 16)
      requires forall x | 0 <= x < 512 :: fast[x] == 0
      modifies size, value, fast, nextCode
      ensures SymbolTables(lens, |lens|) && FastTable(lens, |lens|)
    {
      var i := 0;
      while i < |lens|
        invariant 0 <= i <= |lens| && NextCodes(lens, i)
        invariant SymbolTables(lens, i) && FastTable(lens, i)
      {
        if lens[i] != 0 {
          Enter(lens, i);
        } else {
          SkipUnused(lens, i);
        }
        i := i + 1;
      }
    }

    /** next_code counts on from the first code as symbols are entered. */
    ghost predicate NextCodes(lens: seq<nat>, i: nat)
      requires Shape() && i <= |lens|
      reads nextCode
    {
      forall l | 1 <= l < 16 :: nextCode[l] == First(lens, l) + Rank(lens, i, l)
    }

    lemma SkipUnused(lens: seq<nat>, i: nat)
      requires Shape() && Lengths(lens) && i < |lens| && lens[i] == 0
      requires NextCodes(lens, i) && SymbolTables(lens, i) && FastTable(lens, i)
      ensures NextCodes(lens, i + 1) && SymbolTables(lens, i + 1) && FastTable(lens, i + 1)
    {
    }

    method Enter(lens: seq<nat>, i: nat)
      requires Shape() && Lengths(lens) && Fits(lens, 15) && LengthTables(lens, 16)
      requires i < |lens| && lens[i] != 0 && NextCodes(lens, i)
      requires SymbolTables(lens, i) && FastTable(lens, i)
      modifies size, value, fast, nextCode
      ensures NextCodes(lens, i + 1) && SymbolTables(lens, i + 1) && FastTable(lens, i + 1)
    {
      var s := lens[i];
      var c := nextCode[s] - firstcode[s] + firstsymbol[s];
      SlotBound(lens, i);
      EnterSymbol(lens, i, c, s);
      EnterFast(lens, i, nextCode[s], s);
      nextCode[s] := nextCode[s] + 1;
    }

    method EnterSymbol(ghost lens: seq<nat>, i: nat, c: nat, s: nat)
      requires Shape() && Lengths(lens) && i < |lens|
      requires SymbolTables(lens, i) && s == lens[i] > 0 && c == Slot(lens, i) < ZNSYMS
      modifies size, value
      ensures SymbolTables(lens, i + 1)
    {
      size[c] := s;
      value[c] := i;
      forall j | 0 <= j < i && lens[j] > 0 ensures Slot(lens, j) != c {
        if Slot(lens, j) == c { SlotInjective(lens, i, j); }
      }
    }

    method EnterFast(ghost lens: seq<nat>, i: nat, code: nat, s: nat)
      requires Shape() && Lengths(lens) && Fits(lens, 15) && i < |lens|
      requires FastTable(lens, i) && s == lens[i] > 0 && code == Code(lens, i)
      modifies fast
      ensures FastTable(lens, i + 1)
    {
      if s <= ZFAST_BITS {
        CodeBounds(lens, i);
        var fastv := s * 512 + i;
        var j := BitReverse(code, s);
        BitReverseCorrect(code, s);
        ghost var before := fast[..];
        Spread(j, s, fastv);
        forall x | 0 <= x < 512
          ensures fast[x] == if FastHit(lens, i, x) then fastv else before[x]
        {
          FastHitResidue(lens, i, x);
          ResidueIsMod(x, Pow2(s));
        }
        FastEntered(lens, i, before, fast[..]);
      }
    }

    /** The inner loop: every slot whose low s bits are j. */
    method Spread(start: nat, s: nat, fastv: u16)
      requires Shape() && 0 < s <= ZFAST_BITS && start < Pow2(s)
      modifies fast
      ensures forall x | 0 <= x < 512 ::
                fast[x] == if Residue(x, Pow2(s)) == start then fastv else old(fast[x])
    {
      var d := Pow2(s);
      var j := start;
      SlotsBelow(start, d);
      while j < 512
        invariant 0 <= j && Residue(j, d) == start
        invariant forall x | 0 <= x < 512 ::
                    fast[x] == if x < j && Residue(x, d) == start then fastv else old(fast[x])
        modifies fast
        decreases 512 - j
      {
        fast[j] := fastv;
        SlotsBetween(j, d);
        j := j + d;
      }
    }
  }

  lemma {:induction false} ShrIsDiv(v: nat, g: nat)
    ensures Shr(v, g) == v / Pow2(g)
    decreases g
  {
    if g == 0 {
    } else {
      ShrIsDiv(v / 2, g - 1);
      DivDiv(v, 2, Pow2(g - 1));
    }
  }

  lemma {:induction false} ShlIsMul(v: nat, g: nat)
    ensures Shl(v, g) == v * Pow2(g)
    decreases g
  {
    if g == 0 {
    } else {
      ShlIsMul(2 * v, g - 1);
      MulAssoc(v, 2, Pow2(g - 1));
    }
  }

  /** Entering symbol i's slots keeps the others': no slot is claimed twice. */
  lemma FastEntered(lens: seq<nat>, i: nat, before: seq<u16>, after: seq<u16>)
    requires Lengths(lens) && i < |lens| && |before| == |after| == 512
    requires forall j, x | 0 <= j < i && 0 <= x < 512 ::
               FastHit(lens, j, x) ==> before[x] == lens[j] * 512 + j
    requires forall x | 0 <= x < 512 ::
               before[x] != 0 ==> before[x] % 512 < i && FastHit(lens, before[x] % 512, x)
    requires forall x | 0 <= x < 512 ::
               after[x] == if FastHit(lens, i, x) then lens[i] * 512 + i else before[x]
    ensures forall j, x | 0 <= j < i + 1 && 0 <= x < 512 ::
              FastHit(lens, j, x) ==> after[x] == lens[j] * 512 + j
    ensures forall x | 0 <= x < 512 ::
              after[x] != 0 ==> after[x] % 512 < i + 1 && FastHit(lens, after[x] % 512, x)
  {
    forall j, x | 0 <= j < i + 1 && 0 <= x < 512 && FastHit(lens, j, x)
      ensures after[x] == lens[j] * 512 + j
    {
      if j < i && FastHit(lens, i, x) {
        FastHitUnique(lens, i, j, x);
      }
    }
  }

  /** stbi__zbuild_huffman into a fresh table. */
  method BuildHuffman(sizelist: seq<nat>) returns (ok: bool, z: ZHuffman)
    requires Lengths(sizelist)
    ensures ok <==> Codable(sizelist)
    ensures ok <==> Kraft(sizelist, |sizelist|, 15) <= Pow2(15)
    ensures ok ==> z.lens == sizelist
  {
    FitsIffKraft(sizelist, 15);
    z := NoCodes();
    var store := new ZHuffmanStore();
    ok := store.Build(sizelist);
    if ok {
      z := store.Contents(sizelist);
    }
  }
}
