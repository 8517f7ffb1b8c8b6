/** Reading coefficients: stbi__jpeg_huff_decode and stbi__extend_receive on the bit buffer, and the
    combined entries of stbi__build_fast_ac, which must give the same run, value and length. */
module JpegFastAc {
  import opened Bits
  import opened Canonical
  import opened JpegHuffman
  import opened JpegBits

  // ---------------------------------------------------------------- shifts of a 32-bit buffer

  /** The buffer after its first n bits. */
  function Drop(v: nat, n: nat): (r: nat)
    ensures r < Pow2(32)
  {
    DivModDef(v * Pow2(n), Pow2(32));
    (v * Pow2(n)) % Pow2(32)
  }

  lemma DropTwice(v: nat, a: nat, b: nat)
    requires a + b <= 32
    ensures Drop(Drop(v, a), b) == Drop(v, a + b)
  {
    ShlMod(v, a, 32 - a);
    var x := v % Pow2(32 - a);
    DivModDef(v, Pow2(32 - a));
    MulMono(0, x, Pow2(a));
    MulAssoc(x, Pow2(a), Pow2(b));
    Pow2Add(a, b);
    ShlMod(x, a + b, 32 - a - b);
    ShlMod(v, a + b, 32 - a - b);
    ModMod(v, 32 - a - b, a + b - a);
  }

  // ---------------------------------------------------------------- receive and extend

  /** EXTEND of section F.2.2.1 of ITU-T T.81: n bits below 2^(n-1) stand for negative values. */
  function Extend(x: nat, n: nat): int
  {
    if n > 0 && x < Pow2(n - 1) then x - Pow2(n) + 1 else x
  }

  /** The n bits that are sent for a value (table F.1 of ITU-T T.81): the value itself, or for a negative one all bits of
      its size turned over. */
  ghost function Sent(v: int, n: nat): int
  {
    if v < 0 then Pow2(n) - 1 + v else v
  }

  /** EXTEND gives back every value of n bits, and each comes from one bit pattern. */
  lemma ExtendSent(v: int, n: nat)
    requires if v < 0 then Pow2(n) > -v && 2 * -v >= Pow2(n) else Pow2(n) > v && 2 * v >= Pow2(n)
    ensures 0 <= Sent(v, n) < Pow2(n) && Extend(Sent(v, n), n) == v
  {
  }

  lemma SentExtend(x: nat, n: nat)
    requires x < Pow2(n)
    ensures Sent(Extend(x, n), n) == x
  {
  }

  const JBIAS: seq<int> := [0,-1,-3,-7,-15,-31,-63,-127,-255,-511,-1023,-2047,-4095,-8191,-16383,-32767]

  lemma Bias(n: nat)
    requires n < 16
    ensures JBIAS[n] == 1 - Pow2(n)
  {
    Pow2Values();
  }

  /** The first bit of a buffer says whether its first n bits are at least 2^(n-1). */
  lemma SignBit(v: nat, n: nat)
    requires v < Pow2(32) && 0 < n <= 32
    ensures Head(v, 1) <= 1 && (Head(v, 1) == 0 <==> Head(v, n) < Pow2(n - 1))
  {
    HeadHead(v, n, 1);
    ShiftCompare(Head(v, n), Pow2(n - 1), 1);
    Pow2Add(1, 31);
    ShiftCompare(v, Pow2(31), 2);
  }

  /** Rotating left by n puts the first n bits at the low end of the rest. */
  lemma Rotated(v: nat, n: nat)
    requires v < Pow2(32) && n <= 32
    ensures var k := Drop(v, n) + Head(v, n); k % Pow2(n) == Head(v, n) && k - k % Pow2(n) == Drop(v, n)
  {
    var x := v % Pow2(32 - n);
    ShlMod(v, n, 32 - n);
    Pow2Add(n, 32 - n);
    ShiftCompare(v, Pow2(32 - n), Pow2(n));
    DivMod(x * Pow2(n) + Head(v, n), Pow2(n), x, Head(v, n));
  }

  /** Canonical decoding of a buffer with a number of valid bits: the value of the symbol whose code comes
      first, or -1 if there is none or it is longer than the valid bits; and what is left. */
  ghost function PlainDecode(t: Tables, values: seq<byte>, buffer: nat, bits: int): (int, nat, int)
    requires t.Built() && |values| == 256 && buffer < Pow2(32)
  {
    match Decode(t.lens, HeadPrefixes(buffer))
    case None => (-1, buffer, bits - 16)
    case Some(i) =>
      if i >= |t.lens| || t.lens[i] > bits then (-1, buffer, bits)
      else (values[i], Drop(buffer, t.lens[i]), bits - t.lens[i])
  }

  lemma DecodesPlainly(t: Tables, values: seq<byte>, buffer: nat, bits: int, sym: int, s: nat)
    requires t.Built() && |values| == 256 && buffer < Pow2(32) && -1 <= sym < 256
    requires t.Agrees(Decode(t.lens, HeadPrefixes(buffer)), sym, s)
    ensures sym < 0 ==> PlainDecode(t, values, buffer, bits) == (-1, buffer, bits - 16) && s == 17
    ensures sym >= 0 && s > bits ==> PlainDecode(t, values, buffer, bits) == (-1, buffer, bits)
    ensures sym >= 0 && s <= bits ==> PlainDecode(t, values, buffer, bits) == (values[sym] as int, Drop(buffer, s), bits - s)
  {
    hide Tables.Built, Pow2, Decode, HeadPrefixes, Drop, Val;
  }

  /** What a buffer decodes to.  Where it starts with the symbol that the fast table has no number for, ten bits are taken
      and some other symbol comes out. */
  ghost function Decoded(t: Tables, values: seq<byte>, buffer: nat, bits: int): (int, nat, int)
    requires t.Built() && |values| == 256 && buffer < Pow2(32)
  {
    if t.Clear(buffer) then PlainDecode(t, values, buffer, bits)
    else
      var sym := t.Misread(buffer);
      if sym < 0 || bits < 10 then (-1, buffer, bits) else (values[sym] as int, Drop(buffer, 10), bits - 10)
  }

  /** A buffer that starts with the code of symbol i gives its value, and the bits after the code move up. */
  lemma DecodedIs(t: Tables, values: seq<byte>, buffer: nat, bits: int, i: nat)
    requires t.Built() && |values| == 256 && buffer < Pow2(32) && t.Clear(buffer)
    requires i < |t.lens| && buffer / Pow2(32 - t.lens[i]) == Code(t.lens, i)
    ensures Decoded(t, values, buffer, bits) ==
            if t.lens[i] <= bits then (values[i] as int, (buffer * Pow2(t.lens[i])) % Pow2(32), bits - t.lens[i])
            else (-1, buffer, bits)
  {
    hide Pow2, Decode, Tables.Clear, Fits, Code;
    DecodeIs(t.lens, HeadPrefixes(buffer), i);
  }

  /** And one that starts with no code gives none. */
  lemma DecodedNone(t: Tables, values: seq<byte>, buffer: nat, bits: int)
    requires t.Built() && |values| == 256 && buffer < Pow2(32) && t.Clear(buffer)
    requires forall i | 0 <= i < |t.lens| :: buffer / Pow2(32 - t.lens[i]) != Code(t.lens, i)
    ensures Decoded(t, values, buffer, bits) == (-1, buffer, bits - 16)
  {
    hide Pow2, Tables.Clear, Fits, Code;
  }

  /** A buffer that starts with the reserved symbol: the value is that of the ten-bit number counted back from the first
      code of ten bits, if there is such a symbol and there are ten bits. */
  lemma DecodedReserved(t: Tables, values: seq<byte>, buffer: nat, bits: int)
    requires t.Built() && |values| == 256 && buffer < Pow2(32)
    requires |t.lens| == 256 && t.lens[255] <= 9 && buffer / Pow2(32 - t.lens[255]) == Code(t.lens, 255)
    ensures var sym := buffer / Pow2(22) + 256 - First(t.lens, 10);
      Decoded(t, values, buffer, bits) ==
      if 0 <= sym < 256 && bits >= 10 then (values[sym] as int, (buffer * Pow2(10)) % Pow2(32), bits - 10) else (-1, buffer, bits)
  {
    hide Pow2, Fits, Code, PlainDecode, First;
    HeadHead(buffer, 9, t.lens[255]);
    assert Head(buffer, t.lens[255]) == buffer / Pow2(32 - t.lens[255]);
    assert !t.Clear(buffer);
    assert Head(buffer, 10) == buffer / Pow2(22);
  }

  /** Dropping valid bits leaves a buffer with the rest on top. */
  lemma DropGood(code: nat, bits: nat, s: nat)
    requires Good(Buffer(code, bits)) && s <= bits
    ensures Good(Buffer(Drop(code, s), bits - s))
  {
    hide Pow2, Val;
    var x, d := code % Pow2(32 - s), Pow2(32 - bits);
    ShlMod(code, s, 32 - s);
    DivModDef(code, Pow2(32 - s));
    ModMod(code, 32 - bits, bits - s);
    DivModDef(x, d);
    var q := x / d;
    DivNat(x, d);
    MulAssoc(q, d, Pow2(s));
    Pow2Add(32 - bits, s);
    DivMod(x * Pow2(s), Pow2(32 - (bits - s)), q, 0);
  }

  /** b0 with at least `need` valid bits, if the scan at p has them: whole data bytes are added when there are fewer. */
  ghost predicate ToppedUp(s: seq<byte>, p: nat, ended: bool, b0: Buffer, need: nat, n: nat, b: Buffer)
  {
    if b0.bits < need then Filled(s, p, ended, b0, n, b) else n == 0 && b == b0
  }

  method TopUp(j: Reader, need: nat) returns (ghost n: nat)
    requires j.Valid() && need <= 16
    modifies j
    ensures j.Valid() && ToppedUp(j.input, old(j.pos), old(j.nomore), old(j.View()), need, n, j.View())
    ensures SameScan(j.input, old(j.pos), old(j.nomore), n, j.pos, j.nomore)
    ensures j.codeBits < need ==> j.nomore && !old(j.nomore)
  {
    hide Filled, SameScan;
    n := 0;
    if j.codeBits < need {
      n := j.GrowBuffer();
    } else {
      SameScanStart(j.input, j.pos, j.nomore);
    }
  }

  /** stbi__jpeg_huff_decode: what the buffer decodes to once it is topped up to 16 bits. */
  method HuffDecode(j: Reader, t: Tables, values: seq<byte>) returns (v: int, ghost n: nat, ghost b: Buffer)
    requires j.Valid() && t.Built() && |values| == 256
    modifies j
    ensures Good(b) && ToppedUp(j.input, old(j.pos), old(j.nomore), old(j.View()), 16, n, b)
    ensures SameScan(j.input, old(j.pos), old(j.nomore), n, j.pos, j.nomore)
    ensures b.bits < 16 ==> j.nomore && !old(j.nomore)
    ensures (v, j.codeBuffer, j.codeBits) == Decoded(t, values, b.code, b.bits) && (v >= 0 ==> j.Valid())
  {
    hide ToppedUp, SameScan, Filled;
    n := TopUp(j, 16);
    b := j.View();
    v := TakeSymbol(j, t, values);
  }

  method TakeSymbol(j: Reader, t: Tables, values: seq<byte>) returns (v: int)
    requires j.Valid() && t.Built() && |values| == 256
    modifies j`codeBuffer, j`codeBits
    ensures (v, j.codeBuffer, j.codeBits) == Decoded(t, values, old(j.codeBuffer), old(j.codeBits)) && (v >= 0 ==> j.Valid())
  {
    hide Tables.Built, Tables.Clear, Drop, Pow2, Tables.Agrees, Decode, Tables.Misread;
    hide PlainDecode;
    var sym, s := t.LookUp(j.codeBuffer);
    if t.Clear(j.codeBuffer) {
      DecodesPlainly(t, values, j.codeBuffer, j.codeBits, sym, s);
    }
    if sym < 0 {
      if s == 17 { j.codeBits := j.codeBits - 16; }
      return -1;
    }
    if s > j.codeBits { return -1; }
    DropGood(j.codeBuffer, j.codeBits, s);
    j.codeBits := j.codeBits - s;
    j.codeBuffer := Drop(j.codeBuffer, s);
    v := values[sym];
  }

  /** stbi__extend_receive: the next m bits of the topped-up buffer, extended; nothing is taken if there are too few. */
  method ExtendReceive(j: Reader, m: nat) returns (r: int, ghost n: nat, ghost b: Buffer)
    requires j.Valid() && m < 16
    modifies j
    ensures j.Valid() && Good(b) && ToppedUp(j.input, old(j.pos), old(j.nomore), old(j.View()), m, n, b)
    ensures SameScan(j.input, old(j.pos), old(j.nomore), n, j.pos, j.nomore)
    ensures b.bits < m ==> j.nomore && !old(j.nomore)
    ensures b.bits < m ==> r == 0 && j.View() == b
    ensures b.bits >= m ==> r == Extend(Head(b.code, m), m) && j.View() == Buffer(Drop(b.code, m), b.bits - m)
  {
    hide ToppedUp, SameScan, Filled;
    n := TopUp(j, m);
    b := j.View();
    if j.codeBits < m { return 0, n, b; }
    r := TakeBits(j, m);
  }

  /** Lines 2160-2165: rotate, split off the low bits, and add the bias unless the first bit is set. */
  method TakeBits(j: Reader, m: nat) returns (r: int)
    requires j.Valid() && m < 16 && m <= j.codeBits
    modifies j`codeBuffer, j`codeBits
    ensures j.Valid() && j.View() == Buffer(Drop(old(j.codeBuffer), m), old(j.codeBits) - m)
    ensures r == Extend(Head(old(j.codeBuffer), m), m)
  {
    hide Drop, Head, Pow2, Low, Val, Shr;
    var v := j.codeBuffer;
    var sgn := Head(v, 1);
    var k := Drop(v, m) + Head(v, m);
    Rotated(v, m);
    Bias(m);
    DropGood(v, j.codeBits, m);
    j.codeBuffer := k - k % Pow2(m);
    k := k % Pow2(m);
    j.codeBits := j.codeBits - m;
    if m > 0 {
      SignBit(v, m);
    } else {
      DivMod(v, Pow2(32), 0, v);
    }
    r := k + if sgn == 0 then JBIAS[m] else 0;
  }

  // ---------------------------------------------------------------- combined entries

  /** What a run-size symbol and the bits after it say: zeros to skip, then a coefficient. */
  datatype Coefficient = Coefficient(run: nat, value: int, length: nat)

  /** Plain decoding of symbol i with run-size rs at the head of v. */
  function Plain(v: nat, size: nat, rs: byte): Coefficient
  {
    var mag := rs % 16;
    Coefficient(rs / 16, Extend(Head(Drop(v, size), mag), mag), size + mag)
  }

  /** What the block decoder takes out of a table entry. */
  function Unpacked(r: int): Coefficient
  {
    Coefficient((r / 16) % 16, r / 256, r % 16)
  }

  /** A symbol is 16 times the run plus the size; the size many bits after its code are the coefficient. */
  lemma PlainIs(v: nat, code: nat, run: nat, mag: nat)
    requires v < Pow2(32) && run < 16 && mag < 16 && code + mag <= 32
    ensures Plain(v, code, 16 * run + mag) == Coefficient(run, Extend(v / Pow2(32 - code - mag) % Pow2(mag), mag), code + mag)
  {
    hide Pow2;
    Window(v, code, mag, 32 - code - mag);
    DivNat(v, Pow2(32 - code - mag));
    assert (16 * run + mag) / 16 == run && (16 * run + mag) % 16 == mag;
  }

  /** The layout of a table entry: the value above a byte of run and length. */
  lemma UnpackedIs(value: int, run: nat, length: nat)
    requires run < 16 && length < 16
    ensures Unpacked(256 * value + 16 * run + length) == Coefficient(run, value, length)
  {
    var low := 16 * run + length;
    assert (256 * value + low) / 256 == value && (256 * value + low) / 16 == 16 * value + run by { assert low < 256; }
  }

  function Packed(c: Coefficient): int
  {
    c.value * 256 + c.run * 16 + c.length
  }

  lemma PackedUnpacked(c: Coefficient)
    requires c.run < 16 && 0 < c.length < 16
    ensures Unpacked(Packed(c)) == c && Packed(c) != 0
  {
    var r, low := Packed(c), c.run * 16 + c.length;
    assert r / 256 == c.value by { assert r == c.value * 256 + low && 0 <= low < 256; }
    assert r / 16 == c.value * 16 + c.run && r % 16 == c.length;
  }

  /** The magnitude bits as the table builder takes them from slot x. */
  function SlotBits(x: nat, size: nat, mag: nat): (k: nat)
    requires mag <= 9
  {
    DivModDef(x * Pow2(size), 512);
    DivNat((x * Pow2(size)) % 512, Pow2(9 - mag));
    ((x * Pow2(size)) % 512) / Pow2(9 - mag)
  }

  /** Slot bits are the buffer's bits. */
  lemma SlotBitsAre(v: nat, size: nat, mag: nat)
    requires v < Pow2(32) && size + mag <= 9
    ensures SlotBits(Head(v, 9), size, mag) == Head(Drop(v, size), mag)
  {
    var m := 9 - size - mag;
    Pow2Values();
    Window(Head(v, 9), size, mag, m);
    assert m + size == 9 - mag;
    Window(v, size, mag, 23 + m);
    assert 23 + m + size == 32 - mag;
    DivDiv(v, Pow2(23), Pow2(m));
    Pow2Add(23, m);
  }

  /** A slot that has a combined entry: a short code, a coefficient, and room for both. */
  predicate Combined(t: Tables, values: seq<byte>, x: nat)
    requires |t.fast| == 512 && |t.size| == 257 && |values| == 256 && x < 512
  {
    && t.fast[x] < 255
    && var mag := values[t.fast[x]] % 16;
    && mag > 0 && t.size[t.fast[x]] + mag <= FAST_BITS
    && -128 <= Extend(SlotBits(x, t.size[t.fast[x]], mag), mag) <= 127
  }

  /** The entry for slot x. */
  function FastAc(t: Tables, values: seq<byte>, x: nat): int
    requires |t.fast| == 512 && |t.size| == 257 && |values| == 256 && x < 512
  {
    if !Combined(t, values, x) then 0
    else
      var rs, size := values[t.fast[x]], t.size[t.fast[x]];
      Packed(Coefficient(rs / 16, Extend(SlotBits(x, size, rs % 16), rs % 16), size + rs % 16))
  }

  /** stbi__build_fast_ac. */
  method BuildFastAc(t: Tables, values: seq<byte>) returns (fac: seq<int>)
    requires t.Built() && |values| == 256
    ensures |fac| == 512 && forall x | 0 <= x < 512 :: fac[x] == FastAc(t, values, x)
  {
    fac := [];
    var i := 0;
    while i < 512
      invariant 0 <= i == |fac| <= 512
      invariant forall x | 0 <= x < i :: fac[x] == FastAc(t, values, x)
    {
      var e := FastAcEntry(t, values, i);
      fac := fac + [e];
      i := i + 1;
    }
  }

  method Magnitude(i: nat, len: nat, magbits: nat) returns (k: int)
    requires 0 < magbits <= 9
    ensures k == Extend(SlotBits(i, len, magbits), magbits)
  {
    k := SlotBits(i, len, magbits);
    var m := Pow2(magbits - 1);
    if k < m {
      k := k - Pow2(magbits) + 1;
    }
  }

  method RunSize(rs: byte) returns (run: nat, magbits: nat)
    ensures run == rs / 16 && magbits == rs % 16
  {
    run, magbits := (rs / 16) % 16, rs % 16;
  }

  method FastAcEntry(t: Tables, values: seq<byte>, i: nat) returns (e: int)
    requires t.Built() && |values| == 256 && i < 512
    ensures e == FastAc(t, values, i)
  {
    var fast := t.fast[i];
    e := 0;
    if fast < 255 {
      var rs := values[fast];
      var run, magbits := RunSize(rs);
      var len := t.size[fast];
      if magbits != 0 && len + magbits <= FAST_BITS {
        var k := Magnitude(i, len, magbits);
        if -128 <= k <= 127 {
          e := k * 256 + run * 16 + (len + magbits);
        }
      }
    }
  }

  /** A non-zero entry gives the run, value and length that plain decoding gives, for every buffer
      that starts with the slot's bits, and leaves the same buffer behind. */
  lemma FastAcAgrees(t: Tables, values: seq<byte>, v: nat) returns (i: nat)
    requires t.Built() && |values| == 256 && v < Pow2(32) && Head(v, 9) < 512
    requires FastAc(t, values, Head(v, 9)) != 0
    ensures i < |t.lens| && Decode(t.lens, HeadPrefixes(v)) == Some(i)
    ensures values[i] % 16 > 0 && Unpacked(FastAc(t, values, Head(v, 9))) == Plain(v, t.lens[i], values[i])
    ensures Drop(v, t.lens[i] + values[i] % 16) == Drop(Drop(v, t.lens[i]), values[i] % 16)
  {
    var x := Head(v, 9);
    t.FastMatch(v);
    i := t.fast[x];
    var mag := values[i] % 16;
    SlotBitsAre(v, t.lens[i], mag);
    PackedUnpacked(Plain(v, t.lens[i], values[i]));
    DropTwice(v, t.lens[i], mag);
  }

  /** And no opportunity is missed: an entry is zero only if the code is not in the fast table, there
      is no coefficient, it does not fit in the slot's bits, or its value not in a byte. */
  lemma FastAcComplete(t: Tables, values: seq<byte>, v: nat, i: nat)
    requires t.Built() && |values| == 256 && v < Pow2(32) && Head(v, 9) < 512
    requires Decode(t.lens, HeadPrefixes(v)) == Some(i) && i < 255 && i < |t.lens|
    requires values[i] % 16 > 0 && t.lens[i] + values[i] % 16 <= FAST_BITS
    ensures FastAc(t, values, Head(v, 9)) != 0 <==> -128 <= Plain(v, t.lens[i], values[i]).value <= 127
  {
    HeadHead(v, 9, t.lens[i]);
    assert FastHit(t.lens, i, Head(v, 9));
    SlotBitsAre(v, t.lens[i], values[i] % 16);
    PackedUnpacked(Plain(v, t.lens[i], values[i]));
  }
}
