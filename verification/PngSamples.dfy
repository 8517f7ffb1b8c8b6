/** From a row's reconstructed bytes to samples: unpacking 1, 2 and 4 bit samples, joining 16 bit ones,
    and adding an opaque alpha channel, in place where stb_image does it in place. */
module PngSamples {
  import opened Bits

  // ---------------------------------------------------------------- the specification

  predicate SubByte(depth: nat)
  {
    depth == 1 || depth == 2 || depth == 4
  }

  predicate Depth(depth: nat)
  {
    SubByte(depth) || depth == 8 || depth == 16
  }

  /** How many bytes n samples take. */
  function RowBytes(n: nat, depth: nat): (r: nat)
    requires Depth(depth)
  {
    if depth == 16 then 2 * n else if depth == 8 then n else if depth == 4 then (n + 1) / 2
    else if depth == 2 then (n + 3) / 4 else (n + 7) / 8
  }

  lemma RowBytesIs(n: nat, depth: nat)
    requires Depth(depth)
    ensures RowBytes(n, depth) == (n * depth + 7) / 8
  {
  }

  /** The byte that holds sample i of a sub-byte depth, and the bit its bits start at. */
  function ByteOf(depth: nat, i: nat): nat
  {
    if depth == 4 then i / 2 else if depth == 2 then i / 4 else i / 8
  }

  function LowBit(depth: nat, i: nat): nat
  {
    if depth == 4 then 4 - i % 2 * 4 else if depth == 2 then 6 - i % 4 * 2 else 7 - i % 8
  }

  /** The row has i samples. */
  predicate Enough(row: seq<byte>, depth: nat, i: nat)
  {
    Depth(depth) && RowBytes(i, depth) <= |row|
  }

  lemma EnoughFor(row: seq<byte>, depth: nat, i: nat, n: nat)
    requires i < n && Enough(row, depth, n)
    ensures Enough(row, depth, i) && Enough(row, depth, i + 1) && i < |row| * 8
    ensures SubByte(depth) ==> ByteOf(depth, i) < |row|
  {
  }

  /** Sample i of a row, most significant bits of each byte first (section 7.2 of the PNG
      specification). */
  function Sample(row: seq<byte>, depth: nat, i: nat): (v: u16)
    requires Enough(row, depth, i + 1)
    ensures depth <= 8 ==> v < Pow2(depth) <= 256
  {
    Pow2Values();
    if depth == 16 then row[2 * i] as int * 256 + row[2 * i + 1]
    else if depth == 8 then row[i]
    else
      BitsFromSmall(row[ByteOf(depth, i)], LowBit(depth, i), depth);
      BitsFrom(row[ByteOf(depth, i)], LowBit(depth, i), depth)
  }

  lemma {:induction false} BitsFromSmall(v: nat, i: nat, n: nat)
    ensures BitsFrom(v, i, n) < Pow2(n)
    decreases n
  {
    if n == 0 {
    } else {
      BitsFromSmall(v, i + 1, n - 1);
    }
  }

  /** Section 7.2 of the PNG specification, for all depths at once: the row is a string of bits, most significant first in
      each byte, and sample i is the i-th group of `depth` of them, its first bit most significant. */
  lemma SampleBits(row: seq<byte>, depth: nat, i: nat, j: nat)
    requires Enough(row, depth, i + 1) && j < depth
    ensures var k := i * depth + j;
      0 <= k / 8 < |row| && (Sample(row, depth, i) / Pow2(depth - 1 - j)) % 2 == (row[k / 8] / Pow2(7 - k % 8)) % 2
  {
    hide Pow2, BitsFrom;
    GroupPlace(depth, i, j);
    if depth == 16 {
      WordBits(row[2 * i], row[2 * i + 1], j);
    } else if depth < 8 {
      BitOfPart(row[ByteOf(depth, i)], LowBit(depth, i), depth, depth - 1 - j);
    }
  }

  lemma GroupPlace(depth: nat, i: nat, j: nat)
    requires Depth(depth) && j < depth
    ensures var k := i * depth + j;
      if depth == 16 then k / 8 == 2 * i + j / 8 && k % 8 == j % 8
      else if depth == 8 then k / 8 == i && k % 8 == j
      else k / 8 == ByteOf(depth, i) && 7 - k % 8 == LowBit(depth, i) + depth - 1 - j
  {
    if depth == 4 {
      assert i == 2 * (i / 2) + i % 2;
    } else if depth == 2 {
      assert i == 4 * (i / 4) + i % 4;
    }
  }

  /** Bit j of two bytes, from the top. */
  lemma WordBits(hi: byte, lo: byte, j: nat)
    requires j < 16
    ensures ((hi as int * 256 + lo) / Pow2(15 - j)) % 2 == if j < 8 then (hi / Pow2(7 - j)) % 2 else (lo / Pow2(15 - j)) % 2
  {
    var v: nat := hi as int * 256 + lo;
    Pow2Values();
    if j < 8 {
      Pow2Add(8, 7 - j);
      DivDiv(v, 256, Pow2(7 - j));
      DivMod(v, 256, hi, lo);
    } else {
      BitOfIs(v, 15 - j);
      BitOfIs(lo, 15 - j);
      BitOfHigh(hi, lo, 15 - j);
    }
  }

  lemma BitOfHigh(hi: nat, lo: byte, n: nat)
    requires n < 8
    ensures BitOf(hi * 256 + lo, n) == BitOf(lo, n)
  {
    HighHalves(hi, 8, lo, n);
  }

  /** Multiples of 2^m do not touch the bits below m. */
  lemma {:induction false} HighHalves(hi: nat, m: nat, lo: nat, n: nat)
    requires n < m
    ensures 0 <= hi * Pow2(m) && BitOf(hi * Pow2(m) + lo, n) == BitOf(lo, n)
    decreases n
  {
    MulMono(0, hi, Pow2(m));
    MulAssoc(hi, 2, Pow2(m - 1));
    MulAssoc(2, hi, Pow2(m - 1));
    var v := hi * Pow2(m - 1);
    MulMono(0, hi, Pow2(m - 1));
    assert hi * Pow2(m) == 2 * v;
    if n > 0 {
      HighHalves(hi, m - 1, lo / 2, n - 1);
      assert (2 * v + lo) / 2 == v + lo / 2;
    }
  }

  /** Bit j of n bits taken from v at i. */
  lemma BitOfPart(v: nat, i: nat, n: nat, j: nat)
    requires j < n
    ensures (BitsFrom(v, i, n) / Pow2(j)) % 2 == (v / Pow2(i + j)) % 2
  {
    hide BitsFrom, Pow2;
    PartBit(v, i, n, j);
    BitOfIs(BitsFrom(v, i, n), j);
    BitOfIs(v, i + j);
  }

  lemma {:induction false} PartBit(v: nat, i: nat, n: nat, j: nat)
    requires j < n
    ensures BitOf(BitsFrom(v, i, n), j) == BitOf(v, i + j)
    decreases j
  {
    var rest := BitsFrom(v, i + 1, n - 1);
    assert BitsFrom(v, i, n) == BitOf(v, i) + 2 * rest;
    if j == 0 {
    } else {
      hide BitsFrom;
      PartBit(v, i + 1, n - 1, j - 1);
      assert i + 1 + (j - 1) == i + j;
      assert (BitOf(v, i) + 2 * rest) / 2 == rest;
    }
  }

  /** What a stored sample is multiplied by: greyscale goes to the full range of a byte. */
  function Scale(depth: nat, color: nat): nat
  {
    if color != 0 then 1 else if depth == 1 then 0xff else if depth == 2 then 0x55 else if depth == 4 then 0x11 else 1
  }

  /** A greyscale sample of less than a byte comes to fill the byte's range, any other stays as it is. */
  lemma ScaleIs(depth: nat, color: nat)
    requires Depth(depth)
    ensures color == 0 && depth < 8 ==> Scale(depth, color) * (Pow2(depth) - 1) == 255
    ensures color != 0 || depth >= 8 ==> Scale(depth, color) == 1
  {
    Pow2Values();
  }

  /** The full-range sample. */
  function Scaled(depth: nat, color: nat, v: u16): (r: u16)
    requires Depth(depth) && (depth <= 8 ==> v < Pow2(depth))
    ensures depth <= 8 ==> r < 256
  {
    Pow2Values();
    Scale(depth, color) * v
  }

  /** All n scaled samples of a row. */
  function Samples(row: seq<byte>, n: nat, depth: nat, color: nat): (r: seq<u16>)
    requires Enough(row, depth, n)
    ensures |r| == n
  {
    if n == 0 then []
    else
      Samples(row, n - 1, depth, color) + [Scaled(depth, color, Sample(row, depth, n - 1))]
  }

  function Opaque(depth: nat): u16
  {
    if depth == 16 then 0xffff else 255
  }

  /** Opaque is the largest sample in memory, of one or two bytes. */
  lemma OpaqueIs(depth: nat)
    requires Depth(depth)
    ensures Opaque(depth) + 1 == Pow2(if depth <= 8 then 8 else 16)
  {
    Pow2Values();
  }

  const DEPTH_SCALE_TABLE: seq<nat> := [0, 0xff, 0x55, 0, 0x11, 0, 0, 0, 0x01]

  // ---------------------------------------------------------------- packing, the other way round

  /** v shifted left, with s in the freed bits. */
  function Push(v: nat, depth: nat, s: nat): nat
    decreases depth, v, s
  {
    if depth == 0 then v else s % 2 + 2 * Push(v, depth - 1, s / 2)
  }

  lemma {:induction false} PushLow(v: nat, depth: nat, s: nat)
    requires s < Pow2(depth)
    ensures BitsFrom(Push(v, depth, s), 0, depth) == s
    decreases depth
  {
    if depth == 0 {
    } else {
      PushLow(v, depth - 1, s / 2);
      BitsFromHalf(Push(v, depth, s), 1, depth - 1);
    }
  }

  lemma {:induction false} PushHigh(v: nat, depth: nat, s: nat, i: nat, n: nat)
    ensures BitsFrom(Push(v, depth, s), depth + i, n) == BitsFrom(v, i, n)
    decreases depth
  {
    if depth == 0 {
    } else {
      PushHigh(v, depth - 1, s / 2, i, n);
      BitsFromHalf(Push(v, depth, s), depth + i, n);
    }
  }

  lemma {:induction false} PushSmall(v: nat, depth: nat, s: nat, m: nat)
    requires v < Pow2(m)
    ensures Push(v, depth, s) < Pow2(m + depth)
    decreases depth
  {
    if depth == 0 {
    } else {
      PushSmall(v, depth - 1, s / 2, m);
    }
  }

  /** n samples from `at` on packed into a number, the first most significant, zeros where there are
      none. */
  function PackByte(samples: seq<u16>, at: nat, depth: nat, n: nat): (v: nat)
    decreases n
  {
    if n == 0 then 0
    else Push(PackByte(samples, at, depth, n - 1), depth, if at + n - 1 < |samples| then samples[at + n - 1] else 0)
  }

  lemma {:induction false} PackByteSmall(samples: seq<u16>, at: nat, depth: nat, n: nat)
    ensures PackByte(samples, at, depth, n) < Pow2(n * depth)
    decreases n
  {
    if n == 0 {
    } else {
      PackByteSmall(samples, at, depth, n - 1);
      MulSub(n, 1, depth);
      PushSmall(PackByte(samples, at, depth, n - 1), depth, if at + n - 1 < |samples| then samples[at + n - 1] else 0,
                (n - 1) * depth);
    }
  }

  /** The bits of the sample that has `after` samples after it in its byte. */
  lemma {:induction false} PackedSample(samples: seq<u16>, at: nat, depth: nat, n: nat, after: nat, lo: nat)
    requires after < n && at + n - 1 - after < |samples| && lo == after * depth
    requires forall i | 0 <= i < |samples| :: samples[i] < Pow2(depth)
    ensures BitsFrom(PackByte(samples, at, depth, n), lo, depth) == samples[at + n - 1 - after]
    decreases n
  {
    var s := if at + n - 1 < |samples| then samples[at + n - 1] else 0;
    var hi := PackByte(samples, at, depth, n - 1);
    if after == 0 {
      PushLow(hi, depth, s);
    } else {
      MulSub(after, 1, depth);
      MulMono(0, after - 1, depth);
      PackedSample(samples, at, depth, n - 1, after - 1, lo - depth);
      PushHigh(hi, depth, s, lo - depth, depth);
    }
  }

  /** Byte k of the packed samples. */
  function PackedByte(samples: seq<u16>, depth: nat, k: nat): byte
    requires SubByte(depth)
  {
    Pow2Values();
    PackByteSmall(samples, 2 * k, 4, 2);
    PackByteSmall(samples, 4 * k, 2, 4);
    PackByteSmall(samples, 8 * k, 1, 8);
    if depth == 4 then PackByte(samples, 2 * k, 4, 2)
    else if depth == 2 then PackByte(samples, 4 * k, 2, 4)
    else PackByte(samples, 8 * k, 1, 8)
  }

  /** A row of samples as bytes. */
  function PackRow(samples: seq<u16>, depth: nat): (row: seq<byte>)
    requires Depth(depth) && (depth == 8 ==> forall i | 0 <= i < |samples| :: samples[i] < 256)
    ensures |row| == RowBytes(|samples|, depth)
  {
    if depth == 16 then
      seq(2 * |samples|, k requires 0 <= k < 2 * |samples| => if k % 2 == 0 then samples[k / 2] / 256 else samples[k / 2] % 256)
    else if depth == 8 then seq(|samples|, k requires 0 <= k < |samples| => samples[k])
    else seq(RowBytes(|samples|, depth), k requires 0 <= k => PackedByte(samples, depth, k))
  }

  lemma PackedBits(samples: seq<u16>, depth: nat, i: nat)
    requires SubByte(depth) && i < |samples| && forall i | 0 <= i < |samples| :: samples[i] < Pow2(depth)
    ensures BitsFrom(PackedByte(samples, depth, ByteOf(depth, i)), LowBit(depth, i), depth) == samples[i]
  {
    if depth == 4 {
      PackedSample(samples, 2 * (i / 2), 4, 2, 1 - i % 2, LowBit(4, i));
    } else if depth == 2 {
      PackedSample(samples, 4 * (i / 4), 2, 4, 3 - i % 4, LowBit(2, i));
    } else {
      PackedSample(samples, 8 * (i / 8), 1, 8, 7 - i % 8, LowBit(1, i));
    }
  }

  lemma RowBytesMono(i: nat, n: nat, depth: nat)
    requires Depth(depth) && i <= n
    ensures RowBytes(i, depth) <= RowBytes(n, depth) && i <= 8 * RowBytes(i, depth)
    ensures SubByte(depth) && i < n ==> ByteOf(depth, i) < RowBytes(n, depth)
  {
  }

  lemma Packed16(samples: seq<u16>, i: nat)
    requires i < |samples|
    ensures Sample(PackRow(samples, 16), 16, i) == samples[i]
  {
    assert PackRow(samples, 16)[2 * i] == samples[i] / 256;
    assert PackRow(samples, 16)[2 * i + 1] == samples[i] % 256;
  }

  lemma PackedSub(samples: seq<u16>, depth: nat, i: nat)
    requires SubByte(depth) && forall i | 0 <= i < |samples| :: samples[i] < Pow2(depth)
    requires i < |samples|
    ensures RowBytes(i + 1, depth) <= RowBytes(|samples|, depth) && Sample(PackRow(samples, depth), depth, i) == samples[i]
  {
    RowBytesMono(i + 1, |samples|, depth);
    RowBytesMono(i, |samples|, depth);
    PackedBits(samples, depth, i);
  }

  /** The samples of an image of this depth. */
  ghost predicate InRange(samples: seq<u16>, depth: nat)
  {
    depth <= 8 ==> Pow2(depth) <= 256 && forall i | 0 <= i < |samples| :: samples[i] < Pow2(depth)
  }

  /** Unpacking gives every packed sample back, at every depth. */
  lemma PackedRowSample(samples: seq<u16>, depth: nat, i: nat)
    requires Depth(depth) && InRange(samples, depth)
    requires i < |samples|
    ensures RowBytes(i + 1, depth) <= RowBytes(|samples|, depth)
    ensures Sample(PackRow(samples, depth), depth, i) == samples[i]
  {
    if depth == 16 {
      Packed16(samples, i);
    } else if depth == 8 {
    } else {
      PackedSub(samples, depth, i);
    }
  }

  // ---------------------------------------------------------------- unpacking

  /** Shifting a byte left by depth moves its bits up. */
  lemma ShiftedBits(v: byte, depth: nat, lo: nat, n: nat)
    requires depth <= lo && lo + n <= 8
    ensures BitsFrom((v * Pow2(depth)) % 256, lo, n) == BitsFrom(v, lo - depth, n)
  {
    hide BitsFrom, Pow2;
    BitsFromIs((v * Pow2(depth)) % 256, lo, n);
    BitsFromIs(v, lo - depth, n);
    ShiftedQuotient(v, depth, lo);
    DivNat(v, Pow2(lo - depth));
    ModMod(v / Pow2(lo - depth), n, 8 - lo - n);
  }

  /** Shifting a byte up and then down loses its top bits. */
  lemma ShiftedQuotient(v: byte, depth: nat, lo: nat)
    requires depth <= lo <= 8
    ensures ((v * Pow2(depth)) % 256) / Pow2(lo) == (v / Pow2(lo - depth)) % Pow2(8 - lo)
  {
    hide Pow2;
    Pow2Values();
    ShlMod(v, depth, 8 - depth);
    var x := v % Pow2(8 - depth);
    DivModDef(v, Pow2(8 - depth));
    Pow2Add(lo - depth, depth);
    CommonFactor(x, Pow2(lo - depth), Pow2(depth));
    ModDiv(v, 8 - lo, lo - depth);
  }

  lemma {:induction false} BitsFromIs(v: nat, i: nat, n: nat)
    ensures v / Pow2(i) >= 0 && BitsFrom(v, i, n) == (v / Pow2(i)) % Pow2(n)
    decreases i
  {
    if i == 0 {
      LowBitsIs(v, n);
    } else {
      BitsFromHalf(v, i, n);
      BitsFromIs(v / 2, i - 1, n);
      DivDiv(v, 2, Pow2(i - 1));
    }
  }

  lemma {:induction false} LowBitsIs(v: nat, n: nat)
    ensures BitsFrom(v, 0, n) == v % Pow2(n)
    decreases n
  {
    if n == 0 {
    } else {
      BitsFromHalf(v, 1, n - 1);
      LowBitsIs(v / 2, n - 1);
      HalfMod(v, Pow2(n - 1));
      DivModDef(v % Pow2(n), 2);
    }
  }

  predicate StartsByte(depth: nat, i: nat)
  {
    if depth == 4 then i % 2 == 0 else if depth == 2 then i % 4 == 0 else i % 8 == 0
  }

  /** inb is byte b shifted left: what is `lo` bits up in it was `shift` bits lower. */
  ghost predicate ShiftedBy(inb: byte, b: byte, depth: nat, shift: int)
  {
    forall lo | 0 <= lo && shift <= lo <= 8 - depth :: BitsFrom(inb, lo, depth) == BitsFrom(b, lo - shift, depth)
  }

  lemma ShiftOn(inb: byte, b: byte, depth: nat, shift: int)
    requires SubByte(depth) && shift >= 0 && ShiftedBy(inb, b, depth, shift)
    ensures ShiftedBy((inb * Pow2(depth)) % 256, b, depth, shift + depth)
  {
    forall lo | shift + depth <= lo <= 8 - depth
      ensures BitsFrom((inb * Pow2(depth)) % 256, lo, depth) == BitsFrom(b, lo - (shift + depth), depth)
    {
      ShiftedBits(inb, depth, lo, depth);
      assert BitsFrom(inb, lo - depth, depth) == BitsFrom(b, lo - depth - shift, depth);
    }
  }

  /** The top bits of a byte. */
  lemma TopBits(inb: byte, depth: nat)
    requires SubByte(depth)
    ensures 0 <= inb / Pow2(8 - depth) == BitsFrom(inb, 8 - depth, depth) < Pow2(depth)
  {
    BitsFromSmall(inb, 8 - depth, depth);
    BitsFromIs(inb, 8 - depth, depth);
    Pow2Values();
    Pow2Add(depth, 8 - depth);
    ShiftCompare(inb, Pow2(8 - depth), Pow2(depth));
    DivMod(inb / Pow2(8 - depth), Pow2(depth), 0, inb / Pow2(8 - depth));
  }

  /** The state of the unpacking loop before sample i: p bytes are read, and inb holds what is left of
      the last of them. */
  ghost predicate Unpacking(row: seq<byte>, depth: nat, i: nat, p: nat, inb: byte)
  {
    && p == (if StartsByte(depth, i) then ByteOf(depth, i) else ByteOf(depth, i) + 1)
    && (!StartsByte(depth, i) ==> p <= |row| && ShiftedBy(inb, row[p - 1], depth, 8 - depth - LowBit(depth, i)))
  }

  lemma NextUnpacking(row: seq<byte>, depth: nat, i: nat, inb: byte)
    requires SubByte(depth) && ByteOf(depth, i) < |row|
    requires ShiftedBy(inb, row[ByteOf(depth, i)], depth, 8 - depth - LowBit(depth, i))
    ensures Unpacking(row, depth, i + 1, ByteOf(depth, i) + 1, (inb * Pow2(depth)) % 256)
  {
    ShiftOn(inb, row[ByteOf(depth, i)], depth, 8 - depth - LowBit(depth, i));
  }

  lemma UnpackingFirst(row: seq<byte>, depth: nat, i: nat, n: nat)
    requires SubByte(depth) && Enough(row, depth, n) && i == 0
    ensures Unpacking(row, depth, i, 0, 0) && Enough(row, depth, i)
  {
  }

  /** Lines 4790-4817: expand the n samples of a row that take 1, 2 or 4 bits each. */
  method UnpackRow(out: array<u16>, at: nat, buf: array<u16>, cur: nat, n: nat, depth: nat, color: nat, ghost row: seq<byte>)
    requires out != buf && SubByte(depth) && Enough(row, depth, n) && at + n <= out.Length
    requires cur + |row| <= buf.Length && buf[cur..cur + |row|] == row
    modifies out
    ensures out[..at] == old(out[..at]) && out[at..at + n] == Samples(row, n, depth, color)
  {
    hide Unpacking, Enough, ByteOf, LowBit, StartsByte, Sample, Scaled;
    var i, p, inb: byte := 0, 0, 0;
    UnpackingFirst(row, depth, i, n);
    while i < n
      invariant 0 <= i <= n && Unpacking(row, depth, i, p, inb)
      invariant out[..at] == old(out[..at]) && Enough(row, depth, i) && out[at..at + i] == Samples(row, i, depth, color)
    {
      EnoughFor(row, depth, i, n);
      var v;
      p, inb, v := NextSample(buf, cur, depth, color, row, i, p, inb);
      PutSample(out, at, i, v);
      i := i + 1;
    }
  }

  method NextSample(buf: array<u16>, cur: nat, depth: nat, color: nat, ghost row: seq<byte>, i: nat, p0: nat, inb0: byte)
    returns (p: nat, inb: byte, v: u16)
    requires SubByte(depth) && Enough(row, depth, i + 1) && ByteOf(depth, i) < |row|
    requires cur + |row| <= buf.Length && buf[cur..cur + |row|] == row
    requires Unpacking(row, depth, i, p0, inb0)
    ensures Unpacking(row, depth, i + 1, p, inb)
    ensures v == Scaled(depth, color, Sample(row, depth, i))
  {
    hide ByteOf, LowBit, StartsByte, ShiftedBy, Unpacking, Sample, Scale, Pow2, BitsFrom, Enough;
    p, inb := LoadByte(buf, cur, depth, row, i, p0, inb0);
    SampleIs(row, depth, i, inb);
    assert Scaled(depth, color, Sample(row, depth, i)) == Scale(depth, color) * Sample(row, depth, i);
    ScaleOf(depth, color);
    var scale := if color == 0 then DEPTH_SCALE_TABLE[depth] else 1;
    v := scale * (inb / Pow2(8 - depth));
    NextUnpacking(row, depth, i, inb);
    inb := (inb * Pow2(depth)) % 256;
  }

  lemma ScaleOf(depth: nat, color: nat)
    requires SubByte(depth)
    ensures Scale(depth, color) == if color == 0 then DEPTH_SCALE_TABLE[depth] else 1
  {
  }

  /** The next byte at the first of its samples, what is left of it at the others. */
  method LoadByte(buf: array<u16>, cur: nat, depth: nat, ghost row: seq<byte>, i: nat, p0: nat, inb0: byte)
    returns (p: nat, inb: byte)
    requires SubByte(depth) && ByteOf(depth, i) < |row|
    requires cur + |row| <= buf.Length && buf[cur..cur + |row|] == row
    requires Unpacking(row, depth, i, p0, inb0)
    ensures p == ByteOf(depth, i) + 1
    ensures ShiftedBy(inb, row[ByteOf(depth, i)], depth, 8 - depth - LowBit(depth, i))
  {
    hide ByteOf, BitsFrom;
    p, inb := p0, inb0;
    if StartsByte(depth, i) {
      assert buf[cur + p] == row[p] by { assert buf[cur + p] == buf[cur..cur + |row|][p]; }
      inb := buf[cur + p];
      p := p + 1;
    }
  }

  /** Sample i is on top. */
  lemma SampleIs(row: seq<byte>, depth: nat, i: nat, inb: byte)
    requires SubByte(depth) && Enough(row, depth, i + 1) && ByteOf(depth, i) < |row|
    requires ShiftedBy(inb, row[ByteOf(depth, i)], depth, 8 - depth - LowBit(depth, i))
    ensures Pow2(8 - depth) > 0 && inb / Pow2(8 - depth) == Sample(row, depth, i)
  {
    hide ByteOf, BitsFrom, Pow2;
    TopBits(inb, depth);
    assert BitsFrom(inb, 8 - depth, depth) == BitsFrom(row[ByteOf(depth, i)], LowBit(depth, i), depth);
  }

  method PutSample(out: array<u16>, at: nat, i: nat, v: u16)
    requires at + i < out.Length
    modifies out
    ensures out[..at] == old(out[..at]) && out[at..at + i + 1] == old(out[at..at + i]) + [v]
  {
    out[at + i] := v;
  }

  // ---------------------------------------------------------------- alpha

  /** An alpha sample after every sample. */
  function AddAlpha1(t: seq<u16>, alpha: u16): (r: seq<u16>)
    ensures |r| == 2 * |t| && forall j | 0 <= j < 2 * |t| :: r[j] == if j % 2 == 1 then alpha else t[j / 2]
  {
    seq(2 * |t|, j requires 0 <= j < 2 * |t| => if j % 2 == 1 then alpha else t[j / 2])
  }

  /** An alpha sample after every three. */
  function AddAlpha3(t: seq<u16>, alpha: u16): (r: seq<u16>)
    ensures |r| == 4 * (|t| / 3)
    ensures forall j | 0 <= j < 4 * (|t| / 3) :: r[j] == if j % 4 == 3 then alpha else t[j / 4 * 3 + j % 4]
  {
    seq(4 * (|t| / 3), j requires 0 <= j < 4 * (|t| / 3) => if j % 4 == 3 then alpha else t[j / 4 * 3 + j % 4])
  }

  lemma SliceIs(a: seq<u16>, d: nat, r: seq<u16>)
    requires d + |r| <= |a| && forall j | 0 <= j < |r| :: a[d + j] == r[j]
    ensures a[d..d + |r|] == r
  {
  }

  /** stbi__create_png_alpha_expand8 for one channel: from the back, so that dest may be src. */
  method AlphaExpand1(dest: array<u16>, d: nat, src: array<u16>, s: nat, x: nat)
    requires (dest != src || d == s) && s + x <= src.Length && d + 2 * x <= dest.Length
    modifies dest
    ensures dest[..d] == old(dest[..d]) && dest[d..d + 2 * x] == AddAlpha1(old(src[s..s + x]), 255)
  {
    ghost var t := src[s..s + x];
    ghost var r := AddAlpha1(t, 255);
    var i: int := x - 1;
    while i >= 0
      invariant -1 <= i < x && dest[..d] == old(dest[..d])
      invariant forall j | 0 <= j <= i :: src[s + j] == t[j]
      invariant forall j | 2 * i + 2 <= j < 2 * x :: dest[d + j] == r[j]
    {
      dest[d + i * 2 + 1] := 255;
      dest[d + i * 2] := src[s + i];
      i := i - 1;
    }
    SliceIs(dest[..], d, r);
  }

  /** The same for three channels. */
  method AlphaExpand3(dest: array<u16>, d: nat, src: array<u16>, s: nat, x: nat)
    requires (dest != src || d == s) && s + 3 * x <= src.Length && d + 4 * x <= dest.Length
    modifies dest
    ensures dest[..d] == old(dest[..d]) && dest[d..d + 4 * x] == AddAlpha3(old(src[s..s + 3 * x]), 255)
  {
    ghost var t := src[s..s + 3 * x];
    ghost var r := AddAlpha3(t, 255);
    forall k | 0 <= k < x ensures Expands(t, r, k) {
      Alpha3At(t, 255, k);
    }
    ExpandBack(dest, d, src, s, x, t, r);
    SliceIs(dest[..], d, r);
  }

  /** Pixel k of r is that of t with an opaque alpha. */
  ghost predicate Expands(t: seq<u16>, r: seq<u16>, k: nat)
  {
    && 3 * k + 2 < |t| && 4 * k + 3 < |r|
    && r[4 * k] == t[3 * k] && r[4 * k + 1] == t[3 * k + 1] && r[4 * k + 2] == t[3 * k + 2] && r[4 * k + 3] == 255
  }

  lemma Alpha3At(t: seq<u16>, alpha: u16, k: nat)
    requires 3 * k + 2 < |t|
    ensures var r := AddAlpha3(t, alpha);
      && 4 * k + 3 < |r| && r[4 * k] == t[3 * k] && r[4 * k + 1] == t[3 * k + 1] && r[4 * k + 2] == t[3 * k + 2]
      && r[4 * k + 3] == alpha
  {
    var r := AddAlpha3(t, alpha);
    assert r[4 * k] == t[3 * k];
    assert r[4 * k + 1] == t[3 * k + 1];
    assert r[4 * k + 2] == t[3 * k + 2];
  }

  method ExpandBack(dest: array<u16>, d: nat, src: array<u16>, s: nat, x: nat, ghost t: seq<u16>, ghost r: seq<u16>)
    requires (dest != src || d == s) && s + 3 * x <= src.Length && d + 4 * x <= dest.Length
    requires |t| == 3 * x && |r| == 4 * x && src[s..s + 3 * x] == t && forall k | 0 <= k < x :: Expands(t, r, k)
    modifies dest
    ensures dest[..d] == old(dest[..d]) && forall j | 0 <= j < 4 * x :: dest[d + j] == r[j]
  {
    var i: int := x - 1;
    while i >= 0
      invariant -1 <= i < x && dest[..d] == old(dest[..d])
      invariant forall j | 0 <= j < 3 * i + 3 :: src[s + j] == t[j]
      invariant forall j | 4 * i + 4 <= j < 4 * x :: dest[d + j] == r[j]
    {
      assert Expands(t, r, i);
      PutOpaque(dest, d + i * 4, src, s + i * 3);
      i := i - 1;
    }
  }

  /** Write the pixel with samples src[q..q + 3] and its alpha at p. */
  method PutOpaque(dest: array<u16>, p: nat, src: array<u16>, q: nat)
    requires p + 4 <= dest.Length && q + 3 <= src.Length && (dest != src || q <= p)
    modifies dest
    ensures dest[p] == old(src[q]) && dest[p + 1] == old(src[q + 1]) && dest[p + 2] == old(src[q + 2]) && dest[p + 3] == 255
    ensures forall j | 0 <= j < dest.Length && !(p <= j < p + 4) :: dest[j] == old(dest[j])
  {
    dest[p + 3] := 255;
    dest[p + 2] := src[q + 2];
    dest[p + 1] := src[q + 1];
    dest[p] := src[q];
  }
}
