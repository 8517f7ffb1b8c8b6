/** The entropy-coded bytes of a JPEG scan, and stbi__grow_buffer_unsafe, which puts them into a 32-bit buffer with the
    first bit on top. */
module JpegBits {
  import opened Bits

  // ---------------------------------------------------------------- entropy-coded bytes

  /** The first byte from p on that is not a fill byte; there is always one, since past the end all bytes are 0. */
  function SkipFill(s: seq<byte>, p: nat): (q: nat)
    ensures q >= p && ByteAt(s, q) != 0xff
    decreases if p < |s| then |s| - p else 0
  {
    if ByteAt(s, p) == 0xff then SkipFill(s, p + 1) else p
  }

  /** What comes next: a data byte, where 0xff is followed by any number of fill bytes and a stuffed 0 (section B.1.1.5
      of ITU-T T.81), or a marker. */
  datatype Unit = Data(b: byte, next: nat) | Marker(code: byte, next: nat)

  function NextUnit(s: seq<byte>, p: nat): (u: Unit)
    ensures u.next > p
  {
    if ByteAt(s, p) != 0xff then Data(ByteAt(s, p), p + 1)
    else
      var q := SkipFill(s, p + 1);
      if ByteAt(s, q) == 0 then Data(0xff, q + 1) else Marker(ByteAt(s, q), q + 1)
  }

  /** Data byte k of the scan at p, unless that has ended; zeros after a marker. */
  function ScanByte(s: seq<byte>, p: nat, ended: bool, k: nat): byte
    decreases k
  {
    if ended then 0
    else
      match NextUnit(s, p)
      case Data(b, next) => if k == 0 then b else ScanByte(s, next, false, k - 1)
      case Marker(_, _) => 0
  }

  /** The first n data bytes as a number, first byte on top. */
  function ScanNumber(s: seq<byte>, p: nat, ended: bool, n: nat): (v: nat)
    ensures v < Pow2(8 * n)
  {
    if n == 0 then 0
    else
      NumberGrows(n);
      256 * ScanNumber(s, p, ended, n - 1) + ScanByte(s, p, ended, n - 1)
  }

  lemma NumberGrows(n: nat)
    requires n > 0
    ensures Pow2(8 * n) == 256 * Pow2(8 * (n - 1))
  {
    Pow2Add(8, 8 * (n - 1));
    Pow2Values();
  }

  // ---------------------------------------------------------------- byte stuffing

  function Fill(n: nat): (r: seq<byte>)
  {
    seq(n, i => 0xff)
  }

  /** Data as a scan holds it: after each 0xff any number of fill bytes and a 0. */
  function Stuffed(d: seq<byte>, fill: seq<nat>): (r: seq<byte>)
    requires |d| == |fill|
  {
    if |d| == 0 then [] else (if d[0] == 0xff then [0xff] + Fill(fill[0]) + [0] else [d[0]]) + Stuffed(d[1..], fill[1..])
  }

  lemma {:induction false} FillSkipped(s: seq<byte>, p: nat, n: nat)
    requires p + n < |s| && s[p..p + n] == Fill(n) && s[p + n] != 0xff
    ensures SkipFill(s, p) == p + n
    decreases n
  {
    if n == 0 {
    } else {
      assert s[p] == s[p..p + n][0] == 0xff;
      assert s[p + 1..p + n] == s[p..p + n][1..] == Fill(n - 1);
      FillSkipped(s, p + 1, n - 1);
    }
  }

  /** 0xff, n fill bytes and one more byte at p: the data byte 0xff if that is 0, else a marker. */
  lemma UnitAfterFill(s: seq<byte>, p: nat, n: nat)
    requires p + n + 1 < |s| && s[p] == 0xff && s[p + 1..p + 1 + n] == Fill(n) && s[p + n + 1] != 0xff
    ensures NextUnit(s, p) == if s[p + n + 1] == 0 then Data(0xff, p + n + 2) else Marker(s[p + n + 1], p + n + 2)
  {
    FillSkipped(s, p + 1, n);
  }

  /** The first data byte of stuffed data, and where the rest stands. */
  lemma StuffedFirst(head: seq<byte>, d: seq<byte>, fill: seq<nat>, tail: seq<byte>) returns (front: seq<byte>)
    requires |d| == |fill| > 0
    ensures head + Stuffed(d, fill) + tail == front + Stuffed(d[1..], fill[1..]) + tail
    ensures NextUnit(head + Stuffed(d, fill) + tail, |head|) == Data(d[0], |front|)
  {
    var s := head + Stuffed(d, fill) + tail;
    var unit := if d[0] == 0xff then [0xff] + Fill(fill[0]) + [0] else [d[0]];
    front := head + unit;
    assert s == front + Stuffed(d[1..], fill[1..]) + tail;
    assert s[|head|] == unit[0] == d[0];
    if d[0] == 0xff {
      var n := fill[0];
      assert s[|head|..|head| + n + 2] == unit;
      assert s[|head| + 1..|head| + 1 + n] == unit[1..1 + n] == Fill(n);
      assert s[|head| + n + 1] == unit[n + 1];
      UnitAfterFill(s, |head|, n);
    }
  }

  /** Reading undoes stuffing, whatever the fill bytes and whatever follows; and after the data the bytes are those of
      what follows. */
  lemma {:induction false} StuffedRead(head: seq<byte>, d: seq<byte>, fill: seq<nat>, tail: seq<byte>, k: nat)
    requires |d| == |fill|
    ensures ScanByte(head + Stuffed(d, fill) + tail, |head|, false, k) ==
            if k < |d| then d[k] else ScanByte(head + Stuffed(d, fill) + tail, |head + Stuffed(d, fill)|, false, k - |d|)
    decreases |d|
  {
    hide SkipFill, NextUnit;
    if |d| == 0 {
      assert head + Stuffed(d, fill) == head;
    } else {
      var s := head + Stuffed(d, fill) + tail;
      var front := StuffedFirst(head, d, fill, tail);
      assert |front + Stuffed(d[1..], fill[1..])| == |s| - |tail| == |head + Stuffed(d, fill)|;
      if k > 0 {
        StuffedRead(front, d[1..], fill[1..], tail, k - 1);
      }
    }
  }

  /** A marker ends the data: only zeros come after it, whatever follows. */
  lemma StuffedEnd(head: seq<byte>, d: seq<byte>, fill: seq<nat>, n: nat, code: byte, tail: seq<byte>, k: nat)
    requires |d| == |fill| && code != 0 && code != 0xff
    ensures var s := head + Stuffed(d, fill) + ([0xff] + Fill(n) + [code] + tail);
      && NextUnit(s, |head + Stuffed(d, fill)|) == Marker(code, |s| - |tail|)
      && ScanByte(s, |head|, false, k) == if k < |d| then d[k] else 0
  {
    hide SkipFill, Stuffed;
    var front, end := head + Stuffed(d, fill), [0xff] + Fill(n) + [code];
    var s := front + (end + tail);
    assert s[|front|..|front| + n + 2] == end;
    assert s[|front| + 1..|front| + 1 + n] == end[1..1 + n] == Fill(n);
    assert s[|front|] == end[0] && s[|front| + n + 1] == end[n + 1];
    UnitAfterFill(s, |front|, n);
    StuffedRead(head, d, fill, end + tail, k);
  }

  lemma ScanNumberNext(s: seq<byte>, p: nat, ended: bool, n: nat)
    requires n > 0
    ensures ScanNumber(s, p, ended, n) == 256 * ScanNumber(s, p, ended, n - 1) + ScanByte(s, p, ended, n - 1)
  {
  }

  lemma LowByte(v: nat, x: byte)
    ensures (256 * v + x) / 1 % 256 == x
  {
  }

  lemma LastByte(v: nat, x: byte, d: nat)
    requires d > 0
    ensures (256 * v + x) / (256 * d) == v / d
  {
    DivDiv(256 * v + x, 256, d);
  }

  /** In the number that the first n bytes form, byte i stands above the n - 1 - i bytes after it. */
  lemma {:induction false} ScanNumberAt(s: seq<byte>, p: nat, ended: bool, n: nat, i: nat)
    requires i < n
    ensures ScanNumber(s, p, ended, n) / Pow2(8 * (n - 1 - i)) % 256 == ScanByte(s, p, ended, i)
    decreases n
  {
    hide ScanByte, ScanNumber, Pow2;
    var v, x := ScanNumber(s, p, ended, n - 1), ScanByte(s, p, ended, n - 1);
    ScanNumberNext(s, p, ended, n);
    assert Pow2(0) == 1 && Pow2(8) == 256 by {
      Pow2Values();
    }
    if i == n - 1 {
      LowByte(v, x);
    } else {
      ScanNumberAt(s, p, ended, n - 1, i);
      Pow2Add(8, 8 * (n - 2 - i));
      LastByte(v, x, Pow2(8 * (n - 2 - i)));
    }
  }

  /** Two places from which the same bytes come, n bytes on. */
  ghost predicate SameScan(s: seq<byte>, p: nat, ended: bool, n: nat, p': nat, ended': bool)
  {
    forall k: nat :: ScanByte(s, p', ended', k) == ScanByte(s, p, ended, n + k)
  }

  lemma SameScanStart(s: seq<byte>, p: nat, ended: bool)
    ensures SameScan(s, p, ended, 0, p, ended)
  {
  }

  /** One byte on. */
  lemma SameScanData(s: seq<byte>, p: nat, ended: bool, n: nat, p1: nat)
    requires SameScan(s, p, ended, n, p1, false) && NextUnit(s, p1).Data?
    ensures ScanByte(s, p, ended, n) == NextUnit(s, p1).b && SameScan(s, p, ended, n + 1, NextUnit(s, p1).next, false)
  {
    var u := NextUnit(s, p1);
    assert ScanByte(s, p1, false, 0) == ScanByte(s, p, ended, n + 0);
    forall k: nat ensures ScanByte(s, u.next, false, k) == ScanByte(s, p, ended, n + 1 + k) {
      assert ScanByte(s, p1, false, k + 1) == ScanByte(s, p, ended, n + (k + 1));
    }
  }

  lemma SameScanEnded(s: seq<byte>, p: nat, ended: bool, n: nat, p1: nat)
    requires SameScan(s, p, ended, n, p1, true)
    ensures ScanByte(s, p, ended, n) == 0 && SameScan(s, p, ended, n + 1, p1, true)
  {
    assert ScanByte(s, p1, true, 0) == ScanByte(s, p, ended, n + 0);
    forall k: nat ensures ScanByte(s, p1, true, k) == ScanByte(s, p, ended, n + 1 + k) {
      assert ScanByte(s, p1, true, k + 1) == ScanByte(s, p, ended, n + (k + 1));
    }
  }

  lemma SameScanMarker(s: seq<byte>, p: nat, ended: bool, n: nat, p1: nat)
    requires SameScan(s, p, ended, n, p1, false) && NextUnit(s, p1).Marker?
    ensures SameScan(s, p, ended, n, NextUnit(s, p1).next, true)
  {
    forall k: nat ensures ScanByte(s, NextUnit(s, p1).next, true, k) == ScanByte(s, p, ended, n + k) {
      assert ScanByte(s, p1, false, k) == ScanByte(s, p, ended, n + k);
    }
  }

  // ---------------------------------------------------------------- the buffer

  /** A 32-bit buffer with its valid bits on top and zeros below. */
  datatype Buffer = Buffer(code: nat, bits: nat)

  ghost predicate Good(b: Buffer)
  {
    match b case Buffer(code, bits) => bits <= 32 && code < Pow2(32) && code % Pow2(32 - bits) == 0
  }

  /** One more byte below the valid bits. */
  function Put(b: Buffer, x: byte): Buffer
    requires b.bits <= 24
  {
    MulMono(0, x, Pow2(24 - b.bits));
    Buffer(b.code + x * Pow2(24 - b.bits), b.bits + 8)
  }

  /** b with the next n data bytes of the scan after its valid bits. */
  ghost predicate Filled(s: seq<byte>, p: nat, ended: bool, b: Buffer, n: nat, r: Buffer)
  {
    && Good(r) && r.bits == b.bits + 8 * n
    && r.code == b.code + ScanNumber(s, p, ended, n) * Pow2(32 - r.bits)
  }

  /** A multiple of 256 * d below top * 256 * d, and a byte times d: a multiple of d below the same bound. */
  lemma AddBelow(q: nat, top: nat, d: nat, x: byte)
    requires q < top && d > 0
    ensures q * (256 * d) + x * d == (q * 256 + x) * d < top * (256 * d)
  {
    MulAssoc(q, 256, d);
    MulAdd(q * 256, x, d);
    MulMono(x, 255, d);
    MulMono(q + 1, top, 256 * d);
    MulAdd(q, 1, 256 * d);
  }

  /** One more byte keeps the buffer well-formed. */
  lemma AddByte(code: nat, bits: nat, x: byte)
    requires bits <= 24 && Good(Buffer(code, bits))
    ensures Good(Put(Buffer(code, bits), x))
  {
    hide Pow2;
    var d, m := Pow2(24 - bits), Pow2(32 - bits);
    Pow2Add(8, 24 - bits);
    Pow2Values();
    Pow2Add(bits, 32 - bits);
    DivModDef(code, m);
    DivNat(code, m);
    var q := code / m;
    if q >= Pow2(bits) {
      MulMono(Pow2(bits), q, m);
    } else {
      AddBelow(q, Pow2(bits), d, x);
      MulMono(0, q * 256 + x, d);
      DivMod(code + x * d, d, q * 256 + x, 0);
    }
  }

  lemma ByteBelow(v: nat, x: byte, d: nat)
    ensures v * (256 * d) + x * d == (256 * v + x) * d
  {
    MulAssoc(v, 256, d);
    MulAssoc(256, v, d);
    MulAdd(256 * v, x, d);
  }

  /** One more byte in the buffer. */
  lemma FilledOn(s: seq<byte>, p: nat, ended: bool, b: Buffer, n: nat, r: Buffer)
    requires Filled(s, p, ended, b, n, r) && r.bits <= 24
    ensures Filled(s, p, ended, b, n + 1, Put(r, ScanByte(s, p, ended, n)))
  {
    hide ScanByte, Pow2, Good;
    var x, d := ScanByte(s, p, ended, n), Pow2(24 - r.bits);
    AddByte(r.code, r.bits, x);
    Pow2Add(8, 24 - r.bits);
    Pow2Values();
    var v := ScanNumber(s, p, ended, n);
    assert ScanNumber(s, p, ended, n + 1) == 256 * v + x;
    ByteBelow(v, x, d);
  }

  /** stbi__jpeg's buffer and where it reads. */
  class Reader {
    const input: seq<byte>
    var pos: nat
    var nomore: bool
    var marker: byte
    var codeBuffer: nat
    var codeBits: int

    constructor (input: seq<byte>)
      ensures this.input == input && pos == 0 && !nomore && codeBuffer == 0 && codeBits == 0
    {
      this.input := input;
      pos, nomore, marker, codeBuffer, codeBits := 0, false, 0xff, 0, 0;
    }

    /** The valid bits, as long as decoding has not failed. */
    ghost predicate Valid()
      reads this
    {
      0 <= codeBits && Good(Buffer(codeBuffer, codeBits))
    }

    ghost function View(): Buffer
      requires Valid()
      reads this
    {
      Buffer(codeBuffer, codeBits)
    }

    /** The byte just read is a marker's code. */
    ghost predicate MarkerRead()
      reads this
    {
      pos >= 2 && ByteAt(input, pos - 2) == 0xff && marker == ByteAt(input, pos - 1) && marker != 0 && marker != 0xff
    }

    /** stbi__get8. */
    method Get8() returns (b: byte)
      modifies this`pos
      ensures b == ByteAt(input, old(pos)) && pos == old(pos) + 1
    {
      b := ByteAt(input, pos);
      pos := pos + 1;
    }

    /** Lines 2078-2087 before the end of the scan: the next data byte, or the marker that ends the scan. */
    method NextByte() returns (b: byte)
      requires !nomore
      modifies this`pos, this`nomore, this`marker
      ensures var u := NextUnit(input, old(pos));
        pos == u.next && if u.Data? then !nomore && b == u.b && marker == old(marker) else nomore && marker == u.code
      ensures nomore ==> MarkerRead()
    {
      b := Get8();
      if b == 0xff {
        ghost var q := SkipFill(input, pos);
        var c := Get8();
        while c == 0xff
          invariant !nomore && marker == old(marker)
          invariant pos > 1 && ByteAt(input, pos - 2) == 0xff
          invariant c == ByteAt(input, pos - 1) && SkipFill(input, pos - 1) == q
          decreases if pos < |input| + 1 then |input| + 1 - pos else 0
        {
          c := Get8();
        }
        if c != 0 {
          marker, nomore := c, true;
        }
      }
    }

    /** stbi__grow_buffer_unsafe: n more data bytes of the scan come after the valid bits, so many that more than 24 bits
        are valid or a marker ends the scan; nothing is lost. */
    method GrowBuffer() returns (ghost n: nat)
      requires Valid() && codeBits <= 24
      modifies this
      ensures Valid() && Filled(input, old(pos), old(nomore), old(View()), n, View())
      ensures SameScan(input, old(pos), old(nomore), n, pos, nomore)
      ensures codeBits <= 24 ==> nomore && !old(nomore)
      ensures if nomore == old(nomore) then marker == old(marker) else nomore && MarkerRead()
    {
      hide Filled, SameScan, ScanByte, Pow2, Good;
      n := 0;
      ghost var b, p, ended := View(), pos, nomore;
      SameScanStart(input, pos, nomore);
      StartFilled(input, pos, nomore, b);
      while codeBits <= 24
        invariant Valid() && Filled(input, p, ended, b, n, View()) && SameScan(input, p, ended, n, pos, nomore)
        invariant nomore == ended && marker == old(marker)
        decreases 32 - codeBits
      {
        var before := nomore;
        var x := Fetch(p, ended, n);
        if nomore != before { return; }
        FilledOn(input, p, ended, b, n, View());
        FilledGood(input, p, ended, b, n + 1, Put(View(), x));
        codeBuffer, codeBits := codeBuffer + x * Pow2(24 - codeBits), codeBits + 8;
        n := n + 1;
      }
    }

    /** Lines 2078-2087: the next data byte of the scan, 0 after its end, or the end of the scan. */
    method Fetch(ghost p: nat, ghost ended: bool, ghost n: nat) returns (x: byte)
      requires SameScan(input, p, ended, n, pos, nomore)
      modifies this`pos, this`nomore, this`marker
      ensures old(nomore) ==> nomore
      ensures nomore && !old(nomore) ==> MarkerRead()
      ensures if nomore == old(nomore) then
          x == ScanByte(input, p, ended, n) && SameScan(input, p, ended, n + 1, pos, nomore) && marker == old(marker)
        else SameScan(input, p, ended, n, pos, nomore)
    {
      hide SameScan, ScanByte;
      x := 0;
      ghost var at := pos;
      if nomore {
        SameScanEnded(input, p, ended, n, at);
      } else {
        x := NextByte();
        if nomore {
          SameScanMarker(input, p, ended, n, at);
        } else {
          SameScanData(input, p, ended, n, at);
        }
      }
    }
  }

  lemma StartFilled(s: seq<byte>, p: nat, ended: bool, b: Buffer)
    requires Good(b)
    ensures Filled(s, p, ended, b, 0, b)
  {
  }

  lemma FilledGood(s: seq<byte>, p: nat, ended: bool, b: Buffer, n: nat, r: Buffer)
    requires Filled(s, p, ended, b, n, r)
    ensures Good(r)
  {
  }
}
