/** The numbers that RFC 1951 fixes, and the two operations on bytes and lengths that it defines:
    shared by the format and by the decoder. */
module DeflateTables {
  import opened Bits
  import opened Canonical

  /** Extra bits of length symbol 257 + z, and the first length it stands for (section 3.2.5 of
      RFC 1951): each symbol's range starts where the one before ends, except that 285 is 258. */
  function LenExtra(z: nat): (n: nat)
    ensures z < 29 ==> n <= 5
  {
    if z < 8 || z >= 28 then 0 else z / 4 - 1
  }

  function LenBase(z: nat): (n: nat)
    ensures n >= 3
  {
    if z == 0 then 3 else if z == 28 then 258 else LenBase(z - 1) + Pow2(LenExtra(z - 1))
  }

  function DstExtra(z: nat): (n: nat)
    ensures z < 30 ==> n <= 13
  {
    if z < 4 then 0 else z / 2 - 1
  }

  function DstBase(z: nat): (n: nat)
    ensures n >= 1
  {
    if z == 0 then 1 else DstBase(z - 1) + Pow2(DstExtra(z - 1))
  }

  /** The order in which a dynamic block gives the code-length alphabet's lengths (section 3.2.7
      of RFC 1951): 16, 17, 18, 0, then outward from 8. */
  function ClOrder(i: nat): (k: nat)
    ensures i < 19 ==> k < 19
  {
    if i < 3 then 16 + i else if i == 3 then 0 else if i % 2 == 0 then i / 2 + 6 else if i < 19 then 9 - i / 2 else 0
  }

  /** Where symbol k comes in that order. */
  function ClPos(k: nat): (i: nat)
  {
    if k >= 16 then k - 16 else if k == 0 then 3 else if k >= 8 then 2 * k - 12 else 19 - 2 * k
  }

  lemma ClOrderInverse(i: nat)
    requires i < 19
    ensures ClPos(ClOrder(i)) == i && ClPos(i) < 19 && ClOrder(ClPos(i)) == i
  {
  }

  /** The fixed code lengths (section 3.2.6 of RFC 1951). */
  function FixedLit(): (r: seq<nat>)
    ensures |r| == 288
  {
    seq(288, i => if i <= 143 then 8 else if i <= 255 then 9 else if i <= 279 then 7 else 8)
  }

  function FixedDist(): (r: seq<nat>)
    ensures |r| == 32
  {
    seq(32, i => 5)
  }

  function RepeatBits(z: nat): (n: nat)
    ensures n <= 7
  {
    if z == 16 then 2 else if z == 17 then 3 else 7
  }

  function RepeatBase(z: nat): (n: nat)
    ensures n > 0
  {
    if z == 18 then 11 else 3
  }

  // ---------------------------------------------------------------- runs, copies and byte boundaries

  /** The code-length alphabet's lengths, from those given, in the order of ClOrder. */
  function ClFrom(cls: seq<nat>): (r: seq<nat>)
    ensures |r| == 19
  {
    seq(19, k requires 0 <= k < 19 => if ClPos(k) < |cls| then cls[ClPos(k)] else 0)
  }

  lemma ClFromSmall(cls: seq<nat>)
    requires forall i | 0 <= i < |cls| :: cls[i] < 8
    ensures Lengths(ClFrom(cls))
  {
  }

  function Repeat(x: nat, n: nat): (r: seq<nat>)
    ensures |r| == n && forall i | 0 <= i < n :: r[i] == x
  {
    seq(n, i => x)
  }

  /** Append len bytes, each the one dist back. */
  function Copy(out: seq<byte>, dist: nat, len: nat): (r: seq<byte>)
    requires 1 <= dist <= |out|
    ensures |r| == |out| + len
    decreases len
  {
    if len == 0 then out else Copy(out + [out[|out| - dist]], dist, len - 1)
  }

  /** What is there stays, and every new byte is the one dist before it, which may itself be new. */
  lemma {:induction false} CopyIs(out: seq<byte>, dist: nat, len: nat)
    requires 1 <= dist <= |out|
    ensures Copy(out, dist, len)[..|out|] == out
    ensures forall k | |out| <= k < |out| + len :: Copy(out, dist, len)[k] == Copy(out, dist, len)[k - dist]
    decreases len
  {
    if len == 0 {
    } else {
      var o := out + [out[|out| - dist]];
      CopyIs(o, dist, len - 1);
      var r := Copy(out, dist, len);
      assert r[..|o|][..|out|] == r[..|out|];
      assert r[|out|] == r[..|o|][|out|] && r[|out| - dist] == r[..|o|][|out| - dist];
    }
  }

  /** The first byte that starts at or after bit pos. */
  function ByteUp(pos: nat): (b: nat)
    ensures 8 * b < pos + 8 && pos <= 8 * b
  {
    if pos == 0 then 0 else if pos <= 8 then 1 else 1 + ByteUp(pos - 8)
  }
}
