/** stbi__create_png_image_raw: from inflated data to pixels. */
module PngImage {
  import opened Bits
  import opened PngFilter
  import opened PngSamples
  import opened Chunks

  // ---------------------------------------------------------------- pixels

  /** Channels in the file and in memory, bits per sample, and the colour type (0 is greyscale). */
  datatype Format = Format(imgN: nat, outN: nat, depth: nat, color: nat)
  {
    /** An alpha channel is only ever added to one or three channels. */
    predicate Ok()
    {
      && 1 <= imgN <= 4 && (outN == imgN || (outN == imgN + 1 && (imgN == 1 || imgN == 3)))
      && Depth(depth)
    }

    function Width(x: nat): nat
      requires Ok()
    {
      RowBytes(Times(x, imgN), depth)
    }

    /** The bytes from one pixel to the same byte of the next, rounded up to 1 (section 9.2 of the PNG specification). */
    function Bpp(): (b: nat)
      requires Ok()
      ensures b > 0 && (depth >= 8 ==> 8 * b == imgN * depth) && (depth < 8 ==> b == 1)
    {
      if depth == 16 then 2 * imgN else if depth == 8 then imgN else 1
    }

    /** The bytes of a pixel of the output. */
    function OutBytes(): (n: nat)
      requires Ok()
      ensures n > 0 && 8 * n == outN * if depth < 8 then 8 else depth
    {
      if depth == 16 then 2 * outN else outN
    }
  }

  type PixelFormat = f: Format | f.Ok() witness Format(1, 1, 8, 0)

  type Pixel = seq<u16>

  /** From whole bytes on, a row is that many bytes for each of its pixels, and they hold just the pixel's channels. */
  lemma BppIs(f: PixelFormat, x: nat, i: nat, c: nat)
    requires f.depth >= 8 && i < x && c < f.imgN
    ensures f.Width(x) == x * f.Bpp()
    ensures 8 * (i * f.Bpp()) <= (i * f.imgN + c) * f.depth && (i * f.imgN + c + 1) * f.depth <= 8 * ((i + 1) * f.Bpp())
  {
    TimesIs(x, f.imgN);
    var n, d := f.imgN, f.depth;
    MulAssoc(x, n, 2);
    MulAssoc(i, n, d);
    MulAssoc(i, 8, f.Bpp());
    MulAssoc(8, i, f.Bpp());
    assert 8 * (i * f.Bpp()) == i * (n * d) == i * n * d;
    MulAdd(i * n, c, d);
    MulAdd(i * n, c + 1, d);
    MulMono(0, c, d);
    MulMono(c + 1, n, d);
    MulAdd(i, 1, f.Bpp());
  }

  /** Pixel i of a row: its samples at full range, and an opaque alpha sample if one is added. */
  function PixelOf(row: seq<byte>, i: nat, f: PixelFormat): (p: Pixel)
    requires Enough(row, f.depth, Times(i + 1, f.imgN))
    ensures |p| == f.outN
  {
    Samples(row, Times(i + 1, f.imgN), f.depth, f.color)[Times(i, f.imgN)..] +
    (if f.outN == f.imgN then [] else [Opaque(f.depth)])
  }

  /** The first x pixels of a row. */
  function RowPixels(row: seq<byte>, x: nat, f: PixelFormat): (r: seq<Pixel>)
    requires Enough(row, f.depth, Times(x, f.imgN))
    ensures |r| == x
  {
    if x == 0 then []
    else
      EnoughFor(row, f.depth, Times(x - 1, f.imgN), Times(x, f.imgN));
      RowPixels(row, x - 1, f) + [PixelOf(row, x - 1, f)]
  }

  /** Rows of w bytes have x pixels. */
  predicate AllRows(rows: seq<seq<byte>>, x: nat, f: PixelFormat)
  {
    forall j | 0 <= j < |rows| :: Enough(rows[j], f.depth, Times(x, f.imgN))
  }

  /** The pixels of an image of x by |rows|. */
  function ImagePixels(rows: seq<seq<byte>>, x: nat, f: PixelFormat): (r: seq<Pixel>)
    requires AllRows(rows, x, f)
  {
    if |rows| == 0 then [] else ImagePixels(rows[..|rows| - 1], x, f) + RowPixels(rows[|rows| - 1], x, f)
  }

  // ---------------------------------------------------------------- a row, flat

  lemma {:induction false} SamplesPrefix(row: seq<byte>, n: nat, m: nat, depth: nat, color: nat)
    requires n <= m && Enough(row, depth, m)
    ensures Enough(row, depth, n) && Samples(row, m, depth, color)[..n] == Samples(row, n, depth, color)
    ensures n > 0 ==> Samples(row, m, depth, color)[n - 1] == Scaled(depth, color, Sample(row, depth, n - 1))
    decreases m
  {
    if n >= m {
    } else {
      EnoughFor(row, depth, m - 1, m);
      SamplesPrefix(row, n, m - 1, depth, color);
    }
  }

  /** A row's samples are those of the pixels before the last, then the last's. */
  lemma LastPixel(row: seq<byte>, x: nat, f: PixelFormat)
    requires x > 0 && Enough(row, f.depth, Times(x, f.imgN))
    ensures Enough(row, f.depth, Times(x - 1, f.imgN))
    ensures var t := Samples(row, Times(x, f.imgN), f.depth, f.color);
      && t[..Times(x - 1, f.imgN)] == Samples(row, Times(x - 1, f.imgN), f.depth, f.color)
      && PixelOf(row, x - 1, f) == t[Times(x - 1, f.imgN)..] + (if f.outN == f.imgN then [] else [Opaque(f.depth)])
      && t == t[..Times(x - 1, f.imgN)] + t[Times(x - 1, f.imgN)..]
  {
    SamplesPrefix(row, Times(x - 1, f.imgN), Times(x, f.imgN), f.depth, f.color);
  }

  /** Without an added channel a row is its samples. */
  lemma {:induction false} FlatSamples(row: seq<byte>, x: nat, f: PixelFormat)
    requires Enough(row, f.depth, Times(x, f.imgN)) && f.outN == f.imgN
    ensures Flat(RowPixels(row, x, f)) == Samples(row, Times(x, f.imgN), f.depth, f.color)
    decreases x
  {
    hide Enough, Samples, PixelOf, Opaque;
    if x == 0 {
    } else {
      LastPixel(row, x, f);
      FlatSamples(row, x - 1, f);
      FlatSnoc(RowPixels(row, x - 1, f), PixelOf(row, x - 1, f));
    }
  }

  lemma {:induction false} FlatAlpha1(row: seq<byte>, x: nat, f: PixelFormat)
    requires Enough(row, f.depth, x) && f.imgN == 1 && f.outN == 2 && Times(x, 1) == x
    ensures Flat(RowPixels(row, x, f)) == AddAlpha1(Samples(row, x, f.depth, f.color), Opaque(f.depth))
    decreases x
  {
    hide Enough, Times, AddAlpha1, Samples, Opaque, PixelOf;
    TimesOf(x);
    if x == 0 {
    } else {
      TimesOf(x - 1);
      LastPixel(row, x, f);
      FlatAlpha1(row, x - 1, f);
      Alpha1Snoc(Samples(row, x, f.depth, f.color), Opaque(f.depth));
    }
  }

  lemma Alpha1Snoc(t: seq<u16>, a: u16)
    requires |t| > 0
    ensures AddAlpha1(t, a) == AddAlpha1(t[..|t| - 1], a) + (t[|t| - 1..] + [a])
  {
  }

  lemma {:induction false} FlatAlpha3(row: seq<byte>, x: nat, f: PixelFormat)
    requires Enough(row, f.depth, 3 * x) && f.imgN == 3 && f.outN == 4 && Times(x, 3) == 3 * x
    ensures Flat(RowPixels(row, x, f)) == AddAlpha3(Samples(row, 3 * x, f.depth, f.color), Opaque(f.depth))
    decreases x
  {
    TimesOf(x);
    if x == 0 {
    } else {
      TimesOf(x - 1);
      LastPixel(row, x, f);
      FlatAlpha3(row, x - 1, f);
      Alpha3Snoc(Samples(row, 3 * x, f.depth, f.color), x, Opaque(f.depth));
    }
  }

  lemma Alpha3Snoc(t: seq<u16>, x: nat, a: u16)
    requires |t| == 3 * x > 0
    ensures AddAlpha3(t, a) == AddAlpha3(t[..3 * (x - 1)], a) + (t[3 * (x - 1)..] + [a])
  {
  }

  // ---------------------------------------------------------------- writing a row

  /** Samples as they go into memory: with an alpha channel, or as they are. */
  function Widened(t: seq<u16>, f: PixelFormat): (r: seq<u16>)
  {
    if f.outN == f.imgN then t else if f.imgN == 1 then AddAlpha1(t, Opaque(f.depth)) else AddAlpha3(t, Opaque(f.depth))
  }

  /** The samples of a row in memory. */
  function RowOut(row: seq<byte>, x: nat, f: PixelFormat): (r: seq<u16>)
    requires Enough(row, f.depth, Times(x, f.imgN))
  {
    Widened(Samples(row, Times(x, f.imgN), f.depth, f.color), f)
  }

  lemma RowOutIs(row: seq<byte>, x: nat, f: PixelFormat)
    requires Enough(row, f.depth, Times(x, f.imgN))
    ensures RowOut(row, x, f) == Flat(RowPixels(row, x, f))
  {
    TimesOf(x);
    if f.outN == f.imgN {
      FlatSamples(row, x, f);
    } else if f.imgN == 1 {
      FlatAlpha1(row, x, f);
    } else {
      FlatAlpha3(row, x, f);
    }
  }

  /** Samples of whole bytes are the bytes. */
  lemma {:induction false} ByteSamples(row: seq<byte>, n: nat, color: nat)
    requires n <= |row|
    ensures Samples(row, n, 8, color) == row[..n]
    decreases n
  {
    if n == 0 {
    } else {
      ByteSamples(row, n - 1, color);
    }
  }

  /** Lines 4789-4852: expand it to samples at out[at..]. */
  method WriteRow(out: array<u16>, at: nat, buf: array<u16>, cur: nat, x: nat, f: PixelFormat, ghost row: seq<byte>)
    requires out != buf && Enough(row, f.depth, Times(x, f.imgN)) && at + Times(x, f.outN) <= out.Length
    requires cur + |row| <= buf.Length && buf[cur..cur + |row|] == row
    modifies out
    ensures out[..at] == old(out[..at])
    ensures out[at..at + Times(x, f.outN)] == Flat(RowPixels(row, x, f))
  {
    RowOutIs(row, x, f);
    if f.depth < 8 {
      WriteSubByte(out, at, buf, cur, x, f, row);
    } else if f.depth == 8 {
      WriteBytes(out, at, buf, cur, x, f, row);
    } else {
      WriteWords(out, at, buf, cur, x, f, row);
    }
  }

  method WriteSubByte(out: array<u16>, at: nat, buf: array<u16>, cur: nat, x: nat, f: PixelFormat, ghost row: seq<byte>)
    requires out != buf && Enough(row, f.depth, Times(x, f.imgN)) && at + Times(x, f.outN) <= out.Length
    requires cur + |row| <= buf.Length && buf[cur..cur + |row|] == row && f.depth < 8
    modifies out
    ensures out[..at] == old(out[..at])
    ensures out[at..at + Times(x, f.outN)] == RowOut(row, x, f)
  {
    var n := Times(x, f.imgN);
    WidthGrows(x, f);
    UnpackRow(out, at, buf, cur, n, f.depth, f.color, row);
    if f.imgN != f.outN {
      Expand(out, at, out, at, x, f, Samples(row, n, f.depth, f.color));
    }
  }

  lemma WidthGrows(x: nat, f: PixelFormat)
    ensures Times(x, f.imgN) <= Times(x, f.outN)
  {
    TimesOf(x);
  }

  /** stbi__create_png_alpha_expand8. */
  method Expand(out: array<u16>, at: nat, src: array<u16>, from: nat, x: nat, f: PixelFormat, ghost t: seq<u16>)
    requires (out != src || at == from) && |t| == Times(x, f.imgN) && at + Times(x, f.outN) <= out.Length
    requires from + |t| <= src.Length && src[from..from + |t|] == t && f.depth <= 8 && f.imgN != f.outN
    modifies out
    ensures out[..at] == old(out[..at])
    ensures out[at..at + Times(x, f.outN)] == Widened(t, f)
  {
    TimesOf(x);
    if f.imgN == 1 {
      AlphaExpand1(out, at, src, from, x);
    } else {
      AlphaExpand3(out, at, src, from, x);
    }
  }

  method WriteBytes(out: array<u16>, at: nat, buf: array<u16>, cur: nat, x: nat, f: PixelFormat, ghost row: seq<byte>)
    requires out != buf && Enough(row, f.depth, Times(x, f.imgN)) && at + Times(x, f.outN) <= out.Length
    requires cur + |row| <= buf.Length && buf[cur..cur + |row|] == row && f.depth == 8
    modifies out
    ensures out[..at] == old(out[..at])
    ensures out[at..at + Times(x, f.outN)] == RowOut(row, x, f)
  {
    var n := Times(x, f.imgN);
    ByteSamples(row, n, f.color);
    assert buf[cur..cur + n] == row[..n];
    if f.imgN == f.outN {
      CopySamples(out, at, buf, cur, n);
    } else {
      Expand(out, at, buf, cur, x, f, row[..n]);
    }
  }

  method CopySamples(out: array<u16>, at: nat, src: array<u16>, from: nat, n: nat)
    requires out != src && at + n <= out.Length && from + n <= src.Length
    modifies out
    ensures out[..at] == old(out[..at]) && out[at..at + n] == src[from..from + n]
  {
    var i := 0;
    while i < n
      invariant 0 <= i <= n && out[..at] == old(out[..at]) && out[at..at + i] == src[from..from + i]
    {
      PutSample(out, at, i, src[from + i]);
      i := i + 1;
    }
  }

  /** Two bytes as a 16-bit sample. */
  method Word(buf: array<u16>, cur: nat, i: nat, color: nat, ghost row: seq<byte>) returns (v: u16)
    requires cur + |row| <= buf.Length && buf[cur..cur + |row|] == row && Enough(row, 16, i + 1)
    ensures v == Scaled(16, color, Sample(row, 16, i))
  {
    assert buf[cur + 2 * i] == buf[cur..cur + |row|][2 * i] && buf[cur + 2 * i + 1] == buf[cur..cur + |row|][2 * i + 1];
    v := buf[cur + 2 * i] * 256 + buf[cur + 2 * i + 1];
  }

  method WriteWords(out: array<u16>, at: nat, buf: array<u16>, cur: nat, x: nat, f: PixelFormat, ghost row: seq<byte>)
    requires out != buf && Enough(row, f.depth, Times(x, f.imgN)) && at + Times(x, f.outN) <= out.Length
    requires cur + |row| <= buf.Length && buf[cur..cur + |row|] == row && f.depth == 16
    modifies out
    ensures out[..at] == old(out[..at])
    ensures out[at..at + Times(x, f.outN)] == RowOut(row, x, f)
  {
    if f.imgN == f.outN {
      WritePlainWords(out, at, buf, cur, Times(x, f.imgN), f.color, row);
    } else {
      RowOutIs(row, x, f);
      WriteWordPixels(out, at, buf, cur, x, f, row);
      assert out[..][..at] == out[..at];
      assert out[..][at..at + Times(x, f.outN)] == out[at..at + Times(x, f.outN)];
    }
  }

  /** What the loop over pixels keeps: i pixels, m samples. */
  datatype PixelLoop = PixelLoop(i: nat, m: nat, out: seq<u16>)

  ghost predicate Writing(row: seq<byte>, at: nat, x: nat, f: PixelFormat, before: seq<u16>, s: PixelLoop)
  {
    match s
    case PixelLoop(i, m, out) =>
      && i <= x && at + m + Times(x - i, f.outN) <= |out| && m == Times(i, f.outN)
      && Enough(row, f.depth, Times(i, f.imgN)) && out[..at] == before && out[at..at + m] == Flat(RowPixels(row, i, f))
  }

  lemma WritingStart(row: seq<byte>, at: nat, x: nat, f: PixelFormat, before: seq<u16>, s: PixelLoop)
    requires Enough(row, f.depth, Times(x, f.imgN)) && at + Times(x, f.outN) <= |s.out| && s.out[..at] == before
    requires s.i == 0 && s.m == 0
    ensures Writing(row, at, x, f, before, s) && Times(s.i, f.outN) == 0
  {
  }

  lemma TimesNext(i: nat, d: nat)
    ensures Times(i + 1, d) == Times(i, d) + d
  {
  }

  lemma WritingOn(row: seq<byte>, at: nat, x: nat, f: PixelFormat, before: seq<u16>, s: PixelLoop, out: seq<u16>)
    requires Writing(row, at, x, f, before, s) && s.i < x && Enough(row, f.depth, Times(x, f.imgN)) && |out| == |s.out|
    ensures at + s.m + f.outN <= |out| && Enough(row, f.depth, Times(s.i + 1, f.imgN))
    ensures out[..at] == before && out[at..at + s.m + f.outN] == s.out[at..at + s.m] + PixelOf(row, s.i, f) ==>
      Writing(row, at, x, f, before, PixelLoop(s.i + 1, s.m + f.outN, out))
  {
    hide Enough, PixelOf, Flat, RowPixels;
    PixelsStep(row, s.i, x, f);
  }

  method WriteWordPixels(out: array<u16>, at: nat, buf: array<u16>, cur: nat, x: nat, f: PixelFormat, ghost row: seq<byte>)
    requires out != buf && Enough(row, f.depth, Times(x, f.imgN)) && at + Times(x, f.outN) <= out.Length
    requires cur + |row| <= buf.Length && buf[cur..cur + |row|] == row && f.depth == 16 && f.outN != f.imgN
    modifies out
    ensures Writing(row, at, x, f, old(out[..at]), PixelLoop(x, Times(x, f.outN), out[..]))
  {
    hide Writing, Times, Enough;
    var i, m: nat := 0, 0;
    ghost var before := out[..at];
    assert out[..][..at] == before;
    WritingStart(row, at, x, f, before, PixelLoop(i, m, out[..]));
    while i < x
      invariant 0 <= i <= x && m == Times(i, f.outN)
      invariant Writing(row, at, x, f, before, PixelLoop(i, m, out[..]))
    {
      TimesNext(i, f.outN);
      m := NextWordPixel(out, at, buf, cur, x, f, row, before, i, m);
      i := i + 1;
    }
  }

  method NextWordPixel(out: array<u16>, at: nat, buf: array<u16>, cur: nat, x: nat, f: PixelFormat, ghost row: seq<byte>,
                       ghost before: seq<u16>, i: nat, m: nat) returns (m': nat)
    requires out != buf && i < x && Enough(row, f.depth, Times(x, f.imgN)) && at <= out.Length
    requires cur + |row| <= buf.Length && buf[cur..cur + |row|] == row && f.depth == 16 && f.outN != f.imgN
    requires Writing(row, at, x, f, before, PixelLoop(i, m, out[..]))
    modifies out
    ensures m' == m + f.outN && Writing(row, at, x, f, before, PixelLoop(i + 1, m', out[..]))
  {
    hide Enough, Times, PixelOf;
    ghost var s := PixelLoop(i, m, out[..]);
    WritingOn(row, at, x, f, before, s, out[..]);
    WriteWordPixel(out, at, m, buf, cur, i, f, row);
    WritingOn(row, at, x, f, before, s, out[..]);
    m' := m + f.outN;
    assert out[..][..at] == out[..at];
    assert out[..][at..at + m'] == out[at..at + m'];
  }

  lemma PixelsStep(row: seq<byte>, i: nat, x: nat, f: PixelFormat)
    requires i < x && Enough(row, f.depth, Times(x, f.imgN))
    ensures Enough(row, f.depth, Times(i + 1, f.imgN)) && Enough(row, f.depth, Times(i, f.imgN))
    ensures Flat(RowPixels(row, i + 1, f)) == Flat(RowPixels(row, i, f)) + PixelOf(row, i, f)
  {
    TimesMono(i + 1, x, f.imgN);
    FlatSnoc(RowPixels(row, i, f), PixelOf(row, i, f));
  }

  method WritePlainWords(out: array<u16>, at: nat, buf: array<u16>, cur: nat, n: nat, color: nat, ghost row: seq<byte>)
    requires out != buf && Enough(row, 16, n) && at + n <= out.Length
    requires cur + |row| <= buf.Length && buf[cur..cur + |row|] == row
    modifies out
    ensures out[..at] == old(out[..at]) && out[at..at + n] == Samples(row, n, 16, color)
  {
    var i := 0;
    while i < n
      invariant 0 <= i <= n && out[..at] == old(out[..at]) && out[at..at + i] == Samples(row, i, 16, color)
    {
      var v := Word(buf, cur, i, color, row);
      PutSample(out, at, i, v);
      i := i + 1;
    }
  }

  /** One pixel of 16-bit samples, and its alpha, after the m samples before it. */
  method WriteWordPixel(out: array<u16>, at: nat, m: nat, buf: array<u16>, cur: nat, i: nat, f: PixelFormat,
                        ghost row: seq<byte>)
    requires out != buf && Enough(row, 16, Times(i + 1, f.imgN)) && at + m + f.outN <= out.Length
    requires cur + |row| <= buf.Length && buf[cur..cur + |row|] == row && f.depth == 16 && f.outN != f.imgN
    modifies out
    ensures out[..at] == old(out[..at])
    ensures out[at..at + m + f.outN] == old(out[at..at + m]) + PixelOf(row, i, f)
  {
    ghost var p, before := PixelOf(row, i, f), out[at..at + m];
    var n := Times(i, f.imgN);
    var c := 0;
    while c < f.imgN
      invariant 0 <= c <= f.imgN && out[..at] == old(out[..at])
      invariant out[at..at + m + c] == before + p[..c]
    {
      SamplesPrefix(row, n + c + 1, n + f.imgN, 16, f.color);
      var v := Word(buf, cur, n + c, f.color, row);
      PutSample(out, at, m + c, v);
      assert p[..c + 1] == p[..c] + [v];
      c := c + 1;
    }
    PutSample(out, at, m + c, 0xffff);
    assert p == p[..f.imgN] + [0xffff];
  }

  // ---------------------------------------------------------------- the image

  /** Rows of w bytes hold x pixels of n samples, and bpp bytes lie between corresponding bytes. */
  ghost predicate RowShape(f: PixelFormat, x: nat, w: nat, bpp: nat, n: nat)
  {
    && 0 < bpp <= w && n == Times(x, f.outN)
    && forall row: seq<byte> | |row| == w :: Enough(row, f.depth, Times(x, f.imgN))
  }

  lemma RowFits(f: PixelFormat, x: nat)
    requires x > 0
    ensures RowShape(f, x, f.Width(x), f.Bpp(), Times(x, f.outN))
  {
    TimesMono(1, x, f.imgN);
  }

  lemma ImageSnoc(rows: seq<seq<byte>>, row: seq<byte>, x: nat, f: PixelFormat)
    requires AllRows(rows, x, f) && Enough(row, f.depth, Times(x, f.imgN))
    ensures AllRows(rows + [row], x, f)
    ensures ImagePixels(rows + [row], x, f) == ImagePixels(rows, x, f) + RowPixels(row, x, f)
    ensures Flat(ImagePixels(rows + [row], x, f)) == Flat(ImagePixels(rows, x, f)) + Flat(RowPixels(row, x, f))
  {
    assert (rows + [row])[..|rows|] == rows;
    FlatConcat(ImagePixels(rows, x, f), RowPixels(row, x, f));
  }

  /** The rows still to come, after those done. */
  function Then(done: seq<seq<byte>>, rest: Option<seq<seq<byte>>>): Option<seq<seq<byte>>>
  {
    match rest
    case None => None
    case Some(r) => Some(done + r)
  }

  lemma ThenStep(raw: seq<byte>, w: nat, bpp: nat, prior: seq<byte>, y: nat, done: seq<seq<byte>>)
    requires bpp > 0 && y > 0 && |raw| >= w + 1
    ensures raw[0] > 4 ==> Then(done, Rows(raw, w, bpp, prior, y)) == None
    ensures raw[0] <= 4 ==>
      var row := Recon(raw[0], bpp, prior, raw[1..w + 1], w);
      Then(done, Rows(raw, w, bpp, prior, y)) == Then(done + [row], Rows(raw[w + 1..], w, bpp, row, y - 1))
  {
    if raw[0] <= 4 {
      var row := Recon(raw[0], bpp, prior, raw[1..w + 1], w);
      var rest := Rows(raw[w + 1..], w, bpp, row, y - 1);
      if rest.Some? {
        assert done + ([row] + rest.value) == done + [row] + rest.value;
      }
    }
  }

  /** Row j's place in the two-line buffer, and that of the row before. */
  function Line(j: nat, w: nat): nat
  {
    if j % 2 == 0 then 0 else w
  }

  /** Each row's line is the other one than the next row's and the same as that of the row after the next. */
  lemma LinesApart(j: nat, w: nat)
    ensures Line(j, w) + Line(j + 1, w) == w && (Line(j, w) == 0 || Line(j, w) == w)
    ensures j > 0 ==> Line(j - 1, w) == Line(j + 1, w)
  {
  }

  /** After `done` rows, the last of them is in its line. */
  ghost predicate Decoded(buf: seq<u16>, w: nat, done: seq<seq<byte>>)
  {
    && |buf| == 2 * w
    && (|done| > 0 ==> buf[Line(|done| - 1, w)..Line(|done| - 1, w) + w] == done[|done| - 1])
  }

  function Last(done: seq<seq<byte>>): seq<byte>
  {
    if |done| == 0 then [] else done[|done| - 1]
  }

  /** Undo a row's filter into the line that the row before the last was in. */
  method UnfilterNext(buf: array<u16>, w: nat, bpp: nat, filter: Filter, raw: seq<byte>, j: nat, ghost done: seq<seq<byte>>)
    requires 0 < bpp <= w == |raw| && Decoded(buf[..], w, done) && j == |done| && (j > 0 ==> |done[j - 1]| == w)
    modifies buf
    ensures var row := Recon(filter, bpp, Last(done), raw, w);
      Decoded(buf[..], w, done + [row]) && buf[Line(j, w)..Line(j, w) + w] == row
  {
    hide Recon, Line;
    ghost var up := if j == 0 then seq(w, i => 0) else done[j - 1];
    LinesApart(j, w);
    assert j > 0 ==> buf[Line(j + 1, w)..Line(j + 1, w) + w] == buf[..][Line(j + 1, w)..Line(j + 1, w) + w];
    UnfilterRow(buf, Line(j, w), Line(j + 1, w), w, bpp, filter, j == 0, raw, up);
    assert buf[Line(j, w)..Line(j, w) + w] == buf[..][Line(j, w)..Line(j, w) + w];
  }

  /** One row: its filter type, its bytes and its pixels. */
  method DecodeRow(buf: array<u16>, out: array<u16>, at: nat, x: nat, f: PixelFormat, w: nat, bpp: nat, n: nat,
                   raw: seq<byte>, j: nat, ghost done: seq<seq<byte>>) returns (ok: bool, ghost row: seq<byte>)
    requires RowShape(f, x, w, bpp, n) && |raw| >= w + 1 && out != buf && at + n <= out.Length
    requires Decoded(buf[..], w, done) && j == |done| && (j > 0 ==> |done[j - 1]| == w)
    modifies buf, out
    ensures ok <==> raw[0] <= 4
    ensures ok ==> row == Recon(raw[0], bpp, Last(done), raw[1..w + 1], w) && Decoded(buf[..], w, done + [row])
    ensures ok ==> out[..at] == old(out[..at]) && out[at..at + n] == Flat(RowPixels(row, x, f))
  {
    hide Recon, Last, Flat, RowPixels, Enough, Times;
    row := [];
    if raw[0] > 4 { return false, row; }
    row := Recon(raw[0], bpp, Last(done), raw[1..w + 1], w);
    UnfilterNext(buf, w, bpp, raw[0], raw[1..w + 1], j, done);
    WriteRow(out, at, buf, Line(j, w), x, f, row);
    ok := true;
  }

  /** The rows of `done`, then those that the data stands for, up to y. */
  function RowsFrom(data: seq<byte>, w: nat, bpp: nat, y: nat, done: seq<seq<byte>>): Option<seq<seq<byte>>>
    requires bpp > 0 && |done| <= y
  {
    Then(done, Rows(data, w, bpp, Last(done), y - |done|))
  }

  lemma RowsOn(data: seq<byte>, w: nat, bpp: nat, y: nat, done: seq<seq<byte>>)
    requires bpp > 0 && |done| < y && w + 1 <= |data|
    ensures data[0] > 4 ==> RowsFrom(data, w, bpp, y, done) == None
    ensures data[0] <= 4 ==>
      var row := Recon(data[0], bpp, Last(done), data[1..w + 1], w);
      RowsFrom(data, w, bpp, y, done) == RowsFrom(data[w + 1..], w, bpp, y, done + [row])
  {
    ThenStep(data, w, bpp, Last(done), y - |done|, done);
    if data[0] <= 4 {
      var row := Recon(data[0], bpp, Last(done), data[1..w + 1], w);
      assert Last(done + [row]) == row;
    }
  }

  lemma RowsStart(raw: seq<byte>, w: nat, bpp: nat, y: nat)
    requires bpp > 0
    ensures RowsFrom(raw, w, bpp, y, []) == Rows(raw, w, bpp, [], y)
  {
    var rows := Rows(raw, w, bpp, [], y);
    if rows.Some? {
      assert [] + rows.value == rows.value;
    }
  }

  lemma RowsDone(data: seq<byte>, w: nat, bpp: nat, y: nat, done: seq<seq<byte>>)
    requires bpp > 0 && |done| == y
    ensures RowsFrom(data, w, bpp, y, done) == Some(done)
  {
    assert done + [] == done;
  }

  /** The samples written are those of the rows of `done`. */
  ghost predicate Drawn(out: seq<u16>, at: nat, x: nat, f: PixelFormat, done: seq<seq<byte>>)
  {
    at <= |out| && AllRows(done, x, f) && out[..at] == Flat(ImagePixels(done, x, f))
  }

  lemma DrawnOn(before: seq<u16>, out: seq<u16>, at: nat, n: nat, x: nat, f: PixelFormat, done: seq<seq<byte>>, row: seq<byte>)
    requires Drawn(before, at, x, f, done) && at + n <= |out| && out[..at] == before[..at]
    requires Enough(row, f.depth, Times(x, f.imgN)) && out[at..at + n] == Flat(RowPixels(row, x, f))
    ensures Drawn(out, at + n, x, f, done + [row])
  {
    ImageSnoc(done, row, x, f);
    assert out[..at + n] == out[..at] + out[at..at + n];
  }

  /** The last of the rows of `done` has w bytes. */
  predicate LastHas(done: seq<seq<byte>>, w: nat)
  {
    |done| > 0 ==> |done[|done| - 1]| == w
  }

  /** The row loop's variables: the data left, samples written, rows done, and both buffers. */
  datatype RowLoop = RowLoop(data: seq<byte>, at: nat, done: seq<seq<byte>>, out: seq<u16>, buf: seq<u16>)

  /** What the row loop keeps. */
  ghost predicate Going(x: nat, y: nat, f: PixelFormat, w: nat, bpp: nat, n: nat, goal: Option<seq<seq<byte>>>, s: RowLoop)
  {
    match s
    case RowLoop(data, at, done, out, buf) =>
      && bpp > 0 && |done| <= y && Times(y - |done|, w + 1) <= |data| && at + Times(y - |done|, n) == |out|
      && RowsFrom(data, w, bpp, y, done) == goal && LastHas(done, w)
      && Drawn(out, at, x, f, done) && Decoded(buf, w, done)
  }

  lemma GoingStarts(raw: seq<byte>, x: nat, y: nat, f: PixelFormat, w: nat, bpp: nat, n: nat, out: seq<u16>, buf: seq<u16>)
    requires bpp > 0 && |raw| >= Times(y, w + 1) && |out| == Times(y, n) && |buf| == 2 * w
    ensures Going(x, y, f, w, bpp, n, Rows(raw, w, bpp, [], y), RowLoop(raw, 0, [], out, buf))
  {
    RowsStart(raw, w, bpp, y);
  }

  lemma GoingEnds(x: nat, y: nat, f: PixelFormat, w: nat, bpp: nat, n: nat, goal: Option<seq<seq<byte>>>, s: RowLoop)
    requires Going(x, y, f, w, bpp, n, goal, s) && |s.done| == y
    ensures goal == Some(s.done) && AllRows(s.done, x, f) && s.out == Flat(ImagePixels(s.done, x, f))
  {
    RowsDone(s.data, w, bpp, y, s.done);
    assert s.out[..s.at] == s.out;
  }

  lemma GoingHas(x: nat, y: nat, f: PixelFormat, w: nat, bpp: nat, n: nat, goal: Option<seq<seq<byte>>>, s: RowLoop)
    requires Going(x, y, f, w, bpp, n, goal, s) && |s.done| < y
    ensures |s.data| > w && s.at + n <= |s.out| && LastHas(s.done, w) && Decoded(s.buf, w, s.done)
    ensures bpp > 0 && Drawn(s.out, s.at, x, f, s.done)
    ensures s.data[0] > 4 ==> goal == None
    ensures s.data[0] <= 4 ==>
      goal == RowsFrom(s.data[w + 1..], w, bpp, y, s.done + [Recon(s.data[0], bpp, Last(s.done), s.data[1..w + 1], w)])
  {
    RowsOn(s.data, w, bpp, y, s.done);
  }

  /** With one more row in both buffers. */
  lemma GoingOn(x: nat, y: nat, f: PixelFormat, w: nat, bpp: nat, n: nat, goal: Option<seq<seq<byte>>>, s: RowLoop,
                row: seq<byte>, out: seq<u16>, buf: seq<u16>)
    requires Going(x, y, f, w, bpp, n, goal, s) && |s.done| < y && |s.data| > w
    requires bpp > 0 && |row| == w && goal == RowsFrom(s.data[w + 1..], w, bpp, y, s.done + [row])
    requires Decoded(buf, w, s.done + [row]) && |out| == |s.out| && Drawn(out, s.at + n, x, f, s.done + [row])
    ensures Going(x, y, f, w, bpp, n, goal, RowLoop(s.data[w + 1..], s.at + n, s.done + [row], out, buf))
  {
    hide RowsFrom, Decoded, Drawn;
    assert Times(y - |s.done|, n) == Times(y - |s.done + [row]|, n) + n;
  }

  /** One pass of the row loop. */
  method NextRow(data: seq<byte>, x: nat, y: nat, f: PixelFormat, w: nat, bpp: nat, n: nat, buf: array<u16>, out: array<u16>,
                 at: nat, j: nat, ghost done: seq<seq<byte>>, ghost goal: Option<seq<seq<byte>>>)
    returns (ok: bool, ghost next: seq<seq<byte>>)
    requires RowShape(f, x, w, bpp, n) && buf != out && j == |done| < y
    requires Going(x, y, f, w, bpp, n, goal, RowLoop(data, at, done, out[..], buf[..]))
    modifies buf, out
    ensures |data| > w && (!ok ==> goal == None)
    ensures ok ==> |next| == j + 1 && Going(x, y, f, w, bpp, n, goal, RowLoop(data[w + 1..], at + n, next, out[..], buf[..]))
  {
    hide Going, Decoded, Recon, Last, Flat, RowPixels, RowsFrom, Drawn, Enough, Times, LastHas;
    ghost var s := RowLoop(data, at, done, out[..], buf[..]);
    GoingHas(x, y, f, w, bpp, n, goal, s);
    ghost var row;
    next := [];
    ok, row := DecodeRow(buf, out, at, x, f, w, bpp, n, data, j, done);
    if ok {
      next := done + [row];
      assert out[..][..at] == s.out[..at] && out[..][at..at + n] == out[at..at + n];
      DrawnOn(s.out, out[..], at, n, x, f, done, row);
      GoingOn(x, y, f, w, bpp, n, goal, s, row, out[..], buf[..]);
    }
  }

  /** The row loop. */
  method DecodeRows(raw: seq<byte>, x: nat, y: nat, f: PixelFormat, w: nat, bpp: nat, n: nat, buf: array<u16>, out: array<u16>)
    returns (ok: bool, ghost done: seq<seq<byte>>)
    requires RowShape(f, x, w, bpp, n) && buf != out && buf.Length == 2 * w
    requires |raw| >= Times(y, w + 1) && out.Length == Times(y, n)
    modifies buf, out
    ensures Rows(raw, w, bpp, [], y) == if ok then Some(done) else None
    ensures ok ==> AllRows(done, x, f) && out[..] == Flat(ImagePixels(done, x, f))
  {
    done := [];
    ghost var goal := Rows(raw, w, bpp, [], y);
    GoingStarts(raw, x, y, f, w, bpp, n, out[..], buf[..]);
    var j: nat, at: nat, data := 0, 0, raw;
    while j < y
      invariant 0 <= j <= y && j == |done|
      invariant Going(x, y, f, w, bpp, n, goal, RowLoop(data, at, done, out[..], buf[..]))
    {
      ok, done := NextRow(data, x, y, f, w, bpp, n, buf, out, at, j, done, goal);
      if !ok { return; }
      j, at, data := j + 1, at + n, data[w + 1..];
    }
    GoingEnds(x, y, f, w, bpp, n, goal, RowLoop(data, at, done, out[..], buf[..]));
    ok := true;
  }

  // ---------------------------------------------------------------- sizes

  const INT_MAX: nat := 0x7fff_ffff

  /** A block of that many bytes: its size is an int, and malloc grants blocks of up to heap bytes. */
  predicate Granted(size: nat, heap: nat)
  {
    size <= INT_MAX && size <= heap
  }

  /** The size checks of an x by y image, and its two allocations. */
  predicate Roomy(x: nat, y: nat, f: PixelFormat, heap: nat)
  {
    && Granted(x * y * f.OutBytes(), heap) && f.imgN * x * f.depth + 7 <= INT_MAX
    && f.Width(x) * y + f.Width(x) <= INT_MAX && Granted(f.Width(x) * 2, heap)
  }

  /** On the numbers: the image and two rows are granted, and the largest number that the 32-bit arithmetic of the sizes
      comes to is below 2^31. */
  lemma RoomyIs(x: nat, y: nat, f: PixelFormat, heap: nat)
    ensures 0 <= f.imgN * x * f.depth
    ensures var w, image := (f.imgN * x * f.depth + 7) / 8, x * y * (f.outN * if f.depth == 16 then 2 else 1);
      Roomy(x, y, f, heap) <==>
      && image <= heap && 2 * w <= heap && image < 0x8000_0000 && 2 * w < 0x8000_0000
      && f.imgN * x * f.depth + 7 < 0x8000_0000 && w * y + w < 0x8000_0000
  {
    hide Format.Width;
    WidthIs(f, x);
  }

  /** With them, the source's 32-bit sizes do not wrap: the bytes of a row, and of all rows with their filter types. */
  lemma SizesFit(x: nat, y: nat, f: PixelFormat, heap: nat)
    requires x > 0 && Roomy(x, y, f, heap)
    ensures f.Width(x) == (f.imgN * x * f.depth + 7) / 8
    ensures Times(y, f.Width(x) + 1) == (f.Width(x) + 1) * y < 0x1_0000_0000
  {
    hide RowBytes;
    var w := f.Width(x);
    WidthIs(f, x);
    TimesIs(y, w + 1);
    RowsBelow(x, y, f.OutBytes(), w);
  }

  lemma WidthIs(f: PixelFormat, x: nat)
    ensures 0 <= f.imgN * x * f.depth && f.Width(x) == (f.imgN * x * f.depth + 7) / 8
  {
    TimesIs(x, f.imgN);
    MulMono(0, f.imgN, x);
    MulMono(0, f.imgN * x, f.depth);
    assert x * f.imgN == f.imgN * x;
    RowBytesIs(Times(x, f.imgN), f.depth);
  }

  lemma RowsBelow(x: nat, y: nat, out: nat, w: nat)
    requires x > 0 && out > 0 && x * y * out <= INT_MAX && w * y <= INT_MAX
    ensures y * (w + 1) == (w + 1) * y < 0x1_0000_0000
  {
    MulBoth(1, x, y, y);
    MulBoth(x * y, x * y, 1, out);
    MulAdd(w, 1, y);
  }

  /** stbi__create_png_image_raw: succeeds exactly when sizes and memory allow, there is enough data and every filter
      type is known, and then has the pixels of the rows the data stands for. */
  method CreateImageRaw(raw: seq<byte>, x: nat, y: nat, f: PixelFormat, heap: nat) returns (ok: bool, out: array<u16>)
    requires x > 0
    ensures fresh(out) && (ok <==> Roomy(x, y, f, heap) && Rows(raw, f.Width(x), f.Bpp(), [], y).Some?)
    ensures ok ==>
      var rows := Rows(raw, f.Width(x), f.Bpp(), [], y).value;
      AllRows(rows, x, f) && out[..] == Flat(ImagePixels(rows, x, f))
  {
    WidthIs(f, x);
    var bytes := if f.depth == 16 then 2 else 1;
    var w := (f.imgN * x * f.depth + 7) / 8;
    if !Granted(x * y * (f.outN * bytes), heap) || f.imgN * x * f.depth + 7 > INT_MAX || w * y + w > INT_MAX {
      out := new u16[0];
      return false, out;
    }
    if !Granted(w * 2, heap) {
      out := new u16[0];
      return false, out;
    }
    ok, out := DecodeImage(raw, x, y, f, w);
  }

  /** What follows the checks: two rows of workspace, and the rows. */
  method DecodeImage(raw: seq<byte>, x: nat, y: nat, f: PixelFormat, w: nat) returns (ok: bool, out: array<u16>)
    requires x > 0 && w == f.Width(x)
    ensures fresh(out) && (ok <==> Rows(raw, w, f.Bpp(), [], y).Some?)
    ensures ok ==>
      var rows := Rows(raw, w, f.Bpp(), [], y).value;
      AllRows(rows, x, f) && out[..] == Flat(ImagePixels(rows, x, f))
  {
    var bytes := if f.depth == 16 then 2 else 1;
    var bpp, n := if f.depth < 8 then 1 else f.imgN * bytes, Times(x, f.outN);
    out := new u16[Times(y, n)](_ => 0);
    RowsLength(raw, w, bpp, [], y);
    if |raw| < Times(y, w + 1) {
      return false, out;
    }
    var buf := new u16[2 * w](_ => 0);
    RowFits(f, x);
    ghost var rows;
    ok, rows := DecodeRows(raw, x, y, f, w, bpp, n, buf, out);
  }
}
