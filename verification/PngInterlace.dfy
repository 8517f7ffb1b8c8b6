/** Adam7: stbi__create_png_image takes an interlaced image as seven smaller ones and puts their pixels
    where they belong. */
module PngInterlace {
  import opened Bits
  import opened PngFilter
  import opened PngSamples
  import opened PngImage
  import opened Chunks

  // ---------------------------------------------------------------- where passes are

  const XORIG: seq<nat> := [0, 4, 0, 2, 0, 1, 0]
  const YORIG: seq<nat> := [0, 0, 4, 0, 2, 0, 1]
  const XSPC: seq<nat> := [8, 8, 4, 4, 2, 2, 1]
  const YSPC: seq<nat> := [8, 8, 8, 4, 4, 2, 2]

  type Pass = p: nat | p < 7

  /** The pass that a pixel belongs to (section 8.2 of the PNG specification): its place in the 8 by 8
      pattern. */
  function PassOf(x: nat, y: nat): (p: Pass)
  {
    if y % 2 == 1 then 6
    else if x % 2 == 1 then 5
    else if y % 4 == 2 then 4
    else if x % 4 == 2 then 3
    else if y % 8 == 4 then 2
    else if x % 8 == 4 then 1
    else 0
  }

  /** Column i of pass p in the whole image, and back. */
  function XOf(p: Pass, i: nat): nat
  {
    match p case 0 => 8 * i case 1 => 8 * i + 4 case 2 => 4 * i case 3 => 4 * i + 2 case 4 => 2 * i case 5 => 2 * i + 1
    case _ => i
  }

  function YOf(p: Pass, j: nat): nat
  {
    match p case 0 => 8 * j case 1 => 8 * j case 2 => 8 * j + 4 case 3 => 4 * j case 4 => 4 * j + 2 case 5 => 2 * j
    case _ => 2 * j + 1
  }

  function ColOf(p: Pass, x: nat): nat
  {
    match p case 0 => x / 8 case 1 => x / 8 case 2 => x / 4 case 3 => x / 4 case 4 => x / 2 case 5 => x / 2 case _ => x
  }

  function RowOf(p: Pass, y: nat): nat
  {
    match p case 0 => y / 8 case 1 => y / 8 case 2 => y / 8 case 3 => y / 4 case 4 => y / 4 case 5 => y / 2 case _ => y / 2
  }

  /** The columns and rows of pass p of an image of the given size. */
  function PassWidth(p: Pass, width: nat): nat
  {
    (width - XORIG[p] + XSPC[p] - 1) / XSPC[p]
  }

  function PassHeight(p: Pass, height: nat): nat
  {
    (height - YORIG[p] + YSPC[p] - 1) / YSPC[p]
  }

  lemma TablesAre(p: Pass, i: nat, j: nat)
    ensures XOf(p, i) == i * XSPC[p] + XORIG[p] && YOf(p, j) == j * YSPC[p] + YORIG[p]
    ensures XORIG[p] == [0, 4, 0, 2, 0, 1, 0][p] && XSPC[p] == [8, 8, 4, 4, 2, 2, 1][p]
    ensures YORIG[p] == [0, 0, 4, 0, 2, 0, 1][p] && YSPC[p] == [8, 8, 8, 4, 4, 2, 2][p]
  {
  }

  /** The 8 by 8 pattern of section 8.2 of the PNG specification, with passes counted from 1. */
  lemma PassPattern(x: nat, y: nat)
    ensures PassOf(x, y) + 1 == [[1, 6, 4, 6, 2, 6, 4, 6],
                                 [7, 7, 7, 7, 7, 7, 7, 7],
                                 [5, 6, 5, 6, 5, 6, 5, 6],
                                 [7, 7, 7, 7, 7, 7, 7, 7],
                                 [3, 6, 4, 6, 3, 6, 4, 6],
                                 [7, 7, 7, 7, 7, 7, 7, 7],
                                 [5, 6, 5, 6, 5, 6, 5, 6],
                                 [7, 7, 7, 7, 7, 7, 7, 7]][y % 8][x % 8]
  {
    PassRepeats(x, y);
    if y % 8 == 0 {
      FirstPatternRow(x % 8);
    } else if y % 8 == 4 {
      FifthPatternRow(x % 8);
    } else if y % 8 == 2 || y % 8 == 6 {
      ThirdPatternRow(x % 8, y % 8);
    }
  }

  lemma PassRepeats(x: nat, y: nat)
    ensures PassOf(x, y) == PassOf(x % 8, y % 8) && (y % 8 % 2 == 1 ==> PassOf(x, y) == 6)
  {
    Mod8(x);
    Mod8(y);
    var a, b := x % 8, y % 8;
    assert a % 8 == a && b % 8 == b;
  }

  lemma Mod8(x: nat)
    ensures x % 4 == x % 8 % 4 && x % 2 == x % 8 % 2
  {
    DivMod(x, 4, 2 * (x / 8) + x % 8 / 4, x % 8 % 4);
    DivMod(x, 2, 4 * (x / 8) + x % 8 / 2, x % 8 % 2);
  }

  lemma FirstPatternRow(a: nat)
    requires a < 8
    ensures PassOf(a, 0) + 1 == [1, 6, 4, 6, 2, 6, 4, 6][a]
  {
  }

  lemma ThirdPatternRow(a: nat, b: nat)
    requires a < 8 && (b == 2 || b == 6)
    ensures PassOf(a, b) + 1 == [5, 6, 5, 6, 5, 6, 5, 6][a]
  {
  }

  lemma FifthPatternRow(a: nat)
    requires a < 8
    ensures PassOf(a, 4) + 1 == [3, 6, 4, 6, 3, 6, 4, 6][a]
  {
  }

  /** Places in a pass are pixels of that pass ... */
  lemma PlaceInPass(p: Pass, i: nat, j: nat)
    ensures PassOf(XOf(p, i), YOf(p, j)) == p && ColOf(p, XOf(p, i)) == i && RowOf(p, YOf(p, j)) == j
  {
  }

  lemma PixelColumn(x: nat, y: nat)
    ensures XOf(PassOf(x, y), ColOf(PassOf(x, y), x)) == x
  {
    var p := PassOf(x, y);
    if p == 0 || p == 1 {
      assert x % 8 == 0 || x % 8 == 4;
    } else if p == 2 || p == 3 {
      assert x % 4 == 0 || x % 4 == 2;
    }
  }

  /** The row of a pixel, by the pattern of its pass. */
  lemma EighthRow(y: nat, r: nat)
    requires y % 8 == r && r < 8
    ensures 8 * (y / 8) + r == y
  {
  }

  lemma QuarterRow(y: nat, r: nat)
    requires y % 4 == r && r < 4
    ensures 4 * (y / 4) + r == y
  {
  }

  lemma EvenOnce(y: nat)
    requires y % 2 == 0 && y % 4 != 2
    ensures y % 4 == 0
  {
  }

  lemma EvenTwice(y: nat)
    requires y % 4 == 0 && y % 8 != 4
    ensures y % 8 == 0
  {
  }

  lemma PixelRow(x: nat, y: nat)
    ensures YOf(PassOf(x, y), RowOf(PassOf(x, y), y)) == y
  {
    var p := PassOf(x, y);
    if p < 4 {
      EvenOnce(y);
      if p == 3 {
        QuarterRow(y, 0);
      } else if p == 2 {
        EighthRow(y, 4);
      } else {
        EvenTwice(y);
        EighthRow(y, 0);
      }
    } else if p == 4 {
      QuarterRow(y, 2);
    }
  }

  /** ... and every pixel has its place in its pass, in no other. */
  lemma PixelInPass(x: nat, y: nat)
    ensures var p := PassOf(x, y); XOf(p, ColOf(p, x)) == x && YOf(p, RowOf(p, y)) == y
  {
    PixelColumn(x, y);
    PixelRow(x, y);
  }

  /** A pass has just the columns and rows that lie inside the image. */
  lemma PassSize(p: Pass, i: nat, width: nat, j: nat, height: nat)
    ensures i < PassWidth(p, width) <==> XOf(p, i) < width
    ensures j < PassHeight(p, height) <==> YOf(p, j) < height
  {
  }

  /** Adam7 is a bijection: each pixel of a w by h image is column i and row j of exactly one pass, and that pass has
      that column and row; the columns and rows that passes have are all inside the image. */
  lemma Adam7Bijection(w: nat, h: nat, x: nat, y: nat)
    ensures var p := PassOf(x, y);
      && XOf(p, ColOf(p, x)) == x && YOf(p, RowOf(p, y)) == y
      && (ColOf(p, x) < PassWidth(p, w) <==> x < w) && (RowOf(p, y) < PassHeight(p, h) <==> y < h)
    ensures forall q: Pass, i: nat, j: nat | XOf(q, i) == x && YOf(q, j) == y ::
              q == PassOf(x, y) && i == ColOf(q, x) && j == RowOf(q, y)
    ensures forall q: Pass, i: nat :: i < PassWidth(q, w) <==> XOf(q, i) < w
    ensures forall q: Pass, j: nat :: j < PassHeight(q, h) <==> YOf(q, j) < h
  {
    hide XOf, YOf, ColOf, RowOf, PassOf, PassWidth, PassHeight;
    var p := PassOf(x, y);
    PixelInPass(x, y);
    PassSize(p, ColOf(p, x), w, RowOf(p, y), h);
    forall q: Pass, i: nat, j: nat | XOf(q, i) == x && YOf(q, j) == y
      ensures q == PassOf(x, y) && i == ColOf(q, x) && j == RowOf(q, y)
    {
      PlaceInPass(q, i, j);
    }
    forall q: Pass, i: nat ensures i < PassWidth(q, w) <==> XOf(q, i) < w {
      PassSize(q, i, w, 0, h);
    }
    forall q: Pass, j: nat ensures j < PassHeight(q, h) <==> YOf(q, j) < h {
      PassSize(q, 0, w, j, h);
    }
  }

  // ---------------------------------------------------------------- pixels by place

  /** Place (x, y) of an image `width` pixels wide. */
  function Place(x: nat, y: nat, width: nat): nat
  {
    Times(y, width) + x
  }

  /** Row by row, each `width` long. */
  lemma PlaceIs(x: nat, y: nat, width: nat)
    ensures Place(x, y, width) == y * width + x
  {
    TimesIs(y, width);
  }

  lemma {:induction false} PlaceInjective(x: nat, y: nat, x': nat, y': nat, width: nat)
    requires x < width && x' < width && Place(x, y, width) == Place(x', y', width)
    ensures x == x' && y == y'
    decreases y
  {
    if y > 0 && y' > 0 {
      PlaceInjective(x, y - 1, x', y' - 1, width);
    }
  }

  lemma PlaceInside(x: nat, y: nat, width: nat, height: nat)
    requires x < width && y < height
    ensures Place(x, y, width) < Times(height, width)
  {
    TimesMono(y + 1, height, width);
  }

  lemma {:induction false} ImagePixelAt(rows: seq<seq<byte>>, x: nat, f: PixelFormat, i: nat, j: nat)
    requires AllRows(rows, x, f) && i < x && j < |rows|
    ensures |ImagePixels(rows, x, f)| == Times(|rows|, x) && Place(i, j, x) < Times(|rows|, x)
    ensures Enough(rows[j], f.depth, Times(i + 1, f.imgN))
    ensures ImagePixels(rows, x, f)[Place(i, j, x)] == PixelOf(rows[j], i, f)
    decreases |rows|
  {
    hide Enough, PixelOf, RowPixels, Times;
    var n := |rows| - 1;
    ImageLength(rows, x, f);
    ImageLength(rows[..n], x, f);
    PlaceInside(i, j, x, |rows|);
    if j == n {
      RowPixelAt(rows[j], x, f, i);
    } else {
      ImagePixelAt(rows[..n], x, f, i, j);
    }
  }

  lemma {:induction false} ImageLength(rows: seq<seq<byte>>, x: nat, f: PixelFormat)
    requires AllRows(rows, x, f)
    ensures |ImagePixels(rows, x, f)| == Times(|rows|, x)
    ensures forall k | 0 <= k < |ImagePixels(rows, x, f)| :: |ImagePixels(rows, x, f)[k]| == f.outN
    decreases |rows|
  {
    if |rows| == 0 {
    } else {
      ImageLength(rows[..|rows| - 1], x, f);
      RowPixelsWide(rows[|rows| - 1], x, f);
    }
  }

  lemma {:induction false} RowPixelsWide(row: seq<byte>, x: nat, f: PixelFormat)
    requires Enough(row, f.depth, Times(x, f.imgN))
    ensures forall k | 0 <= k < x :: |RowPixels(row, x, f)[k]| == f.outN
    decreases x
  {
    if x == 0 {
    } else {
      PixelsStep(row, x - 1, x, f);
      RowPixelsWide(row, x - 1, f);
    }
  }

  lemma {:induction false} RowPixelAt(row: seq<byte>, x: nat, f: PixelFormat, i: nat)
    requires i < x && Enough(row, f.depth, Times(x, f.imgN))
    ensures Enough(row, f.depth, Times(i + 1, f.imgN)) && RowPixels(row, x, f)[i] == PixelOf(row, i, f)
    decreases x
  {
    PixelsStep(row, x - 1, x, f);
    if i >= x - 1 {
    } else {
      RowPixelAt(row, x - 1, f, i);
    }
  }

  // ---------------------------------------------------------------- copying a pixel

  /** memcpy of n samples. */
  method CopyRange(dst: array<u16>, at: nat, src: array<u16>, from: nat, n: nat)
    requires dst != src && at + n <= dst.Length && from + n <= src.Length
    modifies dst
    ensures dst[..] == old(dst[..])[..at] + (src[..][from..from + n] + old(dst[..])[at + n..])
  {
    var c := 0;
    while c < n
      invariant 0 <= c <= n
      invariant forall i | 0 <= i < dst.Length :: dst[i] == if at <= i < at + c then src[from + i - at] else old(dst[i])
    {
      dst[at + c] := src[from + c];
      c := c + 1;
    }
  }

  lemma CopiedPixel(ps: seq<Pixel>, qs: seq<Pixel>, n: nat, k: nat, m: nat)
    requires Wide(ps, n) && Wide(qs, n) && k < |ps| && m < |qs|
    ensures Times(k, n) + n <= |Flat(ps)| && Times(m, n) + n <= |Flat(qs)|
    ensures Flat(ps[k := qs[m]]) ==
      Flat(ps)[..Times(k, n)] + (Flat(qs)[Times(m, n)..Times(m, n) + n] + Flat(ps)[Times(k, n) + n..])
  {
    FlatUpdate(ps, n, k, qs[m]);
    FlatGroup(qs, n, m);
  }

  /** Lines 4892-4893: pixel m of src to pixel k of dst. */
  method CopyPixel(dst: array<u16>, k: nat, src: array<u16>, m: nat, n: nat, ghost ps: seq<Pixel>, ghost qs: seq<Pixel>)
    requires dst != src && Wide(ps, n) && Wide(qs, n) && k < |ps| && m < |qs| && dst[..] == Flat(ps) && src[..] == Flat(qs)
    modifies dst
    ensures dst[..] == Flat(ps[k := qs[m]])
  {
    hide Flat, Times, Wide;
    CopiedPixel(ps, qs, n, k, m);
    CopyRange(dst, Times(k, n), src, Times(m, n), n);
  }

  // ---------------------------------------------------------------- one pass

  /** Pixel (x, y) is among those of pass p placed before place i of row j. */
  predicate Reached(p: Pass, x: nat, y: nat, j: nat, i: nat)
  {
    PassOf(x, y) == p && (RowOf(p, y) < j || (RowOf(p, y) == j && ColOf(p, x) < i))
  }

  /** The pixel of pass p that belongs at (x, y). */
  ghost function FromPass(qs: seq<Pixel>, p: Pass, width: nat, x: nat, y: nat): Pixel
  {
    var k := Place(ColOf(p, x), RowOf(p, y), PassWidth(p, width));
    if k < |qs| then qs[k] else []
  }

  /** The canvas of the two inner loops, before place i of row j. */
  datatype Canvas = Canvas(j: nat, i: nat, out: seq<Pixel>)

  /** What the two inner loops keep: pixels reached come from the pass, the others are as before. */
  ghost predicate Placing(width: nat, height: nat, n: nat, p: Pass, ps: seq<Pixel>, qs: seq<Pixel>, s: Canvas)
  {
    match s
    case Canvas(j, i, out) =>
      && |out| == |ps| == Times(height, width) && Wide(out, n)
      && forall x, y | 0 <= x < width && 0 <= y < height && Place(x, y, width) < |out| ::
           out[Place(x, y, width)] == if Reached(p, x, y, j, i) then FromPass(qs, p, width, x, y) else ps[Place(x, y, width)]
  }

  lemma PlacingStarts(width: nat, height: nat, n: nat, p: Pass, ps: seq<Pixel>, qs: seq<Pixel>)
    requires |ps| == Times(height, width) && Wide(ps, n)
    ensures Placing(width, height, n, p, ps, qs, Canvas(0, 0, ps))
  {
  }

  /** Placing the next pixel. */
  lemma PlacingOn(width: nat, height: nat, n: nat, p: Pass, ps: seq<Pixel>, qs: seq<Pixel>, s: Canvas)
    requires Placing(width, height, n, p, ps, qs, s) && Wide(qs, n)
    requires s.i < PassWidth(p, width) && s.j < PassHeight(p, height)
    requires |qs| == Times(PassHeight(p, height), PassWidth(p, width))
    ensures Place(s.i, s.j, PassWidth(p, width)) < |qs| && Place(XOf(p, s.i), YOf(p, s.j), width) < |s.out|
    ensures Placing(width, height, n, p, ps, qs, Canvas(s.j, s.i + 1,
              s.out[Place(XOf(p, s.i), YOf(p, s.j), width) := qs[Place(s.i, s.j, PassWidth(p, width))]]))
  {
    var x, y := XOf(p, s.i), YOf(p, s.j);
    PassSize(p, s.i, width, s.j, height);
    PlaceInside(s.i, s.j, PassWidth(p, width), PassHeight(p, height));
    PlaceInside(x, y, width, height);
    PlaceInPass(p, s.i, s.j);
    var k := Place(x, y, width);
    var out := s.out[k := qs[Place(s.i, s.j, PassWidth(p, width))]];
    forall x', y' | 0 <= x' < width && 0 <= y' < height && Place(x', y', width) < |out|
      ensures out[Place(x', y', width)] ==
        if Reached(p, x', y', s.j, s.i + 1) then FromPass(qs, p, width, x', y') else ps[Place(x', y', width)]
    {
      if Place(x', y', width) == k {
        PlaceInjective(x', y', x, y, width);
      } else {
        PixelInPass(x', y');
      }
    }
  }

  /** At the end of a row comes the next one. */
  lemma PlacingRow(width: nat, height: nat, n: nat, p: Pass, ps: seq<Pixel>, qs: seq<Pixel>, j: nat, out: seq<Pixel>)
    requires Placing(width, height, n, p, ps, qs, Canvas(j, PassWidth(p, width), out))
    ensures Placing(width, height, n, p, ps, qs, Canvas(j + 1, 0, out))
  {
    forall x, y | 0 <= x < width && 0 <= y < height && Place(x, y, width) < |out|
      ensures Reached(p, x, y, j, PassWidth(p, width)) == Reached(p, x, y, j + 1, 0)
    {
      PixelInPass(x, y);
      PassSize(PassOf(x, y), ColOf(PassOf(x, y), x), width, 0, 0);
    }
  }

  /** Lines 4888-4895: put the pixels of a pass where they belong. */
  method Scatter(final: array<u16>, src: array<u16>, width: nat, height: nat, n: nat, p: Pass, x: nat, y: nat,
                 ghost ps: seq<Pixel>, ghost qs: seq<Pixel>) returns (ghost out: seq<Pixel>)
    requires final != src && x == PassWidth(p, width) && y == PassHeight(p, height)
    requires |ps| == Times(height, width) && Wide(ps, n) && final[..] == Flat(ps)
    requires |qs| == Times(y, x) && Wide(qs, n) && src[..] == Flat(qs)
    modifies final
    ensures final[..] == Flat(out) && Placing(width, height, n, p, ps, qs, Canvas(y, 0, out))
  {
    out := ps;
    PlacingStarts(width, height, n, p, ps, qs);
    var j := 0;
    while j < y
      invariant 0 <= j <= y && final[..] == Flat(out) && Placing(width, height, n, p, ps, qs, Canvas(j, 0, out))
    {
      var i := 0;
      while i < x
        invariant 0 <= i <= x && final[..] == Flat(out) && Placing(width, height, n, p, ps, qs, Canvas(j, i, out))
      {
        out := ScatterPixel(final, src, width, height, n, p, ps, qs, j, i, out);
        i := i + 1;
      }
      PlacingRow(width, height, n, p, ps, qs, j, out);
      j := j + 1;
    }
  }

  method ScatterPixel(final: array<u16>, src: array<u16>, width: nat, height: nat, n: nat, p: Pass, ghost ps: seq<Pixel>,
                      ghost qs: seq<Pixel>, j: nat, i: nat, ghost out: seq<Pixel>) returns (ghost next: seq<Pixel>)
    requires final != src && i < PassWidth(p, width) && j < PassHeight(p, height)
    requires |qs| == Times(PassHeight(p, height), PassWidth(p, width)) && Wide(qs, n) && src[..] == Flat(qs)
    requires final[..] == Flat(out) && Placing(width, height, n, p, ps, qs, Canvas(j, i, out))
    modifies final
    ensures final[..] == Flat(next) && Placing(width, height, n, p, ps, qs, Canvas(j, i + 1, next))
  {
    TablesAre(p, i, j);
    var outY, outX := j * YSPC[p] + YORIG[p], i * XSPC[p] + XORIG[p];
    var k, m := Place(outX, outY, width), Place(i, j, PassWidth(p, width));
    PlacingOn(width, height, n, p, ps, qs, Canvas(j, i, out));
    CopyPixel(final, k, src, m, n, out, qs);
    next := out[k := qs[m]];
  }

  // ---------------------------------------------------------------- the whole image

  /** How many bytes of data an image of x by y takes: what lines 4718-4725 read and line 4897 skips. */
  function DataLength(f: PixelFormat, x: nat, y: nat): nat
  {
    Times(y, f.Width(x) + 1)
  }

  lemma ImageShape(data: seq<byte>, x: nat, y: nat, f: PixelFormat)
    requires x > 0 && Rows(data, f.Width(x), f.Bpp(), [], y).Some?
    ensures var rows := Rows(data, f.Width(x), f.Bpp(), [], y).value;
      AllRows(rows, x, f) && |ImagePixels(rows, x, f)| == Times(y, x) && Wide(ImagePixels(rows, x, f), f.outN)
    ensures DataLength(f, x, y) <= |data|
  {
    hide Rows, ImagePixels, RowBytes, Times;
    RowFits(f, x);
    RowsLength(data, f.Width(x), f.Bpp(), [], y);
    ImageLength(Rows(data, f.Width(x), f.Bpp(), [], y).value, x, f);
  }

  /** The pixels of an x by y image with its data at the front. */
  ghost function ImageAt(data: seq<byte>, x: nat, y: nat, f: PixelFormat): (r: Option<seq<Pixel>>)
    requires x > 0
    ensures r.Some? ==> |r.value| == Times(y, x) && Wide(r.value, f.outN) && DataLength(f, x, y) <= |data|
  {
    match Rows(data, f.Width(x), f.Bpp(), [], y)
    case None => None
    case Some(rows) =>
      ImageShape(data, x, y, f);
      Some(ImagePixels(rows, x, f))
  }

  /** Channel c of the pixel at (i, j): the sample of that place in its row at full range, or opaque alpha after them. */
  lemma ImageSample(data: seq<byte>, x: nat, y: nat, f: PixelFormat, i: nat, j: nat, c: nat)
    requires i < x && j < y && c < f.outN && ImageAt(data, x, y, f).Some?
    ensures Rows(data, f.Width(x), f.Bpp(), [], y).Some? && 0 <= j * x + i < |ImageAt(data, x, y, f).value|
    ensures var row := Rows(data, f.Width(x), f.Bpp(), [], y).value[j];
      var p := ImageAt(data, x, y, f).value[j * x + i];
      if c < f.imgN then
        && 0 <= i * f.imgN && Enough(row, f.depth, i * f.imgN + c + 1)
        && p[c] == Scale(f.depth, f.color) * Sample(row, f.depth, i * f.imgN + c)
      else p[c] == Opaque(f.depth)
  {
    hide Sample, Scale, Enough, RowBytes, Rows;
    var rows := Rows(data, f.Width(x), f.Bpp(), [], y).value;
    RowFits(f, x);
    ImagePixelAt(rows, x, f, i, j);
    PlaceIs(i, j, x);
    PixelChannel(rows[j], i, f, c);
  }

  lemma PixelChannel(row: seq<byte>, i: nat, f: PixelFormat, c: nat)
    requires Enough(row, f.depth, Times(i + 1, f.imgN)) && c < f.outN
    ensures if c < f.imgN then
        && 0 <= i * f.imgN && Enough(row, f.depth, i * f.imgN + c + 1)
        && PixelOf(row, i, f)[c] == Scale(f.depth, f.color) * Sample(row, f.depth, i * f.imgN + c)
      else PixelOf(row, i, f)[c] == Opaque(f.depth)
  {
    hide Sample, Scale, Enough, RowBytes;
    TimesIs(i, f.imgN);
    var n := Times(i + 1, f.imgN);
    if c < f.imgN {
      SamplesPrefix(row, i * f.imgN + c + 1, n, f.depth, f.color);
      assert Samples(row, n, f.depth, f.color)[Times(i, f.imgN)..][c] == Samples(row, n, f.depth, f.color)[i * f.imgN + c];
    }
  }

  function Cons(a: seq<Pixel>, r: Option<seq<seq<Pixel>>>): Option<seq<seq<Pixel>>>
  {
    match r case None => None case Some(l) => Some([a] + l)
  }

  /** Passes with pixels. */
  predicate HasPixels(p: Pass, width: nat, height: nat)
  {
    PassWidth(p, width) > 0 && PassHeight(p, height) > 0
  }

  /** A pass has pixels exactly if some pixel of the image is in it. */
  lemma HasPixelsIs(p: Pass, width: nat, height: nat)
    ensures HasPixels(p, width, height) <==> exists x: nat, y: nat :: x < width && y < height && PassOf(x, y) == p
  {
    hide PassWidth, PassHeight, XOf, YOf, PassOf, ColOf, RowOf;
    if HasPixels(p, width, height) {
      var x, y := XOf(p, 0), YOf(p, 0);
      Adam7Bijection(width, height, x, y);
    }
    if x: nat, y: nat :| x < width && y < height && PassOf(x, y) == p {
      Adam7Bijection(width, height, x, y);
    }
  }

  /** The images of the passes from p on, each with its data after that of the one before; passes
      without pixels have no data. */
  ghost function PassImages(data: seq<byte>, width: nat, height: nat, f: PixelFormat, p: nat): (r: Option<seq<seq<Pixel>>>)
    requires p <= 7
    ensures r.Some? ==> |r.value| == 7 - p
    decreases 7 - p
  {
    if p == 7 then Some([])
    else if !HasPixels(p, width, height) then Cons([], PassImages(data, width, height, f, p + 1))
    else
      var x, y := PassWidth(p, width), PassHeight(p, height);
      match ImageAt(data, x, y, f)
      case None => None
      case Some(ps) => Cons(ps, PassImages(data[DataLength(f, x, y)..], width, height, f, p + 1))
  }

  /** Images done, then those to come. */
  function Onto(images: seq<seq<Pixel>>, rest: Option<seq<seq<Pixel>>>): Option<seq<seq<Pixel>>>
  {
    match rest case None => None case Some(l) => Some(images + l)
  }

  lemma OntoCons(images: seq<seq<Pixel>>, ps: seq<Pixel>, rest: Option<seq<seq<Pixel>>>)
    ensures Onto(images, Cons(ps, rest)) == Onto(images + [ps], rest)
  {
    if rest.Some? {
      assert images + ([ps] + rest.value) == images + [ps] + rest.value;
    }
  }

  /** The pixel at (x, y), from the images of the passes. */
  ghost function Assembled(images: seq<seq<Pixel>>, width: nat, x: nat, y: nat): Pixel
  {
    var p := PassOf(x, y);
    if p < |images| then FromPass(images[p], p, width, x, y) else []
  }

  /** The pass loop's variables: the images to come, those so far, and the canvas. */
  datatype PassLoop = PassLoop(rest: Option<seq<seq<Pixel>>>, images: seq<seq<Pixel>>, out: seq<Pixel>)

  /** What the pass loop keeps: every pixel of the passes done is in its place. */
  ghost predicate Merging(width: nat, height: nat, n: nat, goal: Option<seq<seq<Pixel>>>, s: PassLoop)
  {
    match s
    case PassLoop(rest, images, out) =>
      && |images| <= 7 && |out| == Times(height, width) && Wide(out, n) && goal == Onto(images, rest)
      && forall x, y | 0 <= x < width && 0 <= y < height && PassOf(x, y) < |images| && Place(x, y, width) < |out| ::
           out[Place(x, y, width)] == Assembled(images, width, x, y)
  }

  /** A pass with pixels, put in their places. */
  lemma MergingPass(width: nat, height: nat, n: nat, goal: Option<seq<seq<Pixel>>>, s: PassLoop,
                    rest: Option<seq<seq<Pixel>>>, qs: seq<Pixel>, out: seq<Pixel>)
    requires Merging(width, height, n, goal, s) && |s.images| < 7 && s.rest == Cons(qs, rest)
    requires Placing(width, height, n, |s.images|, s.out, qs, Canvas(PassHeight(|s.images|, height), 0, out))
    ensures Merging(width, height, n, goal, PassLoop(rest, s.images + [qs], out))
  {
    var p: Pass := |s.images|;
    OntoCons(s.images, qs, rest);
    forall x, y | 0 <= x < width && 0 <= y < height && PassOf(x, y) < p + 1 && Place(x, y, width) < |out|
      ensures out[Place(x, y, width)] == Assembled(s.images + [qs], width, x, y)
    {
      PixelInPass(x, y);
      PassSize(PassOf(x, y), 0, 0, RowOf(PassOf(x, y), y), height);
    }
  }

  /** A pass without pixels leaves the canvas as it is. */
  lemma MergingNothing(width: nat, height: nat, n: nat, goal: Option<seq<seq<Pixel>>>, s: PassLoop,
                       rest: Option<seq<seq<Pixel>>>)
    requires Merging(width, height, n, goal, s) && |s.images| < 7 && !HasPixels(|s.images|, width, height)
    requires s.rest == Cons([], rest)
    ensures Merging(width, height, n, goal, PassLoop(rest, s.images + [[]], s.out))
  {
    NoPixelOf(|s.images|, width, height);
    OntoCons(s.images, [], rest);
  }

  lemma NoPixelOf(p: Pass, width: nat, height: nat)
    requires !HasPixels(p, width, height)
    ensures forall x, y | 0 <= x < width && 0 <= y < height :: PassOf(x, y) != p
  {
    forall x, y | 0 <= x < width && 0 <= y < height ensures PassOf(x, y) != p {
      PixelInPass(x, y);
      PassSize(PassOf(x, y), ColOf(PassOf(x, y), x), width, RowOf(PassOf(x, y), y), height);
    }
  }

  /** What the images from p on are, when pass p has pixels. */
  lemma PassImagesStep(data: seq<byte>, width: nat, height: nat, f: PixelFormat, p: Pass)
    requires HasPixels(p, width, height)
    ensures var x, y := PassWidth(p, width), PassHeight(p, height);
      match ImageAt(data, x, y, f)
      case None => PassImages(data, width, height, f, p) == None
      case Some(qs) =>
        && DataLength(f, x, y) <= |data|
        && PassImages(data, width, height, f, p) == Cons(qs, PassImages(data[DataLength(f, x, y)..], width, height, f, p + 1))
  {
  }

  /** One pass of the pass loop, for a pass with pixels. */
  method DecodePass(data: seq<byte>, width: nat, height: nat, f: PixelFormat, heap: nat, p: Pass, final: array<u16>,
                    ghost images: seq<seq<Pixel>>, ghost out: seq<Pixel>, ghost goal: Option<seq<seq<Pixel>>>)
    returns (ok: bool, rest: seq<byte>, ghost images': seq<seq<Pixel>>, ghost out': seq<Pixel>)
    requires p == |images| && HasPixels(p, width, height) && final[..] == Flat(out)
    requires Merging(width, height, f.outN, goal, PassLoop(PassImages(data, width, height, f, p), images, out))
    modifies final
    ensures ok ==> Roomy(PassWidth(p, width), PassHeight(p, height), f, heap)
    ensures !ok ==> goal == None || !Roomy(PassWidth(p, width), PassHeight(p, height), f, heap)
    ensures ok ==> |images'| == p + 1 && final[..] == Flat(out')
    ensures ok ==> Merging(width, height, f.outN, goal, PassLoop(PassImages(rest, width, height, f, p + 1), images', out'))
  {
    var x, y := PassWidth(p, width), PassHeight(p, height);
    PassImagesStep(data, width, height, f, p);
    var src;
    rest, images', out' := data, images, out;
    ghost var made;
    ok, src, made := ReadImage(data, x, y, f, heap);
    if !ok { return; }
    ghost var qs := made.value;
    ghost var s := PassLoop(PassImages(data, width, height, f, p), images, out);
    MergingShape(width, height, f.outN, goal, s);
    out' := Scatter(final, src, width, height, f.outN, p, x, y, out, qs);
    rest := SkipImage(data, x, y, f);
    images' := images + [qs];
    MergingPass(width, height, f.outN, goal, s, PassImages(rest, width, height, f, p + 1), qs, out');
  }

  /** Lines 4883 and 4897: on to the data of the next pass. */
  method SkipImage(data: seq<byte>, x: nat, y: nat, f: PixelFormat) returns (rest: seq<byte>)
    requires DataLength(f, x, y) <= |data|
    ensures rest == data[DataLength(f, x, y)..]
  {
    hide DataLength;
    DataLengthIs(f, x, y);
    var imgLen := ((f.imgN * x * f.depth + 7) / 8 + 1) * y;
    rest := data[imgLen..];
  }

  lemma DataLengthIs(f: PixelFormat, x: nat, y: nat)
    ensures 0 <= f.imgN * x * f.depth && DataLength(f, x, y) == ((f.imgN * x * f.depth + 7) / 8 + 1) * y
  {
    hide Format.Width, Times;
    WidthIs(f, x);
    TimesIs(y, f.Width(x) + 1);
  }

  lemma MergingShape(width: nat, height: nat, n: nat, goal: Option<seq<seq<Pixel>>>, s: PassLoop)
    requires Merging(width, height, n, goal, s)
    ensures |s.out| == Times(height, width) && Wide(s.out, n) && (s.rest == None ==> goal == None)
  {
  }

  /** stbi__create_png_image_raw, as pixels. */
  method ReadImage(data: seq<byte>, x: nat, y: nat, f: PixelFormat, heap: nat)
    returns (ok: bool, out: array<u16>, ghost r: Option<seq<Pixel>>)
    requires x > 0
    ensures fresh(out) && r == ImageAt(data, x, y, f) && (ok <==> Roomy(x, y, f, heap) && r.Some?)
    ensures ok ==> out[..] == Flat(r.value) && |r.value| == Times(y, x) && Wide(r.value, f.outN)
  {
    ok, out := CreateImageRaw(data, x, y, f, heap);
    r := ImageAt(data, x, y, f);
  }

  /** The pixels of the image: every one is where the specification puts it. */
  ghost predicate Shows(data: seq<byte>, width: nat, height: nat, f: PixelFormat, interlaced: bool, pixels: seq<Pixel>)
    requires width > 0
  {
    if !interlaced then ImageAt(data, width, height, f) == Some(pixels)
    else
      && PassImages(data, width, height, f, 0).Some? && |pixels| == Times(height, width)
      && forall x, y | 0 <= x < width && 0 <= y < height && Place(x, y, width) < |pixels| ::
           pixels[Place(x, y, width)] == Assembled(PassImages(data, width, height, f, 0).value, width, x, y)
  }

  ghost function Blank(k: nat, n: nat): (ps: seq<Pixel>)
    ensures |ps| == k && Wide(ps, n)
  {
    seq(k, i => seq(n, c => 0))
  }

  lemma {:induction false} FlatBlank(k: nat, n: nat)
    ensures Flat(Blank(k, n)) == seq(Times(k, n), i => 0)
  {
    if k == 0 {
    } else {
      FlatBlank(k - 1, n);
      assert Blank(k, n)[..k - 1] == Blank(k - 1, n);
    }
  }

  /** Sizes and memory allow an image: the image itself, or, interlaced, the final canvas and the image of every
      pass that has pixels. */
  ghost predicate RoomyImage(width: nat, height: nat, f: PixelFormat, heap: nat, interlaced: bool)
  {
    if !interlaced then Roomy(width, height, f, heap)
    else
      && Granted(width * height * f.OutBytes(), heap)
      && forall p: Pass :: HasPixels(p, width, height) ==> Roomy(PassWidth(p, width), PassHeight(p, height), f, heap)
  }

  lemma RoomyMono(x: nat, y: nat, x': nat, y': nat, f: PixelFormat, heap: nat)
    requires x' <= x && y' <= y && Roomy(x, y, f, heap)
    ensures Roomy(x', y', f, heap)
  {
    hide Format.Width;
    MulBoth(x', x, y', y);
    MulBoth(x' * y', x * y, f.OutBytes(), f.OutBytes());
    MulBoth(f.imgN, f.imgN, x', x);
    MulBoth(f.imgN * x', f.imgN * x, f.depth, f.depth);
    WidthMono(x', x, f);
    MulBoth(f.Width(x'), f.Width(x), y', y);
  }

  lemma WidthMono(x': nat, x: nat, f: PixelFormat)
    requires x' <= x
    ensures f.Width(x') <= f.Width(x)
  {
    TimesMono(x', x, f.imgN);
  }

  /** Interlacing never asks for more. */
  lemma InterlacedRoomy(width: nat, height: nat, f: PixelFormat, heap: nat)
    requires Roomy(width, height, f, heap)
    ensures RoomyImage(width, height, f, heap, true)
  {
    forall p: Pass | HasPixels(p, width, height) ensures Roomy(PassWidth(p, width), PassHeight(p, height), f, heap) {
      PassSmaller(p, width, height);
      RoomyMono(width, height, PassWidth(p, width), PassHeight(p, height), f, heap);
    }
  }

  lemma PassSmaller(p: Pass, width: nat, height: nat)
    ensures PassWidth(p, width) <= width && PassHeight(p, height) <= height
  {
    PassSize(p, width, width, height, height);
  }

  /** stbi__create_png_image: succeeds exactly when sizes and memory allow and all data is there and well-formed. */
  method CreateImage(data: seq<byte>, width: nat, height: nat, f: PixelFormat, interlaced: bool, heap: nat)
    returns (ok: bool, out: array<u16>, ghost pixels: seq<Pixel>)
    requires width > 0
    ensures ok <==> RoomyImage(width, height, f, heap, interlaced) &&
                    if interlaced then PassImages(data, width, height, f, 0).Some? else ImageAt(data, width, height, f).Some?
    ensures ok ==> out[..] == Flat(pixels) && Shows(data, width, height, f, interlaced, pixels)
  {
    if !interlaced {
      ghost var r;
      ok, out, r := ReadImage(data, width, height, f, heap);
      pixels := if ok then r.value else [];
    } else {
      ok, out, pixels := Deinterlace(data, width, height, f, heap);
    }
  }

  /** Lines 4863-4872: the block for the whole image. */
  method CanvasGranted(width: nat, height: nat, f: PixelFormat, heap: nat) returns (granted: bool)
    ensures granted <==> Granted(width * height * f.OutBytes(), heap)
  {
    var bytes := if f.depth == 16 then 2 else 1;
    granted := Granted(width * height * (f.outN * bytes), heap);
  }

  /** Lines 4880-4882. */
  method AnyPixels(p: Pass, width: nat, height: nat) returns (any: bool)
    ensures any <==> HasPixels(p, width, height)
  {
    var x := (width - XORIG[p] + XSPC[p] - 1) / XSPC[p];
    var y := (height - YORIG[p] + YSPC[p] - 1) / YSPC[p];
    any := x != 0 && y != 0;
  }

  method Deinterlace(data: seq<byte>, width: nat, height: nat, f: PixelFormat, heap: nat)
    returns (ok: bool, final: array<u16>, ghost pixels: seq<Pixel>)
    requires width > 0
    ensures ok <==> RoomyImage(width, height, f, heap, true) && PassImages(data, width, height, f, 0).Some?
    ensures ok ==> final[..] == Flat(pixels) && Shows(data, width, height, f, true, pixels)
  {
    hide Merging, PassImages, Roomy, Granted, Format.OutBytes, Format.Width, Flat, PassOf, Place, Assembled, DataLength, ImageAt;
    hide PassWidth, PassHeight, HasPixels, Enough, FromPass;
    var granted := CanvasGranted(width, height, f, heap);
    if !granted {
      final, pixels := new u16[0], [];
      return false, final, pixels;
    }
    final := new u16[Times(Times(height, width), f.outN)](_ => 0);
    ghost var goal := PassImages(data, width, height, f, 0);
    ghost var images: seq<seq<Pixel>> := [];
    pixels := Blank(Times(height, width), f.outN);
    FlatBlank(Times(height, width), f.outN);
    assert final[..] == Flat(pixels);
    MergingStarts(width, height, f.outN, goal, pixels);
    var rest, p := data, 0;
    while p < 7
      invariant 0 <= p <= 7 && p == |images| && fresh(final) && final[..] == Flat(pixels)
      invariant Merging(width, height, f.outN, goal, PassLoop(PassImages(rest, width, height, f, p), images, pixels))
      invariant PassesRoomy(width, height, f, heap, p)
    {
      var any := AnyPixels(p, width, height);
      if any {
        ok, rest, images, pixels := DecodePass(rest, width, height, f, heap, p, final, images, pixels, goal);
        if !ok { return; }
      } else {
        NoImage(rest, width, height, f, p);
        MergingNothing(width, height, f.outN, goal, PassLoop(PassImages(rest, width, height, f, p), images, pixels),
                       PassImages(rest, width, height, f, p + 1));
        images := images + [[]];
      }
      p := p + 1;
    }
    NoMoreImages(rest, width, height, f);
    MergingEnds(width, height, f.outN, goal, PassLoop(PassImages(rest, width, height, f, 7), images, pixels));
    ok := true;
  }

  /** Sizes and memory allow the first n passes. */
  ghost predicate PassesRoomy(width: nat, height: nat, f: PixelFormat, heap: nat, n: nat)
  {
    forall p: Pass :: p < n && HasPixels(p, width, height) ==> Roomy(PassWidth(p, width), PassHeight(p, height), f, heap)
  }

  lemma MergingStarts(width: nat, height: nat, n: nat, goal: Option<seq<seq<Pixel>>>, out: seq<Pixel>)
    requires |out| == Times(height, width) && Wide(out, n)
    ensures Merging(width, height, n, goal, PassLoop(goal, [], out))
  {
    if goal.Some? {
      assert [] + goal.value == goal.value;
    }
  }

  lemma NoImage(data: seq<byte>, width: nat, height: nat, f: PixelFormat, p: Pass)
    requires !HasPixels(p, width, height)
    ensures PassImages(data, width, height, f, p) == Cons([], PassImages(data, width, height, f, p + 1))
  {
  }

  lemma NoMoreImages(data: seq<byte>, width: nat, height: nat, f: PixelFormat)
    ensures PassImages(data, width, height, f, 7) == Some([])
  {
  }

  lemma MergingEnds(width: nat, height: nat, n: nat, goal: Option<seq<seq<Pixel>>>, s: PassLoop)
    requires Merging(width, height, n, goal, s) && |s.images| == 7 && s.rest == Some([])
    ensures goal == Some(s.images) && |s.out| == Times(height, width)
    ensures forall x, y | 0 <= x < width && 0 <= y < height && Place(x, y, width) < |s.out| ::
              s.out[Place(x, y, width)] == Assembled(s.images, width, x, y)
  {
    assert s.images + [] == s.images;
  }
}
