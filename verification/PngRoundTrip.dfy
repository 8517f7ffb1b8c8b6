/** Writing an image as PNG data, with any choice of filter types and with or without interlacing, and
    what the decoder makes of it: every pixel comes back in its place. */
module PngRoundTrip {
  import opened Bits
  import opened PngFilter
  import opened PngSamples
  import opened PngImage
  import opened PngInterlace
  import opened Chunks

  // ---------------------------------------------------------------- one row

  /** A picture: rows of pixels. */
  type Picture = seq<seq<Pixel>>

  /** Every sample of a pixel is in the range of its depth. */
  ghost predicate PixelOk(p: Pixel, f: PixelFormat)
  {
    |p| == f.imgN && InRange(p, f.depth)
  }

  ghost predicate RowOk(ps: seq<Pixel>, f: PixelFormat)
  {
    forall i | 0 <= i < |ps| :: PixelOk(ps[i], f)
  }

  /** An x by y picture. */
  ghost predicate PictureOk(pic: Picture, x: nat, y: nat, f: PixelFormat)
  {
    |pic| == y && forall j | 0 <= j < y :: |pic[j]| == x && RowOk(pic[j], f)
  }

  /** Samples at full range. */
  ghost function Stretched(t: seq<u16>, f: PixelFormat): (r: seq<u16>)
    requires InRange(t, f.depth)
    ensures |r| == |t|
  {
    if |t| == 0 then []
    else Stretched(t[..|t| - 1], f) + [Scaled(f.depth, f.color, t[|t| - 1])]
  }

  /** A pixel in memory: its samples at full range, opaque if there is an alpha channel to fill. */
  ghost function InMemory(p: Pixel, f: PixelFormat): Pixel
    requires PixelOk(p, f)
  {
    Stretched(p, f) + (if f.outN == f.imgN then [] else [Opaque(f.depth)])
  }

  lemma {:induction false} StretchedConcat(a: seq<u16>, b: seq<u16>, f: PixelFormat)
    requires InRange(a, f.depth) && InRange(b, f.depth)
    ensures InRange(a + b, f.depth) && Stretched(a + b, f) == Stretched(a, f) + Stretched(b, f)
    decreases |b|
  {
    if |b| == 0 {
      assert a + b == a;
    } else {
      assert (a + b)[..|a + b| - 1] == a + b[..|b| - 1];
      StretchedConcat(a, b[..|b| - 1], f);
    }
  }

  lemma {:induction false} FlatInRange(ps: seq<Pixel>, f: PixelFormat)
    requires RowOk(ps, f)
    ensures InRange(Flat(ps), f.depth) && |Flat(ps)| == Times(|ps|, f.imgN)
    decreases |ps|
  {
    if |ps| > 0 {
      FlatInRange(ps[..|ps| - 1], f);
    } else if f.depth <= 8 {
      Pow2Values();
    }
  }

  /** The samples of packed samples are those, at full range. */
  lemma {:induction false} SamplesPacked(t: seq<u16>, n: nat, f: PixelFormat)
    requires InRange(t, f.depth) && n <= |t|
    ensures Enough(PackRow(t, f.depth), f.depth, n)
    ensures Samples(PackRow(t, f.depth), n, f.depth, f.color) == Stretched(t[..n], f)
    decreases n
  {
    hide InRange, PackRow, Depth, RowBytes, Sample, SubByte, ByteOf;
    RowBytesMono(n, |t|, f.depth);
    if n == 0 {
    } else {
      SamplesPacked(t, n - 1, f);
      PackedRowSample(t, f.depth, n - 1);
      assert t[..n][..n - 1] == t[..n - 1];
    }
  }

  /** A row of pixels as bytes. */
  ghost function PackPixels(ps: seq<Pixel>, f: PixelFormat): (row: seq<byte>)
    requires RowOk(ps, f)
    ensures |row| == f.Width(|ps|)
  {
    FlatInRange(ps, f);
    PackRow(Flat(ps), f.depth)
  }

  lemma SamplesSlice(t: seq<u16>, n: nat, m: nat, f: PixelFormat)
    requires InRange(t, f.depth) && n <= m <= |t|
    ensures Enough(PackRow(t, f.depth), f.depth, m) && InRange(t[n..m], f.depth)
    ensures Samples(PackRow(t, f.depth), m, f.depth, f.color)[n..] == Stretched(t[n..m], f)
  {
    SamplesPacked(t, m, f);
    assert t[..m] == t[..n] + t[n..m];
    StretchedConcat(t[..n], t[n..m], f);
  }

  lemma PixelOfPacked(t: seq<u16>, f: PixelFormat, i: nat, p: Pixel)
    requires InRange(t, f.depth) && Times(i, f.imgN) + f.imgN <= |t| && PixelOk(p, f)
    requires t[Times(i, f.imgN)..Times(i, f.imgN) + f.imgN] == p
    ensures Enough(PackRow(t, f.depth), f.depth, Times(i + 1, f.imgN))
    ensures PixelOf(PackRow(t, f.depth), i, f) == InMemory(p, f)
  {
    SamplesSlice(t, Times(i, f.imgN), Times(i, f.imgN) + f.imgN, f);
  }

  /** Pixel i of a packed row. */
  lemma PixelPacked(ps: seq<Pixel>, f: PixelFormat, i: nat)
    requires RowOk(ps, f) && i < |ps|
    ensures Enough(PackPixels(ps, f), f.depth, Times(i + 1, f.imgN))
    ensures PixelOf(PackPixels(ps, f), i, f) == InMemory(ps[i], f)
  {
    FlatInRange(ps, f);
    FlatGroup(ps, f.imgN, i);
    PixelOfPacked(Flat(ps), f, i, ps[i]);
  }

  // ---------------------------------------------------------------- a picture without interlacing

  ghost function PackedRows(pic: Picture, x: nat, y: nat, f: PixelFormat): (rows: seq<seq<byte>>)
    requires PictureOk(pic, x, y, f)
    ensures |rows| == y && forall j | 0 <= j < y :: rows[j] == PackPixels(pic[j], f)
  {
    seq(y, j requires 0 <= j < y => PackPixels(pic[j], f))
  }

  /** A picture as data, each row filtered the way its type says. */
  ghost function EncodePicture(types: seq<Filter>, pic: Picture, x: nat, y: nat, f: PixelFormat): seq<byte>
    requires PictureOk(pic, x, y, f) && |types| == y
  {
    Encode(types, f.Bpp(), [], PackedRows(pic, x, y, f))
  }

  /** Decoding gives every pixel back, whatever follows the data. */
  lemma PictureRoundTrip(types: seq<Filter>, pic: Picture, x: nat, y: nat, f: PixelFormat, tail: seq<byte>)
    requires x > 0 && PictureOk(pic, x, y, f) && |types| == y
    ensures ImageAt(EncodePicture(types, pic, x, y, f) + tail, x, y, f).Some?
    ensures var ps := ImageAt(EncodePicture(types, pic, x, y, f) + tail, x, y, f).value;
      forall i, j | 0 <= i < x && 0 <= j < y && Place(i, j, x) < |ps| :: ps[Place(i, j, x)] == InMemory(pic[j][i], f)
  {
    var rows := PackedRows(pic, x, y, f);
    RowsEncoded(types, f.Width(x), f.Bpp(), [], rows, tail);
    RowFits(f, x);
    forall i, j | 0 <= i < x && 0 <= j < y
      ensures Place(i, j, x) < |ImagePixels(rows, x, f)| && ImagePixels(rows, x, f)[Place(i, j, x)] == InMemory(pic[j][i], f)
    {
      ImagePixelAt(rows, x, f, i, j);
      PixelPacked(pic[j], f, i);
    }
  }

  lemma {:induction false} EncodeLength(types: seq<Filter>, bpp: nat, prior: seq<byte>, rows: seq<seq<byte>>, w: nat)
    requires |types| == |rows| && forall j | 0 <= j < |rows| :: |rows[j]| == w
    ensures |Encode(types, bpp, prior, rows)| == Times(|rows|, w + 1)
    decreases |rows|
  {
    if |rows| == 0 {
    } else {
      EncodeLength(types[1..], bpp, rows[0], rows[1..], w);
    }
  }

  // ---------------------------------------------------------------- interlaced

  /** The pixels of one pass. */
  ghost function SubPicture(pic: Picture, width: nat, height: nat, p: Pass): (sub: Picture)
    requires |pic| == height && forall j | 0 <= j < height :: |pic[j]| == width
  {
    seq(PassHeight(p, height), j requires 0 <= j < PassHeight(p, height) =>
      seq(PassWidth(p, width), i requires 0 <= i < PassWidth(p, width) =>
        PassSize(p, i, width, j, height);
        pic[YOf(p, j)][XOf(p, i)]))
  }

  lemma SubPictureOk(pic: Picture, width: nat, height: nat, f: PixelFormat, p: Pass)
    requires PictureOk(pic, width, height, f)
    ensures PictureOk(SubPicture(pic, width, height, p), PassWidth(p, width), PassHeight(p, height), f)
  {
    forall i, j | 0 <= i < PassWidth(p, width) && 0 <= j < PassHeight(p, height)
      ensures PixelOk(SubPicture(pic, width, height, p)[j][i], f)
    {
      PassSize(p, i, width, j, height);
      assert RowOk(pic[YOf(p, j)], f);
    }
  }

  /** One filter type for every row of every pass. */
  ghost predicate TypesOk(types: seq<seq<Filter>>, height: nat)
  {
    |types| == 7 && forall p: Pass :: |types[p]| == PassHeight(p, height)
  }

  /** The data of one pass. */
  ghost function EncodePass(types: seq<seq<Filter>>, pic: Picture, width: nat, height: nat, f: PixelFormat, p: Pass): seq<byte>
    requires PictureOk(pic, width, height, f) && TypesOk(types, height)
  {
    if !HasPixels(p, width, height) then []
    else
      SubPictureOk(pic, width, height, f, p);
      EncodePicture(types[p], SubPicture(pic, width, height, p), PassWidth(p, width), PassHeight(p, height), f)
  }

  /** The data of all passes. */
  ghost function PassData(types: seq<seq<Filter>>, pic: Picture, width: nat, height: nat, f: PixelFormat): (blocks: seq<seq<byte>>)
    requires PictureOk(pic, width, height, f) && TypesOk(types, height)
    ensures |blocks| == 7 && forall p: Pass :: blocks[p] == EncodePass(types, pic, width, height, f, p)
  {
    seq(7, p requires 0 <= p < 7 => EncodePass(types, pic, width, height, f, p))
  }

  /** Data from block p on. */
  function JoinFrom(blocks: seq<seq<byte>>, p: nat): seq<byte>
    requires p <= |blocks|
    decreases |blocks| - p
  {
    if p == |blocks| then [] else blocks[p] + JoinFrom(blocks, p + 1)
  }

  /** The image of pass p holds the pixels of the picture at that pass's places. */
  ghost predicate HoldsPass(qs: seq<Pixel>, pic: Picture, width: nat, height: nat, f: PixelFormat, p: Pass)
    requires PictureOk(pic, width, height, f)
  {
    forall x, y | 0 <= x < width && 0 <= y < height && PassOf(x, y) == p ::
      PixelOk(pic[y][x], f) && FromPass(qs, p, width, x, y) == InMemory(pic[y][x], f)
  }

  lemma PassRoundTrip(types: seq<seq<Filter>>, pic: Picture, width: nat, height: nat, f: PixelFormat, p: Pass, tail: seq<byte>)
    requires PictureOk(pic, width, height, f) && TypesOk(types, height) && HasPixels(p, width, height)
    ensures var data := EncodePass(types, pic, width, height, f, p) + tail;
      var r := ImageAt(data, PassWidth(p, width), PassHeight(p, height), f);
      && r.Some? && HoldsPass(r.value, pic, width, height, f, p)
      && data[DataLength(f, PassWidth(p, width), PassHeight(p, height))..] == tail
  {
    var x', y' := PassWidth(p, width), PassHeight(p, height);
    var sub := SubPicture(pic, width, height, p);
    SubPictureOk(pic, width, height, f, p);
    PictureRoundTrip(types[p], sub, x', y', f, tail);
    EncodeLength(types[p], f.Bpp(), [], PackedRows(sub, x', y', f), f.Width(x'));
    var qs := ImageAt(EncodePicture(types[p], sub, x', y', f) + tail, x', y', f).value;
    forall x, y | 0 <= x < width && 0 <= y < height && PassOf(x, y) == p
      ensures PixelOk(pic[y][x], f) && FromPass(qs, p, width, x, y) == InMemory(pic[y][x], f)
    {
      var i, j := ColOf(p, x), RowOf(p, y);
      PixelInPass(x, y);
      PassSize(p, i, width, j, height);
      PlaceInside(i, j, x', y');
      assert RowOk(pic[y], f);
      assert sub[j][i] == pic[y][x];
    }
  }

  /** The images are those of the passes from p on. */
  ghost predicate HoldsPasses(images: seq<seq<Pixel>>, pic: Picture, width: nat, height: nat, f: PixelFormat, p: nat)
    requires PictureOk(pic, width, height, f)
  {
    p + |images| == 7 && forall k | 0 <= k < |images| :: HoldsPass(images[k], pic, width, height, f, p + k)
  }

  lemma HoldsCons(qs: seq<Pixel>, images: seq<seq<Pixel>>, pic: Picture, width: nat, height: nat, f: PixelFormat, p: Pass)
    requires PictureOk(pic, width, height, f) && HoldsPass(qs, pic, width, height, f, p)
    requires HoldsPasses(images, pic, width, height, f, p + 1)
    ensures HoldsPasses([qs] + images, pic, width, height, f, p)
  {
    var all := [qs] + images;
    forall k | 0 <= k < |all| ensures HoldsPass(all[k], pic, width, height, f, p + k) {
      if k > 0 {
        assert HoldsPass(images[k - 1], pic, width, height, f, p + 1 + (k - 1));
      }
    }
  }

  /** What the data of the passes from p on stands for. */
  ghost predicate PassesBack(data: seq<byte>, pic: Picture, width: nat, height: nat, f: PixelFormat, p: nat)
    requires PictureOk(pic, width, height, f) && p <= 7
  {
    match PassImages(data, width, height, f, p)
    case None => false
    case Some(images) => HoldsPasses(images, pic, width, height, f, p)
  }

  lemma PassBack(data: seq<byte>, pic: Picture, width: nat, height: nat, f: PixelFormat, p: Pass, rest: seq<byte>)
    requires PictureOk(pic, width, height, f) && PassesBack(rest, pic, width, height, f, p + 1) && HasPixels(p, width, height)
    requires var r := ImageAt(data, PassWidth(p, width), PassHeight(p, height), f);
      && r.Some? && HoldsPass(r.value, pic, width, height, f, p)
      && data[DataLength(f, PassWidth(p, width), PassHeight(p, height))..] == rest
    ensures PassesBack(data, pic, width, height, f, p)
  {
    var qs := ImageAt(data, PassWidth(p, width), PassHeight(p, height), f).value;
    HoldsCons(qs, PassImages(rest, width, height, f, p + 1).value, pic, width, height, f, p);
  }

  lemma PassNone(data: seq<byte>, pic: Picture, width: nat, height: nat, f: PixelFormat, p: Pass)
    requires PictureOk(pic, width, height, f) && PassesBack(data, pic, width, height, f, p + 1) && !HasPixels(p, width, height)
    ensures PassesBack(data, pic, width, height, f, p)
  {
    NoPixels(pic, width, height, f, p);
    HoldsCons([], PassImages(data, width, height, f, p + 1).value, pic, width, height, f, p);
  }

  /** The data of pass p before that of the passes after it. */
  lemma PassThenRest(types: seq<seq<Filter>>, pic: Picture, width: nat, height: nat, f: PixelFormat, p: Pass, rest: seq<byte>)
    requires PictureOk(pic, width, height, f) && TypesOk(types, height)
    requires PassesBack(rest, pic, width, height, f, p + 1)
    ensures PassesBack(EncodePass(types, pic, width, height, f, p) + rest, pic, width, height, f, p)
  {
    var mine := EncodePass(types, pic, width, height, f, p);
    if HasPixels(p, width, height) {
      PassRoundTrip(types, pic, width, height, f, p, rest);
      PassBack(mine + rest, pic, width, height, f, p, rest);
    } else {
      assert mine + rest == rest;
      PassNone(rest, pic, width, height, f, p);
    }
  }

  /** A block that is read as pass p, whatever follows. */
  ghost predicate ReadAs(block: seq<byte>, rest: seq<byte>, pic: Picture, width: nat, height: nat, f: PixelFormat, p: Pass)
    requires PictureOk(pic, width, height, f)
  {
    PassesBack(rest, pic, width, height, f, p + 1) ==> PassesBack(block + rest, pic, width, height, f, p)
  }

  lemma BlocksReadAs(types: seq<seq<Filter>>, pic: Picture, width: nat, height: nat, f: PixelFormat)
    requires PictureOk(pic, width, height, f) && TypesOk(types, height)
    ensures var blocks := PassData(types, pic, width, height, f);
      forall p: Pass, rest: seq<byte> :: ReadAs(blocks[p], rest, pic, width, height, f, p)
  {
    var blocks := PassData(types, pic, width, height, f);
    forall p: Pass, rest: seq<byte> ensures ReadAs(blocks[p], rest, pic, width, height, f, p) {
      if PassesBack(rest, pic, width, height, f, p + 1) {
        PassThenRest(types, pic, width, height, f, p, rest);
      }
    }
  }

  lemma {:induction false} BlocksBack(blocks: seq<seq<byte>>, pic: Picture, width: nat, height: nat, f: PixelFormat, p: nat,
                                      tail: seq<byte>)
    requires PictureOk(pic, width, height, f) && p <= 7 == |blocks|
    requires forall p: Pass, rest: seq<byte> :: ReadAs(blocks[p], rest, pic, width, height, f, p)
    ensures PassesBack(JoinFrom(blocks, p) + tail, pic, width, height, f, p)
    decreases 7 - p
  {
    hide PictureOk;
    if p >= 7 {
    } else {
      var rest := JoinFrom(blocks, p + 1) + tail;
      BlocksBack(blocks, pic, width, height, f, p + 1, tail);
      assert ReadAs(blocks[p], rest, pic, width, height, f, p);
      assert JoinFrom(blocks, p) + tail == blocks[p] + rest;
    }
  }

  /** The data of an interlaced picture. */
  ghost function EncodePasses(types: seq<seq<Filter>>, pic: Picture, width: nat, height: nat, f: PixelFormat): seq<byte>
    requires PictureOk(pic, width, height, f) && TypesOk(types, height)
  {
    JoinFrom(PassData(types, pic, width, height, f), 0)
  }

  /** Round trip for interlaced data: every pass comes back, and so every pixel is found in its place. */
  lemma PassesRoundTrip(types: seq<seq<Filter>>, pic: Picture, width: nat, height: nat, f: PixelFormat, tail: seq<byte>)
    requires PictureOk(pic, width, height, f) && TypesOk(types, height)
    ensures PassesBack(EncodePasses(types, pic, width, height, f) + tail, pic, width, height, f, 0)
  {
    BlocksReadAs(types, pic, width, height, f);
    BlocksBack(PassData(types, pic, width, height, f), pic, width, height, f, 0, tail);
  }

  lemma NoPixels(pic: Picture, width: nat, height: nat, f: PixelFormat, p: Pass)
    requires PictureOk(pic, width, height, f) && !HasPixels(p, width, height)
    ensures HoldsPass([], pic, width, height, f, p)
  {
    NoPixelOf(p, width, height);
  }

  /** The data of a whole picture. */
  ghost function EncodeImage(types: seq<seq<Filter>>, pic: Picture, width: nat, height: nat, f: PixelFormat, interlaced: bool)
    : seq<byte>
    requires PictureOk(pic, width, height, f)
    requires if interlaced then TypesOk(types, height) else |types| == 1 && |types[0]| == height
  {
    if interlaced then EncodePasses(types, pic, width, height, f) else EncodePicture(types[0], pic, width, height, f)
  }

  lemma AssembledBack(images: seq<seq<Pixel>>, pic: Picture, width: nat, height: nat, f: PixelFormat, x: nat, y: nat)
    requires PictureOk(pic, width, height, f) && HoldsPasses(images, pic, width, height, f, 0) && x < width && y < height
    ensures PixelOk(pic[y][x], f) && Assembled(images, width, x, y) == InMemory(pic[y][x], f)
  {
    var p := PassOf(x, y);
    assert HoldsPass(images[p], pic, width, height, f, 0 + p);
  }

  /** pixels holds the picture. */
  ghost predicate Holds(pixels: seq<Pixel>, pic: Picture, width: nat, height: nat, f: PixelFormat)
    requires PictureOk(pic, width, height, f)
  {
    && |pixels| == Times(height, width)
    && forall x, y | 0 <= x < width && 0 <= y < height ::
         && Place(x, y, width) < |pixels| && PixelOk(pic[y][x], f)
         && pixels[Place(x, y, width)] == InMemory(pic[y][x], f)
  }

  lemma InterlacedRoundTrip(types: seq<seq<Filter>>, pic: Picture, width: nat, height: nat, f: PixelFormat, tail: seq<byte>,
                            pixels: seq<Pixel>)
    requires width > 0 && PictureOk(pic, width, height, f) && TypesOk(types, height)
    requires Shows(EncodePasses(types, pic, width, height, f) + tail, width, height, f, true, pixels)
    ensures Holds(pixels, pic, width, height, f)
  {
    var data := EncodePasses(types, pic, width, height, f) + tail;
    PassesRoundTrip(types, pic, width, height, f, tail);
    var images := PassImages(data, width, height, f, 0).value;
    forall x, y | 0 <= x < width && 0 <= y < height
      ensures Place(x, y, width) < |pixels| && PixelOk(pic[y][x], f) && pixels[Place(x, y, width)] == InMemory(pic[y][x], f)
    {
      PlaceInside(x, y, width, height);
      AssembledBack(images, pic, width, height, f, x, y);
    }
  }

  lemma PlainRoundTrip(types: seq<Filter>, pic: Picture, width: nat, height: nat, f: PixelFormat, tail: seq<byte>,
                       pixels: seq<Pixel>)
    requires width > 0 && PictureOk(pic, width, height, f) && |types| == height
    requires Shows(EncodePicture(types, pic, width, height, f) + tail, width, height, f, false, pixels)
    ensures Holds(pixels, pic, width, height, f)
  {
    PictureRoundTrip(types, pic, width, height, f, tail);
    forall x, y | 0 <= x < width && 0 <= y < height
      ensures Place(x, y, width) < |pixels| && PixelOk(pic[y][x], f) && pixels[Place(x, y, width)] == InMemory(pic[y][x], f)
    {
      PlaceInside(x, y, width, height);
      assert RowOk(pic[y], f);
    }
  }

  /** Whatever the filter types, interlaced or not, and whatever follows the data: what shows is the
      picture. */
  lemma ImageRoundTrip(types: seq<seq<Filter>>, pic: Picture, width: nat, height: nat, f: PixelFormat, interlaced: bool,
                       tail: seq<byte>, pixels: seq<Pixel>)
    requires width > 0 && PictureOk(pic, width, height, f)
    requires if interlaced then TypesOk(types, height) else |types| == 1 && |types[0]| == height
    requires Shows(EncodeImage(types, pic, width, height, f, interlaced) + tail, width, height, f, interlaced, pixels)
    ensures Holds(pixels, pic, width, height, f)
  {
    if interlaced {
      InterlacedRoundTrip(types, pic, width, height, f, tail, pixels);
    } else {
      PlainRoundTrip(types[0], pic, width, height, f, tail, pixels);
    }
  }

  /** And the decoder does accept such data, so that it shows. */
  lemma ImageAccepted(types: seq<seq<Filter>>, pic: Picture, width: nat, height: nat, f: PixelFormat, interlaced: bool,
                      tail: seq<byte>)
    requires width > 0 && PictureOk(pic, width, height, f)
    requires if interlaced then TypesOk(types, height) else |types| == 1 && |types[0]| == height
    ensures var data := EncodeImage(types, pic, width, height, f, interlaced) + tail;
      if interlaced then PassImages(data, width, height, f, 0).Some? else ImageAt(data, width, height, f).Some?
  {
    if interlaced {
      PassesRoundTrip(types, pic, width, height, f, tail);
    } else {
      PictureRoundTrip(types[0], pic, width, height, f, tail);
    }
  }
}
