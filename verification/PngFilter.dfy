/** PNG row filters: section 9 of the W3C PNG specification, and stb_image's way of undoing them with a
    reformulated Paeth predictor and substitute filters for the first row. */
module PngFilter {
  import opened Bits

  // ---------------------------------------------------------------- the specification

  function Abs(x: int): nat { if x < 0 then -x else x }

  /** PaethPredictor of section 9.4: whichever neighbour is closest to a + b - c, in that order. */
  function PaethPredictor(a: int, b: int, c: int): int
  {
    var p := a + b - c;
    if Abs(p - a) <= Abs(p - b) && Abs(p - a) <= Abs(p - c) then a
    else if Abs(p - b) <= Abs(p - c) then b
    else c
  }

  /** Of the distances from a + b - c, that to a is the one between b and c, and so on. */
  lemma PaethPredictorIs(a: int, b: int, c: int)
    ensures var pa, pb, pc := if b < c then c - b else b - c, if a < c then c - a else a - c, if a + b < 2 * c then 2 * c - a - b else a + b - 2 * c;
      PaethPredictor(a, b, c) == if pa <= pb && pa <= pc then a else if pb <= pc then b else c
  {
  }

  type Filter = f: nat | f < 5

  /** The prediction of filter type f from the bytes to the left, above, and above the left. */
  function Predict(f: Filter, a: int, b: int, c: int): int
  {
    match f
    case 0 => 0
    case 1 => a
    case 2 => b
    case 3 => (a + b) / 2
    case _ => PaethPredictor(a, b, c)
  }

  /** Byte k of a row, 0 to the left of it. */
  function At0(row: seq<byte>, k: int): byte
  {
    if 0 <= k < |row| then row[k] else 0
  }

  /** A row's filtered bytes: what each byte differs by from its prediction. */
  function FilterRow(f: Filter, bpp: nat, prior: seq<byte>, row: seq<byte>): (r: seq<byte>)
    ensures |r| == |row|
  {
    seq(|row|, k requires 0 <= k < |row| =>
      (row[k] - Predict(f, At0(row, k - bpp), At0(prior, k), At0(prior, k - bpp))) % 256)
  }

  /** The first n bytes of the row whose filtered bytes are raw. */
  function Recon(f: Filter, bpp: nat, prior: seq<byte>, raw: seq<byte>, n: nat): (r: seq<byte>)
    requires n <= |raw| && bpp > 0
    ensures |r| == n
  {
    if n == 0 then []
    else
      var left := Recon(f, bpp, prior, raw, n - 1);
      left + [(raw[n - 1] + Predict(f, At0(left, n - 1 - bpp), At0(prior, n - 1), At0(prior, n - 1 - bpp))) % 256]
  }

  /** What reconstruction makes of byte k: none, sub, up, average and Paeth (section 9.2 of the PNG specification), with 0 for
      what lies to the left of the row or above the first row. */
  lemma ReconMeans(f: Filter, bpp: nat, prior: seq<byte>, raw: seq<byte>, n: nat, k: nat)
    requires k < n <= |raw| && bpp > 0
    ensures var r := Recon(f, bpp, prior, raw, n);
      var a: int := if k >= bpp then r[k - bpp] else 0;
      var b: int := if k < |prior| then prior[k] else 0;
      var c: int := if bpp <= k < |prior| + bpp then prior[k - bpp] else 0;
      && (f == 0 ==> r[k] == raw[k])
      && (f == 1 ==> r[k] == (raw[k] as int + a) % 256)
      && (f == 2 ==> r[k] == (raw[k] as int + b) % 256)
      && (f == 3 ==> exists avg :: 2 * avg <= a + b <= 2 * avg + 1 && r[k] == (raw[k] as int + avg) % 256)
      && (f == 4 ==> r[k] == (raw[k] as int + PaethPredictor(a, b, c)) % 256)
  {
    hide PaethPredictor;
    var r := Recon(f, bpp, prior, raw, n);
    ReconByte(f, bpp, prior, raw, n, k);
    var a: int, b: int := At0(r, k - bpp), At0(prior, k);
    if f == 3 {
      var avg: int := (a + b) / 2;
      assert 2 * avg <= a + b <= 2 * avg + 1 && r[k] == (raw[k] as int + avg) % 256;
    }
  }

  lemma {:induction false} ReconByte(f: Filter, bpp: nat, prior: seq<byte>, raw: seq<byte>, n: nat, k: nat)
    requires k < n <= |raw| && bpp > 0
    ensures var r := Recon(f, bpp, prior, raw, n);
      r[k] == (raw[k] + Predict(f, At0(r, k - bpp), At0(prior, k), At0(prior, k - bpp))) % 256
    decreases n
  {
    hide Predict;
    var r, left := Recon(f, bpp, prior, raw, n), Recon(f, bpp, prior, raw, n - 1);
    assert r[..n - 1] == left;
    assert At0(r, k - bpp) == At0(left, k - bpp);
    if k < n - 1 {
      ReconByte(f, bpp, prior, raw, n - 1, k);
      assert r[k] == left[k];
    }
  }

  lemma ModBack(x: byte, p: int)
    ensures ((x - p) % 256 + p) % 256 == x
  {
  }

  /** Undoing a filter gives the row back. */
  lemma {:induction false} ReconFiltered(f: Filter, bpp: nat, prior: seq<byte>, row: seq<byte>, n: nat)
    requires n <= |row| && bpp > 0
    ensures Recon(f, bpp, prior, FilterRow(f, bpp, prior, row), n) == row[..n]
    decreases n
  {
    if n == 0 {
    } else {
      ReconFiltered(f, bpp, prior, row, n - 1);
      var left := Recon(f, bpp, prior, FilterRow(f, bpp, prior, row), n - 1);
      assert At0(left, n - 1 - bpp) == At0(row, n - 1 - bpp);
      ModBack(row[n - 1], Predict(f, At0(row, n - 1 - bpp), At0(prior, n - 1), At0(prior, n - 1 - bpp)));
    }
  }

  /** The y rows of w bytes that raw holds, each after its filter type; the one above the first is
      prior. */
  function Rows(raw: seq<byte>, w: nat, bpp: nat, prior: seq<byte>, y: nat): (r: Option<seq<seq<byte>>>)
    requires bpp > 0
    ensures r.Some? ==> |r.value| == y && forall j | 0 <= j < y :: |r.value[j]| == w
    decreases y
  {
    if y == 0 then Some([])
    else if |raw| < w + 1 || raw[0] > 4 then None
    else
      var row := Recon(raw[0], bpp, prior, raw[1..w + 1], w);
      match Rows(raw[w + 1..], w, bpp, row, y - 1)
      case None => None
      case Some(rest) => Some([row] + rest)
  }

  lemma SliceShift(s: seq<byte>, d: nat, a: nat, b: nat)
    requires a <= b && d + b <= |s|
    ensures s[d..][a..b] == s[d + a..d + b]
  {
  }

  /** Row j of the data: its filter type, then its bytes, reconstructed below the row before. */
  lemma {:induction false} RowAt(raw: seq<byte>, w: nat, bpp: nat, prior: seq<byte>, y: nat, j: nat)
    requires bpp > 0 && j < y && Rows(raw, w, bpp, prior, y).Some?
    ensures (j + 1) * (w + 1) <= |raw| && 0 <= j * (w + 1) && raw[j * (w + 1)] <= 4 && j * (w + 1) + 1 + w == (j + 1) * (w + 1)
    ensures var rows := Rows(raw, w, bpp, prior, y).value;
      rows[j] == Recon(raw[j * (w + 1)], bpp, if j == 0 then prior else rows[j - 1], raw[j * (w + 1) + 1..(j + 1) * (w + 1)], w)
    decreases y
  {
    var row := Recon(raw[0], bpp, prior, raw[1..w + 1], w);
    var rows, rest := Rows(raw, w, bpp, prior, y).value, Rows(raw[w + 1..], w, bpp, row, y - 1).value;
    assert rows == [row] + rest;
    MulAdd(j, 1, w + 1);
    if j > 0 {
      RowAt(raw[w + 1..], w, bpp, row, y - 1, j - 1);
      MulSub(j, 1, w + 1);
      var k := (j - 1) * (w + 1);
      assert raw[w + 1..][k] == raw[k + (w + 1)];
      SliceShift(raw, w + 1, k + 1, j * (w + 1));
      assert rows[j] == rest[j - 1] && (j > 1 ==> rows[j - 1] == rest[j - 2]);
    } else {
      assert j * (w + 1) == 0;
    }
  }

  /** Rows as an encoder writes them, with any choice of filter types. */
  function Encode(types: seq<Filter>, bpp: nat, prior: seq<byte>, rows: seq<seq<byte>>): (raw: seq<byte>)
    requires |types| == |rows|
  {
    if |rows| == 0 then []
    else [types[0]] + FilterRow(types[0], bpp, prior, rows[0]) + Encode(types[1..], bpp, rows[0], rows[1..])
  }

  /** The first row of what an encoder writes, and the rest. */
  lemma EncodeParts(types: seq<Filter>, w: nat, bpp: nat, prior: seq<byte>, rows: seq<seq<byte>>, tail: seq<byte>)
    requires |types| == |rows| > 0 && |rows[0]| == w
    ensures var raw := Encode(types, bpp, prior, rows) + tail;
      && |raw| >= w + 1 && raw[0] == types[0]
      && raw[1..w + 1] == FilterRow(types[0], bpp, prior, rows[0])
      && raw[w + 1..] == Encode(types[1..], bpp, rows[0], rows[1..]) + tail
  {
    hide FilterRow;
    var line, rest := FilterRow(types[0], bpp, prior, rows[0]), Encode(types[1..], bpp, rows[0], rows[1..]);
    assert Encode(types, bpp, prior, rows) + tail == [types[0]] + line + (rest + tail);
  }

  /** Round trip for every image and every choice of filter types, whatever follows the data. */
  lemma {:induction false} RowsEncoded(types: seq<Filter>, w: nat, bpp: nat, prior: seq<byte>, rows: seq<seq<byte>>,
                                       tail: seq<byte>)
    requires |types| == |rows| && bpp > 0 && forall j | 0 <= j < |rows| :: |rows[j]| == w
    ensures Rows(Encode(types, bpp, prior, rows) + tail, w, bpp, prior, |rows|) == Some(rows)
    decreases |rows|
  {
    hide Encode, FilterRow, Recon;
    if |rows| == 0 {
    } else {
      EncodeParts(types, w, bpp, prior, rows, tail);
      ReconFiltered(types[0], bpp, prior, rows[0], w);
      assert rows[0][..w] == rows[0];
      RowsEncoded(types[1..], w, bpp, rows[0], rows[1..], tail);
      assert [rows[0]] + rows[1..] == rows;
    }
  }

  /** Rows need w + 1 bytes each. */
  lemma {:induction false} RowsLength(raw: seq<byte>, w: nat, bpp: nat, prior: seq<byte>, y: nat)
    requires bpp > 0
    ensures Rows(raw, w, bpp, prior, y).Some? ==> |raw| >= Times(y, w + 1)
    decreases y
  {
    if y > 0 && |raw| >= w + 1 && raw[0] <= 4 {
      RowsLength(raw[w + 1..], w, bpp, Recon(raw[0], bpp, prior, raw[1..w + 1], w), y - 1);
    }
  }

  // ---------------------------------------------------------------- the decoder

  /** stbi__paeth, on all integers. */
  function Paeth(a: int, b: int, c: int): (r: int)
    ensures r == PaethPredictor(a, b, c)
  {
    var thresh := c * 3 - (a + b);
    var lo := if a < b then a else b;
    var hi := if a < b then b else a;
    var t0 := if hi <= thresh then lo else c;
    if thresh <= lo then hi else t0
  }

  const FIRST_ROW_FILTER: seq<nat> := [0, 1, 0, 5, 1]

  /** The first filter_bytes bytes of a row. */
  function HeadByte(f: nat, raw: byte, up: byte): byte
  {
    if f == 2 || f == 4 then (raw + up) % 256 else if f == 3 then (raw + up / 2) % 256 else raw
  }

  /** The bytes after them. */
  function TailByte(f: nat, raw: byte, left: byte, up: byte, upLeft: byte): byte
  {
    if f == 0 then raw
    else if f == 1 then (raw + left) % 256
    else if f == 2 then (raw + up) % 256
    else if f == 3 then (raw + (up + left) / 2) % 256
    else if f == 4 then (raw + Paeth(left, up, upLeft)) % 256
    else (raw + left / 2) % 256
  }

  lemma HeadIs(f: Filter, raw: byte, up: byte)
    ensures HeadByte(f, raw, up) == (raw + Predict(f, 0, up, 0)) % 256
    ensures HeadByte(FIRST_ROW_FILTER[f], raw, up) == (raw + Predict(f, 0, 0, 0)) % 256
  {
  }

  lemma TailIs(f: Filter, raw: byte, left: byte, up: byte, upLeft: byte)
    ensures TailByte(f, raw, left, up, upLeft) == (raw + Predict(f, left, up, upLeft)) % 256
    ensures TailByte(FIRST_ROW_FILTER[f], raw, left, up, upLeft) == (raw + Predict(f, left, 0, 0)) % 256
  {
  }

  /** Whether a filter looks at the row above. */
  predicate LooksUp(f: nat)
  {
    2 <= f <= 4
  }

  /** The row above: none above the first. */
  function Above(first: bool, up: seq<byte>): seq<byte>
  {
    if first then [] else up
  }

  /** The filter applied to a row of type f. */
  function RowFilter(f: Filter, first: bool): nat
  {
    if first then FIRST_ROW_FILTER[f] else f
  }

  lemma HeadStep(f: Filter, first: bool, bpp: nat, up: seq<byte>, raw: seq<byte>, k: nat, b: byte)
    requires k < bpp && k < |raw| == |up| && (LooksUp(RowFilter(f, first)) ==> b == up[k])
    ensures Recon(f, bpp, Above(first, up), raw, k + 1) ==
            Recon(f, bpp, Above(first, up), raw, k) + [HeadByte(RowFilter(f, first), raw[k], b)]
  {
    HeadIs(f, raw[k], b);
  }

  lemma TailStep(f: Filter, first: bool, bpp: nat, up: seq<byte>, raw: seq<byte>, k: nat, a: byte, b: byte, c: byte)
    requires 0 < bpp <= k < |raw| == |up| && a == Recon(f, bpp, Above(first, up), raw, k)[k - bpp]
    requires LooksUp(RowFilter(f, first)) ==> b == up[k] && c == up[k - bpp]
    ensures Recon(f, bpp, Above(first, up), raw, k + 1) ==
            Recon(f, bpp, Above(first, up), raw, k) + [TailByte(RowFilter(f, first), raw[k], a, b, c)]
  {
    TailIs(f, raw[k], a, b, c);
  }

  /** Lines 4751-4785: undo its filter from the scan line at prior into the one at cur.
      Filters of the first row never look at the line above, whatever it holds. */
  method UnfilterRow(buf: array<u16>, cur: nat, prior: nat, w: nat, bpp: nat, f: Filter, first: bool, raw: seq<byte>,
                     ghost up: seq<byte>)
    requires 0 < bpp <= w == |raw| == |up|
    requires cur + w <= buf.Length && prior + w <= buf.Length && (cur + w <= prior || prior + w <= cur)
    requires !first ==> buf[prior..prior + w] == up
    modifies buf
    ensures buf[cur..cur + w] == Recon(f, bpp, Above(first, up), raw, w)
  {
    hide Recon, Above;
    var k := 0;
    while k < w
      invariant 0 <= k <= w && (!first ==> buf[prior..prior + w] == up)
      invariant buf[cur..cur + k] == Recon(f, bpp, Above(first, up), raw, k)
    {
      var v := FilteredByte(buf, cur, prior, w, bpp, f, first, raw, up, k);
      PutByte(buf, cur, prior, w, k, v);
      k := k + 1;
    }
  }

  /** One byte: the first bpp of a row have nothing to their left. */
  method FilteredByte(buf: array<u16>, cur: nat, prior: nat, w: nat, bpp: nat, f: Filter, first: bool, raw: seq<byte>,
                      ghost up: seq<byte>, k: nat) returns (v: byte)
    requires 0 < bpp && k < w == |raw| == |up| && cur + w <= buf.Length && prior + w <= buf.Length
    requires !first ==> buf[prior..prior + w] == up
    requires buf[cur..cur + k] == Recon(f, bpp, Above(first, up), raw, k)
    ensures Recon(f, bpp, Above(first, up), raw, k + 1) == Recon(f, bpp, Above(first, up), raw, k) + [v]
  {
    var g := RowFilter(f, first);
    var b, c: byte := 0, 0;
    if LooksUp(g) {
      assert buf[prior + k] == buf[prior..prior + w][k];
      b := buf[prior + k];
    }
    if k < bpp {
      v := HeadByte(g, raw[k], b);
      HeadStep(f, first, bpp, up, raw, k, b);
    } else {
      if LooksUp(g) {
        assert buf[prior + k - bpp] == buf[prior..prior + w][k - bpp];
        c := buf[prior + k - bpp];
      }
      assert buf[cur + k - bpp] == buf[cur..cur + k][k - bpp];
      var a: byte := buf[cur + k - bpp];
      v := TailByte(g, raw[k], a, b, c);
      TailStep(f, first, bpp, up, raw, k, a, b, c);
    }
  }

  method PutByte(buf: array<u16>, cur: nat, prior: nat, w: nat, k: nat, v: byte)
    requires k < w && cur + w <= buf.Length && prior + w <= buf.Length && (cur + w <= prior || prior + w <= cur)
    modifies buf
    ensures buf[prior..prior + w] == old(buf[prior..prior + w])
    ensures buf[cur..cur + k + 1] == old(buf[cur..cur + k]) + [v]
  {
    buf[cur + k] := v;
  }
}
