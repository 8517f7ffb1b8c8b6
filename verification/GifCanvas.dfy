/** Where decoded GIF pixels go: the drawing cursor of stbi__out_gif_code, against the row order of
    Appendix E of GIF89a. */
module GifCanvas {
  import opened Bits

  // ---------------------------------------------------------------- row order

  /** Rows from, from + step, ... below h. */
  function Every(from: nat, step: nat, h: nat): (r: seq<nat>)
    requires step > 0
    decreases if from < h then h - from else 0
  {
    if from >= h then [] else [from] + Every(from + step, step, h)
  }

  /** The order in which rows come: top to bottom, or for an interlaced image every 8th row from 0,
      every 8th from 4, every 4th from 2 and every 2nd from 1. */
  function RowOrder(interlaced: bool, h: nat): (r: seq<nat>)
  {
    if interlaced then Every(0, 8, h) + (Every(4, 8, h) + (Every(2, 4, h) + Every(1, 2, h))) else Every(0, 1, h)
  }

  ghost predicate NoDup<T>(s: seq<T>)
  {
    forall i, j | 0 <= i < j < |s| :: s[i] != s[j]
  }

  lemma NoDupConcat<T>(a: seq<T>, b: seq<T>)
    requires NoDup(a) && NoDup(b) && forall x | x in a :: x !in b
    ensures NoDup(a + b)
  {
    forall i, j | 0 <= i < j < |a + b| ensures (a + b)[i] != (a + b)[j] {
      if i < |a| <= j {
        assert a[i] in a && b[j - |a|] in b;
      }
    }
  }

  /** r is from plus a multiple of step. */
  predicate Hits(from: nat, step: nat, r: nat)
    requires step > 0
    decreases if from < r then r - from else 0
  {
    r == from || (r > from && Hits(from + step, step, r))
  }

  lemma {:induction false} EveryIs(from: nat, step: nat, h: nat)
    requires step > 0
    ensures NoDup(Every(from, step, h))
    ensures forall r :: r in Every(from, step, h) <==> from <= r < h && Hits(from, step, r)
    decreases if from < h then h - from else 0
  {
    if from >= h {
    } else {
      EveryIs(from + step, step, h);
      NoDupConcat([from], Every(from + step, step, h));
    }
  }

  lemma {:induction false} HitsMod(from: nat, step: nat, r: nat)
    requires step > 0
    ensures Hits(from, step, r) <==> r >= from && (r - from) % step == 0
    decreases if from < r then r - from else 0
  {
    if r > from {
      HitsMod(from + step, step, r);
      if r >= from + step {
        var q, m := (r - from - step) / step, (r - from - step) % step;
        DivModDef(r - from - step, step);
        MulAdd(q, 1, step);
        DivMod(r - from, step, q + 1, m);
      } else {
        DivMod(r - from, step, 0, r - from);
      }
    } else if r == from {
      DivMod(0, step, 0, 0);
    }
  }

  /** The four passes are told apart by the last three bits of the row. */
  lemma HitsRows(r: nat)
    ensures Hits(0, 8, r) == (r % 8 == 0) && Hits(4, 8, r) == (r % 8 == 4)
    ensures Hits(2, 4, r) == (r % 8 == 2 || r % 8 == 6)
    ensures Hits(1, 2, r) == (r % 8 == 1 || r % 8 == 3 || r % 8 == 5 || r % 8 == 7)
    ensures Hits(0, 1, r)
  {
    hide Hits;
    HitsMod(0, 8, r);
    HitsMod(4, 8, r);
    HitsMod(2, 4, r);
    HitsMod(1, 2, r);
    HitsMod(0, 1, r);
  }

  /** Every row comes exactly once. */
  lemma RowOrderIs(interlaced: bool, h: nat)
    ensures NoDup(RowOrder(interlaced, h))
    ensures forall r: nat :: r in RowOrder(interlaced, h) <==> r < h
  {
    var a, b, c, d := Every(0, 8, h), Every(4, 8, h), Every(2, 4, h), Every(1, 2, h);
    EveryIs(0, 8, h);
    EveryIs(4, 8, h);
    EveryIs(2, 4, h);
    EveryIs(1, 2, h);
    EveryIs(0, 1, h);
    forall r: nat ensures r in Every(0, 1, h) <==> r < h {
      HitsRows(r);
    }
    forall r: nat ensures r in a + (b + (c + d)) <==> r < h {
      HitsRows(r);
    }
    forall r: nat ensures r in c ==> r !in d {
      HitsRows(r);
    }
    NoDupConcat(c, d);
    forall r: nat ensures r in b ==> r !in c + d {
      HitsRows(r);
    }
    NoDupConcat(b, c + d);
    forall r: nat ensures r in a ==> r !in b + (c + d) {
      HitsRows(r);
    }
    NoDupConcat(a, b + (c + d));
  }

  // ---------------------------------------------------------------- cells

  /** A pixel of the image rectangle. */
  datatype Cell = Cell(row: nat, col: nat)

  function RowCells(row: nat, col: nat, w: nat): (r: seq<Cell>)
    ensures |r| == if col < w then w - col else 0
    decreases if col < w then w - col else 0
  {
    if col >= w then [] else [Cell(row, col)] + RowCells(row, col + 1, w)
  }

  function Cells(rows: seq<nat>, w: nat): (r: seq<Cell>)
  {
    if |rows| == 0 then [] else RowCells(rows[0], 0, w) + Cells(rows[1..], w)
  }

  lemma {:induction false} NoCells(rows: seq<nat>)
    ensures Cells(rows, 0) == []
    decreases |rows|
  {
    if |rows| == 0 {
    } else {
      NoCells(rows[1..]);
    }
  }

  lemma {:induction false} RowCellsIs(row: nat, col: nat, w: nat)
    ensures NoDup(RowCells(row, col, w))
    ensures forall c :: c in RowCells(row, col, w) <==> c.row == row && col <= c.col < w
    decreases if col < w then w - col else 0
  {
    if col >= w {
    } else {
      RowCellsIs(row, col + 1, w);
      NoDupConcat([Cell(row, col)], RowCells(row, col + 1, w));
    }
  }

  lemma {:induction false} CellsIs(rows: seq<nat>, w: nat)
    requires NoDup(rows)
    ensures NoDup(Cells(rows, w))
    ensures forall c :: c in Cells(rows, w) <==> c.row in rows && c.col < w
    decreases |rows|
  {
    if |rows| == 0 {
    } else {
      RowCellsIs(rows[0], 0, w);
      CellsIs(rows[1..], w);
      assert rows == [rows[0]] + rows[1..];
      NoDupConcat(RowCells(rows[0], 0, w), Cells(rows[1..], w));
    }
  }

  /** The pixels of a w by h image in the order the format transmits them. */
  function Order(interlaced: bool, w: nat, h: nat): seq<Cell>
  {
    Cells(RowOrder(interlaced, h), w)
  }

  /** Each pixel of the rectangle comes exactly once, and nothing else does. */
  lemma OrderCovers(interlaced: bool, w: nat, h: nat)
    ensures NoDup(Order(interlaced, w, h))
    ensures forall c :: c in Order(interlaced, w, h) <==> c.row < h && c.col < w
  {
    RowOrderIs(interlaced, h);
    CellsIs(RowOrder(interlaced, h), w);
  }

  // ---------------------------------------------------------------- the order in plain terms

  /** The pass of an interlaced image that brings row r (Appendix E of GIF89a). */
  ghost function PassOf(r: nat): nat
  {
    if r % 8 == 0 then 0 else if r % 8 == 4 then 1 else if r % 4 == 2 then 2 else 3
  }

  ghost predicate Increasing(rows: seq<nat>)
  {
    forall i, j | 0 <= i < j < |rows| :: rows[i] < rows[j]
  }

  lemma {:induction false} EverySorted(from: nat, step: nat, h: nat)
    requires step > 0
    ensures Increasing(Every(from, step, h))
    decreases if from < h then h - from else 0
  {
    if from >= h {
    } else {
      EverySorted(from + step, step, h);
      EveryIs(from + step, step, h);
      var e, rest := Every(from, step, h), Every(from + step, step, h);
      forall i, j | 0 <= i < j < |e| ensures e[i] < e[j] {
        assert e[j] == rest[j - 1] && rest[j - 1] in rest;
      }
    }
  }

  /** The rows of one pass, from top to bottom. */
  ghost predicate Ascending(pass: nat, rows: seq<nat>)
  {
    Increasing(rows) && forall r | r in rows :: PassOf(r) == pass
  }

  lemma PassRows(pass: nat, from: nat, step: nat, h: nat)
    requires (pass == 0 && from == 0 && step == 8) || (pass == 1 && from == 4 && step == 8)
          || (pass == 2 && from == 2 && step == 4) || (pass == 3 && from == 1 && step == 2)
    ensures Ascending(pass, Every(from, step, h))
  {
    EverySorted(from, step, h);
    EveryIs(from, step, h);
    forall r | r in Every(from, step, h) ensures PassOf(r) == pass {
      HitsRows(r);
    }
  }

  /** Row a comes before row b: the passes follow each other, and inside each rows go down. */
  ghost predicate Before(a: nat, b: nat)
  {
    PassOf(a) < PassOf(b) || (PassOf(a) == PassOf(b) && a < b)
  }

  ghost predicate InOrder(from: nat, rows: seq<nat>)
  {
    (forall i, j | 0 <= i < j < |rows| :: Before(rows[i], rows[j])) && forall r | r in rows :: PassOf(r) >= from
  }

  lemma PassFirst(pass: nat, s: seq<nat>, t: seq<nat>)
    requires Ascending(pass, s) && InOrder(pass + 1, t)
    ensures InOrder(pass, s + t)
  {
    forall i, j | 0 <= i < j < |s + t| ensures Before((s + t)[i], (s + t)[j]) {
      if j < |s| {
        assert s[i] in s && s[j] in s;
      } else if i < |s| {
        assert s[i] in s && t[j - |s|] in t;
      }
    }
  }

  /** Rows come from top to bottom, or pass by pass and inside each pass from top to bottom: with each row
      coming once this fixes the order. */
  lemma RowOrderSorted(interlaced: bool, h: nat)
    ensures if interlaced then InOrder(0, RowOrder(interlaced, h)) else Increasing(RowOrder(interlaced, h))
  {
    if interlaced {
      var a, b, c, d := Every(0, 8, h), Every(4, 8, h), Every(2, 4, h), Every(1, 2, h);
      PassRows(0, 0, 8, h);
      PassRows(1, 4, 8, h);
      PassRows(2, 2, 4, h);
      PassRows(3, 1, 2, h);
      PassFirst(3, d, []);
      assert d + [] == d;
      PassFirst(2, c, d);
      PassFirst(1, b, c + d);
      PassFirst(0, a, b + (c + d));
    } else {
      EverySorted(0, 1, h);
    }
  }

  lemma {:induction false} RowCellsAt(row: nat, col: nat, w: nat, k: nat)
    requires k < |RowCells(row, col, w)|
    ensures RowCells(row, col, w)[k] == Cell(row, col + k)
    decreases k
  {
    if k == 0 {
    } else {
      RowCellsAt(row, col + 1, w, k - 1);
    }
  }

  lemma {:induction false} CellsAt(rows: seq<nat>, w: nat, i: nat, col: nat)
    requires i < |rows| && col < w
    ensures i * w + col < |Cells(rows, w)| && Cells(rows, w)[i * w + col] == Cell(rows[i], col)
    decreases |rows|
  {
    if i == 0 {
      RowCellsAt(rows[0], 0, w, col);
    } else {
      CellsAt(rows[1..], w, i - 1, col);
      MulAdd(i - 1, 1, w);
    }
  }

  /** The pixels of a row come together, from left to right. */
  lemma OrderAt(interlaced: bool, w: nat, h: nat, i: nat, col: nat)
    requires i < |RowOrder(interlaced, h)| && col < w
    ensures i * w + col < |Order(interlaced, w, h)|
    ensures Order(interlaced, w, h)[i * w + col] == Cell(RowOrder(interlaced, h)[i], col)
  {
    CellsAt(RowOrder(interlaced, h), w, i, col);
  }

  // ---------------------------------------------------------------- the cursor

  /** The cursor in rows and columns of the rectangle; pass counts the passes still to come. */
  datatype Spot = Spot(row: nat, col: nat, step: nat, pass: nat)

  function FirstSpot(interlaced: bool, w: nat, h: nat): (p: Spot)
  {
    var row := if w == 0 then h else 0;
    if interlaced then Spot(row, 0, 8, 3) else Spot(row, 0, 1, 0)
  }

  /** Lines 6683-6687: start the next pass that has a row. */
  function NextPass(row: nat, step: nat, pass: nat, h: nat): (p: Spot)
    requires step > 0
    ensures p.step > 0 && p.col == 0
    ensures p.row >= h ==> p.pass == 0
    decreases pass
  {
    if row >= h && pass > 0 then NextPass(Pow2(pass) / 2, Pow2(pass), pass - 1, h) else Spot(row, 0, step, pass)
  }

  function Advance(p: Spot, w: nat, h: nat): (q: Spot)
    requires p.step > 0
    ensures q.step > 0
  {
    if p.col + 1 < w then p.(col := p.col + 1) else NextPass(p.row + p.step, p.step, p.pass, h)
  }

  /** The rows from a cursor position on. */
  function Rows(row: nat, step: nat, pass: nat, h: nat): (r: seq<nat>)
    requires step > 0
    decreases pass
  {
    Every(row, step, h) + if pass == 0 then [] else Rows(Pow2(pass) / 2, Pow2(pass), pass - 1, h)
  }

  /** The pixels a cursor has still to visit. */
  function Left(p: Spot, w: nat, h: nat): (r: seq<Cell>)
    requires p.step > 0
  {
    if p.row >= h then []
    else RowCells(p.row, p.col, w) + Cells(Rows(p.row + p.step, p.step, p.pass, h), w)
  }

  lemma {:induction false} NextPassLeft(row: nat, step: nat, pass: nat, w: nat, h: nat)
    requires step > 0
    ensures Left(NextPass(row, step, pass, h), w, h) == Cells(Rows(row, step, pass, h), w)
    decreases pass
  {
    if row >= h {
      if pass > 0 {
        NextPassLeft(Pow2(pass) / 2, Pow2(pass), pass - 1, w, h);
        assert Rows(row, step, pass, h) == Rows(Pow2(pass) / 2, Pow2(pass), pass - 1, h);
      }
    } else {
      var more := if pass == 0 then [] else Rows(Pow2(pass) / 2, Pow2(pass), pass - 1, h);
      assert [row] + Every(row + step, step, h) + more == [row] + (Every(row + step, step, h) + more);
      assert Rows(row, step, pass, h)[1..] == Rows(row + step, step, pass, h);
    }
  }

  /** A pixel is drawn at the head of what is left, and the rest is left. */
  lemma AdvanceLeft(p: Spot, w: nat, h: nat)
    requires p.step > 0 && p.row < h && p.col < w
    ensures Left(p, w, h) == [Cell(p.row, p.col)] + Left(Advance(p, w, h), w, h)
  {
    if p.col + 1 >= w {
      NextPassLeft(p.row + p.step, p.step, p.pass, w, h);
    }
  }

  lemma FirstLeft(interlaced: bool, w: nat, h: nat)
    ensures Left(FirstSpot(interlaced, w, h), w, h) == Order(interlaced, w, h)
  {
    var p := FirstSpot(interlaced, w, h);
    if w == 0 {
      NoCells(RowOrder(interlaced, h));
    } else {
      NextPassLeft(0, p.step, p.pass, w, h);
      Pow2Values();
      assert Rows(0, p.step, p.pass, h) == RowOrder(interlaced, h) by {
        if interlaced {
          assert Rows(1, 2, 0, h) == Every(1, 2, h);
          assert Rows(2, 4, 1, h) == Every(2, 4, h) + Every(1, 2, h);
          assert Rows(4, 8, 2, h) == Every(4, 8, h) + (Every(2, 4, h) + Every(1, 2, h));
        } else {
          assert Rows(0, 1, 0, h) == Every(0, 1, h);
        }
      }
      if h == 0 {
        NoRows(interlaced, w);
      }
    }
  }

  lemma NoRows(interlaced: bool, w: nat)
    ensures Order(interlaced, w, 0) == []
  {
  }

  // ---------------------------------------------------------------- drawing

  datatype Rgba = Rgba(r: byte, g: byte, b: byte, a: byte)

  /** The image rectangle inside a canvas `width` pixels wide. */
  datatype Frame = Frame(width: nat, x: nat, y: nat, w: nat, h: nat)

  function Pixel(f: Frame, c: Cell): nat
  {
    (f.y + c.row) * f.width + f.x + c.col
  }

  /** Row row and column col of the rectangle, counted along the canvas. */
  lemma PixelIs(width: nat, x: nat, y: nat, w: nat, h: nat, row: nat, col: nat)
    ensures Pixel(Frame(width, x, y, w, h), Cell(row, col)) == y * width + row * width + (x + col)
  {
    MulAdd(y, row, width);
  }

  lemma PixelInjective(f: Frame, a: Cell, b: Cell)
    requires f.x + f.w <= f.width && a.col < f.w && b.col < f.w && Pixel(f, a) == Pixel(f, b)
    ensures a == b
  {
    DivMod(Pixel(f, a), f.width, f.y + a.row, f.x + a.col);
    DivMod(Pixel(f, b), f.width, f.y + b.row, f.x + b.col);
  }

  lemma PixelInside(f: Frame, height: nat, c: Cell)
    requires f.x + f.w <= f.width && f.y + f.h <= height && c.row < f.h && c.col < f.w
    ensures Pixel(f, c) < height * f.width
  {
    MulMono(f.y + c.row + 1, height, f.width);
    MulAdd(f.y + c.row, 1, f.width);
  }

  /** Canvas, touched pixels and cursor. */
  datatype Canvas = Canvas(out: seq<Rgba>, history: seq<bool>, spot: Spot)

  /** A colour-table entry, in the order its four bytes are stored. */
  datatype Colour = Colour(blue: byte, green: byte, red: byte, alpha: byte)

  /** Only opaque entries are drawn. */
  function Over(old_: Rgba, c: Colour): Rgba
  {
    if c.alpha > 128 then Rgba(c.red, c.green, c.blue, c.alpha) else old_
  }

  ghost predicate Inside(f: Frame, height: nat, cv: Canvas)
  {
    && f.x + f.w <= f.width && f.y + f.h <= height
    && |cv.out| == height * f.width && |cv.history| == |cv.out|
    && cv.spot.step > 0 && (cv.spot.row < f.h ==> cv.spot.col < f.w)
  }

  /** Drawing one colour index at the cursor; nothing once the rectangle is full. */
  ghost function Plot(f: Frame, height: nat, pal: seq<Colour>, cv: Canvas, index: byte): (r: Canvas)
    requires Inside(f, height, cv) && |pal| == 256
    ensures Inside(f, height, r)
  {
    if cv.spot.row >= f.h then cv
    else
      var c := Cell(cv.spot.row, cv.spot.col);
      PixelInside(f, height, c);
      var p := Pixel(f, c);
      Canvas(cv.out[p := Over(cv.out[p], pal[index])], cv.history[p := true], Advance(cv.spot, f.w, f.h))
  }

  ghost function PlotAll(f: Frame, height: nat, pal: seq<Colour>, cv: Canvas, s: seq<byte>): (r: Canvas)
    requires Inside(f, height, cv) && |pal| == 256
    ensures Inside(f, height, r)
  {
    if |s| == 0 then cv else Plot(f, height, pal, PlotAll(f, height, pal, cv, s[..|s| - 1]), s[|s| - 1])
  }

  lemma {:induction false} PlotAllConcat(f: Frame, height: nat, pal: seq<Colour>, cv: Canvas, s: seq<byte>, t: seq<byte>)
    requires Inside(f, height, cv) && |pal| == 256
    ensures PlotAll(f, height, pal, cv, s + t) == PlotAll(f, height, pal, PlotAll(f, height, pal, cv, s), t)
    decreases |t|
  {
    if |t| == 0 {
      assert s + t == s;
    } else {
      var n := |t| - 1;
      PlotAllConcat(f, height, pal, cv, s, t[..n]);
      assert (s + t)[..|s + t| - 1] == s + t[..n];
    }
  }

  function Min(a: nat, b: nat): nat { if a < b then a else b }

  /** What a picture is after the first n indices: pixel Order[k] shows index k, every other pixel
      is as before, and exactly the drawn pixels are marked. */
  ghost predicate Shows(f: Frame, pal: seq<Colour>, order: seq<Cell>, before: Canvas, s: seq<byte>, after: Canvas)
    requires |pal| == 256 && |before.out| == |after.out| == |before.history| == |after.history|
    requires forall k | 0 <= k < |order| :: Pixel(f, order[k]) < |before.out|
  {
    var n := Min(|s|, |order|);
    && (forall k | 0 <= k < n :: var p := Pixel(f, order[k]);
          after.out[p] == Over(before.out[p], pal[s[k]]) && after.history[p])
    && (forall p | 0 <= p < |before.out| && (forall k | 0 <= k < n :: Pixel(f, order[k]) != p) ::
          after.out[p] == before.out[p] && after.history[p] == before.history[p])
  }

  /** The cells of an order lie in the rectangle, each at most once. */
  ghost predicate Within(f: Frame, order: seq<Cell>)
  {
    NoDup(order) && forall k | 0 <= k < |order| :: order[k].row < f.h && order[k].col < f.w
  }

  lemma PixelsInside(f: Frame, height: nat, order: seq<Cell>)
    requires f.x + f.w <= f.width && f.y + f.h <= height && Within(f, order)
    ensures forall k | 0 <= k < |order| :: Pixel(f, order[k]) < height * f.width
  {
    forall k | 0 <= k < |order| ensures Pixel(f, order[k]) < height * f.width {
      PixelInside(f, height, order[k]);
    }
  }

  /** One more index, at the cell the cursor is on. */
  lemma ShowsStep(f: Frame, height: nat, pal: seq<Colour>, order: seq<Cell>, before: Canvas, s: seq<byte>, mid: Canvas,
                  index: byte)
    requires Inside(f, height, before) && Inside(f, height, mid) && |pal| == 256 && Within(f, order)
    requires forall k | 0 <= k < |order| :: Pixel(f, order[k]) < height * f.width
    requires Shows(f, pal, order, before, s, mid)
    requires |s| < |order| && mid.spot.row < f.h && order[|s|] == Cell(mid.spot.row, mid.spot.col)
    ensures Shows(f, pal, order, before, s + [index], Plot(f, height, pal, mid, index))
  {
    var p := Pixel(f, order[|s|]);
    forall k | 0 <= k < |s| ensures Pixel(f, order[k]) != p {
      if Pixel(f, order[k]) == p { PixelInjective(f, order[k], order[|s|]); }
    }
  }

  lemma ShowsNext(f: Frame, height: nat, pal: seq<Colour>, order: seq<Cell>, before: Canvas, s: seq<byte>, mid: Canvas,
                  index: byte)
    requires Inside(f, height, before) && Inside(f, height, mid) && |pal| == 256 && Within(f, order)
    requires forall k | 0 <= k < |order| :: Pixel(f, order[k]) < height * f.width
    requires Shows(f, pal, order, before, s, mid) && Left(mid.spot, f.w, f.h) == order[Min(|s|, |order|)..]
    ensures Shows(f, pal, order, before, s + [index], Plot(f, height, pal, mid, index))
    ensures Left(Plot(f, height, pal, mid, index).spot, f.w, f.h) == order[Min(|s| + 1, |order|)..]
  {
    LeftNext(mid.spot, f.w, f.h, order, Min(|s|, |order|));
    if mid.spot.row < f.h {
      ShowsStep(f, height, pal, order, before, s, mid, index);
    }
  }

  lemma LeftNext(p: Spot, w: nat, h: nat, order: seq<Cell>, n: nat)
    requires p.step > 0 && (p.row < h ==> p.col < w) && n <= |order| && Left(p, w, h) == order[n..]
    ensures if p.row >= h then n == |order|
            else n < |order| && order[n] == Cell(p.row, p.col) && Left(Advance(p, w, h), w, h) == order[n + 1..]
  {
    if p.row < h {
      AdvanceLeft(p, w, h);
      assert order[n..][0] == Cell(p.row, p.col);
      assert order[n + 1..] == order[n..][1..];
    }
  }

  lemma {:induction false} PlotAllShows(f: Frame, height: nat, pal: seq<Colour>, order: seq<Cell>, cv: Canvas, s: seq<byte>)
    requires Inside(f, height, cv) && |pal| == 256 && Within(f, order) && Left(cv.spot, f.w, f.h) == order
    requires forall k | 0 <= k < |order| :: Pixel(f, order[k]) < height * f.width
    ensures Shows(f, pal, order, cv, s, PlotAll(f, height, pal, cv, s))
    ensures Left(PlotAll(f, height, pal, cv, s).spot, f.w, f.h) == order[Min(|s|, |order|)..]
    decreases |s|
  {
    hide Inside, Within, Left, Pixel, Plot;
    if |s| == 0 {
    } else {
      var m := |s| - 1;
      PlotAllShows(f, height, pal, order, cv, s[..m]);
      var mid := PlotAll(f, height, pal, cv, s[..m]);
      ShowsNext(f, height, pal, order, cv, s[..m], mid, s[m]);
      assert s[..m] + [s[m]] == s;
    }
  }

  /** Drawing any number of indices into a rectangle of the canvas: the k-th goes to the k-th pixel
      of the format's order, each pixel of the rectangle is visited exactly once, nothing outside
      it changes, and further indices are ignored. */
  lemma DrawnInOrder(f: Frame, height: nat, pal: seq<Colour>, interlaced: bool, cv: Canvas, s: seq<byte>)
    requires Inside(f, height, cv) && |pal| == 256 && cv.spot == FirstSpot(interlaced, f.w, f.h)
    ensures Within(f, Order(interlaced, f.w, f.h))
    ensures forall k | 0 <= k < |Order(interlaced, f.w, f.h)| ::
              Pixel(f, Order(interlaced, f.w, f.h)[k]) < height * f.width
    ensures Shows(f, pal, Order(interlaced, f.w, f.h), cv, s, PlotAll(f, height, pal, cv, s))
  {
    var order := Order(interlaced, f.w, f.h);
    OrderCovers(interlaced, f.w, f.h);
    assert forall k | 0 <= k < |order| :: order[k] in order;
    PixelsInside(f, height, order);
    FirstLeft(interlaced, f.w, f.h);
    PlotAllShows(f, height, pal, order, cv, s);
  }
}
