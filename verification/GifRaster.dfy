/** stbi__gif's raster decoding: the linked dictionary of stbi__process_gif_raster and the recursive
    emitter stbi__out_gif_code, proved to draw what GifLzw says at the places GifCanvas says. */
module GifRaster {
  import opened Bits
  import opened GifCanvas
  import opened GifLzw

  /** stbi__gif_lzw. */
  datatype Entry = Entry(prefix: int, first: byte, suffix: byte)

  /** Following prefixes from code c spells w; prefixes get strictly smaller and are never the clear
      or end code. */
  ghost predicate Spells(t: seq<Entry>, clear: nat, c: nat, w: seq<byte>)
    decreases |w|
  {
    && |w| > 0 && c < |t| && c != clear && c != clear + 1
    && t[c].first == w[0] && t[c].suffix == w[|w| - 1]
    && (if |w| == 1 then t[c].prefix == -1
        else 0 <= t[c].prefix < c && Spells(t, clear, t[c].prefix, w[..|w| - 1]))
  }

  lemma {:induction false} SpellsFrame(t: seq<Entry>, u: seq<Entry>, clear: nat, c: nat, w: seq<byte>, n: nat)
    requires Spells(t, clear, c, w) && c < n <= |t| == |u| && forall i | 0 <= i < n :: t[i] == u[i]
    ensures Spells(u, clear, c, w)
    decreases |w|
  {
    if |w| <= 1 {
    } else {
      SpellsFrame(t, u, clear, t[c].prefix, w[..|w| - 1], n);
    }
  }

  /** How many codes are taken after the given number of words. */
  function Avail(clear: nat, n: nat): nat
  {
    clear + 2 + if n == 0 then 0 else n - 1
  }

  /** The dictionary after words, which came as codes cds: entry k continues word k with the first
      byte of the word after it. */
  ghost predicate Dict(t: seq<Entry>, clear: nat, words: seq<Word>, cds: seq<nat>)
  {
    && |t| == 8192 && Avail(clear, |words|) <= 8192 && |cds| == |words|
    && (forall c | 0 <= c < clear :: t[c] == Entry(-1, c % 256, c % 256))
    && (forall k | 0 <= k < |words| :: cds[k] < clear + 2 + k && Spells(t, clear, cds[k], words[k]))
    && (forall k | 0 <= k < |words| - 1 :: t[clear + 2 + k] == Entry(cds[k], words[k][0], words[k + 1][0]))
  }

  lemma NoWords(t: seq<Entry>, clear: nat)
    requires |t| == 8192 && clear + 2 <= 8192 && forall c | 0 <= c < clear :: t[c] == Entry(-1, c % 256, c % 256)
    ensures Dict(t, clear, [], [])
  {
  }

  /** The entry that a word w after others adds. */
  function NewEntry(words: seq<Word>, cds: seq<nat>, w: Word): Entry
    requires |cds| == |words| > 0
  {
    Entry(cds[|cds| - 1], words[|words| - 1][0], w[0])
  }

  /** Adding the entry keeps the ones before. */
  lemma DictAdd(t: seq<Entry>, u: seq<Entry>, clear: nat, words: seq<Word>, cds: seq<nat>, w: Word)
    requires Dict(t, clear, words, cds) && |words| > 0 && clear + 2 + |words| <= 8192
    requires u == t[clear + 1 + |words| := NewEntry(words, cds, w)]
    ensures Dict(u, clear, words, cds)
  {
    forall k | 0 <= k < |words| ensures Spells(u, clear, cds[k], words[k]) {
      SpellsFrame(t, u, clear, cds[k], words[k], clear + 1 + |words|);
    }
  }

  /** With its entry in place, every code up to the new one spells its word. */
  lemma CodeSpells(u: seq<Entry>, clear: nat, words: seq<Word>, cds: seq<nat>, code: nat, w: Word)
    requires Dict(u, clear, words, cds) && clear + 2 + |words| <= 8192 && WordOf(clear, words, code) == Some(w)
    requires |words| > 0 ==> u[clear + 1 + |words|] == NewEntry(words, cds, w)
    ensures code < clear + 2 + |words| && Spells(u, clear, code, w) && u[code].first == w[0]
  {
    if code >= clear + 2 {
      var k := code - clear - 2;
      assert w[..|w| - 1] == words[k];
      assert w[0] == words[k][0];
    }
  }

  lemma DictWord(u: seq<Entry>, clear: nat, words: seq<Word>, cds: seq<nat>, code: nat, w: Word)
    requires Dict(u, clear, words, cds) && clear + 2 + |words| <= 8192
    requires |words| > 0 ==> u[clear + 1 + |words|] == NewEntry(words, cds, w)
    requires code < clear + 2 + |words| && Spells(u, clear, code, w)
    ensures Dict(u, clear, words + [w], cds + [code])
  {
  }

  // ---------------------------------------------------------------- positions as byte offsets

  lemma OffsetCompare(a: nat, b: nat, d: nat)
    ensures a >= b ==> a * d >= b * d
    ensures d > 0 && a < b ==> a * d < b * d
  {
    if a >= b {
      MulMono(b, a, d);
    } else {
      MulMono(a + 1, b, d);
      MulAdd(a, 1, d);
    }
  }

  lemma OffsetPixel(f: Frame, c: Cell)
    ensures (4 * f.x + 4 * c.col + (f.y * (4 * f.width) + c.row * (4 * f.width))) / 4 == Pixel(f, c)
  {
    MulAdd(f.y, c.row, 4 * f.width);
    MulAdd(f.y, c.row, f.width);
    MulAssoc(f.y + c.row, 4, f.width);
    MulAssoc(4, f.y + c.row, f.width);
  }

  /** The part of stbi__gif that drawing uses: positions are byte offsets into rows of 4-byte
      pixels, as in the original, with the rectangle they describe. */
  class Gif {
    const codes: array<Entry>
    const out: array<Rgba>
    const history: array<bool>
    const colorTable: seq<Colour>
    var lineSize: nat
    var startX: nat
    var startY: nat
    var maxX: nat
    var maxY: nat
    var curX: nat
    var curY: nat
    var step: nat
    var parse: nat
    ghost const frame: Frame
    ghost const height: nat
    ghost var spot: Spot

    ghost predicate Valid()
      reads this, out, history
    {
      Offsets(curX) && Inside(frame, height, View())
    }

    /** Offsets describe the rectangle and the cursor, x being that of the cursor in its row. */
    ghost predicate Offsets(x: int)
      reads this
    {
      && codes.Length == 8192 && |colorTable| == 256
      && lineSize == 4 * frame.width && startX == 4 * frame.x && startY == frame.y * lineSize
      && maxX == startX + 4 * frame.w && maxY == startY + frame.h * lineSize
      && x == startX + 4 * spot.col && curY == startY + spot.row * lineSize
      && step == spot.step * lineSize && parse == spot.pass
    }

    ghost function View(): Canvas
      reads this, out, history
    {
      Canvas(out[..], history[..], spot)
    }

    ghost function Plotted(cv: Canvas, s: seq<byte>): (r: Canvas)
      requires |colorTable| == 256 && Inside(frame, height, cv)
      ensures Inside(frame, height, r)
    {
      PlotAll(frame, height, colorTable, cv, s)
    }

    /** Lines 6850-6880 of stbi__gif_load_next: start drawing an image of w by h pixels at (x, y) on a
        canvas of canvasWidth by canvasHeight. */
    constructor (canvas: seq<Rgba>, canvasWidth: nat, canvasHeight: nat, x: nat, y: nat, w: nat, h: nat, interlaced: bool,
                 palette: seq<Colour>)
      requires |canvas| == canvasHeight * canvasWidth && x + w <= canvasWidth && y + h <= canvasHeight && |palette| == 256
      ensures Valid() && fresh(codes) && fresh(out) && fresh(history) && codes.Length == 8192
      ensures colorTable == palette && frame == Frame(canvasWidth, x, y, w, h) && height == canvasHeight
      ensures View() == Canvas(canvas, seq(|canvas|, i => false), FirstSpot(interlaced, w, h))
    {
      codes := new Entry[8192](_ => Entry(-1, 0, 0));
      out := new Rgba[|canvas|](i requires 0 <= i < |canvas| => canvas[i]);
      history := new bool[|canvas|](_ => false);
      colorTable := palette;
      frame := Frame(canvasWidth, x, y, w, h);
      height := canvasHeight;
      spot := FirstSpot(interlaced, w, h);
      lineSize := canvasWidth * 4;
      startX := x * 4;
      startY := y * (canvasWidth * 4);
      maxX := x * 4 + w * 4;
      maxY := y * (canvasWidth * 4) + h * (canvasWidth * 4);
      curX := x * 4;
      curY := if w == 0 then y * (canvasWidth * 4) + h * (canvasWidth * 4) else y * (canvasWidth * 4);
      step := if interlaced then 8 * (canvasWidth * 4) else canvasWidth * 4;
      parse := if interlaced then 3 else 0;
    }

    lemma AtEnd()
      requires Valid()
      ensures curY >= maxY <==> spot.row >= frame.h
    {
      OffsetCompare(spot.row, frame.h, lineSize);
    }

    /** stbi__out_gif_code: draw the word a code stands for. */
    method OutGifCode(clear: nat, code: nat, ghost w: Word)
      requires Valid() && Spells(codes[..], clear, code, w)
      modifies `curX, `curY, `step, `parse, `spot, out, history
      ensures Valid() && View() == Plotted(old(View()), w)
      decreases |w|
    {
      ghost var before := View();
      if codes[code].prefix >= 0 {
        OutGifCode(clear, codes[code].prefix, w[..|w| - 1]);
      }
      assert View() == Plotted(before, w[..|w| - 1]);
      DrawPixel(codes[code].suffix);
      assert View() == Plotted(before, w);
    }

    method DrawPixel(suffix: byte)
      requires Valid()
      modifies `curX, `curY, `step, `parse, `spot, out, history
      ensures Valid() && View() == Plot(frame, height, colorTable, old(View()), suffix)
    {
      AtEnd();
      if curY >= maxY { return; }
      var idx := curX + curY;
      ghost var cell := Cell(spot.row, spot.col);
      OffsetPixel(frame, cell);
      PixelInside(frame, height, cell);
      history[idx / 4] := true;
      var c := colorTable[suffix];
      if c.alpha > 128 {
        out[idx / 4] := Rgba(c.red, c.green, c.blue, c.alpha);
      }
      MoveOn();
    }

    /** Lines 6677-6688: the next pixel, row or pass. */
    method MoveOn()
      requires Valid() && spot.row < frame.h
      modifies `curX, `curY, `step, `parse, `spot
      ensures Valid() && spot == Advance(old(spot), frame.w, frame.h)
    {
      curX := curX + 4;
      if curX >= maxX {
        NextRow();
        while curY >= maxY && parse > 0
          invariant Valid() && spot.col == 0
          invariant NextPass(spot.row, spot.step, spot.pass, frame.h) == Advance(old(spot), frame.w, frame.h)
          decreases parse
        {
          AtEnd();
          StartPass();
        }
        AtEnd();
      } else {
        spot := spot.(col := spot.col + 1);
      }
    }

    method NextRow()
      requires curX == startX + 4 * (spot.col + 1)
      requires Offsets(curX - 4)
      requires Inside(frame, height, View()) && frame.w > 0
      modifies `curX, `curY, `spot
      ensures Valid() && spot == Spot(old(spot.row + spot.step), 0, old(spot.step), old(spot.pass))
    {
      MulAdd(spot.row, spot.step, lineSize);
      curX := startX;
      curY := curY + step;
      spot := Spot(spot.row + spot.step, 0, spot.step, spot.pass);
    }

    method StartPass()
      requires Valid() && parse > 0 && spot.col == 0 && frame.w > 0
      modifies `curY, `step, `parse, `spot
      ensures Valid() && spot == Spot(Pow2(old(spot.pass)) / 2, 0, Pow2(old(spot.pass)), old(spot.pass) - 1)
    {
      step := Pow2(parse) * lineSize;
      HalfStep(Pow2(parse - 1), lineSize);
      curY := startY + step / 2;
      spot := Spot(Pow2(parse) / 2, 0, Pow2(parse), parse - 1);
      parse := parse - 1;
    }

    // ---------------------------------------------------------------- the dictionary

    /** The decoder's variables after the words of st, which came as codes cds. */
    ghost predicate Machine(clear: nat, st: Lzw, cds: seq<nat>, m: Vars)
      reads codes
    {
      && Dict(codes[..], clear, st.words, cds) && st.width > 0
      && m == Vars(!st.started, st.width, Avail(clear, |st.words|), if |cds| == 0 then -1 else cds[|cds| - 1])
    }

    /** Lines 6707-6711: the single-byte codes. */
    method InitCodes(clear: nat)
      requires codes.Length == 8192 && clear + 2 <= 8192
      modifies codes
      ensures Dict(codes[..], clear, [], [])
    {
      var init := 0;
      while init < clear
        invariant 0 <= init <= clear
        invariant forall c | 0 <= c < init :: codes[c] == Entry(-1, c % 256, c % 256)
      {
        codes[init] := Entry(-1, init % 256, init % 256);
        init := init + 1;
      }
      NoWords(codes[..], clear);
    }

    /** Lines 6749-6757: the entry for the previous word and the first byte of this one; the test
        code == avail there never holds, and the entry's own first byte serves in that case. */
    method AddEntry(clear: nat, ghost st: Lzw, ghost cds: seq<nat>, avail: nat, oldcode: nat, code: nat, ghost w: Word)
      requires codes.Length == 8192 && Dict(codes[..], clear, st.words, cds) && |st.words| > 0
      requires avail == Avail(clear, |st.words|) < 8192 && oldcode == cds[|cds| - 1] && WordOf(clear, st.words, code) == Some(w)
      modifies codes
      ensures codes[..] == old(codes[..])[avail := NewEntry(st.words, cds, w)]
    {
      FirstOfWord(codes[..], clear, st.words, cds, code, w);
      assert codes[..][oldcode].first == st.words[|st.words| - 1][0];
      codes[avail] := codes[avail].(prefix := oldcode);
      var pf := codes[oldcode].first;
      codes[avail] := codes[avail].(first := pf);
      if code != avail + 1 {
        pf := codes[code].first;
      }
      codes[avail] := codes[avail].(suffix := pf);
    }

    /** Lines 6749-6768: a code other than clear and end, draw its word. */
    method TakeCode(clear: nat, ghost st: Lzw, ghost cds: seq<nat>, m: Vars, code: nat)
      returns (ok: bool, avail: nat, codesize: nat)
      requires Valid() && Machine(clear, st, cds, m)
      requires code != clear && code != clear + 1 && code <= m.avail
      modifies `curX, `curY, `step, `parse, `spot, out, history, codes
      ensures Valid() && (ok <==> WordOf(clear, st.words, code).Some? && clear + 2 + |st.words| <= 8192)
      ensures !ok ==> View() == old(View())
      ensures ok ==>
        var w := WordOf(clear, st.words, code).value;
        && View() == Plotted(old(View()), w)
        && Machine(clear, Grown(clear, st, w), cds + [code], Vars(m.first, codesize, avail, code))
    {
      hide Gif.Valid, Gif.View, Gif.Plotted, Pow2, Spells, Residue, NewEntry;
      avail, codesize := m.avail, m.codesize;
      var oldcode := m.oldcode;
      if oldcode < 0 && code == avail { return false, avail, codesize; }
      ghost var w := WordOf(clear, st.words, code).value;
      if oldcode >= 0 {
        avail := avail + 1;
        if avail > 8192 { return false, avail, codesize; }
        ghost var t := codes[..];
        AddEntry(clear, st, cds, avail - 1, oldcode, code, w);
        DictAdd(t, codes[..], clear, st.words, cds, w);
      }
      CodeSpells(codes[..], clear, st.words, cds, code, w);
      OutGifCode(clear, code, w);
      DictWord(codes[..], clear, st.words, cds, code, w);
      ResidueIsMod(avail, Pow2(codesize));
      if avail % Pow2(codesize) == 0 && avail <= 0x0FFF {
        codesize := codesize + 1;
      }
      ok := true;
    }

    // ---------------------------------------------------------------- the raster

    /** stbi__process_gif_raster on the bytes of s from start: it succeeds exactly when the raster is
        well-formed, and has drawn what the raster stands for, as far as it got. */
    method ProcessRaster(s: seq<byte>, start: nat) returns (ok: bool, p: nat)
      requires Valid()
      modifies `curX, `curY, `step, `parse, `spot, out, history, codes
      ensures Valid() && ok == Raster(s, start).0 && View() == Plotted(old(View()), Raster(s, start).1)
      ensures ok ==> p == AfterBlocks(s, start + 1, 0)
    {
      var cs := ByteAt(s, start);
      p := start + 1;
      if cs > 12 { return false, p; }
      var clear := Pow2(cs);
      Pow2Mono(cs, 12);
      Pow2Values();
      InitCodes(clear);
      ok, p := ReadCodes(s, p, cs, clear);
    }

    /** The loop over codes. */
    method ReadCodes(s: seq<byte>, start: nat, cs: nat, clear: nat) returns (ok: bool, p: nat)
      requires Valid() && clear == Pow2(cs) && Dict(codes[..], clear, [], [])
      modifies `curX, `curY, `step, `parse, `spot, out, history, codes
      ensures Valid()
      ensures var r := DecodeLzw(DataFrom(s, start, 0), cs, 0, Cleared(cs, false));
        ok == r.0 && View() == Plotted(old(View()), r.1)
      ensures ok ==> p == AfterBlocks(s, start, 0)
    {
      hide Dict, DecodeLzw, DataFrom, Gif.View, AfterBlocks, Join, Low, Shr, Val;
      ghost var data := DataFrom(s, start, 0);
      ghost var goal := DecodeLzw(data, cs, 0, Cleared(cs, false));
      ghost var view, text: seq<byte>, pos: nat, st := View(), [], 0, Cleared(cs, false);
      ghost var cds: seq<nat> := [];
      var m := Vars(true, cs + 1, clear + 2, -1);
      var bits: nat, validBits: nat, len: nat := 0, 0, 0;
      p := start;
      JoinNothing(goal);
      while true
        invariant Valid() && Machine(clear, st, cds, m) && View() == Plotted(view, text)
        invariant Buffered(s, data, p, len, pos, bits, validBits) && AfterBlocks(s, p, len) == AfterBlocks(s, start, 0)
        invariant goal == Join(text, DecodeLzw(data, cs, pos, st))
        decreases |DataFrom(s, p, len)|, validBits
      {
        if validBits < m.codesize {
          var more: bool;
          more, p, len, bits, validBits := FetchByte(s, data, p, len, pos, bits, validBits);
          if !more {
            DecodeEnd(data, cs, pos, st, text);
            return true, p;
          }
        } else {
          var code := Low(bits, m.codesize);
          TakeBits(s, data, p, len, pos, bits, validBits, m.codesize);
          bits, validBits := Shr(bits, m.codesize), validBits - m.codesize;
          var verdict: Verdict;
          ghost var width := m.codesize;
          verdict, m, st, cds, text := NextCode(cs, clear, data, pos, st, cds, m, code, view, text, goal);
          pos := pos + width;
          if verdict == Bad { return false, p; }
          if verdict == Done {
            p := SkipBlocks(s, p, len);
            return true, p;
          }
        }
      }
    }

    /** One code, with what was drawn before it. */
    method NextCode(cs: nat, clear: nat, ghost data: seq<byte>, ghost pos: nat, ghost st0: Lzw, ghost cds0: seq<nat>,
                    m0: Vars, code: nat, ghost view: Canvas, ghost text0: seq<byte>, ghost goal: (bool, seq<byte>))
      returns (verdict: Verdict, m: Vars, ghost st: Lzw, ghost cds: seq<nat>, ghost text: seq<byte>)
      requires Valid() && Machine(clear, st0, cds0, m0) && clear == Pow2(cs)
      requires pos + st0.width <= 8 * |data| && code == Val(data, pos, st0.width)
      requires Inside(frame, height, view) && View() == Plotted(view, text0)
      requires goal == Join(text0, DecodeLzw(data, cs, pos, st0))
      modifies `curX, `curY, `step, `parse, `spot, out, history, codes
      ensures Valid() && View() == Plotted(view, text) && (verdict == More ==> Machine(clear, st, cds, m))
      ensures match verdict
              case More => st.width > 0 && goal == Join(text, DecodeLzw(data, cs, pos + st0.width, st))
              case Done => goal == (true, text)
              case Bad => goal == (false, text)
    {
      ghost var w: seq<byte>;
      verdict, m, st, cds, w := HandleCode(cs, clear, data, pos, st0, cds0, m0, code);
      PlotAllConcat(frame, height, colorTable, view, text0, w);
      JoinJoin(text0, w, DecodeLzw(data, cs, pos + st0.width, st));
      text := text0 + w;
    }

    /** Lines 6733-6771: what to do about one code. */
    method HandleCode(cs: nat, clear: nat, ghost data: seq<byte>, ghost pos: nat, ghost st0: Lzw, ghost cds0: seq<nat>,
                      m0: Vars, code: nat)
      returns (verdict: Verdict, m: Vars, ghost st: Lzw, ghost cds: seq<nat>, ghost w: seq<byte>)
      requires Valid() && Machine(clear, st0, cds0, m0) && clear == Pow2(cs)
      requires pos + st0.width <= 8 * |data| && code == Val(data, pos, st0.width)
      modifies `curX, `curY, `step, `parse, `spot, out, history, codes
      ensures Valid() && View() == Plotted(old(View()), w)
      ensures st.width > 0 && (verdict == More ==> Machine(clear, st, cds, m))
      ensures DecodeLzw(data, cs, pos, st0) == match verdict
              case More => Join(w, DecodeLzw(data, cs, pos + st0.width, st))
              case Done => (true, w)
              case Bad => (false, w)
    {
      m, st, cds, w := m0, st0, cds0, [];
      DecodeStep(data, cs, pos, st);
      if code == clear {
        verdict, m := More, Vars(false, cs + 1, clear + 2, -1);
        st, cds := Cleared(cs, true), [];
        NoWords(codes[..], clear);
        JoinNothing(DecodeLzw(data, cs, pos + st0.width, st));
      } else if code == clear + 1 {
        verdict := Done;
      } else if code <= m.avail {
        if m.first { return Bad, m, st, cds, w; }
        var took, avail, codesize := TakeCode(clear, st, cds, m, code);
        if !took { return Bad, m, st, cds, w; }
        verdict, m := More, Vars(m.first, codesize, avail, code);
        w := WordOf(clear, st.words, code).value;
        st, cds := Grown(clear, st, w), cds + [code];
      } else {
        verdict := Bad;
      }
    }
  }

  /** What drawing the indices of text in a given order makes of a canvas. */
  ghost predicate Painted(f: Frame, pal: seq<Colour>, order: seq<Cell>, text: seq<byte>, canvas: seq<Rgba>, out: seq<Rgba>,
                          touched: seq<bool>)
  {
    && |pal| == 256 && |out| == |touched| == |canvas|
    && (forall k | 0 <= k < |order| :: Pixel(f, order[k]) < |canvas|)
    && Shows(f, pal, order, Canvas(canvas, seq(|canvas|, i => false), Spot(0, 0, 1, 0)), text, Canvas(out, touched, Spot(0, 0, 1, 0)))
  }

  /** The raster at start, drawn with the given colours. */
  method DrawRaster(canvas: seq<Rgba>, width: nat, height: nat, x: nat, y: nat, w: nat, h: nat, interlaced: bool,
                    palette: seq<Colour>, s: seq<byte>, start: nat)
    returns (ok: bool, out: seq<Rgba>, touched: seq<bool>)
    requires |canvas| == height * width && |palette| == 256 && x + w <= width && y + h <= height
    ensures ok == Raster(s, start).0 && |out| == |touched| == |canvas|
    ensures Painted(Frame(width, x, y, w, h), palette, Order(interlaced, w, h), Raster(s, start).1, canvas, out, touched)
  {
    hide Raster, Order, PlotAll, Pixel, Over;
    var g := new Gif(canvas, width, height, x, y, w, h, interlaced, palette);
    ghost var before := g.View();
    var p;
    ok, p := g.ProcessRaster(s, start);
    out, touched := g.out[..], g.history[..];
    DrawnInOrder(g.frame, height, palette, interlaced, before, Raster(s, start).1);
  }

  /** Entry i of a table of colours at p. */
  ghost predicate TableEntry(s: seq<byte>, p: nat, i: nat, transp: int, c: Colour)
  {
    c == Colour(ByteAt(s, p + 3 * i + 2), ByteAt(s, p + 3 * i + 1), ByteAt(s, p + 3 * i), if i == transp then 0 else 255)
  }

  /** stbi__gif_parse_colortable: three bytes an entry, red, green and blue, with the transparent entry
      marked; entries past n stay. */
  method ParseColorTable(s: seq<byte>, start: nat, pal: array<Colour>, n: nat, transp: int) returns (p: nat)
    requires n <= pal.Length
    modifies pal
    ensures p == start + 3 * n
    ensures forall i | 0 <= i < n :: TableEntry(s, start, i, transp, pal[i])
    ensures forall i | n <= i < pal.Length :: pal[i] == old(pal[i])
  {
    p := start;
    for i := 0 to n
      invariant p == start + 3 * i
      invariant forall k | 0 <= k < i :: TableEntry(s, start, k, transp, pal[k])
      invariant forall k | i <= k < pal.Length :: pal[k] == old(pal[k])
    {
      var red, green, blue := ByteAt(s, p), ByteAt(s, p + 1), ByteAt(s, p + 2);
      pal[i] := Colour(blue, green, red, if i == transp then 0 else 255);
      p := p + 3;
    }
  }

  /** Lines 6850-6853: a number in two bytes, low byte first. */
  function Number16(s: seq<byte>, p: nat): (n: nat)
    ensures n < 65536 && n % 256 == ByteAt(s, p) && n / 256 == ByteAt(s, p + 1)
  {
    ByteAt(s, p) + 256 * ByteAt(s, p + 1)
  }

  /** What an image descriptor at p says (section 20 of GIF89a): its rectangle, and how many colours its own table has. */
  datatype Descriptor = Descriptor(x: nat, y: nat, w: nat, h: nat, interlaced: bool, ownTable: bool, colours: nat)

  function ReadDescriptor(s: seq<byte>, p: nat): (d: Descriptor)
    ensures d.x == ByteAt(s, p) + 256 * ByteAt(s, p + 1) && d.y == ByteAt(s, p + 2) + 256 * ByteAt(s, p + 3)
    ensures d.w == ByteAt(s, p + 4) + 256 * ByteAt(s, p + 5) && d.h == ByteAt(s, p + 6) + 256 * ByteAt(s, p + 7)
    ensures d.ownTable == (ByteAt(s, p + 8) >= 128) && d.interlaced == (ByteAt(s, p + 8) % 128 >= 64)
    ensures d.colours == [2, 4, 8, 16, 32, 64, 128, 256][ByteAt(s, p + 8) % 8]
  {
    var lflags := ByteAt(s, p + 8);
    Pow2Values();
    Descriptor(Number16(s, p), Number16(s, p + 2), Number16(s, p + 4), Number16(s, p + 6), lflags / 64 % 2 == 1, lflags / 128 == 1,
               2 * Pow2(lflags % 8))
  }

  /** A pixel drawn with colour i of a table that stands in the file at p: the transparent colour leaves what was
      there, any other gives its three bytes as red, green and blue, opaque. */
  ghost predicate InFileColours(s: seq<byte>, p: nat, i: nat, transp: int, was: Rgba, now: Rgba)
  {
    if i == transp then now == was else now == Rgba(ByteAt(s, p + 3 * i), ByteAt(s, p + 3 * i + 1), ByteAt(s, p + 3 * i + 2), 255)
  }

  /** A pixel drawn with an entry of a table. */
  ghost predicate InTableColours(c: Colour, was: Rgba, now: Rgba)
  {
    match c
    case Colour(blue, green, red, alpha) => now == if alpha > 128 then Rgba(red, green, blue, alpha) else was
  }

  /** Colour i as the image descriptor d, followed by its table at p, has it. */
  ghost predicate ColourDrawn(s: seq<byte>, p: nat, d: Descriptor, transp: int, lpal: seq<Colour>, pal: seq<Colour>, i: byte,
                              was: Rgba, now: Rgba)
    requires |lpal| == |pal| == 256
  {
    match d
    case Descriptor(_, _, _, _, _, own, n) =>
      if own && i < n then InFileColours(s, p, i, transp, was, now) else InTableColours(if own then lpal[i] else pal[i], was, now)
  }

  /** The colours that reach the canvas are those of the file, when the table in use was parsed from it. */
  lemma PaintedColours(f: Frame, d: Descriptor, s: seq<byte>, p: nat, transp: int, lpal: seq<Colour>, pal: seq<Colour>,
                       table: seq<Colour>, canvas: seq<Rgba>, text: seq<byte>, out: seq<Rgba>, touched: seq<bool>)
    requires |lpal| == |pal| == |table| == 256 && (!d.ownTable ==> table == pal)
    requires d.ownTable ==> forall i | 0 <= i < 256 :: if i < d.colours then TableEntry(s, p, i, transp, table[i]) else table[i] == lpal[i]
    requires Painted(f, table, Order(d.interlaced, d.w, d.h), text, canvas, out, touched)
    ensures var order := Order(d.interlaced, d.w, d.h);
      && |out| == |touched| == |canvas|
      && (forall k | 0 <= k < |order| :: Pixel(f, order[k]) < |canvas|)
      && (forall k | 0 <= k < |order| && k < |text| :: var px := Pixel(f, order[k]);
            touched[px] && ColourDrawn(s, p, d, transp, lpal, pal, text[k], canvas[px], out[px]))
      && (forall px | 0 <= px < |canvas| && (forall k | 0 <= k < |order| && k < |text| :: Pixel(f, order[k]) != px) ::
            !touched[px] && out[px] == canvas[px])
  {
    hide Order, Pixel;
  }

  /** Lines 6847-6891 of stbi__gif_load_next, for the image descriptor at start: the rectangle is checked
      against the canvas, its colours are read into lpal or else are the global ones, and the raster after
      them is decoded into the rectangle.  Index k of the raster shows at pixel k of the transmission order,
      in the colours of the file; pixels of the transparent index, pixels outside the rectangle and those not
      reached keep theirs. */
  method DrawImage(canvas: seq<Rgba>, width: nat, height: nat, s: seq<byte>, start: nat, globalTable: bool, pal: seq<Colour>,
                   lpal: array<Colour>, transp: int)
    returns (ok: bool, out: seq<Rgba>, touched: seq<bool>)
    requires |canvas| == height * width && |pal| == 256 && lpal.Length == 256
    modifies lpal
    ensures |out| == |touched| == |canvas|
    ensures var d := ReadDescriptor(s, start);
      var f, order := Frame(width, d.x, d.y, d.w, d.h), Order(d.interlaced, d.w, d.h);
      var raster := Raster(s, start + 9 + if d.ownTable then 3 * d.colours else 0);
      if d.x + d.w > width || d.y + d.h > height || !(d.ownTable || globalTable) then !ok
      else
        && ok == raster.0
        && (forall k | 0 <= k < |order| :: Pixel(f, order[k]) < |canvas|)
        && (forall k | 0 <= k < |order| && k < |raster.1| :: var p, i := Pixel(f, order[k]), raster.1[k];
              && touched[p]
              && ColourDrawn(s, start + 9, d, transp, old(lpal[..]), pal, i, canvas[p], out[p]))
        && (forall p | 0 <= p < |canvas| && (forall k | 0 <= k < |order| && k < |raster.1| :: Pixel(f, order[k]) != p) ::
              !touched[p] && out[p] == canvas[p])
  {
    hide Painted, ColourDrawn, Order, Raster, Pixel, TableEntry;
    var x, y := ByteAt(s, start) + 256 * ByteAt(s, start + 1), ByteAt(s, start + 2) + 256 * ByteAt(s, start + 3);
    var w, h := ByteAt(s, start + 4) + 256 * ByteAt(s, start + 5), ByteAt(s, start + 6) + 256 * ByteAt(s, start + 7);
    out, touched := canvas, seq(|canvas|, i => false);
    if x + w > width || y + h > height { return false, out, touched; }
    var lflags := ByteAt(s, start + 8);
    var p := start + 9;
    var table := pal;
    if lflags >= 128 {
      Pow2Values();
      p := ParseColorTable(s, p, lpal, 2 * Pow2(lflags % 8), transp);
      table := lpal[..];
    } else if !globalTable {
      return false, out, touched;
    }
    ok, out, touched := DrawRaster(canvas, width, height, x, y, w, h, lflags / 64 % 2 == 1, table, s, p);
    PaintedColours(Frame(width, x, y, w, h), ReadDescriptor(s, start), s, start + 9, transp, old(lpal[..]), pal, table, canvas,
                   Raster(s, p).1, out, touched);
  }

  datatype Verdict = More | Done | Bad

  /** The variables of the code loop that the dictionary determines. */
  datatype Vars = Vars(first: bool, codesize: nat, avail: nat, oldcode: int)

  function Join(text: seq<byte>, r: (bool, seq<byte>)): (j: (bool, seq<byte>))
  {
    (r.0, text + r.1)
  }

  lemma JoinNothing(r: (bool, seq<byte>))
    ensures Join([], r) == r
  {
    assert [] + r.1 == r.1;
  }

  lemma DecodeEnd(data: seq<byte>, cs: nat, pos: nat, st: Lzw, text: seq<byte>)
    requires st.width > 0 && pos + st.width > 8 * |data|
    ensures Join(text, DecodeLzw(data, cs, pos, st)) == (true, text)
  {
    assert text + [] == text;
  }

  lemma JoinJoin(a: seq<byte>, b: seq<byte>, r: (bool, seq<byte>))
    ensures Join(a, Join(b, r)) == Join(a + b, r)
  {
    assert a + (b + r.1) == a + b + r.1;
  }

  /** Where the sub-blocks end: just after their terminator. */
  function AfterBlocks(s: seq<byte>, p: nat, len: nat): (q: nat)
    decreases if p < |s| then |s| - p else 0, len
  {
    if len > 0 then AfterBlocks(s, p + 1, len - 1)
    else if ByteAt(s, p) == 0 then p + 1
    else AfterBlocks(s, p + 1, ByteAt(s, p))
  }

  /** Of data, the bytes from s at p on are still unread and the bit buffer holds what was read but
      not used. */
  ghost predicate Buffered(s: seq<byte>, data: seq<byte>, p: nat, len: nat, pos: nat, bits: nat, validBits: nat)
  {
    var n := |data| - |DataFrom(s, p, len)|;
    && n >= 0 && data[n..] == DataFrom(s, p, len)
    && pos + validBits == 8 * n && bits == Val(data, pos, validBits)
  }

  lemma TakeBits(s: seq<byte>, data: seq<byte>, p: nat, len: nat, pos: nat, bits: nat, validBits: nat, k: nat)
    requires Buffered(s, data, p, len, pos, bits, validBits) && k <= validBits
    ensures Low(bits, k) == Val(data, pos, k) && pos + k <= 8 * |data|
    ensures Buffered(s, data, p, len, pos + k, Shr(bits, k), validBits - k)
  {
    ValLowShr(data, pos, k, validBits);
  }

  /** Lines 6720-6727: the next data byte above the bits in the buffer. */
  method FetchByte(s: seq<byte>, ghost data: seq<byte>, p0: nat, len0: nat, ghost pos: nat, bits0: nat, validBits0: nat)
    returns (more: bool, p: nat, len: nat, bits: nat, validBits: nat)
    requires Buffered(s, data, p0, len0, pos, bits0, validBits0)
    ensures !more ==> pos + validBits0 == 8 * |data| && p == AfterBlocks(s, p0, len0)
    ensures more ==> Buffered(s, data, p, len, pos, bits, validBits) && validBits == validBits0 + 8
    ensures more ==> |DataFrom(s, p, len)| < |DataFrom(s, p0, len0)| && AfterBlocks(s, p, len) == AfterBlocks(s, p0, len0)
  {
    p, len, bits, validBits := p0, len0, bits0, validBits0;
    if len == 0 {
      len := ByteAt(s, p);
      p := p + 1;
      if len == 0 { return false, p, len, bits, validBits; }
    }
    ghost var n := |data| - |DataFrom(s, p0, len0)|;
    assert DataFrom(s, p, len) == DataFrom(s, p0, len0) && AfterBlocks(s, p, len) == AfterBlocks(s, p0, len0);
    len := len - 1;
    NextData(data, n, ByteAt(s, p), DataFrom(s, p + 1, len));
    AppendData(data, pos, validBits, n);
    bits := bits + ByteAt(s, p) * Pow2(validBits);
    more, p, validBits := true, p + 1, validBits + 8;
  }

  lemma NextData(data: seq<byte>, n: nat, b: byte, rest: seq<byte>)
    requires n <= |data| && data[n..] == [b] + rest
    ensures ByteAt(data, n) == b && data[n + 1..] == rest && |data| - |rest| == n + 1
  {
    assert data[n..][0] == b;
    assert data[n + 1..] == data[n..][1..];
  }

  lemma AppendData(data: seq<byte>, pos: nat, n: nat, k: nat)
    requires pos + n == 8 * k
    ensures Val(data, pos, n + 8) == Val(data, pos, n) + ByteAt(data, k) * Pow2(n)
  {
    ValSplit(data, pos, n, 8);
    ValByte(data, k);
  }

  /** Lines 6740-6742: to the end of the sub-blocks. */
  method SkipBlocks(s: seq<byte>, p0: nat, len0: nat) returns (p: nat)
    ensures p == AfterBlocks(s, p0, len0)
  {
    p := p0 + len0;
    SkipLen(s, p0, len0);
    var len := ByteAt(s, p);
    p := p + 1;
    while len > 0
      invariant p > 0 && len == ByteAt(s, p - 1) && AfterBlocks(s, p - 1, 0) == AfterBlocks(s, p0, len0)
      decreases if p - 1 < |s| then |s| - (p - 1) else 0
    {
      SkipLen(s, p, len);
      p := p + len;
      len := ByteAt(s, p);
      p := p + 1;
    }
  }

  lemma {:induction false} SkipLen(s: seq<byte>, p: nat, len: nat)
    ensures AfterBlocks(s, p, len) == AfterBlocks(s, p + len, 0)
    decreases len
  {
    if len == 0 {
    } else {
      SkipLen(s, p + 1, len - 1);
    }
  }

  /** What the rest of a raster amounts to after one code. */
  lemma DecodeStep(data: seq<byte>, cs: nat, pos: nat, st: Lzw)
    requires st.width > 0 && pos + st.width <= 8 * |data|
    ensures var clear, code := Pow2(cs), Val(data, pos, st.width);
      DecodeLzw(data, cs, pos, st) ==
        if code == clear then DecodeLzw(data, cs, pos + st.width, Cleared(cs, true))
        else if code == clear + 1 then (true, [])
        else if !st.started || WordOf(clear, st.words, code).None? || clear + 2 + |st.words| > 8192 then (false, [])
        else
          var w := WordOf(clear, st.words, code).value;
          Join(w, DecodeLzw(data, cs, pos + st.width, Grown(clear, st, w)))
  {
  }

  lemma FirstOfWord(t: seq<Entry>, clear: nat, words: seq<Word>, cds: seq<nat>, code: nat, w: Word)
    requires Dict(t, clear, words, cds) && |words| > 0 && WordOf(clear, words, code) == Some(w)
    ensures code < Avail(clear, |words|) ==> t[code].first == w[0]
    ensures code >= Avail(clear, |words|) ==> code == Avail(clear, |words|) && w[0] == words[|words| - 1][0]
  {
  }

  lemma HalfStep(half: nat, d: nat)
    ensures (2 * half * d) / 2 == half * d
  {
    MulAssoc(2, half, d);
  }
}
