/** LZW as GIF uses it (Appendix F of GIF89a), on strings: what a raster's sub-blocks and codes stand
    for.  Nothing here mentions a linked dictionary. */
module GifLzw {
  import opened Bits
  import opened DeflateBits

  type Word = w: seq<byte> | |w| > 0 witness [0]

  // ---------------------------------------------------------------- sub-blocks

  /** The bytes still to come when len are left of the current sub-block; zeros past the end. */
  function DataFrom(s: seq<byte>, p: nat, len: nat): (d: seq<byte>)
    decreases if p < |s| then |s| - p else 0, len
  {
    if len > 0 then [ByteAt(s, p)] + DataFrom(s, p + 1, len - 1)
    else if ByteAt(s, p) == 0 then []
    else DataFrom(s, p + 1, ByteAt(s, p))
  }

  /** Data as sub-blocks of at most 255 bytes and a terminator. */
  function SubBlocks(d: seq<byte>): (s: seq<byte>)
    decreases |d|
  {
    if |d| == 0 then [0]
    else
      var n := if |d| < 255 then |d| else 255;
      [n] + d[..n] + SubBlocks(d[n..])
  }

  lemma {:induction false} DataCopied(s: seq<byte>, p: nat, len: nat)
    requires p + len <= |s|
    ensures DataFrom(s, p, len) == s[p..p + len] + DataFrom(s, p + len, 0)
    decreases len
  {
    if len == 0 {
    } else {
      DataCopied(s, p + 1, len - 1);
      assert s[p..p + len] == [s[p]] + s[p + 1..p + len];
    }
  }

  lemma {:induction false} SubBlocksRead(head: seq<byte>, d: seq<byte>)
    ensures DataFrom(head + SubBlocks(d), |head|, 0) == d
    decreases |d|
  {
    var s := head + SubBlocks(d);
    if |d| == 0 {
    } else {
      var n := if |d| < 255 then |d| else 255;
      var front := head + ([n] + d[..n]);
      assert s == front + SubBlocks(d[n..]);
      DataCopied(s, |head| + 1, n);
      assert s[|head| + 1..|head| + 1 + n] == d[..n];
      SubBlocksRead(front, d[n..]);
      assert d == d[..n] + d[n..];
    }
  }

  // ---------------------------------------------------------------- codes

  /** The state between codes: their width, the words since the last clear code, and whether there
      was one. */
  datatype Lzw = Lzw(width: nat, words: seq<Word>, started: bool)

  function Cleared(cs: nat, started: bool): Lzw
  {
    Lzw(cs + 1, [], started)
  }

  /** The encoder's dictionary: code k of those it adds stands for word k followed by the first
      byte of the word after it, which may be the very word being sent. */
  ghost predicate Means(clear: nat, words: seq<Word>, code: nat, w: Word)
  {
    || (code < clear && w == [code % 256])
    || (code >= clear + 2 && var k := code - clear - 2; k < |words| && w == words[k] + [(words + [w])[k + 1][0]])
  }

  /** The decoder's answer: the word of a code, if it has one. */
  function WordOf(clear: nat, words: seq<Word>, code: nat): (r: Option<Word>)
  {
    if code < clear then Some([code % 256])
    else if code < clear + 2 || code >= clear + 2 + |words| then None
    else
      var k := code - clear - 2;
      Some(words[k] + [if k + 1 < |words| then words[k + 1][0] else words[k][0]])
  }

  /** A code's word is the only one the encoder can have meant. */
  lemma WordIsMeaning(clear: nat, words: seq<Word>, code: nat, w: Word)
    ensures WordOf(clear, words, code) == Some(w) <==> Means(clear, words, code, w)
  {
    if code >= clear + 2 && code - clear - 2 < |words| {
      var k := code - clear - 2;
      if k + 1 < |words| {
        assert (words + [w])[k + 1] == words[k + 1];
      } else {
        assert (words + [w])[k + 1] == w;
        if Means(clear, words, code, w) {
          assert w[0] == (words[k] + [w[0]])[0] == words[k][0];
        }
      }
    }
  }

  /** One more word: the dictionary grows by an entry from the second word on, and codes get wider
      when their range is used up, up to 12 bits. */
  function Grown(clear: nat, st: Lzw, w: Word): (r: Lzw)
    ensures r.width >= st.width
  {
    var avail := clear + 2 + |st.words|;
    Lzw(if Residue(avail, Pow2(st.width)) == 0 && avail <= 0xFFF then st.width + 1 else st.width, st.words + [w], st.started)
  }

  /** The colour indices from bit pos on, and whether they end properly. */
  function DecodeLzw(data: seq<byte>, cs: nat, pos: nat, st: Lzw): (r: (bool, seq<byte>))
    requires st.width > 0
    decreases if pos < 8 * |data| then 8 * |data| - pos else 0
  {
    if pos + st.width > 8 * |data| then (true, [])
    else
      var clear, code := Pow2(cs), Val(data, pos, st.width);
      if code == clear then DecodeLzw(data, cs, pos + st.width, Cleared(cs, true))
      else if code == clear + 1 then (true, [])
      else if !st.started || WordOf(clear, st.words, code).None? || clear + 2 + |st.words| > 8192 then (false, [])
      else
        var w := WordOf(clear, st.words, code).value;
        var rest := DecodeLzw(data, cs, pos + st.width, Grown(clear, st, w));
        (rest.0, w + rest.1)
  }

  /** What a raster at p stands for. */
  function Raster(s: seq<byte>, p: nat): (r: (bool, seq<byte>))
  {
    var cs := ByteAt(s, p);
    if cs > 12 then (false, []) else DecodeLzw(DataFrom(s, p + 1, 0), cs, 0, Cleared(cs, false))
  }

  // ---------------------------------------------------------------- widths

  /** Codes are wide enough for every code that has a meaning, as long as they have fewer than 12 bits,
      and no wider than needed: this is what lets the decoder follow the encoder. */
  ghost predicate WidthFits(cs: nat, st: Lzw)
  {
    match st
    case Lzw(width, words, _) =>
      && cs + 1 <= width <= (if cs == 12 then 13 else 12)
      && (width >= 12 || Pow2(cs) + 1 + |words| < Pow2(width))
      && (width == cs + 1 || Pow2(width - 1) <= Pow2(cs) + 1 + |words|)
  }

  /** The largest code with a meaning. */
  lemma LargestCode(clear: nat, words: seq<Word>, code: nat)
    requires WordOf(clear, words, code).Some?
    ensures code <= clear + 1 + |words|
  {
  }

  /** So a width that fits has room for every code with a meaning. */
  lemma MeaningFits(cs: nat, st: Lzw, code: nat)
    requires WidthFits(cs, st) && st.width < 12 && WordOf(Pow2(cs), st.words, code).Some?
    ensures code < Pow2(st.width)
  {
    LargestCode(Pow2(cs), st.words, code);
  }

  lemma WidthStep(avail: nat, width: nat)
    requires 0 < avail && width <= 12 && (avail <= Pow2(width) || width == 12)
    ensures (Residue(avail, Pow2(width)) == 0 && avail <= 0xFFF) <==> (avail == Pow2(width) && width < 12)
  {
    Pow2Values();
    if avail == Pow2(width) {
      assert Residue(avail, Pow2(width)) == Residue(0, Pow2(width));
      if width < 12 {
        Pow2Mono(width, 11);
      }
    }
  }

  lemma GrownWidth(clear: nat, st: Lzw, w: Word)
    requires 0 < st.width <= 12 && (clear + 2 + |st.words| <= Pow2(st.width) || st.width == 12)
    ensures var full := clear + 2 + |st.words| == Pow2(st.width) && st.width < 12;
      Grown(clear, st, w) == Lzw(if full then st.width + 1 else st.width, st.words + [w], st.started)
  {
    WidthStep(clear + 2 + |st.words|, st.width);
  }

  /** Past 0xFFF the width stays. */
  lemma GrownWide(clear: nat, st: Lzw, w: Word)
    requires st.width > 0 && clear + 2 + |st.words| > 0xFFF
    ensures Grown(clear, st, w) == st.(words := st.words + [w])
  {
    hide Pow2;
  }

  lemma ClearedFits(cs: nat, started: bool)
    requires 1 <= cs <= 12
    ensures WidthFits(cs, Cleared(cs, started))
  {
    assert Pow2(cs + 1) == 2 * Pow2(cs) && Pow2(cs) >= 2;
  }

  /** One word keeps the width right. */
  lemma WidthKept(cs: nat, st: Lzw, w: Word)
    requires 1 <= cs <= 12 && WidthFits(cs, st)
    ensures WidthFits(cs, Grown(Pow2(cs), st, w))
  {
    hide Pow2, Grown;
    if st.width == 13 {
      Pow2Values();
      GrownWide(Pow2(cs), st, w);
    } else {
      Pow2Next(st.width);
      GrownWidth(Pow2(cs), st, w);
    }
  }

  // ---------------------------------------------------------------- what an encoder sends

  datatype Item = Clear | Put(code: nat, w: Word)

  /** An encoder's output: any choice of clear codes and of dictionary words, greedy or not. */
  ghost predicate ItemsOk(cs: nat, st: Lzw, items: seq<Item>)
    decreases |items|
  {
    |items| == 0 ||
    match items[0]
    case Clear => ItemsOk(cs, Cleared(cs, true), items[1..])
    case Put(code, w) =>
      && st.started && Means(Pow2(cs), st.words, code, w) && code < Pow2(st.width)
      && Pow2(cs) + 2 + |st.words| <= 8192
      && ItemsOk(cs, Grown(Pow2(cs), st, w), items[1..])
  }

  /** The state after them. */
  function Sent(cs: nat, st: Lzw, items: seq<Item>): (r: Lzw)
    decreases |items|
  {
    if |items| == 0 then st
    else if items[0].Clear? then Sent(cs, Cleared(cs, true), items[1..])
    else Sent(cs, Grown(Pow2(cs), st, items[0].w), items[1..])
  }

  /** In every state that any items lead to, the width is right. */
  lemma {:induction false} WidthInvariant(cs: nat, st: Lzw, items: seq<Item>)
    requires 1 <= cs <= 12 && WidthFits(cs, st)
    ensures WidthFits(cs, Sent(cs, st, items))
    decreases |items|
  {
    if |items| == 0 {
    } else if items[0].Clear? {
      ClearedFits(cs, true);
      WidthInvariant(cs, Cleared(cs, true), items[1..]);
    } else {
      WidthKept(cs, st, items[0].w);
      WidthInvariant(cs, Grown(Pow2(cs), st, items[0].w), items[1..]);
    }
  }

  /** Of the minimum code sizes that are accepted, 0 to 12, only 0 breaks this: its end code does not fit
      one bit. */
  lemma WidthExact(cs: nat)
    requires cs <= 12
    ensures (forall items :: WidthFits(cs, Sent(cs, Cleared(cs, false), items))) <==> cs > 0
  {
    if cs == 0 {
      assert !WidthFits(0, Sent(0, Cleared(0, false), []));
    } else {
      ClearedFits(cs, false);
      forall items ensures WidthFits(cs, Sent(cs, Cleared(cs, false), items)) {
        WidthInvariant(cs, Cleared(cs, false), items);
      }
    }
  }

  /** Their bits, followed by the end code or not. */
  function ItemsBits(cs: nat, st: Lzw, items: seq<Item>, ended: bool): (l: Layout)
    decreases |items|
  {
    if |items| == 0 then if ended then Num(Pow2(cs) + 1, st.width) else Empty
    else
      match items[0]
      case Clear => Cat(Num(Pow2(cs), st.width), ItemsBits(cs, Cleared(cs, true), items[1..], ended))
      case Put(code, w) => Cat(Num(code, st.width), ItemsBits(cs, Grown(Pow2(cs), st, w), items[1..], ended))
  }

  /** The items stand at pos, and the data has an end code after them or too few bits for another code. */
  ghost predicate Holds(data: seq<byte>, cs: nat, pos: nat, st: Lzw, items: seq<Item>, ended: bool)
  {
    var l := ItemsBits(cs, st, items, ended);
    && At(data, pos, l) && EndOf(pos, l) <= 8 * |data|
    && (!ended ==> EndOf(pos, l) + Sent(cs, st, items).width > 8 * |data|)
  }

  lemma HoldsStep(data: seq<byte>, cs: nat, pos: nat, st: Lzw, items: seq<Item>, ended: bool)
    requires |items| > 0
    ensures var code := if items[0].Clear? then Pow2(cs) else items[0].code;
      var next := if items[0].Clear? then Cleared(cs, true) else Grown(Pow2(cs), st, items[0].w);
      Holds(data, cs, pos, st, items, ended) <==>
      Val(data, pos, st.width) == code && Holds(data, cs, pos + st.width, next, items[1..], ended)
  {
    var code := if items[0].Clear? then Pow2(cs) else items[0].code;
    var next := if items[0].Clear? then Cleared(cs, true) else Grown(Pow2(cs), st, items[0].w);
    AtCat(data, pos, Num(code, st.width), ItemsBits(cs, next, items[1..], ended));
  }

  function Text(items: seq<Item>): seq<byte>
  {
    if |items| == 0 then [] else (if items[0].Clear? then [] else items[0].w) + Text(items[1..])
  }

  /** A word the encoder may send is decoded exactly while the dictionary has room: with codes stuck
      at 12 bits an encoder may go on without a clear code, but not past 8192 entries. */
  lemma DecodePut(data: seq<byte>, cs: nat, pos: nat, st: Lzw, code: nat, w: Word)
    requires st.width > 0 && st.started && pos + st.width <= 8 * |data| && Val(data, pos, st.width) == code
    requires Means(Pow2(cs), st.words, code, w)
    ensures DecodeLzw(data, cs, pos, st) ==
            if Pow2(cs) + 2 + |st.words| > 8192 then (false, [])
            else var rest := DecodeLzw(data, cs, pos + st.width, Grown(Pow2(cs), st, w)); (rest.0, w + rest.1)
  {
    WordIsMeaning(Pow2(cs), st.words, code, w);
  }

  lemma DecodeClear(data: seq<byte>, cs: nat, pos: nat, st: Lzw)
    requires st.width > 0 && pos + st.width <= 8 * |data| && Val(data, pos, st.width) == Pow2(cs)
    ensures DecodeLzw(data, cs, pos, st) == DecodeLzw(data, cs, pos + st.width, Cleared(cs, true))
  {
  }

  /** The decoder gives back what any encoder sent. */
  lemma {:induction false} DecodeItems(data: seq<byte>, cs: nat, pos: nat, st: Lzw, items: seq<Item>, ended: bool)
    requires st.width > 0 && ItemsOk(cs, st, items) && Holds(data, cs, pos, st, items, ended)
    ensures DecodeLzw(data, cs, pos, st) == (true, Text(items))
    decreases |items|
  {
    if |items| == 0 {
    } else {
      HoldsStep(data, cs, pos, st, items, ended);
      match items[0]
      case Clear =>
        DecodeClear(data, cs, pos, st);
        DecodeItems(data, cs, pos + st.width, Cleared(cs, true), items[1..], ended);
        assert Text(items) == Text(items[1..]);
      case Put(code, w) =>
        DecodePut(data, cs, pos, st, code, w);
        DecodeItems(data, cs, pos + st.width, Grown(Pow2(cs), st, w), items[1..], ended);
    }
  }

  /** And whatever it accepts is what some encoder can have sent. */
  lemma {:induction false} DecodeSound(data: seq<byte>, cs: nat, pos: nat, st: Lzw) returns (items: seq<Item>, ended: bool)
    requires st.width > 0 && pos <= 8 * |data| && DecodeLzw(data, cs, pos, st).0
    ensures ItemsOk(cs, st, items) && Holds(data, cs, pos, st, items, ended)
    ensures DecodeLzw(data, cs, pos, st).1 == Text(items)
    decreases 8 * |data| - pos
  {
    if pos + st.width > 8 * |data| {
      items, ended := [], false;
    } else {
      var clear, code := Pow2(cs), Val(data, pos, st.width);
      if code == clear + 1 {
        items, ended := [], true;
      } else {
        var item, next := Clear, Cleared(cs, true);
        if code != clear {
          var w := WordOf(clear, st.words, code).value;
          WordIsMeaning(clear, st.words, code, w);
          item, next := Put(code, w), Grown(clear, st, w);
        }
        var rest;
        rest, ended := DecodeSound(data, cs, pos + st.width, next);
        items := [item] + rest;
        assert items[1..] == rest;
        HoldsStep(data, cs, pos, st, items, ended);
      }
    }
  }

  /** The clear code and the end code fit. */
  lemma ClearWidth(cs: nat, st: Lzw)
    requires cs >= 1 && WidthFits(cs, st)
    ensures 0 < st.width <= 13 && Pow2(cs) + 1 < Pow2(st.width)
  {
    Pow2Mono(1, cs);
    Pow2Next(cs);
    Pow2Mono(cs + 1, st.width);
  }

  lemma {:induction false} ItemsFit(cs: nat, st: Lzw, items: seq<Item>, ended: bool)
    requires 1 <= cs <= 12 && WidthFits(cs, st) && ItemsOk(cs, st, items)
    ensures Fit(ItemsBits(cs, st, items, ended))
    decreases |items|
  {
    hide Pow2, Cleared, Grown, WidthFits;
    ClearWidth(cs, st);
    if |items| == 0 {
    } else {
      match items[0]
      case Clear =>
        ClearedFits(cs, true);
        ItemsFit(cs, Cleared(cs, true), items[1..], ended);
      case Put(code, w) =>
        WidthKept(cs, st, w);
        ItemsFit(cs, Grown(Pow2(cs), st, w), items[1..], ended);
    }
  }

  /** The codes fit their widths, and without an end code the last byte has no room for another code. */
  ghost predicate Writable(cs: nat, st: Lzw, items: seq<Item>, ended: bool)
  {
    var l := ItemsBits(cs, st, items, ended);
    Fit(l) && (!ended ==> 8 * |Pack(Flat(l))| < |Flat(l)| + Sent(cs, st, items).width)
  }

  lemma PackedItems(cs: nat, st: Lzw, items: seq<Item>, ended: bool)
    requires st.width > 0 && ItemsOk(cs, st, items) && Writable(cs, st, items, ended)
    ensures DecodeLzw(Pack(Flat(ItemsBits(cs, st, items, ended))), cs, 0, st) == (true, Text(items))
  {
    hide ItemsOk, ItemsBits, Text, DecodeLzw;
    var l := ItemsBits(cs, st, items, ended);
    var data := Pack(Flat(l));
    PackHas([], Flat(l), []);
    assert [] + (data + []) == data;
    AtIsBits(data, 0, l);
    DecodeItems(data, cs, 0, st, items, ended);
  }

  /** A raster of the data. */
  function Framed(head: seq<byte>, cs: byte, data: seq<byte>): seq<byte>
  {
    head + [cs] + SubBlocks(data)
  }

  lemma RasterFramed(head: seq<byte>, cs: byte, data: seq<byte>)
    requires cs <= 12
    ensures Raster(Framed(head, cs, data), |head|) == DecodeLzw(data, cs, 0, Cleared(cs, false))
  {
    SubBlocksRead(head + [cs], data);
    assert ByteAt(Framed(head, cs, data), |head|) == cs;
  }

  /** Round trip through bits and sub-blocks: with an end code always, but for the minimum code size 0, whose end code may
      not fit, and without one if the data ends in time. */
  lemma RasterRoundTrip(head: seq<byte>, cs: byte, items: seq<Item>, ended: bool)
    requires cs <= 12 && ItemsOk(cs, Cleared(cs, false), items)
    requires cs == 0 || !ended ==> Writable(cs, Cleared(cs, false), items, ended)
    ensures Raster(Framed(head, cs, Pack(Flat(ItemsBits(cs, Cleared(cs, false), items, ended)))), |head|) == (true, Text(items))
  {
    hide ItemsOk, ItemsBits, DecodeLzw, Raster, Text;
    if cs > 0 && ended {
      ClearedFits(cs, false);
      ItemsFit(cs, Cleared(cs, false), items, true);
    }
    RasterFramed(head, cs, Pack(Flat(ItemsBits(cs, Cleared(cs, false), items, ended))));
    PackedItems(cs, Cleared(cs, false), items, ended);
  }

  /** Whatever a raster is accepted as is the text of items that stand in its sub-blocks. */
  lemma RasterSound(s: seq<byte>, p: nat) returns (items: seq<Item>, ended: bool)
    requires Raster(s, p).0
    ensures var cs := ByteAt(s, p);
      && cs <= 12 && ItemsOk(cs, Cleared(cs, false), items) && Raster(s, p).1 == Text(items)
      && Holds(DataFrom(s, p + 1, 0), cs, 0, Cleared(cs, false), items, ended)
  {
    items, ended := DecodeSound(DataFrom(s, p + 1, 0), ByteAt(s, p), 0, Cleared(ByteAt(s, p), false));
  }

  /** Every text over the alphabet can be sent. */
  function Plain(text: seq<byte>): (items: seq<Item>)
  {
    if |text| == 0 then [] else [Clear, Put(text[0], [text[0]])] + Plain(text[1..])
  }

  lemma {:induction false} PlainOk(cs: nat, st: Lzw, text: seq<byte>)
    requires cs <= 8 && forall i | 0 <= i < |text| :: text[i] < Pow2(cs)
    ensures ItemsOk(cs, st, Plain(text)) && Text(Plain(text)) == text
    decreases |text|
  {
    if |text| == 0 {
    } else {
      var items := Plain(text);
      assert items[1..][1..] == Plain(text[1..]);
      assert items[1..][0] == Put(text[0], [text[0]]);
      Pow2Mono(cs, 8);
      Pow2Values();
      PlainOk(cs, Grown(Pow2(cs), Cleared(cs, true), [text[0]]), text[1..]);
      assert Text(items[1..]) == [text[0]] + Text(Plain(text[1..]));
      assert text == [text[0]] + text[1..];
    }
  }

  // ---------------------------------------------------------------- in plain terms

  /** A sub-block is its length and that many bytes; an empty one ends the data. */
  lemma SubBlockIs(s: seq<byte>, p: nat)
    requires p < |s| && p + 1 + s[p] as int <= |s|
    ensures DataFrom(s, p, 0) == if s[p] == 0 then [] else s[p + 1..p + 1 + s[p] as int] + DataFrom(s, p + 1 + s[p] as int, 0)
  {
    DataCopied(s, p + 1, s[p]);
  }

  lemma ThreeByteNumber(data: seq<byte>)
    requires |data| == 3
    ensures Val(data, 0, 24) == data[0] as int + 256 * data[1] as int + 65536 * data[2] as int
  {
    hide Val, Pow2;
    ValByte(data, 0);
    ValByte(data, 1);
    ValByte(data, 2);
    ValSplit(data, 0, 8, 8);
    ValSplit(data, 0, 16, 8);
    Pow2Values();
  }

  /** Bits of three bytes. */
  lemma ThreeBytes(data: seq<byte>, pos: nat, n: nat)
    requires |data| == 3 && pos + n <= 24
    ensures Val(data, pos, n) == (data[0] as int + 256 * data[1] as int + 65536 * data[2] as int) / Pow2(pos) % Pow2(n)
  {
    hide Val, Pow2;
    ThreeByteNumber(data);
    ValTakeDrop(data, 0, pos, 24);
    ValTakeDrop(data, pos, n, 24 - pos);
  }

  lemma KnownCodes(data: seq<byte>)
    requires data == [0x8c, 0x71, 0x05]
    ensures Val(data, 0, 3) == 4 && Val(data, 3, 3) == 1 && Val(data, 6, 3) == 6 && Val(data, 9, 3) == 0
    ensures Val(data, 12, 4) == 7 && Val(data, 16, 4) == 5
  {
    hide Val;
    Pow2Values();
    ThreeBytes(data, 0, 3);
    ThreeBytes(data, 3, 3);
    ThreeBytes(data, 6, 3);
    ThreeBytes(data, 9, 3);
    ThreeBytes(data, 12, 4);
    ThreeBytes(data, 16, 4);
  }

  /** One word of the raster below. */
  lemma KnownWord(data: seq<byte>, pos: nat, st: Lzw, code: nat, w: Word, text: seq<byte>)
    requires 3 <= st.width <= 4 && st.started && |data| == 3 && pos + st.width <= 24 && Val(data, pos, st.width) == code
    requires |st.words| <= 3 && (st.width == 3 ==> |st.words| <= 2) && Means(4, st.words, code, w)
    requires var next := Lzw(if st.width == 3 && |st.words| == 2 then 4 else st.width, st.words + [w], true);
      DecodeLzw(data, 2, pos + st.width, next) == (true, text)
    ensures DecodeLzw(data, 2, pos, st) == (true, w + text)
  {
    hide Val, DecodeLzw, Means;
    Pow2Values();
    DecodePut(data, 2, pos, st, code, w);
    GrownWidth(4, st, w);
  }

  lemma KnownWords(data: seq<byte>)
    requires data == [0x8c, 0x71, 0x05]
    ensures DecodeLzw(data, 2, 0, Cleared(2, false)) == (true, [1, 1, 1, 0, 1, 1, 0])
  {
    hide Val, DecodeLzw;
    KnownCodes(data);
    assert Pow2(2) == 4;
    var a: Word, b: Word, c: Word, d: Word := [1], [1, 1], [0], [1, 1, 0];
    KnownEnd(data, Lzw(4, [a, b, c, d], true));
    assert [a, b, c, d] == [a, b, c] + [d];
    KnownWord(data, 12, Lzw(4, [a, b, c], true), 7, d, []);
    assert [a, b, c] == [a, b] + [c];
    KnownWord(data, 9, Lzw(3, [a, b], true), 0, c, d + []);
    assert [a, b] == [a] + [b];
    KnownWord(data, 6, Lzw(3, [a], true), 6, b, c + (d + []));
    assert [a] == [] + [a];
    KnownWord(data, 3, Lzw(3, [], true), 1, a, b + (c + (d + [])));
    DecodeClear(data, 2, 0, Cleared(2, false));
    assert a + (b + (c + (d + []))) == [1, 1, 1, 0, 1, 1, 0];
  }

  /** A raster with a clear code, the codes 1, 6, 0 and 7 and an end code: code 6 is the very word being sent,
      and after three words codes have four bits. */
  lemma KnownRaster()
    ensures Raster([2, 3, 0x8c, 0x71, 0x05, 0], 0) == (true, [1, 1, 1, 0, 1, 1, 0])
  {
    hide Val, DecodeLzw, DataFrom;
    var s: seq<byte> := [2, 3, 0x8c, 0x71, 0x05, 0];
    var data: seq<byte> := [0x8c, 0x71, 0x05];
    SubBlockIs(s, 1);
    SubBlockIs(s, 5);
    assert s[2..5] == data && data + [] == data;
    KnownWords(data);
  }

  lemma KnownEnd(data: seq<byte>, st: Lzw)
    requires |data| == 3 && st.width == 4 && Val(data, 16, 4) == 5
    ensures DecodeLzw(data, 2, 16, st) == (true, [])
  {
    Pow2Values();
  }
}
