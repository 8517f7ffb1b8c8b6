/** Weight windows (external/stb/stb_image_resize2.h): a contributor range with a group of coefficients,
    stbir__insert_coeff, and folding the weights beyond a clamped edge back into the image.  Weights are
    exact numbers. */
module ResizeWindows {
  import opened Bits
  import opened ResizeSplits

  /** The inputs n0 to n1 with their weights w[0], w[1], ...; w may be longer. */
  datatype Window = Window(n0: int, n1: int, w: seq<real>)

  predicate Fits(win: Window)
  {
    win.n1 - win.n0 + 1 <= |win.w|
  }

  /** The weight of input k. */
  function Weight(win: Window, k: int): real
    requires Fits(win)
  {
    if win.n0 <= k <= win.n1 then win.w[k - win.n0] else 0.0
  }

  // ---------------------------------------------------------------- inserting a weight

  /** There is room for pixel in a group of `max` weights. */
  predicate Room(win: Window, pixel: int, max: nat)
  {
    || win.n1 < win.n0
    || ((if pixel < win.n0 then win.n1 - pixel + 1 else if pixel > win.n1 then pixel - win.n0 + 1 else 0) <= max)
  }

  function Zeros(n: nat): (z: seq<real>)
    ensures |z| == n && forall i | 0 <= i < n :: z[i] == 0.0
  {
    seq(n, i => 0.0)
  }

  /** The group w with its first n weights moved up by o and a new one in front. */
  function AtFront(w: seq<real>, n: nat, o: nat, coeff: real): (r: seq<real>)
    requires 0 < o && o + n <= |w|
    ensures |r| == |w|
  {
    [coeff] + Zeros(o - 1) + w[..n] + w[o + n..]
  }

  /** The group w with the first n weights kept and a new one at e. */
  function AtBack(w: seq<real>, n: nat, e: nat, coeff: real): (r: seq<real>)
    requires n <= e < |w|
    ensures |r| == |w|
  {
    w[..n] + Zeros(e - n) + [coeff] + w[e + 1..]
  }

  /** The window with one more weight: added to the one there is, or at a wider range; as it was if
      there is no room. */
  function Inserted(win: Window, pixel: int, coeff: real): (r: Window)
    requires |win.w| > 0 && Fits(win)
    ensures |r.w| == |win.w| && Fits(r)
  {
    var n := win.n1 - win.n0 + 1;
    if n <= 0 then Window(pixel, pixel, win.w[0 := coeff])
    else if !Room(win, pixel, |win.w|) then win
    else if pixel < win.n0 then
      var o := win.n0 - pixel;
      Window(pixel, win.n1, AtFront(win.w, n, o, coeff))
    else if pixel <= win.n1 then
      win.(w := win.w[pixel - win.n0 := win.w[pixel - win.n0] + coeff])
    else
      var e := pixel - win.n0;
      Window(win.n0, pixel, AtBack(win.w, n, e, coeff))
  }

  lemma InsertedIf(win: Window, pixel: int, coeff: real, k: int)
    requires |win.w| > 0 && Fits(win)
    ensures Room(win, pixel, |win.w|) ==>
              Weight(Inserted(win, pixel, coeff), k) == Weight(win, k) + (if k == pixel then coeff else 0.0)
    ensures !Room(win, pixel, |win.w|) ==> Inserted(win, pixel, coeff) == win && Weight(win, pixel) == 0.0
  {
  }

  /** Exactly when there is room, the weight of that pixel grows by the coefficient and no other weight
      changes; a weight that does not fit is dropped. */
  lemma InsertedWeight(win: Window, pixel: int, coeff: real, k: int)
    requires |win.w| > 0 && Fits(win)
    ensures var lo, hi := if pixel < win.n0 then pixel else win.n0, if pixel > win.n1 then pixel else win.n1;
      if win.n0 > win.n1 || win.n0 <= pixel <= win.n1 || hi - lo + 1 <= |win.w| then
        Weight(Inserted(win, pixel, coeff), k) == Weight(win, k) + (if k == pixel then coeff else 0.0)
      else Inserted(win, pixel, coeff) == win && Weight(win, pixel) == 0.0
  {
    InsertedIf(win, pixel, coeff, k);
  }

  /** The group of weights at base. */
  ghost function Group(coeffs: array<real>, base: nat, width: nat): (g: seq<real>)
    requires base + width <= coeffs.Length
    reads coeffs
    ensures |g| == width
  {
    coeffs[base..base + width]
  }

  /** The weights before and after that group. */
  ghost function Others(coeffs: array<real>, base: nat, width: nat): (seq<real>, seq<real>)
    requires base + width <= coeffs.Length
    reads coeffs
  {
    (coeffs[..base], coeffs[base + width..])
  }

  // How each branch of stbir__insert_coeff inserts.

  lemma InsertedFirst(win: Window, pixel: int, coeff: real)
    requires |win.w| > 0 && win.n1 < win.n0
    ensures Inserted(win, pixel, coeff) == Window(pixel, pixel, win.w[0 := coeff])
  {
  }

  lemma InsertedFront(win: Window, pixel: int, coeff: real)
    requires |win.w| > 0 && Fits(win) && pixel < win.n0 <= win.n1 && win.n1 - pixel + 1 <= |win.w|
    ensures var n, o := win.n1 - win.n0 + 1, win.n0 - pixel;
      Inserted(win, pixel, coeff) == Window(pixel, win.n1, AtFront(win.w, n, o, coeff))
  {
  }

  lemma InsertedInside(win: Window, pixel: int, coeff: real)
    requires |win.w| > 0 && Fits(win) && win.n0 <= pixel <= win.n1
    ensures Inserted(win, pixel, coeff) == win.(w := win.w[pixel - win.n0 := win.w[pixel - win.n0] + coeff])
  {
  }

  lemma InsertedBack(win: Window, pixel: int, coeff: real)
    requires |win.w| > 0 && Fits(win) && win.n0 <= win.n1 < pixel && pixel - win.n0 + 1 <= |win.w|
    ensures var n, e := win.n1 - win.n0 + 1, pixel - win.n0;
      Inserted(win, pixel, coeff) == Window(win.n0, pixel, AtBack(win.w, n, e, coeff))
  {
  }

  lemma InsertedNowhere(win: Window, pixel: int, coeff: real)
    requires |win.w| > 0 && Fits(win) && win.n0 <= win.n1
    requires win.n1 - pixel + 1 > |win.w| || pixel - win.n0 + 1 > |win.w|
    ensures Inserted(win, pixel, coeff) == win
  {
  }

  /** Write weight i of the group at base. */
  method PutOne(coeffs: array<real>, base: nat, width: nat, i: nat, x: real)
    requires i < width && base + width <= coeffs.Length
    modifies coeffs
    ensures Others(coeffs, base, width) == old(Others(coeffs, base, width))
    ensures Group(coeffs, base, width) == old(Group(coeffs, base, width))[i := x]
  {
    coeffs[base + i] := x;
  }

  /** Add to weight i of the group at base. */
  method AddOne(coeffs: array<real>, base: nat, width: nat, i: nat, x: real)
    requires i < width && base + width <= coeffs.Length
    modifies coeffs
    ensures Others(coeffs, base, width) == old(Others(coeffs, base, width))
    ensures var g := old(Group(coeffs, base, width));
      Group(coeffs, base, width) == g[i := g[i] + x]
  {
    PutOne(coeffs, base, width, i, coeffs[base + i] + x);
  }

  /** stbir__insert_coeff on the group at base. */
  method InsertCoeff(c: Contributors, coeffs: array<real>, base: nat, width: nat, pixel: int, coeff: real)
    returns (c': Contributors)
    requires 0 < width && base + width <= coeffs.Length && c.n1 - c.n0 + 1 <= width
    modifies coeffs
    ensures Others(coeffs, base, width) == old(Others(coeffs, base, width))
    ensures Window(c'.n0, c'.n1, Group(coeffs, base, width)) ==
            Inserted(Window(c.n0, c.n1, old(Group(coeffs, base, width))), pixel, coeff)
  {
    hide Inserted, Group, Others, AtFront, AtBack;
    ghost var win := Window(c.n0, c.n1, Group(coeffs, base, width));
    c' := c;
    if c.n1 < c.n0 {
      InsertedFirst(win, pixel, coeff);
      c' := Contributors(pixel, pixel);
      PutOne(coeffs, base, width, 0, coeff);
    } else if pixel <= c.n1 {
      if pixel < c.n0 {
        if c.n1 - pixel + 1 <= width {
          InsertedFront(win, pixel, coeff);
          PutFront(coeffs, base, width, c.n1 - c.n0 + 1, c.n0 - pixel, coeff);
          c' := c.(n0 := pixel);
        } else {
          InsertedNowhere(win, pixel, coeff);
        }
      } else {
        InsertedInside(win, pixel, coeff);
        AddOne(coeffs, base, width, pixel - c.n0, coeff);
      }
    } else {
      if pixel - c.n0 + 1 <= width {
        InsertedBack(win, pixel, coeff);
        PutBack(coeffs, base, width, c.n1 - c.n0 + 1, pixel - c.n0, coeff);
        c' := c.(n1 := pixel);
      } else {
        InsertedNowhere(win, pixel, coeff);
      }
    }
  }

  /** Copy n weights up by o, from the last one down. */
  method MoveUp(coeffs: array<real>, base: nat, n: nat, o: nat)
    requires base + n + o <= coeffs.Length
    modifies coeffs
    ensures forall i | 0 <= i < coeffs.Length :: coeffs[i] == old(coeffs[if base + o <= i < base + o + n then i - o else i])
  {
    var j: int := n - 1;
    while j >= 0
      invariant -1 <= j < n
      invariant forall i | base + o + j < i < base + o + n :: coeffs[i] == old(coeffs[i - o])
      invariant forall i | 0 <= i < coeffs.Length && !(base + o + j < i < base + o + n) :: coeffs[i] == old(coeffs[i])
    {
      coeffs[base + j + o] := coeffs[base + j];
      j := j - 1;
    }
  }

  method Clear(coeffs: array<real>, lo: nat, hi: nat)
    requires lo <= hi <= coeffs.Length
    modifies coeffs
    ensures forall i | 0 <= i < coeffs.Length :: coeffs[i] == if lo <= i < hi then 0.0 else old(coeffs[i])
  {
    var j := lo;
    while j < hi
      invariant lo <= j <= hi
      invariant forall i | 0 <= i < coeffs.Length :: coeffs[i] == if lo <= i < j then 0.0 else old(coeffs[i])
    {
      coeffs[j] := 0.0;
      j := j + 1;
    }
  }

  /** Move n weights up by o and put the new one in front. */
  method PutFront(coeffs: array<real>, base: nat, width: nat, n: nat, o: nat, coeff: real)
    requires 0 < o && n + o <= width && base + width <= coeffs.Length
    modifies coeffs
    ensures Others(coeffs, base, width) == old(Others(coeffs, base, width))
    ensures Group(coeffs, base, width) == AtFront(old(Group(coeffs, base, width)), n, o, coeff)
  {
    ghost var before := coeffs[..];
    MoveUp(coeffs, base, n, o);
    Clear(coeffs, base + 1, base + o);
    coeffs[base] := coeff;
    FrontIs(before, coeffs[..], base, width, n, o, coeff);
    assert coeffs[..][..base] == coeffs[..base] && before[..base] == old(coeffs[..base]);
    assert coeffs[..][base + width..] == coeffs[base + width..] && before[base + width..] == old(coeffs[base + width..]);
  }

  lemma FrontIs(before: seq<real>, after: seq<real>, base: nat, width: nat, n: nat, o: nat, coeff: real)
    requires 0 < o && n + o <= width && base + width <= |before| == |after|
    requires forall i | 0 <= i < |after| ::
      after[i] == if i == base then coeff else if base < i < base + o then 0.0
                  else before[if base + o <= i < base + o + n then i - o else i]
    ensures after[..base] == before[..base] && after[base + width..] == before[base + width..]
    ensures after[base..base + width] == AtFront(before[base..base + width], n, o, coeff)
  {
    var g := before[base..base + width];
    var r := [coeff] + Zeros(o - 1) + g[..n] + g[o + n..];
    forall i | 0 <= i < width ensures after[base..base + width][i] == r[i] {
      assert after[base..base + width][i] == after[base + i];
      if i == 0 {
        assert r[i] == coeff;
      } else if i < o {
        assert r[i] == Zeros(o - 1)[i - 1];
      } else if i < o + n {
        assert r[i] == g[i - o] == before[base + i - o];
      } else {
        assert r[i] == g[o + n..][i - (o + n)] == g[i] == before[base + i];
      }
    }
  }

  /** Clear the weights between n and e and put the new one there. */
  method PutBack(coeffs: array<real>, base: nat, width: nat, n: nat, e: nat, coeff: real)
    requires n <= e < width && base + width <= coeffs.Length
    modifies coeffs
    ensures Others(coeffs, base, width) == old(Others(coeffs, base, width))
    ensures Group(coeffs, base, width) == AtBack(old(Group(coeffs, base, width)), n, e, coeff)
  {
    ghost var before := coeffs[..];
    Clear(coeffs, base + n, base + e);
    coeffs[base + e] := coeff;
    BackIs(before, coeffs[..], base, width, n, e, coeff);
    assert coeffs[..][..base] == coeffs[..base] && before[..base] == old(coeffs[..base]);
    assert coeffs[..][base + width..] == coeffs[base + width..] && before[base + width..] == old(coeffs[base + width..]);
  }

  lemma BackIs(before: seq<real>, after: seq<real>, base: nat, width: nat, n: nat, e: nat, coeff: real)
    requires n <= e < width && base + width <= |before| == |after|
    requires forall i | 0 <= i < |after| ::
      after[i] == if i == base + e then coeff else if base + n <= i < base + e then 0.0 else before[i]
    ensures after[..base] == before[..base] && after[base + width..] == before[base + width..]
    ensures after[base..base + width] == AtBack(before[base..base + width], n, e, coeff)
  {
  }
}
