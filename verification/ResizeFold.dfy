/** Folding at a clamped edge (stbir__cleanup_gathered_coefficients in
    external/stb/stb_image_resize2.h): the weights of a window beyond the image move to the edge pixels,
    which leaves every weighted sum over an edge-clamped row as it was. */
module ResizeFold {
  import opened Bits
  import opened ResizeSplits
  import opened ResizeWindows

  /** stbir__edge_clamp_full. */
  function EdgeClamp(n: int, max: int): (k: int)
    requires max > 0
    ensures 0 <= k < max
  {
    if n < 0 then 0 else if n >= max then max - 1 else n
  }

  /** No pixel of the image is nearer. */
  lemma ClampNearest(n: int, max: int, m: int)
    requires 0 <= m < max
    ensures var k := EdgeClamp(n, max); n <= k <= m || m <= k <= n
  {
  }

  // ---------------------------------------------------------------- sums

  /** The sum of the weights of inputs a to b - 1. */
  function Total(win: Window, a: int, b: int): real
    requires Fits(win)
    decreases b - a
  {
    if a >= b then 0.0 else Total(win, a, b - 1) + Weight(win, b - 1)
  }

  /** The weighted sum of inputs a to b - 1 of a row continued by its edge pixels. */
  function Dot(win: Window, row: seq<real>, a: int, b: int): real
    requires Fits(win) && |row| > 0
    decreases b - a
  {
    if a >= b then 0.0 else Dot(win, row, a, b - 1) + Weight(win, b - 1) * row[EdgeClamp(b - 1, |row|)]
  }

  lemma {:induction false} DotSplit(win: Window, row: seq<real>, a: int, m: int, b: int)
    requires Fits(win) && |row| > 0 && a <= m <= b
    ensures Dot(win, row, a, b) == Dot(win, row, a, m) + Dot(win, row, m, b)
    decreases b - m
  {
    if m >= b {
    } else {
      DotSplit(win, row, a, m, b - 1);
    }
  }

  /** Inputs outside the window contribute nothing. */
  lemma {:induction false} DotOutside(win: Window, row: seq<real>, a: int, b: int)
    requires Fits(win) && |row| > 0 && (b <= win.n0 || a > win.n1)
    ensures Dot(win, row, a, b) == 0.0
    decreases b - a
  {
    if a >= b {
    } else {
      DotOutside(win, row, a, b - 1);
    }
  }

  lemma Distribute(x: real, y: real, z: real, v: real)
    ensures (x + y + z) * v == x * v + y * v + z * v
  {
  }

  /** Where the row is constant, the sum is that of the weights. */
  lemma {:induction false} DotConstant(win: Window, row: seq<real>, a: int, b: int)
    requires Fits(win) && |row| > 0
    ensures b <= 0 ==> Dot(win, row, a, b) == Total(win, a, b) * row[0]
    ensures a >= |row| ==> Dot(win, row, a, b) == Total(win, a, b) * row[|row| - 1]
    decreases b - a
  {
    if a >= b {
    } else {
      DotConstant(win, row, a, b - 1);
      Distribute(Total(win, a, b - 1), Weight(win, b - 1), 0.0, row[0]);
      Distribute(Total(win, a, b - 1), Weight(win, b - 1), 0.0, row[|row| - 1]);
    }
  }

  /** The weight that input k has after folding into an image of size inputs: its own, and at an edge
      all those beyond. */
  function Folded(win: Window, size: nat, k: int): real
    requires Fits(win)
  {
    if k < 0 || k >= size then 0.0
    else
      Weight(win, k) + (if k == 0 then Total(win, win.n0, 0) else 0.0) +
      (if k == size - 1 then Total(win, size, win.n1 + 1) else 0.0)
  }

  /** r has the folded weights, and none outside the image. */
  ghost predicate IsFolded(win: Window, size: nat, r: Window)
  {
    Fits(win) && Fits(r) && forall k :: Weight(r, k) == Folded(win, size, k)
  }

  /** Six weights of which two lie on either side of an image of two inputs. */
  lemma FoldedExample(win: Window)
    requires win.n0 == -2 && win.n1 == 3 && |win.w| == 6
    ensures Folded(win, 2, 0) == win.w[0] + win.w[1] + win.w[2] && Folded(win, 2, 1) == win.w[3] + win.w[4] + win.w[5]
    ensures Folded(win, 2, -1) == Folded(win, 2, 2) == 0.0
  {
    assert Total(win, -2, -1) == win.w[0] && Total(win, -2, 0) == win.w[0] + win.w[1];
    assert Total(win, 2, 3) == win.w[4] && Total(win, 2, 4) == win.w[4] + win.w[5];
  }

  /** What folding adds to the sum of inputs 0 to b - 1. */
  function AtEdges(win: Window, row: seq<real>, b: nat): real
    requires Fits(win) && |row| > 0
  {
    (if b > 0 then Total(win, win.n0, 0) * row[0] else 0.0) +
    (if b == |row| then Total(win, |row|, win.n1 + 1) * row[|row| - 1] else 0.0)
  }

  lemma AtEdgesStep(win: Window, row: seq<real>, b: nat)
    requires Fits(win) && 0 < b <= |row|
    ensures Folded(win, |row|, b - 1) * row[b - 1] ==
            Weight(win, b - 1) * row[b - 1] + AtEdges(win, row, b) - AtEdges(win, row, b - 1)
  {
    Distribute(Weight(win, b - 1), if b == 1 then Total(win, win.n0, 0) else 0.0,
               if b == |row| then Total(win, |row|, win.n1 + 1) else 0.0, row[b - 1]);
  }

  lemma SameTerm(win: Window, r: Window, row: seq<real>, b: nat)
    requires IsFolded(win, |row|, r) && 0 < b <= |row|
    ensures Weight(r, b - 1) * row[b - 1] ==
            Weight(win, b - 1) * row[b - 1] + AtEdges(win, row, b) - AtEdges(win, row, b - 1)
  {
    assert Weight(r, b - 1) == Folded(win, |row|, b - 1);
    AtEdgesStep(win, row, b);
  }

  lemma DotStep(win: Window, row: seq<real>, b: nat)
    requires Fits(win) && 0 < b <= |row|
    ensures Dot(win, row, 0, b) == Dot(win, row, 0, b - 1) + Weight(win, b - 1) * row[b - 1]
  {
  }

  lemma {:induction false} DotFolded(win: Window, r: Window, row: seq<real>, b: nat)
    requires |row| > 0 && IsFolded(win, |row|, r) && b <= |row|
    ensures Dot(r, row, 0, b) == Dot(win, row, 0, b) + AtEdges(win, row, b)
    decreases b
  {
    if b == 0 {
    } else {
      DotFolded(win, r, row, b - 1);
      SameTerm(win, r, row, b);
      DotStep(win, row, b);
      DotStep(r, row, b);
    }
  }

  lemma AtEdgesAre(win: Window, row: seq<real>, left: real, right: real)
    requires Fits(win) && |row| > 0
    requires left == Total(win, win.n0, 0) * row[0] && right == Total(win, |row|, win.n1 + 1) * row[|row| - 1]
    ensures AtEdges(win, row, |row|) == left + right
  {
  }

  lemma AtEdgesAll(win: Window, row: seq<real>)
    requires Fits(win) && |row| > 0
    ensures AtEdges(win, row, |row|) == Dot(win, row, win.n0, 0) + Dot(win, row, |row|, win.n1 + 1)
  {
    var left := DotLeft(win, row);
    var right := DotRight(win, row);
    AtEdgesAre(win, row, left, right);
  }

  lemma DotLeft(win: Window, row: seq<real>) returns (d: real)
    requires Fits(win) && |row| > 0
    ensures d == Dot(win, row, win.n0, 0) && d == Total(win, win.n0, 0) * row[0]
  {
    DotConstant(win, row, win.n0, 0);
    d := Dot(win, row, win.n0, 0);
  }

  lemma DotRight(win: Window, row: seq<real>) returns (d: real)
    requires Fits(win) && |row| > 0
    ensures d == Dot(win, row, |row|, win.n1 + 1) && d == Total(win, |row|, win.n1 + 1) * row[|row| - 1]
  {
    DotConstant(win, row, |row|, win.n1 + 1);
    d := Dot(win, row, |row|, win.n1 + 1);
  }

  function Min(a: int, b: int): int { if a < b then a else b }
  function Max(a: int, b: int): int { if a > b then a else b }

  /** A window's sum in three parts: before, in and after the image. */
  lemma DotParts(win: Window, row: seq<real>)
    requires Fits(win) && |row| > 0 && win.n0 < |row| && win.n1 >= 0 && win.n0 <= win.n1
    ensures Dot(win, row, win.n0, win.n1 + 1) ==
            Dot(win, row, win.n0, 0) + Dot(win, row, 0, |row|) + Dot(win, row, |row|, win.n1 + 1)
  {
    var lo, hi := Min(win.n0, 0), Max(win.n1 + 1, |row|);
    DotSplit(win, row, lo, 0, hi);
    DotSplit(win, row, 0, |row|, hi);
    DotSplit(win, row, lo, win.n0, hi);
    DotSplit(win, row, win.n0, win.n1 + 1, hi);
    DotOutside(win, row, lo, win.n0);
    DotOutside(win, row, win.n1 + 1, hi);
  }

  /** Folding keeps every weighted sum: the folded window on the row itself gives what the original gave
      on the row continued by its edge pixels. */
  lemma FoldedMeaning(win: Window, r: Window, row: seq<real>)
    requires |row| > 0 && IsFolded(win, |row|, r) && win.n0 < |row| && win.n1 >= 0 && win.n0 <= win.n1
    ensures Dot(r, row, 0, |row|) == Dot(win, row, win.n0, win.n1 + 1)
  {
    DotFolded(win, r, row, |row|);
    DotParts(win, row);
    AtEdgesAll(win, row);
  }

  // ---------------------------------------------------------------- in place

  /** The weights beyond the right edge are added to the last input's. */
  ghost predicate RightFolded(win: Window, size: nat, r: Window)
  {
    && Fits(win) && Fits(r)
    && forall k :: Weight(r, k) ==
         if k >= size then 0.0 else Weight(win, k) + if k == size - 1 then Total(win, size, win.n1 + 1) else 0.0
  }

  /** The weights beyond the left edge are added to the first input's. */
  ghost predicate LeftFolded(win: Window, r: Window)
  {
    && Fits(win) && Fits(r)
    && forall k :: Weight(r, k) == if k < 0 then 0.0 else Weight(win, k) + if k == 0 then Total(win, win.n0, 0) else 0.0
  }

  lemma {:induction false} TotalSame(a: Window, b: Window, lo: int, hi: int)
    requires Fits(a) && Fits(b) && forall k | lo <= k < hi :: Weight(a, k) == Weight(b, k)
    ensures Total(a, lo, hi) == Total(b, lo, hi)
    decreases hi - lo
  {
    if lo >= hi {
    } else {
      TotalSame(a, b, lo, hi - 1);
      assert Weight(a, hi - 1) == Weight(b, hi - 1);
    }
  }

  lemma {:induction false} TotalFront(win: Window, a: int, b: int)
    requires Fits(win) && a < b
    ensures Total(win, a, b) == Weight(win, a) + Total(win, a + 1, b)
    decreases b - a
  {
    if a + 1 >= b {
    } else {
      TotalFront(win, a, b - 1);
    }
  }

  /** Both sides folded. */
  lemma BothFolded(win: Window, size: nat, mid: Window, r: Window)
    requires size > 0 && RightFolded(win, size, mid) && LeftFolded(mid, r) && mid.n0 == win.n0
    ensures IsFolded(win, size, r)
  {
    TotalSame(mid, win, win.n0, 0);
    forall k ensures Weight(r, k) == Folded(win, size, k) {
      var m := Weight(mid, k);
    }
  }

  /** The window at base. */
  ghost function WindowAt(c: Contributors, coeffs: array<real>, base: nat, width: nat): Window
    requires base + width <= coeffs.Length
    reads coeffs
  {
    Window(c.n0, c.n1, Group(coeffs, base, width))
  }

  /** Lines 3630-3638. */
  method FoldRight(c: Contributors, coeffs: array<real>, base: nat, width: nat, size: nat) returns (c': Contributors)
    requires 0 < width && base + width <= coeffs.Length && c.n1 - c.n0 + 1 <= width && c.n0 < size <= c.n1 && size > 0
    modifies coeffs
    ensures coeffs[..base] == old(coeffs[..base]) && coeffs[base + width..] == old(coeffs[base + width..])
    ensures c' == Contributors(c.n0, size - 1) && RightFolded(old(WindowAt(c, coeffs, base, width)), size, WindowAt(c', coeffs, base, width))
  {
    ghost var win := WindowAt(c, coeffs, base, width);
    var start, endi := c.n0, c.n1;
    c' := c.(n1 := size - 1);
    ghost var idx := size - 1 - start;
    var i := size;
    while i <= endi
      invariant size <= i <= endi + 1 && c' == Contributors(start, size - 1)
      invariant coeffs[..base] == old(coeffs[..base]) && coeffs[base + width..] == old(coeffs[base + width..])
      invariant Group(coeffs, base, width) == win.w[idx := win.w[idx] + Total(win, size, i)]
    {
      assert coeffs[base + (i - start)] == Group(coeffs, base, width)[i - start];
      c' := InsertCoeff(c', coeffs, base, width, EdgeClamp(i, size), coeffs[base + (i - start)]);
      i := i + 1;
    }
  }

  /** Lines 3640-3660. */
  method FoldLeft(c: Contributors, coeffs: array<real>, base: nat, width: nat, size: nat) returns (c': Contributors)
    requires 0 < width && base + width <= coeffs.Length && c.n1 - c.n0 + 1 <= width && c.n0 < 0 <= c.n1 && size > 0
    modifies coeffs
    ensures coeffs[..base] == old(coeffs[..base]) && coeffs[base + width..] == old(coeffs[base + width..])
    ensures c' == Contributors(0, c.n1) && LeftFolded(old(WindowAt(c, coeffs, base, width)), WindowAt(c', coeffs, base, width))
  {
    hide LeftFolded, Group, Total, Fits, Slid;
    ghost var win := WindowAt(c, coeffs, base, width);
    AddLeft(c, coeffs, base, width, size);
    ghost var mid := Group(coeffs, base, width);
    c' := MoveLeft(c, coeffs, base, width, size);
    LeftIs(win, mid, WindowAt(c', coeffs, base, width));
  }

  /** n weights moved down by o. */
  function Slid(g: seq<real>, n: nat, o: nat): (r: seq<real>)
    requires n + o <= |g|
    ensures |r| == |g|
  {
    g[o..o + n] + g[n..]
  }

  /** Slide the weights down so that input 0 comes first, and add the very first weight to it. */
  method MoveLeft(c: Contributors, coeffs: array<real>, base: nat, width: nat, size: nat) returns (c': Contributors)
    requires 0 < width && base + width <= coeffs.Length && c.n1 - c.n0 + 1 <= width && c.n0 < 0 <= c.n1 && size > 0
    modifies coeffs
    ensures coeffs[..base] == old(coeffs[..base]) && coeffs[base + width..] == old(coeffs[base + width..])
    ensures c' == Contributors(0, c.n1)
    ensures var g := old(Group(coeffs, base, width)); var t := Slid(g, c.n1 + 1, -c.n0);
      Group(coeffs, base, width) == t[0 := t[0] + g[0]]
  {
    var save := coeffs[base];
    assert save == Group(coeffs, base, width)[0];
    SlideDown(coeffs, base, width, c.n1 + 1, -c.n0);
    c' := InsertCoeff(Contributors(0, c.n1), coeffs, base, width, EdgeClamp(c.n0, size), save);
  }

  lemma LeftIs(win: Window, mid: seq<real>, r: Window)
    requires Fits(win) && win.n0 < 0 <= win.n1 && |mid| == |win.w|
    requires mid == win.w[-win.n0 := win.w[-win.n0] + Total(win, win.n0 + 1, 0)]
    requires r.n0 == 0 && r.n1 == win.n1
    requires var t := Slid(mid, win.n1 + 1, -win.n0); r.w == t[0 := t[0] + mid[0]]
    ensures LeftFolded(win, r)
  {
    TotalFront(win, win.n0, 0);
    var t := Slid(mid, win.n1 + 1, -win.n0);
    forall k ensures Weight(r, k) == if k < 0 then 0.0 else Weight(win, k) + if k == 0 then Total(win, win.n0, 0) else 0.0 {
      if 0 <= k <= win.n1 {
        assert t[k] == mid[k - win.n0];
      }
    }
  }

  /** Add the weights between the first and input 0 to that of input 0. */
  method AddLeft(c: Contributors, coeffs: array<real>, base: nat, width: nat, size: nat)
    requires 0 < width && base + width <= coeffs.Length && c.n1 - c.n0 + 1 <= width && c.n0 < 0 <= c.n1 && size > 0
    modifies coeffs
    ensures coeffs[..base] == old(coeffs[..base]) && coeffs[base + width..] == old(coeffs[base + width..])
    ensures var win := old(WindowAt(c, coeffs, base, width));
      Group(coeffs, base, width) == win.w[-c.n0 := win.w[-c.n0] + Total(win, c.n0 + 1, 0)]
  {
    ghost var win := WindowAt(c, coeffs, base, width);
    ghost var idx := -c.n0;
    var i := -1;
    while i > c.n0
      invariant c.n0 <= i <= -1
      invariant coeffs[..base] == old(coeffs[..base]) && coeffs[base + width..] == old(coeffs[base + width..])
      invariant Group(coeffs, base, width) == win.w[idx := win.w[idx] + Total(win, i + 1, 0)]
    {
      assert coeffs[base + (i - c.n0)] == Group(coeffs, base, width)[i - c.n0];
      TotalFront(win, i, 0);
      var same := InsertCoeff(c, coeffs, base, width, EdgeClamp(i, size), coeffs[base + (i - c.n0)]);
      i := i - 1;
    }
  }

  /** Copy n weights down by o. */
  method SlideDown(coeffs: array<real>, base: nat, width: nat, n: nat, o: nat)
    requires n + o <= width && base + width <= coeffs.Length
    modifies coeffs
    ensures coeffs[..base] == old(coeffs[..base]) && coeffs[base + width..] == old(coeffs[base + width..])
    ensures Group(coeffs, base, width) == Slid(old(Group(coeffs, base, width)), n, o)
  {
    ghost var before := coeffs[..];
    var i := 0;
    while i < n
      invariant 0 <= i <= n
      invariant forall j | 0 <= j < coeffs.Length :: coeffs[j] == before[if base <= j < base + i then j + o else j]
    {
      coeffs[base + i] := coeffs[base + i + o];
      i := i + 1;
    }
    SlidIs(before, coeffs[..], base, width, n, o);
  }

  lemma SlidIs(before: seq<real>, after: seq<real>, base: nat, width: nat, n: nat, o: nat)
    requires n + o <= width && base + width <= |before| == |after|
    requires forall j | 0 <= j < |after| :: after[j] == before[if base <= j < base + n then j + o else j]
    ensures after[..base] == before[..base] && after[base + width..] == before[base + width..]
    ensures after[base..base + width] == Slid(before[base..base + width], n, o)
  {
    var g := before[base..base + width];
    forall j | 0 <= j < width ensures after[base..base + width][j] == Slid(g, n, o)[j] {
      assert after[base..base + width][j] == after[base + j];
      if j < n {
        assert Slid(g, n, o)[j] == g[o + j] == before[base + o + j];
      } else {
        assert Slid(g, n, o)[j] == g[n..][j - n] == before[base + j];
      }
    }
  }

  /** Lines 3663-3684: drop zero weights at the end of the window and clear what is not used. */
  method Trim(c: Contributors, coeffs: array<real>, base: nat, width: nat) returns (c': Contributors)
    requires base + width <= coeffs.Length && 0 <= c.n1 - c.n0 + 1 <= width
    modifies coeffs
    ensures coeffs[..base] == old(coeffs[..base]) && coeffs[base + width..] == old(coeffs[base + width..])
    ensures c'.n0 == c.n0 && c.n0 - 1 <= c'.n1 <= c.n1
    ensures forall k :: Weight(WindowAt(c', coeffs, base, width), k) == Weight(old(WindowAt(c, coeffs, base, width)), k)
    ensures forall j | c'.n1 - c'.n0 + 1 <= j < width :: Group(coeffs, base, width)[j] == 0.0
    ensures c'.n0 <= c'.n1 ==> Weight(WindowAt(c', coeffs, base, width), c'.n1) != 0.0
  {
    var diff := c.n1 - c.n0 + 1;
    while diff != 0 && coeffs[base + diff - 1] == 0.0
      invariant 0 <= diff <= c.n1 - c.n0 + 1
      invariant forall j | base + diff <= j < base + (c.n1 - c.n0 + 1) :: coeffs[j] == 0.0
      decreases diff
    {
      diff := diff - 1;
    }
    c' := Contributors(c.n0, c.n0 + diff - 1);
    ghost var before := coeffs[..];
    Clear(coeffs, base + diff, base + width);
    Trimmed(c, diff, before, coeffs[..], base, width);
  }

  lemma Trimmed(c: Contributors, d: nat, before: seq<real>, after: seq<real>, base: nat, width: nat)
    requires d <= c.n1 - c.n0 + 1 <= width && base + width <= |before| == |after|
    requires forall i | 0 <= i < |after| :: after[i] == if base + d <= i < base + width then 0.0 else before[i]
    requires forall j | base + d <= j < base + (c.n1 - c.n0 + 1) :: before[j] == 0.0
    ensures after[..base] == before[..base] && after[base + width..] == before[base + width..]
    ensures var g, t := before[base..base + width], after[base..base + width];
      && (forall k :: Weight(Window(c.n0, c.n0 + d - 1, t), k) == Weight(Window(c.n0, c.n1, g), k))
      && (forall j | d <= j < width :: t[j] == 0.0)
      && (d > 0 ==> t[d - 1] == before[base + d - 1])
  {
    var g, t := before[base..base + width], after[base..base + width];
    forall k ensures Weight(Window(c.n0, c.n0 + d - 1, t), k) == Weight(Window(c.n0, c.n1, g), k) {
      if c.n0 <= k <= c.n1 {
        assert t[k - c.n0] == after[base + (k - c.n0)] && g[k - c.n0] == before[base + (k - c.n0)];
      }
    }
  }

  /** Lines 3626-3684 for a clamped edge: the window of a contributor whose range meets the image comes to
      lie inside it, with the folded weights. */
  method FoldClamp(c: Contributors, coeffs: array<real>, base: nat, width: nat, size: nat) returns (c': Contributors)
    requires 0 < width && base + width <= coeffs.Length && c.n1 - c.n0 + 1 <= width && size > 0
    requires c.n0 <= c.n1 && c.n0 < size && c.n1 >= 0
    modifies coeffs
    ensures coeffs[..base] == old(coeffs[..base]) && coeffs[base + width..] == old(coeffs[base + width..])
    ensures 0 <= c'.n0 <= c'.n1 + 1 <= size && c'.n1 - c'.n0 + 1 <= width
    ensures IsFolded(old(WindowAt(c, coeffs, base, width)), size, WindowAt(c', coeffs, base, width))
    ensures forall j | 0 <= j < width && j >= c'.n1 - c'.n0 + 1 :: Group(coeffs, base, width)[j] == 0.0
  {
    ghost var win := WindowAt(c, coeffs, base, width);
    c' := c;
    if c'.n1 > size - 1 {
      c' := FoldRight(c', coeffs, base, width, size);
    }
    ghost var mid := WindowAt(c', coeffs, base, width);
    if c'.n0 < 0 {
      c' := FoldLeft(c', coeffs, base, width, size);
    }
    ghost var r := WindowAt(c', coeffs, base, width);
    BothFolded(win, size, mid, r);
    c' := Trim(c', coeffs, base, width);
    SameFolded(win, size, r, WindowAt(c', coeffs, base, width));
  }

  lemma SameFolded(win: Window, size: nat, r: Window, t: Window)
    requires IsFolded(win, size, r) && Fits(t) && forall k :: Weight(t, k) == Weight(r, k)
    ensures IsFolded(win, size, t)
  {
  }

  lemma DotWindow(r: Window, row: seq<real>)
    requires Fits(r) && |row| > 0 && 0 <= r.n0 <= r.n1 + 1 <= |row|
    ensures Dot(r, row, r.n0, r.n1 + 1) == Dot(r, row, 0, |row|)
  {
    DotSplit(r, row, 0, r.n0, |row|);
    DotSplit(r, row, r.n0, r.n1 + 1, |row|);
    DotOutside(r, row, 0, r.n0);
    DotOutside(r, row, r.n1 + 1, |row|);
  }

  /** The same for every row: the sum over the folded window alone equals that over the clamped row. */
  lemma FoldKeepsSums(win: Window, r: Window, size: nat)
    requires size > 0 && IsFolded(win, size, r) && win.n0 < size && win.n1 >= 0 && win.n0 <= win.n1
    requires 0 <= r.n0 <= r.n1 + 1 <= size
    ensures forall row: seq<real> | |row| == size :: Dot(r, row, r.n0, r.n1 + 1) == Dot(win, row, win.n0, win.n1 + 1)
  {
    forall row: seq<real> | |row| == size ensures Dot(r, row, r.n0, r.n1 + 1) == Dot(win, row, win.n0, win.n1 + 1) {
      FoldedMeaning(win, r, row);
      DotWindow(r, row);
    }
  }
}
