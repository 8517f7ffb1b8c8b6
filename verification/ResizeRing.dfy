/** The vertical gather loop (stbir__vertical_gather_loop in external/stb/stb_image_resize2.h): each output
    row is a weighted sum of input lines, which are read from a ring of the newest lines decoded. */
module ResizeRing {
  import opened ResizeWindows
  import opened ResizeFold

  type Line = seq<real>

  /** Where lines come from: decoding, resampling along the line, and which of the two ways round. */
  datatype Source = Source(decode: int -> Line, horizontal: Line -> Line, verticalFirst: bool, width: nat)
  {
    /** What the ring holds of line n. */
    ghost function Held(n: int): Line
    {
      if verticalFirst then decode(n) else horizontal(decode(n))
    }

    /** What is made of a vertical sum. */
    ghost function Done(sum: Line): Line
    {
      if verticalFirst then horizontal(sum) else sum
    }

    ghost predicate Good()
    {
      forall n :: |Held(n)| == width
    }

    /** Sample x of line n in the direction that comes first. */
    ghost function Sample(n: int, x: nat): real
      requires Good() && x < width
      ensures verticalFirst ==> x < |decode(n)| && Sample(n, x) == decode(n)[x]
      ensures !verticalFirst ==> x < |horizontal(decode(n))| && Sample(n, x) == horizontal(decode(n))[x]
    {
      assert |Held(n)| == width;
      if verticalFirst then decode(n)[x] else horizontal(decode(n))[x]
    }
  }

  // ---------------------------------------------------------------- slots

  lemma {:induction false} ModUnique(N: int, q: int, r: int, q': int, r': int)
    requires N > 0 && 0 <= r < N && 0 <= r' < N && N * q + r == N * q' + r'
    ensures q == q' && r == r'
  {
    if q < q' {
      MulStep(N, q, q');
    } else if q' < q {
      MulStep(N, q', q);
    }
  }

  lemma MulStep(N: int, a: int, b: int)
    requires N > 0 && a < b
    ensures N * b >= N * a + N
  {
    assert N * b == N * a + N * (b - a);
    assert N * (b - a - 1) >= 0;
  }

  lemma ModAdd(a: int, N: int)
    requires N > 0
    ensures (a + N) % N == a % N
  {
    ModUnique(N, (a + N) / N, (a + N) % N, a / N + 1, a % N);
  }

  /** Lines share a slot when they are whole rings apart. */
  lemma {:induction false} SlotAgain(a: nat, d: nat, N: int)
    requires N > 0
    ensures (a + d - d % N) % N == a % N
    decreases d
  {
    if d >= N {
      SlotAgain(a, d - N, N);
      ModAdd(d - N, N);
      ModAdd(a + (d - N) - (d - N) % N, N);
    } else {
      ModSmall(d, N);
    }
  }

  lemma ModSmall(d: nat, N: int)
    requires d < N
    ensures d % N == d
  {
  }

  /** N lines in a row have slots of their own. */
  lemma SlotsDiffer(a: nat, b: nat, N: int)
    requires N > 0 && a < b < a + N
    ensures a % N != b % N
  {
    if a % N == b % N {
      ModUnique(N, 0, b - a, b / N - a / N, 0);
    }
  }

  /** The newest line in the slot of line n. */
  function Newest(n: int, last: int, N: int): (m: int)
    requires N > 0 && n <= last
    ensures n <= m <= last && last - N < m
    ensures m == n <==> n > last - N
  {
    last - (last - n) % N
  }

  // ---------------------------------------------------------------- which lines are read

  /** The last line loaded when y rows are done. */
  function Top(rows: seq<Window>, y: nat): int
    requires 0 < |rows| && y <= |rows|
  {
    if y == 0 then rows[0].n0 - 1 else Max(Top(rows, y - 1), rows[y - 1].n1)
  }

  /** The first line in a ring of N, when y rows are done. */
  function Bottom(rows: seq<Window>, N: int, y: nat): int
    requires 0 < |rows| && y <= |rows|
  {
    Max(rows[0].n0, Top(rows, y) - N + 1)
  }

  /** The assertions on row y hold: there is something to sum, and it starts in the ring. */
  predicate Asserted(rows: seq<Window>, N: int, y: nat)
    requires y < |rows|
  {
    rows[y].n0 <= rows[y].n1 && rows[y].n0 >= Bottom(rows, N, y)
  }

  /** The lines read for a window. */
  function Reads(win: Window, last: int, N: int): (r: seq<int>)
    requires N > 0 && win.n0 <= win.n1 <= last
    ensures |r| == win.n1 - win.n0 + 1
  {
    seq(win.n1 - win.n0 + 1, i requires 0 <= i < win.n1 - win.n0 + 1 => Newest(win.n0 + i, last, N))
  }

  /** The lines that should be read. */
  function Wanted(win: Window): (r: seq<int>)
    requires win.n0 <= win.n1
    ensures |r| == win.n1 - win.n0 + 1
  {
    seq(win.n1 - win.n0 + 1, i requires 0 <= i < win.n1 - win.n0 + 1 => win.n0 + i)
  }

  /** Row y starts neither before the first row nor beyond the N newest lines loaded for it. */
  predicate AheadAt(rows: seq<Window>, N: int, y: nat)
    requires y < |rows|
  {
    rows[y].n0 <= rows[y].n1 && rows[0].n0 <= rows[y].n0 && Top(rows, y + 1) - N < rows[y].n0
  }

  predicate Ahead(rows: seq<Window>, N: int)
  {
    forall y | 0 <= y < |rows| :: AheadAt(rows, N, y)
  }

  /** The assertions on row y hold and it reads the right lines. */
  predicate ReadsRight(rows: seq<Window>, N: int, y: nat)
    requires y < |rows| && N > 0
  {
    Asserted(rows, N, y) && Reads(rows[y], Top(rows, y + 1), N) == Wanted(rows[y])
  }

  lemma RingReads(win: Window, last: int, N: int)
    requires N > 0 && win.n0 <= win.n1 <= last && last - N < win.n0
    ensures Reads(win, last, N) == Wanted(win)
  {
    var r := Reads(win, last, N);
    forall i | 0 <= i < |r| ensures r[i] == Wanted(win)[i] {
      assert r[i] == Newest(win.n0 + i, last, N);
    }
  }

  /** A row reads the right lines exactly when it keeps ahead. */
  lemma ReadsExact(rows: seq<Window>, N: int, y: nat)
    requires N > 0 && y < |rows|
    ensures AheadAt(rows, N, y) <==> ReadsRight(rows, N, y)
  {
    if ReadsRight(rows, N, y) {
      assert Newest(rows[y].n0 + 0, Top(rows, y + 1), N) == Reads(rows[y], Top(rows, y + 1), N)[0] == Wanted(rows[y])[0];
    }
    if AheadAt(rows, N, y) {
      RingReads(rows[y], Top(rows, y + 1), N);
    }
  }

  // ---------------------------------------------------------------- sums

  /** A single weight this close to 1 counts as 1. */
  ghost predicate NearOne(w: real)
  {
    1.0 - 0.000001 <= w <= 1.0 + 0.000001
  }

  /** The weights that a row is summed with. */
  ghost function Weights(win: Window): (w: seq<real>)
    requires Fits(win) && win.n0 <= win.n1
    ensures |w| == win.n1 - win.n0 + 1
  {
    if win.n0 == win.n1 && NearOne(win.w[0]) then [1.0] else win.w[..win.n1 - win.n0 + 1]
  }

  /** Sample x of the sum of the first k of the lines. */
  ghost function Mix(src: Source, lines: seq<int>, w: seq<real>, x: nat, k: nat): real
    requires src.Good() && k <= |lines| && k <= |w| && x < src.width
  {
    if k == 0 then 0.0 else Mix(src, lines, w, x, k - 1) + w[k - 1] * src.Held(lines[k - 1])[x]
  }

  ghost function Mixed(src: Source, lines: seq<int>, w: seq<real>): (r: Line)
    requires src.Good() && |lines| == |w|
    ensures |r| == src.width && forall x | 0 <= x < src.width :: r[x] == Mix(src, lines, w, x, |lines|)
  {
    seq(src.width, x requires 0 <= x < src.width => Mix(src, lines, w, x, |lines|))
  }

  /** An output row summed from the given lines. */
  ghost function RowOf(src: Source, win: Window, lines: seq<int>): Line
    requires src.Good() && Fits(win) && win.n0 <= win.n1 && |lines| == win.n1 - win.n0 + 1
  {
    src.Done(Mixed(src, lines, Weights(win)))
  }

  /** out[y] is summed from the lines read for it. */
  ghost predicate RowRead(src: Source, rows: seq<Window>, N: int, out: seq<Line>, y: nat)
    requires src.Good() && N > 0 && y < |out| <= |rows|
  {
    Asserted(rows, N, y) && Fits(rows[y]) && out[y] == RowOf(src, rows[y], Reads(rows[y], Top(rows, y + 1), N))
  }

  /** out[y] is summed from the lines of its window. */
  ghost predicate RowRight(src: Source, rows: seq<Window>, out: seq<Line>, y: nat)
    requires src.Good() && y < |out| <= |rows|
  {
    Fits(rows[y]) && rows[y].n0 <= rows[y].n1 && out[y] == RowOf(src, rows[y], Wanted(rows[y]))
  }

  /** The weighted sum, at sample x, of the first k lines of a window; the one weight of a window of one line counts as 1 if it
      is within 10^-6 of it. */
  ghost function WindowSum(src: Source, win: Window, x: nat, k: nat): real
    requires src.Good() && x < src.width && k <= |win.w|
  {
    if k == 0 then 0.0
    else
      var alone := win.n0 == win.n1 && 0.999999 <= win.w[k - 1] <= 1.000001;
      WindowSum(src, win, x, k - 1) + (if alone then 1.0 else win.w[k - 1]) * src.Sample(win.n0 + k - 1, x)
  }

  /** An output row in the terms of its source alone: the sums of the window's decoded lines, resampled along the line; or the
      sums of those lines resampled before. */
  ghost predicate Gathered(src: Source, win: Window, row: Line)
    requires src.Good()
  {
    && Fits(win) && win.n0 <= win.n1
    && exists sum: Line :: |sum| == src.width
         && (forall x | 0 <= x < src.width :: sum[x] == WindowSum(src, win, x, win.n1 - win.n0 + 1))
         && row == if src.verticalFirst then src.horizontal(sum) else sum
  }

  lemma {:induction false} MixIs(src: Source, win: Window, x: nat, k: nat)
    requires src.Good() && Fits(win) && win.n0 <= win.n1 && x < src.width && k <= win.n1 - win.n0 + 1
    ensures Mix(src, Wanted(win), Weights(win), x, k) == WindowSum(src, win, x, k)
    decreases k
  {
    if k == 0 {
    } else {
      MixIs(src, win, x, k - 1);
      assert Wanted(win)[k - 1] == win.n0 + k - 1;
      assert src.Held(win.n0 + k - 1)[x] == src.Sample(win.n0 + k - 1, x);
    }
  }

  /** A row summed from the lines of its window is gathered. */
  lemma RowGathered(src: Source, win: Window, row: Line)
    requires src.Good() && Fits(win) && win.n0 <= win.n1 && row == RowOf(src, win, Wanted(win))
    ensures Gathered(src, win, row)
  {
    hide Mix, WindowSum, Wanted, Weights;
    var sum := Mixed(src, Wanted(win), Weights(win));
    forall x | 0 <= x < src.width ensures sum[x] == WindowSum(src, win, x, win.n1 - win.n0 + 1) {
      MixIs(src, win, x, win.n1 - win.n0 + 1);
    }
  }

  ghost function GroupSum(inputs: seq<Line>, w: seq<real>, x: nat, j: nat): real
    requires j <= |inputs| && j <= |w| && forall i | 0 <= i < |inputs| :: x < |inputs[i]|
  {
    if j == 0 then 0.0 else GroupSum(inputs, w, x, j - 1) + w[j - 1] * inputs[j - 1][x]
  }

  /** Inputs are the lines from the k-th on. */
  ghost predicate Fetched(src: Source, lines: seq<int>, k: nat, inputs: seq<Line>)
    requires src.Good()
  {
    k + |inputs| <= |lines| && forall i | 0 <= i < |inputs| :: inputs[i] == src.Held(lines[k + i])
  }

  lemma {:induction false} MixGroup(src: Source, lines: seq<int>, w: seq<real>, x: nat, k: nat, inputs: seq<Line>, v: seq<real>, j: nat)
    requires src.Good() && |w| == |lines| && x < src.width && Fetched(src, lines, k, inputs) && j <= |inputs|
    requires |v| == |inputs| && forall i | 0 <= i < |inputs| :: v[i] == w[k + i]
    ensures forall i | 0 <= i < |inputs| :: |inputs[i]| == src.width
    ensures Mix(src, lines, w, x, k + j) == Mix(src, lines, w, x, k) + GroupSum(inputs, v, x, j)
    decreases j
  {
    assert forall i | 0 <= i < |inputs| :: |inputs[i]| == |src.Held(lines[k + i])|;
    if j == 0 {
    } else {
      MixGroup(src, lines, w, x, k, inputs, v, j - 1);
      assert inputs[j - 1] == src.Held(lines[k + (j - 1)]);
    }
  }

  /** stbir__vertical_gather_with_N_coeffs, and its variant that goes on with a sum. */
  method BlendGroup(buffer: array<real>, inputs: seq<Line>, w: seq<real>, more: bool)
    requires 0 < |inputs| == |w| && forall i | 0 <= i < |inputs| :: |inputs[i]| == buffer.Length
    modifies buffer
    ensures forall x | 0 <= x < buffer.Length :: buffer[x] == (if more then old(buffer[x]) else 0.0) +
              GroupSum(inputs, if |w| == 1 && !more && NearOne(w[0]) then [1.0] else w, x, |inputs|)
  {
    var x := 0;
    if |w| == 1 && !more && 1.0 - 0.000001 <= w[0] <= 1.0 + 0.000001 {
      while x < buffer.Length
        invariant 0 <= x <= buffer.Length
        invariant forall i | 0 <= i < x :: buffer[i] == inputs[0][i]
      {
        buffer[x] := inputs[0][x];
        x := x + 1;
      }
      forall i | 0 <= i < buffer.Length ensures GroupSum(inputs, [1.0], i, 1) == inputs[0][i] {
        assert GroupSum(inputs, [1.0], i, 0) == 0.0;
      }
      return;
    }
    while x < buffer.Length
      invariant 0 <= x <= buffer.Length
      invariant forall i | 0 <= i < x :: buffer[i] == (if more then old(buffer[i]) else 0.0) + GroupSum(inputs, w, i, |inputs|)
      invariant forall i | x <= i < buffer.Length :: buffer[i] == old(buffer[i])
    {
      var o := if more then buffer[x] else 0.0;
      var j := 0;
      while j < |inputs|
        invariant 0 <= j <= |inputs| && o == (if more then old(buffer[x]) else 0.0) + GroupSum(inputs, w, x, j)
      {
        o := o + inputs[j][x] * w[j];
        j := j + 1;
      }
      buffer[x] := o;
      x := x + 1;
    }
  }

  // ---------------------------------------------------------------- the ring

  class Split {
    const ring: array<Line>
    const buffer: array<real>
    var begin: int
    var first: int
    var last: int

    constructor (entries: nat, width: nat)
      requires entries > 0
      ensures fresh(ring) && fresh(buffer) && ring.Length == entries && buffer.Length == width
    {
      ring := new Line[entries](i => []);
      buffer := new real[width];
      begin, first, last := 0, 0, -1;
    }

    /** The ring holds the lines first to last, which are the newest ones since line start; none has been
        dropped without need. */
    ghost predicate Valid(src: Source, start: int)
      reads this, ring
    {
      && ring.Length > 0 && begin == first - start && start - 1 <= last
      && first == Max(start, last - ring.Length + 1)
      && forall n {:trigger src.Held(n)} | first <= n <= last :: ring[(n - start) % ring.Length] == src.Held(n)
    }

    /** stbir__get_ring_buffer_scanline: right for the lines in the ring, and for an older one the newest
        in its slot. */
    method Scanline(n: int, ghost src: Source, ghost start: int) returns (line: Line)
      requires Valid(src, start) && start <= n <= last
      ensures line == src.Held(Newest(n, last, ring.Length))
    {
      line := ring[(begin + (n - first)) % ring.Length];
      SlotAgain(n - start, last - n, ring.Length);
      ghost var m := Newest(n, last, ring.Length);
      assert m - start == (n - start) + (last - n) - (last - n) % ring.Length;
      assert ring[(m - start) % ring.Length] == src.Held(m);
    }

    /** Lines 6340-6361: one more line, in place of the oldest when the ring is full. */
    method LoadLine(src: Source, ghost start: int)
      requires Valid(src, start)
      modifies this`begin, this`first, this`last, ring
      ensures Valid(src, start) && last == old(last) + 1
    {
      assert last - first + 1 <= ring.Length;
      if last - first + 1 == ring.Length {
        first := first + 1;
        begin := begin + 1;
      }
      last := last + 1;
      var slot := (begin + (last - first)) % ring.Length;
      assert begin + (last - first) == last - start;
      ring[slot] := if src.verticalFirst then src.decode(last) else src.horizontal(src.decode(last));
      forall n {:trigger src.Held(n)} | first <= n <= last ensures ring[(n - start) % ring.Length] == src.Held(n) {
        if n < last {
          SlotsDiffer(n - start, last - start, ring.Length);
        }
      }
    }

    /** Load up to line n. */
    method LoadTo(n: int, src: Source, ghost start: int)
      requires Valid(src, start)
      modifies this`begin, this`first, this`last, ring
      ensures Valid(src, start) && last == Max(old(last), n)
    {
      while last < n
        invariant Valid(src, start) && last == Max(old(last), last) && (last > old(last) ==> last <= n)
        decreases n - last
      {
        LoadLine(src, start);
      }
    }

    /** The lines of a group. */
    method Fetch(n: int, cnt: nat, ghost src: Source, ghost start: int) returns (inputs: seq<Line>)
      requires Valid(src, start) && start <= n && n + cnt - 1 <= last
      ensures |inputs| == cnt
      ensures forall i | 0 <= i < cnt :: inputs[i] == src.Held(Newest(n + i, last, ring.Length))
    {
      inputs := [];
      while |inputs| < cnt
        invariant |inputs| <= cnt
        invariant forall i | 0 <= i < |inputs| :: inputs[i] == src.Held(Newest(n + i, last, ring.Length))
        decreases cnt - |inputs|
      {
        var line := Scanline(n + |inputs|, src, start);
        inputs := inputs + [line];
      }
    }

    /** The next group of at most eight lines. */
    method AddGroup(win: Window, k: nat, cnt: nat, src: Source, ghost start: int)
      requires Valid(src, start) && src.Good() && buffer.Length == src.width
      requires Fits(win) && start <= win.n0 <= win.n1 <= last && 0 < cnt && k + cnt <= win.n1 - win.n0 + 1
      requires win.n0 == win.n1 || k > 0 || cnt > 1
      requires k > 0 ==> Summed(src, Reads(win, last, ring.Length), Weights(win), k, buffer[..])
      modifies buffer
      ensures Summed(src, Reads(win, last, ring.Length), Weights(win), k + cnt, buffer[..])
    {
      var inputs := Fetch(win.n0 + k, cnt, src, start);
      GroupFetched(src, win, last, ring.Length, k, inputs);
      ghost var was := buffer[..];
      BlendGroup(buffer, inputs, win.w[k..k + cnt], k > 0);
      GroupAdded(src, win, Reads(win, last, ring.Length), k, cnt, inputs, was, buffer[..]);
    }

    /** stbir__resample_vertical_gather. */
    method VerticalGather(win: Window, src: Source, ghost start: int) returns (row: Line)
      requires Valid(src, start) && src.Good() && buffer.Length == src.width
      requires Fits(win) && start <= win.n0 <= win.n1 <= last
      modifies buffer
      ensures row == RowOf(src, win, Reads(win, last, ring.Length))
      ensures last - ring.Length < win.n0 ==> Gathered(src, win, row)
    {
      var k, total := 0, win.n1 - win.n0 + 1;
      ghost var lines, w := Reads(win, last, ring.Length), Weights(win);
      while total > 0
        invariant 0 <= total && 0 <= k && k + total == |lines|
        invariant k > 0 ==> Summed(src, lines, w, k, buffer[..])
      {
        var cnt := if total > 8 then 8 else total;
        AddGroup(win, k, cnt, src, start);
        k, total := k + cnt, total - cnt;
      }
      assert buffer[..] == Mixed(src, lines, w);
      row := if src.verticalFirst then src.horizontal(buffer[..]) else buffer[..];
      if last - ring.Length < win.n0 {
        RingReads(win, last, ring.Length);
        RowGathered(src, win, row);
      }
    }

    /** stbir__vertical_gather_loop, on the windows of the rows of a split.  It ends early at a row on which
        an assertion fails. */
    method GatherLoop(rows: seq<Window>, src: Source) returns (out: seq<Line>)
      requires ring.Length > 0 && src.Good() && buffer.Length == src.width
      requires forall y | 0 <= y < |rows| :: Fits(rows[y])
      modifies this`begin, this`first, this`last, ring, buffer
      ensures |out| <= |rows| && (|out| < |rows| ==> !Asserted(rows, ring.Length, |out|))
      ensures forall y | 0 <= y < |out| :: RowRead(src, rows, ring.Length, out, y)
      ensures Ahead(rows, ring.Length) ==> |out| == |rows|
      ensures Ahead(rows, ring.Length) ==> forall y | 0 <= y < |out| :: RowRight(src, rows, out, y)
      ensures Ahead(rows, ring.Length) ==> forall y | 0 <= y < |out| :: Gathered(src, rows[y], out[y])
    {
      hide Gathered, Fits, RowRead, RowRight, RowOf, Reads, ReadsRight;
      out := [];
      if |rows| == 0 {
        return;
      }
      ghost var start := rows[0].n0;
      begin, first := 0, rows[0].n0;
      last := first - 1;
      while |out| < |rows|
        invariant |out| <= |rows| && Valid(src, start) && last == Top(rows, |out|)
        invariant forall y | 0 <= y < |out| :: RowRead(src, rows, ring.Length, out, y)
        decreases |rows| - |out|
      {
        var win := rows[|out|];
        if win.n0 < first {
          ReadsExact(rows, ring.Length, |out|);
          return;
        }
        LoadTo(win.n1, src, start);
        if win.n0 > win.n1 {
          ReadsExact(rows, ring.Length, |out|);
          return;
        }
        var row := VerticalGather(win, src, start);
        RowAdded(src, rows, ring.Length, out, row);
        out := out + [row];
      }
      AllRight(src, rows, ring.Length, out);
    }
  }

  lemma RowAdded(src: Source, rows: seq<Window>, N: int, out: seq<Line>, row: Line)
    requires src.Good() && N > 0 && |out| < |rows| && forall y | 0 <= y < |out| :: RowRead(src, rows, N, out, y)
    requires Asserted(rows, N, |out|) && Fits(rows[|out|])
    requires row == RowOf(src, rows[|out|], Reads(rows[|out|], Top(rows, |out| + 1), N))
    ensures forall y | 0 <= y < |out + [row]| :: RowRead(src, rows, N, out + [row], y)
  {
    forall y | 0 <= y < |out + [row]| ensures RowRead(src, rows, N, out + [row], y) {
      if y < |out| {
        assert RowRead(src, rows, N, out, y);
      }
    }
  }

  /** Rows that keep ahead are right. */
  lemma AllRight(src: Source, rows: seq<Window>, N: int, out: seq<Line>)
    requires src.Good() && N > 0 && |out| <= |rows| && forall y | 0 <= y < |out| :: RowRead(src, rows, N, out, y)
    ensures Ahead(rows, N) ==> forall y | 0 <= y < |out| :: RowRight(src, rows, out, y)
    ensures Ahead(rows, N) ==> forall y | 0 <= y < |out| :: Gathered(src, rows[y], out[y])
  {
    hide Gathered, RowOf;
    if Ahead(rows, N) {
      forall y | 0 <= y < |out| ensures RowRight(src, rows, out, y) && Gathered(src, rows[y], out[y]) {
        assert RowRead(src, rows, N, out, y) && AheadAt(rows, N, y);
        ReadsExact(rows, N, y);
        RowGathered(src, rows[y], out[y]);
      }
    }
  }

  /** The buffer holds the sum of the first k lines. */
  ghost predicate Summed(src: Source, lines: seq<int>, w: seq<real>, k: nat, buffer: seq<real>)
    requires src.Good() && k <= |lines| == |w|
  {
    |buffer| == src.width && forall x | 0 <= x < src.width :: buffer[x] == Mix(src, lines, w, x, k)
  }

  lemma GroupAdded(src: Source, win: Window, lines: seq<int>, k: nat, cnt: nat, inputs: seq<Line>, was: seq<real>, now: seq<real>)
    requires src.Good() && Fits(win) && win.n0 <= win.n1 && |lines| == win.n1 - win.n0 + 1
    requires 0 < cnt == |inputs| && Fetched(src, lines, k, inputs) && (win.n0 == win.n1 || k > 0 || cnt > 1)
    requires |was| == |now| == src.width && forall i | 0 <= i < cnt :: |inputs[i]| == src.width
    requires k > 0 ==> Summed(src, lines, Weights(win), k, was)
    requires var w := win.w[k..k + cnt];
      forall x | 0 <= x < src.width :: now[x] == (if k > 0 then was[x] else 0.0) +
        GroupSum(inputs, if |w| == 1 && k == 0 && NearOne(w[0]) then [1.0] else w, x, cnt)
    ensures Summed(src, lines, Weights(win), k + cnt, now)
  {
    var w := win.w[k..k + cnt];
    var v := if |w| == 1 && k == 0 && NearOne(w[0]) then [1.0] else w;
    assert forall i | 0 <= i < cnt :: v[i] == Weights(win)[k + i];
    forall x | 0 <= x < src.width ensures now[x] == Mix(src, lines, Weights(win), x, k + cnt) {
      MixGroup(src, lines, Weights(win), x, k, inputs, v, cnt);
    }
  }

  lemma GroupFetched(src: Source, win: Window, last: int, N: int, k: nat, inputs: seq<Line>)
    requires src.Good() && N > 0 && win.n0 <= win.n1 <= last && k + |inputs| <= win.n1 - win.n0 + 1
    requires forall i | 0 <= i < |inputs| :: inputs[i] == src.Held(Newest(win.n0 + k + i, last, N))
    ensures Fetched(src, Reads(win, last, N), k, inputs)
    ensures forall i | 0 <= i < |inputs| :: |inputs[i]| == src.width
  {
    forall i | 0 <= i < |inputs| ensures inputs[i] == src.Held(Reads(win, last, N)[k + i]) && |inputs[i]| == src.width {
      assert Reads(win, last, N)[k + i] == Newest(win.n0 + (k + i), last, N);
    }
  }

  // ---------------------------------------------------------------- rows of a clamped image

  /** A window's weights as they are. */
  function Plain(win: Window): (w: seq<real>)
    requires Fits(win) && win.n0 <= win.n1
    ensures |w| == win.n1 - win.n0 + 1
  {
    win.w[..win.n1 - win.n0 + 1]
  }

  /** Beyond the image a line is the nearest line of it. */
  ghost predicate Clamped(src: Source, image: seq<Line>)
  {
    && src.Good() && |image| > 0 && forall n :: src.Held(n) == image[EdgeClamp(n, |image|)]
  }

  function Column(image: seq<Line>, width: nat, x: nat): (c: seq<real>)
    requires x < width && forall i | 0 <= i < |image| :: |image[i]| == width
    ensures |c| == |image| && forall i | 0 <= i < |image| :: c[i] == image[i][x]
  {
    seq(|image|, i requires 0 <= i < |image| => image[i][x])
  }

  lemma ClampedWidth(src: Source, image: seq<Line>)
    requires Clamped(src, image)
    ensures forall i | 0 <= i < |image| :: |image[i]| == src.width
  {
    forall i | 0 <= i < |image| ensures |image[i]| == src.width {
      assert |src.Held(i)| == src.width;
    }
  }

  /** A sample of the sum is the weighted sum of its column. */
  lemma {:induction false} MixDot(src: Source, image: seq<Line>, win: Window, x: nat, k: nat, column: seq<real>)
    requires Clamped(src, image) && Fits(win) && win.n0 <= win.n1 && x < src.width && k <= win.n1 - win.n0 + 1
    requires |column| == |image| && forall i | 0 <= i < |image| :: |image[i]| == src.width && column[i] == image[i][x]
    ensures Mix(src, Wanted(win), Plain(win), x, k) == Dot(win, column, win.n0, win.n0 + k)
    decreases k
  {
    if k == 0 {
    } else {
      MixDot(src, image, win, x, k - 1, column);
      var n := win.n0 + k - 1;
      assert Wanted(win)[k - 1] == n && src.Held(n) == image[EdgeClamp(n, |image|)];
      assert Plain(win)[k - 1] == Weight(win, n);
    }
  }

  /** The samples of the unfolded sum, from the folded window, which may have become empty. */
  lemma FoldKeepsSample(src: Source, image: seq<Line>, win: Window, r: Window, x: nat)
    requires Clamped(src, image) && IsFolded(win, |image|, r) && win.n0 <= win.n1 && win.n0 < |image| && win.n1 >= 0
    requires 0 <= r.n0 <= r.n1 + 1 <= |image| && x < src.width
    ensures Mix(src, Wanted(win), Plain(win), x, |Wanted(win)|) ==
            if r.n0 <= r.n1 then Mix(src, Wanted(r), Plain(r), x, |Wanted(r)|) else 0.0
  {
    hide Mix, IsFolded, Plain, Wanted, Dot;
    ClampedWidth(src, image);
    FoldedFits(win, |image|, r);
    var column := Column(image, src.width, x);
    if r.n0 <= r.n1 {
      MixDot(src, image, r, x, |Wanted(r)|, column);
    } else {
      DotNone(r, column, r.n0);
    }
    MixDot(src, image, win, x, |Wanted(win)|, column);
    FoldKeepsSums(win, r, |image|);
  }

  lemma FoldedFits(win: Window, size: nat, r: Window)
    requires IsFolded(win, size, r)
    ensures Fits(win) && Fits(r)
  {
  }

  lemma DotNone(win: Window, row: seq<real>, a: int)
    requires Fits(win) && |row| > 0
    ensures Dot(win, row, a, a) == 0.0
  {
  }

  /** A single line that counts as it is. */
  lemma OneLine(src: Source, n: int)
    requires src.Good()
    ensures Mixed(src, [n], [1.0]) == src.Held(n)
  {
    var a, b := Mixed(src, [n], [1.0]), src.Held(n);
    assert |b| == src.width;
    forall x | 0 <= x < src.width ensures a[x] == b[x] {
      assert Mix(src, [n], [1.0], x, 0) == 0.0;
      assert Mix(src, [n], [1.0], x, 1) == 0.0 + 1.0 * src.Held([n][0])[x];
    }
  }

  /** Folding a window at a clamped edge and gathering: the row is made of the sum over the unfolded window, unless a
      single weight within 10^-6 of 1 is left, which then counts as 1.  No weight is left only if that sum is zero. */
  lemma FoldKeepsRows(src: Source, image: seq<Line>, win: Window, r: Window)
    requires Clamped(src, image) && IsFolded(win, |image|, r) && win.n0 <= win.n1 && win.n0 < |image| && win.n1 >= 0
    requires 0 <= r.n0 <= r.n1 + 1 <= |image|
    ensures r.n0 <= r.n1 && !(r.n0 == r.n1 && NearOne(r.w[0])) ==>
      RowOf(src, r, Wanted(r)) == src.Done(Mixed(src, Wanted(win), Plain(win)))
    ensures r.n0 == r.n1 && NearOne(r.w[0]) ==>
      && RowOf(src, r, Wanted(r)) == src.Done(src.Held(r.n0))
      && forall x | 0 <= x < src.width :: |src.Held(r.n0)| == src.width && Mixed(src, Wanted(win), Plain(win))[x] == r.w[0] * src.Held(r.n0)[x]
    ensures r.n0 > r.n1 ==> forall x | 0 <= x < src.width :: Mixed(src, Wanted(win), Plain(win))[x] == 0.0
  {
    var b := Mixed(src, Wanted(win), Plain(win));
    forall x | 0 <= x < src.width
      ensures b[x] == if r.n0 <= r.n1 then Mix(src, Wanted(r), Plain(r), x, |Wanted(r)|) else 0.0
    {
      FoldKeepsSample(src, image, win, r, x);
    }
    if r.n0 == r.n1 && NearOne(r.w[0]) {
      assert Wanted(r) == [r.n0];
      OneLine(src, r.n0);
      forall x | 0 <= x < src.width ensures |src.Held(r.n0)| == src.width && b[x] == r.w[0] * src.Held(r.n0)[x] {
        assert Mix(src, Wanted(r), Plain(r), x, 0) == 0.0;
        assert Mix(src, Wanted(r), Plain(r), x, 1) == 0.0 + Plain(r)[0] * src.Held(Wanted(r)[0])[x];
      }
    } else if r.n0 <= r.n1 {
      assert Mixed(src, Wanted(r), Plain(r)) == b;
    }
  }
}
