/** stbir__get_split_info and stbir__get_max_split (external/stb/stb_image_resize2.h): how the output rows
    are divided among threads. */
module ResizeSplits {
  import opened Bits

  /** The range of inputs an output depends on. */
  datatype Contributors = Contributors(n0: int, n1: int)

  /** The rows one thread makes, and the input rows it may look at. */
  datatype Split = Split(startOutput: int, endOutput: int, startInput: int, endInput: int)

  function CeilDiv(n: nat, k: nat): (c: nat)
    requires k > 0
  {
    DivNat(n + k - 1, k);
    (n + k - 1) / k
  }

  /** n = q * k + r. */
  lemma CeilIs(n: nat, k: nat, q: nat, r: nat)
    requires k > 0 && r < k && n == q * k + r
    ensures n / k == q && CeilDiv(n, k) == if r == 0 then q else q + 1
  {
    DivMod(n, k, q, r);
    if r == 0 {
      DivMod(n + k - 1, k, q, k - 1);
    } else {
      MulAdd(q, 1, k);
      DivMod(n + k - 1, k, q + 1, r - 1);
    }
  }

  /** Handing out n / k rows leaves the same number for the largest of the rest. */
  lemma CeilKept(n: nat, k: nat)
    requires k >= 2
    ensures 0 <= n / k <= n && CeilDiv(n - n / k, k - 1) == CeilDiv(n, k) && n / k <= CeilDiv(n, k)
  {
    var q, r := n / k, n % k;
    DivModDef(n, k);
    DivNat(n, k);
    MulMono(1, k, q);
    assert k * q == q * k;
    CeilIs(n, k, q, r);
    MulSub(k, 1, q);
    assert (k - 1) * q == q * (k - 1);
    if r == k - 1 {
      MulAdd(q, 1, k - 1);
      CeilIs(n - q, k - 1, q + 1, 0);
    } else {
      CeilIs(n - q, k - 1, q, r);
    }
  }

  lemma CeilOne(n: nat)
    ensures CeilDiv(n, 1) == n / 1 == n
  {
  }

  /** stbir__get_max_split is height / splits rounded up. */
  method GetMaxSplit(splits: nat, height: nat) returns (max: nat)
    requires splits > 0
    ensures max == CeilDiv(height, splits)
  {
    max := 0;
    var i, left := 0, height;
    while i < splits
      invariant 0 <= i <= splits && 0 <= left && 0 <= max <= CeilDiv(height, splits)
      invariant if i < splits then CeilDiv(left, splits - i) == CeilDiv(height, splits) else max == CeilDiv(height, splits)
    {
      if splits - i >= 2 {
        CeilKept(left, splits - i);
      } else {
        CeilOne(left);
      }
      var each := left / (splits - i);
      if each > max {
        max := each;
      }
      left := left - each;
      i := i + 1;
    }
  }

  // ---------------------------------------------------------------- the ranges

  /** Where split i starts before any adjustment, of height rows in splits parts: the first i parts are
      handed out one by one. */
  function Boundary(height: nat, splits: nat, i: nat): (b: nat)
    requires i <= splits
    ensures b <= height
    decreases i
  {
    if i == 0 then 0
    else
      var b := Boundary(height, splits, i - 1);
      DivNat(height - b, splits - (i - 1));
      EachFits(height - b, splits - (i - 1));
      b + (height - b) / (splits - (i - 1))
  }

  lemma EachFits(n: nat, k: nat)
    requires k > 0
    ensures 0 <= n / k <= n
  {
    DivModDef(n, k);
    DivNat(n, k);
    MulMono(1, k, n / k);
    assert k * (n / k) == (n / k) * k;
  }

  /** The size of split i. */
  function Each(height: nat, splits: nat, i: nat): nat
    requires i < splits
  {
    EachFits(height - Boundary(height, splits, i), splits - i);
    (height - Boundary(height, splits, i)) / (splits - i)
  }

  lemma {:induction false} BoundaryCeil(height: nat, splits: nat, i: nat)
    requires i < splits
    ensures CeilDiv(height - Boundary(height, splits, i), splits - i) == CeilDiv(height, splits)
    ensures Each(height, splits, i) <= CeilDiv(height, splits)
    decreases i
  {
    hide CeilDiv;
    if i == 0 {
    } else {
      BoundaryCeil(height, splits, i - 1);
      CeilKept(height - Boundary(height, splits, i - 1), splits - (i - 1));
    }
    var n, k := height - Boundary(height, splits, i), splits - i;
    if k >= 2 {
      CeilKept(n, k);
    } else {
      CeilOne(n);
    }
  }

  /** With q whole rows for each split and r over, the last r splits get one row more. */
  lemma {:induction false} BoundaryIs(height: nat, splits: nat, q: nat, r: nat, i: nat)
    requires height == q * splits + r && r < splits && i <= splits
    ensures Boundary(height, splits, i) == q * i + if i > splits - r then i - (splits - r) else 0
    decreases i
  {
    if i == 0 {
    } else {
      BoundaryIs(height, splits, q, r, i - 1);
      var k, over := splits - (i - 1), if i - 1 > splits - r then i - 1 - (splits - r) else 0;
      assert q * splits == q * (i - 1) + q * k;
      if r - over < k {
        DivMod(q * k + (r - over), k, q, r - over);
      } else {
        assert (q + 1) * k == q * k + k;
        DivMod(q * k + (r - over), k, q + 1, 0);
      }
    }
  }

  /** All rows are handed out. */
  lemma BoundaryEnd(height: nat, splits: nat)
    requires splits > 0
    ensures Boundary(height, splits, splits) == height
  {
    assert splits - (splits - 1) == 1;
  }

  /** b lists all boundaries. */
  ghost predicate AreBoundaries(b: seq<nat>, height: nat, splits: nat)
  {
    |b| == splits + 1 && forall j | 0 <= j <= splits :: b[j] == Boundary(height, splits, j)
  }

  ghost predicate Rising(b: seq<nat>)
  {
    forall i, j | 0 <= i <= j < |b| :: b[i] <= b[j]
  }

  lemma {:induction false} BoundaryMono(height: nat, splits: nat, i: nat, j: nat)
    requires i <= j <= splits
    ensures Boundary(height, splits, i) <= Boundary(height, splits, j)
    decreases j
  {
    if i >= j {
    } else {
      BoundaryMono(height, splits, i, j - 1);
      BoundaryNext(height, splits, j - 1);
    }
  }

  /** The boundaries rise from 0 to the height. */
  lemma MakeBoundaries(height: nat, splits: nat) returns (b: seq<nat>)
    requires splits > 0
    ensures AreBoundaries(b, height, splits) && Rising(b) && b[0] == 0 && b[splits] == height
  {
    b := seq(splits + 1, j requires 0 <= j <= splits => Boundary(height, splits, j));
    BoundaryEnd(height, splits);
    forall i, j | 0 <= i <= j < |b| ensures b[i] <= b[j] {
      BoundaryMono(height, splits, i, j);
    }
  }

  /** By the size of a split, which is at most the largest. */
  lemma BoundaryStep(b: seq<nat>, height: nat, splits: nat, i: nat)
    requires AreBoundaries(b, height, splits) && i < splits
    ensures b[i] <= height && 0 <= (height - b[i]) / (splits - i) <= height - b[i]
    ensures b[i + 1] == b[i] + (height - b[i]) / (splits - i) <= b[i] + CeilDiv(height, splits)
  {
    BoundaryNext(height, splits, i);
    BoundaryCeil(height, splits, i);
    EachFits(height - b[i], splits - i);
  }

  lemma BoundaryNext(height: nat, splits: nat, i: nat)
    requires i < splits
    ensures Boundary(height, splits, i + 1) == Boundary(height, splits, i) + Each(height, splits, i) <= height
  {
  }

  /** The first i splits, each from its boundary moved by shift[i] to the next one moved likewise. */
  ghost predicate Ranges(splits: seq<Split>, b: seq<nat>, shift: seq<nat>, i: nat, margin: int, inputHeight: int)
  {
    && i <= |splits| == |shift| && |b| == |splits| + 1
    && forall j | 0 <= j < i ::
         && splits[j].startOutput == b[j] + shift[j]
         && splits[j].endOutput == b[j + 1] + (if j + 1 < i then shift[j + 1] else 0)
         && splits[j].startInput == -margin && splits[j].endInput == inputHeight + margin
         && b[j] + shift[j] <= b[j + 1]
  }

  /** Ordered, contiguous ranges from 0 to height. */
  ghost predicate Tile(splits: seq<Split>, height: nat)
  {
    && |splits| > 0 && splits[0].startOutput == 0 && splits[|splits| - 1].endOutput == height
    && (forall j | 0 <= j < |splits| :: 0 <= splits[j].startOutput <= splits[j].endOutput <= height)
    && (forall j | 0 <= j < |splits| - 1 :: splits[j].endOutput == splits[j + 1].startOutput)
  }

  lemma RangesTile(splits: seq<Split>, b: seq<nat>, height: nat, shift: seq<nat>, margin: int, inputHeight: int)
    requires |splits| > 0 && Ranges(splits, b, shift, |splits|, margin, inputHeight) && shift[0] == 0
    requires b[0] == 0 && b[|splits|] == height && Rising(b)
    ensures Tile(splits, height)
  {
    forall j | 0 <= j < |splits| ensures 0 <= splits[j].startOutput <= splits[j].endOutput <= height {
      assert b[j] + shift[j] <= b[j + 1] <= b[|splits|];
      if j + 1 < |splits| {
        assert splits[j + 1].startOutput == b[j + 1] + shift[j + 1];
        assert b[j + 2] <= b[|splits|];
      }
    }
  }

  /** The splits after split i is set and its start moved. */
  function After(before: seq<Split>, i: nat, cur: int, each: int, moved: int, margin: int, inputHeight: int): seq<Split>
    requires i < |before|
  {
    var moving := if i > 0 && moved != 0 then before[i - 1 := before[i - 1].(endOutput := before[i - 1].endOutput + moved)] else before;
    moving[i := Split(cur + moved, cur + each, -margin, inputHeight + margin)]
  }

  lemma AfterRanges(before: seq<Split>, b: seq<nat>, shift: seq<nat>, i: nat, margin: int, inputHeight: int, moved: nat)
    requires Ranges(before, b, shift, i, margin, inputHeight) && i < |before|
    requires b[i] + moved <= b[i + 1] && (i == 0 ==> moved == 0)
    ensures Ranges(After(before, i, b[i], b[i + 1] - b[i], moved, margin, inputHeight), b, shift[i := moved], i + 1, margin, inputHeight)
  {
  }

  // ---------------------------------------------------------------- starting on the smallest window

  /** How many windows are scanned at most: three times the margin, or up to the next split. */
  function Stop(each: nat, margin: nat): (n: nat)
    ensures n <= each && n <= margin * 3 && (n == each || n == margin * 3)
  {
    if each < margin * 3 then each else margin * 3
  }

  /** low is the first of the windows that reach furthest back, among those from cur to last: up to stop
      further ones, ending before one that starts later than the first. */
  ghost predicate StartsLowest(contribs: seq<Contributors>, cur: nat, stop: nat, low: nat, last: nat)
  {
    && cur <= low <= last <= cur + stop < |contribs|
    && (forall j | cur <= j <= last :: contribs[low].n0 <= contribs[j].n0 <= contribs[cur].n0)
    && (forall j | cur <= j < low :: contribs[low].n0 < contribs[j].n0)
    && (last < cur + stop ==> contribs[last + 1].n0 > contribs[cur].n0)
  }

  ghost predicate LowestFrom(contribs: seq<Contributors>, cur: nat, stop: nat, low: nat)
  {
    exists last :: StartsLowest(contribs, cur, stop, low, last)
  }

  /** Lines 6777-6802; seen is the last window looked at. */
  method ScanStart(contribs: seq<Contributors>, cur: nat, each: nat, margin: nat)
    returns (smallest: nat, ghost last: nat, ghost seen: nat)
    requires cur + each < |contribs|
    ensures smallest <= each && StartsLowest(contribs, cur, Stop(each, margin), cur + smallest, last)
    ensures seen == if last < cur + Stop(each, margin) then last + 1 else last
  {
    var stop := margin * 3;
    if each < stop {
      stop := each;
    }
    smallest := 0;
    last, seen := cur, cur;
    var startN0, j := contribs[cur].n0, 1;
    while j <= stop
      invariant 1 <= j <= stop + 1 && last == cur + j - 1 && cur + smallest <= last && seen == last
      invariant forall i | cur <= i <= last :: contribs[cur + smallest].n0 <= contribs[i].n0 <= startN0
      invariant forall i | cur <= i < cur + smallest :: contribs[cur + smallest].n0 < contribs[i].n0
    {
      seen := cur + j;
      if contribs[cur + j].n0 > startN0 {
        break;
      }
      if contribs[cur + j].n0 < contribs[cur + smallest].n0 {
        smallest := j;
      }
      last := cur + j;
      j := j + 1;
    }
  }

  /** What the start of split i is moved by: to the lowest of the windows up to some last one. */
  ghost predicate Shifted(contribs: seq<Contributors>, b: seq<nat>, margin: nat, isGather: bool, i: nat, shift: nat)
    requires i + 1 < |b| && b[i] <= b[i + 1]
  {
    if !isGather || i == 0 then shift == 0 else LowestFrom(contribs, b[i], Stop(b[i + 1] - b[i], margin), b[i] + shift)
  }

  /** Windows that start earlier than one before them come soon, and before any that starts later. */
  ghost predicate Settling(contribs: seq<Contributors>, margin: nat)
  {
    && (forall a, k, y | 0 <= a < k < y < |contribs| && contribs[k].n0 > contribs[a].n0 :: contribs[a].n0 <= contribs[y].n0)
    && (forall a, y | 0 <= a && a + margin * 3 < y < |contribs| :: contribs[a].n0 <= contribs[y].n0)
  }

  /** What the scan is for: no later row needs a line before the first one of the split, which the ring would not
      have.  The contributors may be followed by anything; a split shorter than three margins is scanned only up to
      the next one, so rows moved over from there are not covered. */
  lemma SplitStartsLowest(contribs: seq<Contributors>, rest: seq<Contributors>, b: seq<nat>, margin: nat, i: nat, shift: nat, y: nat)
    requires Settling(contribs, margin) && 0 < i && i + 1 < |b| && b[i] <= b[i + 1]
    requires Shifted(contribs + rest, b, margin, true, i, shift) && b[i] + shift <= y < |contribs|
    requires y <= b[i + 1] || b[i] + margin * 3 <= b[i + 1]
    ensures contribs[b[i] + shift].n0 <= contribs[y].n0
  {
    var stop := Stop(b[i + 1] - b[i], margin);
    var all := contribs + rest;
    var last: nat :| StartsLowest(all, b[i], stop, b[i] + shift, last);
    assert forall k | 0 <= k < |contribs| :: all[k] == contribs[k];
    if y > last && last < b[i] + stop {
      assert all[last + 1].n0 > all[b[i]].n0;
    }
  }

  /** The rows that the next scan moves over to a split never rise, as it stops on a row that starts before all of them:
      the last one starts lowest. */
  lemma MovedRowsFall(contribs: seq<Contributors>, rest: seq<Contributors>, b: seq<nat>, margin: nat, i: nat, shift: nat, y: nat)
    requires Settling(contribs, margin) && 0 < i && i + 1 < |b| && b[i] <= b[i + 1]
    requires Shifted(contribs + rest, b, margin, true, i, shift) && b[i] <= y < b[i] + shift < |contribs|
    ensures contribs[b[i] + shift - 1].n0 <= contribs[y].n0
  {
    var all := contribs + rest;
    var last: nat :| StartsLowest(all, b[i], Stop(b[i + 1] - b[i], margin), b[i] + shift, last);
    assert all[b[i] + shift] == contribs[b[i] + shift] && all[y] == contribs[y];
  }

  /** So, with windows that settle, one comparison decides whether no row of a split starts before its first: that of its
      first row with its last.  The next split must keep a row, that is, its scan must not have ended beyond the
      contributors. */
  lemma SplitLowestExact(contribs: seq<Contributors>, rest: seq<Contributors>, b: seq<nat>, margin: nat, i: nat, shift: nat, next: nat)
    requires Settling(contribs, margin) && 0 < i && i + 2 < |b| && b[i] <= b[i + 1] <= b[i + 2]
    requires Shifted(contribs + rest, b, margin, true, i, shift) && Shifted(contribs + rest, b, margin, true, i + 1, next)
    requires b[i] + shift < b[i + 1] + next < |contribs|
    ensures var first, end := b[i] + shift, b[i + 1] + next;
      (forall y | first <= y < end :: contribs[first].n0 <= contribs[y].n0) <==> contribs[first].n0 <= contribs[end - 1].n0
  {
    hide Settling, Shifted;
    var first, end := b[i] + shift, b[i + 1] + next;
    if contribs[first].n0 <= contribs[end - 1].n0 {
      forall y | first <= y < end ensures contribs[first].n0 <= contribs[y].n0 {
        if y <= b[i + 1] {
          SplitStartsLowest(contribs, rest, b, margin, i, shift, y);
        } else {
          MovedRowsFall(contribs, rest, b, margin, i + 1, next, y);
        }
      }
    }
  }

  /** The row before the first rise from lo on, or the last one before hi. */
  function Turn(contribs: seq<Contributors>, lo: nat, hi: nat): (t: nat)
    requires lo < hi <= |contribs|
    ensures lo <= t < hi
    decreases hi - lo
  {
    if lo + 1 < hi && contribs[lo + 1].n0 <= contribs[lo].n0 then Turn(contribs, lo + 1, hi) else lo
  }

  /** Windows that settle start lowest before their first rise, which decides for splits that are not scanned, too. */
  lemma {:induction false} TurnLowest(contribs: seq<Contributors>, margin: nat, lo: nat, hi: nat, y: nat)
    requires Settling(contribs, margin) && lo <= y < hi <= |contribs|
    ensures contribs[Turn(contribs, lo, hi)].n0 <= contribs[y].n0
    decreases hi - lo
  {
    if lo + 1 < hi && contribs[lo + 1].n0 <= contribs[lo].n0 {
      TurnLowest(contribs, margin, lo + 1, hi, if y == lo then lo + 1 else y);
    } else {
    }
  }

  /** Such a moved row can start lower.  Seven rows in four splits with a margin of 2: the second split is scanned up
      to the start of the third, which moves by two rows, and the second of these needs a line before all lines of
      the split it comes to. */
  lemma MovedRowLower(height: nat, splits: nat, contribs: seq<Contributors>, rest: seq<Contributors>, b: seq<nat>)
    requires height == 7 && splits == 4 && b == [0, 1, 3, 5, 7]
    requires contribs == seq(7, j => Contributors(if j <= 3 then 9 else if j == 4 then 8 else 7, 9))
    ensures AreBoundaries(b, height, splits) && Settling(contribs, 2)
    ensures Shifted(contribs + rest, b, 2, true, 1, 0) && Shifted(contribs + rest, b, 2, true, 2, 2)
    ensures b[1] + 0 < 4 == b[2] + 2 - 1 && contribs[4].n0 < contribs[b[1] + 0].n0
  {
    SevenInFour(height, splits, b);
    FallingSettles(contribs, 2);
    assert Stop(2, 2) == 2;
    assert StartsLowest(contribs + rest, 1, 2, 1, 3);
    assert StartsLowest(contribs + rest, 3, 2, 5, 5);
  }

  /** If the next split is emptied, the last row does not decide.  Eight rows in three splits with a margin of 2 and a low
      value beyond them: the second split gets all the others, and the lowest is not its last. */
  lemma EmptiedNextHides(height: nat, splits: nat, contribs: seq<Contributors>, beyond: Contributors, b: seq<nat>)
    requires height == 8 && splits == 3 && b == [0, 2, 5, 8] && beyond.n0 < 7
    requires |contribs| == 8 && forall j | 0 <= j < 8 :: contribs[j].n0 == if j == 6 then 7 else 8
    ensures contribs[6].n0 < contribs[2].n0 <= contribs[7].n0
    ensures Shifted(contribs + [beyond], b, 2, true, 1, 0) && Shifted(contribs + [beyond], b, 2, true, 2, 3)
    ensures Settling(contribs, 2) && AreBoundaries(b, height, splits)
  {
    hide AreBoundaries, Settling;
    EightInThree(height, splits, b);
    DipSettles(contribs, 2);
    assert b[1] == 2 && b[2] == 5 && b[3] == 8 && Stop(3, 2) == 3;
    var all := contribs + [beyond];
    assert all[8] == beyond && forall j | 0 <= j < 8 :: all[j] == contribs[j];
    assert StartsLowest(all, 2, 3, 2, 5);
    assert StartsLowest(all, 5, 3, 8, 8);
  }

  /** Starts that are level but for the last row but one, in no more rows than three margins and two. */
  lemma DipSettles(contribs: seq<Contributors>, margin: nat)
    requires 2 <= |contribs| <= margin * 3 + 2
    requires forall j | 0 <= j < |contribs| :: contribs[j].n0 == if j == |contribs| - 2 then 7 else 8
    ensures Settling(contribs, margin)
  {
  }

  lemma EightInThree(height: nat, splits: nat, b: seq<nat>)
    requires height == 8 && splits == 3 && b == [0, 2, 5, 8]
    ensures AreBoundaries(b, height, splits)
  {
    hide Boundary;
    BoundaryZero(height, splits);
    BoundaryNext(height, splits, 0);
    BoundaryNext(height, splits, 1);
    BoundaryNext(height, splits, 2);
  }

  /** Starts that never rise, in no more rows than three margins and one. */
  lemma FallingSettles(contribs: seq<Contributors>, margin: nat)
    requires |contribs| <= margin * 3 + 1 && forall i, j | 0 <= i <= j < |contribs| :: contribs[i].n0 >= contribs[j].n0
    ensures Settling(contribs, margin)
  {
  }

  lemma SevenInFour(height: nat, splits: nat, b: seq<nat>)
    requires height == 7 && splits == 4 && b == [0, 1, 3, 5, 7]
    ensures AreBoundaries(b, height, splits)
  {
    hide Boundary;
    BoundaryZero(height, splits);
    BoundaryNext(height, splits, 0);
    BoundaryNext(height, splits, 1);
    BoundaryNext(height, splits, 2);
    BoundaryNext(height, splits, 3);
  }

  lemma BoundaryZero(height: nat, splits: nat)
    ensures Boundary(height, splits, 0) == 0
  {
  }

  /** The loop's variables. */
  datatype SplitLoop = SplitLoop(i: nat, info: seq<Split>, shift: seq<nat>)

  ghost predicate Handing(contribs: seq<Contributors>, b: seq<nat>, margin: nat, inputHeight: int, isGather: bool, s: SplitLoop)
  {
    match s
    case SplitLoop(i, info, shift) =>
      && Rising(b) && Ranges(info, b, shift, i, margin, inputHeight)
      && forall j | 0 <= j < i :: Shifted(contribs, b, margin, isGather, j, shift[j])
  }

  lemma HandingOn(contribs: seq<Contributors>, b: seq<nat>, margin: nat, inputHeight: int, isGather: bool, s: SplitLoop,
                  info: seq<Split>, moved: nat)
    requires Handing(contribs, b, margin, inputHeight, isGather, s) && s.i + 1 < |b| == |s.info| + 1
    requires b[s.i] + moved <= b[s.i + 1] && Shifted(contribs, b, margin, isGather, s.i, moved)
    requires info == After(s.info, s.i, b[s.i], b[s.i + 1] - b[s.i], moved, margin, inputHeight)
    ensures Handing(contribs, b, margin, inputHeight, isGather, SplitLoop(s.i + 1, info, s.shift[s.i := moved]))
  {
    AfterRanges(s.info, b, s.shift, s.i, margin, inputHeight, moved);
  }

  lemma HandingEnds(contribs: seq<Contributors>, height: nat, splits: nat, b: seq<nat>, margin: nat, inputHeight: int,
                    isGather: bool, s: SplitLoop)
    requires splits > 0 && Handing(contribs, b, margin, inputHeight, isGather, s) && s.i == splits
    requires AreBoundaries(b, height, splits) && b[0] == 0 && b[splits] == height
    ensures |s.info| == |s.shift| == splits && Tile(s.info, height)
    ensures forall i | 0 <= i < splits :: s.info[i].startInput == -(margin as int) && s.info[i].endInput == inputHeight + margin
    ensures !isGather ==> forall i | 0 <= i < splits :: s.info[i].endOutput - s.info[i].startOutput <= CeilDiv(height, splits)
  {
    assert Shifted(contribs, b, margin, isGather, 0, s.shift[0]);
    RangesTile(s.info, b, height, s.shift, margin, inputHeight);
    if !isGather {
      forall i | 0 <= i < splits ensures s.info[i].endOutput - s.info[i].startOutput <= CeilDiv(height, splits) {
        BoundaryStep(b, height, splits, i);
        assert Shifted(contribs, b, margin, isGather, i, s.shift[i]);
        if i + 1 < splits {
          assert Shifted(contribs, b, margin, isGather, i + 1, s.shift[i + 1]);
        }
      }
    }
  }

  // ---------------------------------------------------------------- reading past the last row

  /** The scan of the last split looks at the contributor after the last row: there is more than one split, the last one
      is no longer than three margins, and none of its rows starts after its first. */
  ghost predicate LooksPast(contribs: seq<Contributors>, height: nat, splits: nat, margin: nat)
    requires splits > 0 && height <= |contribs|
  {
    var cur := Boundary(height, splits, splits - 1);
    && splits > 1 && height - cur <= margin * 3
    && forall j | cur < j < height :: contribs[j].n0 <= contribs[cur].n0
  }

  /** Only the last split reaches the height. */
  lemma {:induction false} BoundaryBelow(height: nat, splits: nat, i: nat)
    requires i < splits && height > 0
    ensures Boundary(height, splits, i) < height
    decreases i
  {
    if i == 0 {
    } else {
      BoundaryBelow(height, splits, i - 1);
      SharesLeave(height - Boundary(height, splits, i - 1), splits - (i - 1));
    }
  }

  lemma SharesLeave(n: nat, k: nat)
    requires n > 0 && k >= 2
    ensures n / k < n
  {
    DivModDef(n, k);
    DivNat(n, k);
    MulMono(2, k, n / k);
    assert k * (n / k) == (n / k) * k;
  }

  /** How far the scans of the first i splits have looked. */
  ghost predicate Looked(contribs: seq<Contributors>, height: nat, splits: nat, margin: nat, isGather: bool, i: nat, most: int)
    requires splits > 0 && i <= splits && (isGather ==> height <= |contribs|)
  {
    most <= height && (most == height <==> isGather && i > 1 && (height == 0 || i == splits) && LooksPast(contribs, height, splits, margin))
  }

  /** The scan of split i, of a list that goes on with anything after the contributors. */
  lemma LookedOn(contribs: seq<Contributors>, rest: seq<Contributors>, height: nat, splits: nat, margin: nat, b: seq<nat>, i: nat, most: int,
                 low: nat, last: nat, seen: nat)
    requires height <= |contribs| && AreBoundaries(b, height, splits) && Rising(b) && 0 < i < splits && b[splits] == height
    requires Looked(contribs, height, splits, margin, true, i, most)
    requires var stop := Stop(b[i + 1] - b[i], margin);
      StartsLowest(contribs + rest, b[i], stop, low, last) && seen == if last < b[i] + stop then last + 1 else last
    ensures Looked(contribs, height, splits, margin, true, i + 1, if seen > most then seen else most)
  {
    var all := contribs + rest;
    assert forall k | 0 <= k < |contribs| :: all[k] == contribs[k];
    assert b[i + 1] <= b[splits];
    if height == 0 {
      assert b[i] <= b[i + 1];
    } else if i + 1 < splits {
      BoundaryBelow(height, splits, i + 1);
    } else {
      BoundaryBelow(height, splits, i);
      LastScan(contribs, rest, height, splits, margin, b[i], low, last, seen);
    }
  }

  lemma LastScan(contribs: seq<Contributors>, rest: seq<Contributors>, height: nat, splits: nat, margin: nat, cur: nat, low: nat, last: nat,
                 seen: nat)
    requires splits > 1 && cur == Boundary(height, splits, splits - 1) < height <= |contribs|
    requires var stop := Stop(height - cur, margin);
      StartsLowest(contribs + rest, cur, stop, low, last) && seen == if last < cur + stop then last + 1 else last
    ensures seen <= height && (seen == height <==> LooksPast(contribs, height, splits, margin))
  {
    var all := contribs + rest;
    assert forall k | 0 <= k < |contribs| :: all[k] == contribs[k];
  }

  /** Two rows in two splits are enough, whatever their windows. */
  lemma LooksPastExample(height: nat, contribs: seq<Contributors>, margin: nat)
    requires height == 2 == |contribs| && margin > 0
    ensures LooksPast(contribs, height, 2, margin)
  {
    hide Boundary;
    BoundaryZero(height, 2);
    BoundaryNext(height, 2, 0);
  }

  /** What stands there can matter: if it is lower than every start of the last split, that split is left without rows. */
  lemma BeyondMatters(contribs: seq<Contributors>, beyond: Contributors, splits: nat, margin: nat, b: seq<nat>, shift: nat)
    requires splits > 0 && AreBoundaries(b, |contribs|, splits) && LooksPast(contribs, |contribs|, splits, margin)
    requires b[splits - 1] <= b[splits] == |contribs|
    requires Shifted(contribs + [beyond], b, margin, true, splits - 1, shift)
    requires forall j | b[splits - 1] <= j < |contribs| :: beyond.n0 < contribs[j].n0
    ensures b[splits - 1] + shift == |contribs|
  {
    var cur, all := b[splits - 1], contribs + [beyond];
    var last: nat :| StartsLowest(all, cur, Stop(b[splits] - cur, margin), cur + shift, last);
    assert forall k | 0 <= k < |contribs| :: all[k] == contribs[k];
    assert all[|contribs|] == beyond;
  }

  /** stbir__get_split_info: the ranges tile the output, a scattering one is no larger than stbir__get_max_split, and a
      gathering one after the first starts on the window of its scan that reaches furthest back.  The scans look at one
      contributor after the last row exactly if LooksPast says so; beyond is what stands there, and the ranges tile the
      output whatever it is. */
  method GetSplitInfo(info: array<Split>, height: nat, margin: nat, inputHeight: int, isGather: bool, contribs: seq<Contributors>,
                      beyond: Contributors)
    returns (ghost b: seq<nat>, ghost shift: seq<nat>, ghost most: int)
    requires info.Length > 0 && (isGather ==> height <= |contribs|)
    modifies info
    ensures Tile(info[..], height)
    ensures forall i | 0 <= i < info.Length :: info[i].startInput == -(margin as int) && info[i].endInput == inputHeight + margin
    ensures !isGather ==> forall i | 0 <= i < info.Length ::
              info[..][i].endOutput - info[..][i].startOutput <= CeilDiv(height, info.Length)
    ensures AreBoundaries(b, height, info.Length) && Rising(b)
    ensures Handing(contribs + [beyond], b, margin, inputHeight, isGather, SplitLoop(info.Length, info[..], shift))
    ensures most <= height && (most == height <==> isGather && LooksPast(contribs, height, info.Length, margin))
  {
    b := MakeBoundaries(height, info.Length);
    shift, most := HandOut(info, height, margin, inputHeight, isGather, contribs, beyond, b);
    HandingEnds(contribs + [beyond], height, info.Length, b, margin, inputHeight, isGather, SplitLoop(info.Length, info[..], shift));
  }

  /** The loop over splits. */
  method HandOut(info: array<Split>, height: nat, margin: nat, inputHeight: int, isGather: bool, contribs: seq<Contributors>,
                 beyond: Contributors, ghost b: seq<nat>) returns (ghost shift: seq<nat>, ghost most: int)
    requires info.Length > 0 && (isGather ==> height <= |contribs|)
    requires AreBoundaries(b, height, info.Length) && Rising(b) && b[0] == 0 && b[info.Length] == height
    modifies info
    ensures Handing(contribs + [beyond], b, margin, inputHeight, isGather, SplitLoop(info.Length, info[..], shift))
    ensures Looked(contribs, height, info.Length, margin, isGather, info.Length, most)
  {
    hide Rising, Shifted, After;
    var splits := info.Length;
    shift, most := seq(splits, i => 0), -1;
    var i, cur, left := 0, 0, height;
    while i < splits
      invariant 0 <= i <= splits && |shift| == splits && cur == b[i] && left == height - cur
      invariant Handing(contribs + [beyond], b, margin, inputHeight, isGather, SplitLoop(i, info[..], shift))
      invariant Looked(contribs, height, splits, margin, isGather, i, most)
    {
      ghost var s := SplitLoop(i, info[..], shift);
      var each := Portion(b, height, splits, i, left);
      ghost var moved, now := SetSplit(info, margin, inputHeight, isGather, contribs, beyond, i, cur, each, b, height, most);
      HandingOn(contribs + [beyond], b, margin, inputHeight, isGather, s, info[..], moved);
      shift, most := shift[i := moved], now;
      cur := cur + each;
      left := left - each;
      i := i + 1;
    }
  }

  /** An equal share of what is left. */
  method Portion(ghost b: seq<nat>, ghost height: nat, splits: nat, i: nat, left: nat) returns (each: nat)
    requires AreBoundaries(b, height, splits) && i < splits && b[i] + left == height
    ensures b[i] + each == b[i + 1] && each <= left
  {
    BoundaryStep(b, height, splits, i);
    each := left / (splits - i);
  }

  /** One pass of the loop: split i, and the end of the one before. */
  method SetSplit(info: array<Split>, margin: nat, inputHeight: int, isGather: bool, contribs: seq<Contributors>, beyond: Contributors,
                  i: nat, cur: nat, each: nat, ghost b: seq<nat>, ghost height: nat, ghost most: int)
    returns (ghost moved: nat, ghost now: int)
    requires i < info.Length && AreBoundaries(b, height, info.Length) && Rising(b) && b[info.Length] == height
    requires cur == b[i] && cur + each == b[i + 1] && (isGather ==> height <= |contribs|)
    requires Looked(contribs, height, info.Length, margin, isGather, i, most)
    modifies info
    ensures moved <= each && Shifted(contribs + [beyond], b, margin, isGather, i, moved)
    ensures info[..] == After(old(info[..]), i, cur, each, moved, margin, inputHeight)
    ensures Looked(contribs, height, info.Length, margin, isGather, i + 1, now)
  {
    hide Rising, StartsLowest, Stop;
    info[i] := Split(cur, cur + each, -(margin as int), inputHeight + margin);
    moved, now := 0, most;
    if isGather && i != 0 {
      assert b[i + 1] <= b[info.Length];
      var smallest; ghost var last, seen;
      smallest, last, seen := ScanStart(contribs + [beyond], cur, each, margin);
      moved := smallest;
      LookedOn(contribs, [beyond], height, info.Length, margin, b, i, most, cur + smallest, last, seen);
      now := if seen > most then seen else most;
      info[i - 1] := info[i - 1].(endOutput := info[i - 1].endOutput + smallest);
      info[i] := info[i].(startOutput := info[i].startOutput + smallest);
    }
  }
}
