/** The splits of stbir__get_split_info and the ring of stbir__vertical_gather_loop together: when the rows of a
    split keep ahead, so that its thread gets all of them right. */
module ResizeThreads {
  import opened ResizeWindows
  import opened ResizeSplits
  import Ring = ResizeRing

  /** The ranges of the rows. */
  function Ranged(rows: seq<Window>): (c: seq<Contributors>)
    ensures |c| == |rows| && forall y | 0 <= y < |rows| :: c[y] == Contributors(rows[y].n0, rows[y].n1)
  {
    seq(|rows|, y requires 0 <= y < |rows| => Contributors(rows[y].n0, rows[y].n1))
  }

  /** Every row has something to sum, and the ring has room for the widest. */
  predicate Narrow(rows: seq<Window>, N: int)
  {
    forall y | 0 <= y < |rows| :: rows[y].n0 <= rows[y].n1 < rows[y].n0 + N
  }

  /** A row that starts before an earlier one does not end before it. */
  predicate Reaching(rows: seq<Window>)
  {
    forall a, y | 0 <= a < y < |rows| && rows[y].n0 < rows[a].n0 :: rows[a].n1 <= rows[y].n1
  }

  /** No row starts before the first. */
  predicate FirstLowest(rows: seq<Window>)
  {
    forall y | 0 <= y < |rows| :: rows[0].n0 <= rows[y].n0
  }

  /** Rows that start earlier than ones before them are still within the ring. */
  predicate Within(rows: seq<Window>, N: int)
  {
    forall a, y | 0 <= a < y < |rows| :: rows[a].n1 < rows[y].n0 + N
  }

  lemma {:induction false} TopIs(rows: seq<Window>, y: nat, bound: int)
    requires 0 < |rows| && y <= |rows|
    ensures Ring.Top(rows, y) < bound <==> rows[0].n0 - 1 < bound && forall a | 0 <= a < y :: rows[a].n1 < bound
    decreases y
  {
    if y == 0 {
    } else {
      TopIs(rows, y - 1, bound);
    }
  }

  /** The assertions on a row hold exactly if it is not empty, does not start before the first row, and no row before it
      ends a ring's length past its start. */
  lemma AssertedIs(rows: seq<Window>, N: int, y: nat)
    requires N > 0 && y < |rows|
    ensures Ring.Asserted(rows, N, y) <==> rows[y].n0 <= rows[y].n1 && rows[0].n0 <= rows[y].n0
                                           && forall a | 0 <= a < y :: rows[a].n1 < rows[y].n0 + N
  {
    TopIs(rows, y, rows[y].n0 + N);
  }

  /** Rows keep ahead exactly if none starts before the first and none ends a ring's length past a later start. */
  lemma AheadExact(rows: seq<Window>, N: int)
    requires N > 0 && Narrow(rows, N)
    ensures Ring.Ahead(rows, N) <==> FirstLowest(rows) && Within(rows, N)
  {
    if Ring.Ahead(rows, N) {
      forall a, y | 0 <= a < y < |rows| ensures rows[a].n1 < rows[y].n0 + N {
        assert Ring.AheadAt(rows, N, y);
        TopIs(rows, y + 1, rows[y].n0 + N);
      }
      forall y | 0 <= y < |rows| ensures rows[0].n0 <= rows[y].n0 {
        assert Ring.AheadAt(rows, N, y);
      }
    }
    if FirstLowest(rows) && Within(rows, N) {
      forall y | 0 <= y < |rows| ensures Ring.AheadAt(rows, N, y) {
        TopIs(rows, y + 1, rows[y].n0 + N);
      }
    }
  }

  /** A ring as wide as the widest window has room if rows that start earlier do not end earlier. */
  lemma ReachingWithin(rows: seq<Window>, N: int)
    requires Narrow(rows, N) && Reaching(rows)
    ensures Within(rows, N)
  {
  }

  /** It does not always have: a window of four lines, then one that starts and ends a line earlier. */
  lemma EarlierEndFails(rows: seq<Window>, w: seq<real>)
    requires rows == [Window(3, 6, w), Window(4, 7, w), Window(3, 6, w)]
    ensures Narrow(rows, 4) && Settling(Ranged(rows), 1) && FirstLowest(rows) && !Ring.Ahead(rows, 4)
  {
    assert rows[1].n1 >= rows[2].n0 + 4;
    AheadExact(rows, 4);
  }

  /** Split i of the ranges that GetSplitInfo makes. */
  ghost predicate IsSplit(rows: seq<Window>, rest: seq<Contributors>, b: seq<nat>, margin: nat, inputHeight: int, s: SplitLoop, i: nat)
  {
    && Handing(Ranged(rows) + rest, b, margin, inputHeight, true, s)
    && i < s.i == |s.info| && b[s.i] == |rows| && Tile(s.info, |rows|)
  }

  /** The rows of a split. */
  function RowsOf(rows: seq<Window>, split: ResizeSplits.Split): seq<Window>
    requires 0 <= split.startOutput <= split.endOutput <= |rows|
  {
    rows[split.startOutput..split.endOutput]
  }

  /** The scan of the next split has left it without rows: it ended beyond them all. */
  predicate NextEmptied(rows: seq<Window>, b: seq<nat>, s: SplitLoop, i: nat)
    requires i < |s.info| && i + 1 < |b|
  {
    i + 1 < s.i && b[i + 1] < s.info[i].endOutput == |rows|
  }

  /** With windows that settle, that reach, and that fit the ring, one comparison decides whether the rows of a split keep
      ahead, so that the gather loop gets all of them right: that of its first row with the one before the first rise, and
      for every scanned split whose next is not emptied, of its first row with its last. */
  lemma SplitAhead(rows: seq<Window>, rest: seq<Contributors>, N: int, b: seq<nat>, margin: nat, inputHeight: int, s: SplitLoop, i: nat)
    requires IsSplit(rows, rest, b, margin, inputHeight, s, i) && N > 0
    requires Settling(Ranged(rows), margin) && Narrow(rows, N) && Reaching(rows)
    ensures var start, end := s.info[i].startOutput, s.info[i].endOutput; var ahead := Ring.Ahead(RowsOf(rows, s.info[i]), N);
      && (start == end ==> ahead)
      && (start < end ==> (ahead <==> rows[start].n0 <= rows[Turn(Ranged(rows), start, end)].n0))
      && (start < end && i > 0 && !NextEmptied(rows, b, s, i) ==> (ahead <==> rows[start].n0 <= rows[end - 1].n0))
  {
    hide Settling, Handing, IsSplit, Narrow, Reaching, Within, FirstLowest, Ring.Ahead, Turn, NextEmptied;
    SplitRange(rows, rest, b, margin, inputHeight, s, i);
    var start, end := s.info[i].startOutput, s.info[i].endOutput;
    var part := RowsOf(rows, s.info[i]);
    PartFits(rows, N, start, end);
    ReachingWithin(part, N);
    AheadExact(part, N);
    LowestByTurn(rows, margin, start, end);
    if start < end && i > 0 && !NextEmptied(rows, b, s, i) {
      LowestByLast(rows, rest, b, margin, inputHeight, s, i);
    }
  }

  lemma PartFits(rows: seq<Window>, N: int, lo: nat, hi: nat)
    requires lo <= hi <= |rows| && Narrow(rows, N) && Reaching(rows)
    ensures Narrow(rows[lo..hi], N) && Reaching(rows[lo..hi])
  {
    var part := rows[lo..hi];
    assert forall y | 0 <= y < |part| :: part[y] == rows[lo + y];
  }

  lemma SplitRange(rows: seq<Window>, rest: seq<Contributors>, b: seq<nat>, margin: nat, inputHeight: int, s: SplitLoop, i: nat)
    requires IsSplit(rows, rest, b, margin, inputHeight, s, i)
    ensures i < s.i && |b| == s.i + 1 && |s.info| == |s.shift| == s.i && b[i] <= b[i + 1]
    ensures s.info[i].startOutput == b[i] + s.shift[i] <= s.info[i].endOutput <= |rows|
    ensures s.info[i].endOutput == b[i + 1] + if i + 1 < s.i then s.shift[i + 1] else 0
    ensures Shifted(Ranged(rows) + rest, b, margin, true, i, s.shift[i])
    ensures i + 1 < s.i ==> IsSplit(rows, rest, b, margin, inputHeight, s, i + 1)
  {
    hide LowestFrom, Ranged;
  }

  lemma LowestIs(rows: seq<Window>, start: nat, end: nat)
    requires start <= end <= |rows|
    ensures FirstLowest(rows[start..end]) <==> forall y | start <= y < end :: rows[start].n0 <= rows[y].n0
  {
    var part := rows[start..end];
    assert forall y | 0 <= y < |part| :: part[y] == rows[start + y];
    assert forall y | start <= y < end :: rows[y] == part[y - start];
  }

  lemma LowestByTurn(rows: seq<Window>, margin: nat, start: nat, end: nat)
    requires Settling(Ranged(rows), margin) && start <= end <= |rows|
    ensures FirstLowest(rows[start..end]) <==> (start < end ==> rows[start].n0 <= rows[Turn(Ranged(rows), start, end)].n0)
  {
    hide Settling, Turn, FirstLowest;
    LowestIs(rows, start, end);
    forall y | start <= y < end ensures rows[Turn(Ranged(rows), start, end)].n0 <= rows[y].n0 {
      TurnLowest(Ranged(rows), margin, start, end, y);
    }
  }

  lemma LowestByLast(rows: seq<Window>, rest: seq<Contributors>, b: seq<nat>, margin: nat, inputHeight: int, s: SplitLoop, i: nat)
    requires IsSplit(rows, rest, b, margin, inputHeight, s, i) && i > 0 && Settling(Ranged(rows), margin)
    requires |b| == s.i + 1 && 0 <= s.info[i].startOutput < s.info[i].endOutput <= |rows| && !NextEmptied(rows, b, s, i)
    ensures FirstLowest(RowsOf(rows, s.info[i])) <==> rows[s.info[i].startOutput].n0 <= rows[s.info[i].endOutput - 1].n0
  {
    hide IsSplit, Settling, Shifted, Handing, FirstLowest;
    SplitRange(rows, rest, b, margin, inputHeight, s, i);
    var start, end, c := s.info[i].startOutput, s.info[i].endOutput, Ranged(rows);
    LowestIs(rows, start, end);
    if end <= b[i + 1] {
      forall y | start <= y < end ensures c[start].n0 <= c[y].n0 {
        SplitStartsLowest(c, rest, b, margin, i, s.shift[i], y);
      }
    } else {
      SplitRange(rows, rest, b, margin, inputHeight, s, i + 1);
      SplitLowestExact(c, rest, b, margin, i, s.shift[i], s.shift[i + 1]);
    }
    assert (forall y | start <= y < end :: c[start].n0 <= c[y].n0) <==> c[start].n0 <= c[end - 1].n0;
  }
}
