/** Gathering range by range, as the threads do, from the ranges that the rows were cut into. */
module SplitGather {
  import opened GatherSpec
  import opened RingGather
  import opened Splits

  /** No row from a up to end reaches back further than n lines behind the window of a row before it. */
  predicate Holdable(contribs: seq<Contributors>, a: nat, end: nat, n: nat) {
    end <= |contribs| && forall i, y :: a <= i <= y < end ==> contribs[i].n1 - n + 1 <= contribs[y].n0
  }

  /** A range's windows fit a ring of n lines exactly when its first row starts first and the ring holds them. */
  lemma RangeFitsIff(contribs: seq<Contributors>, a: nat, end: nat, n: nat)
    requires a < end <= |contribs|
    ensures (forall y :: 0 <= y < end - a ==> WindowsFit(contribs[a..end], y, n))
       <==> StartsFirst(contribs, a, end) && Holdable(contribs, a, end, n)
  {
    var rows := contribs[a..end];
    if forall y :: 0 <= y < end - a ==> WindowsFit(rows, y, n) {
      forall y | a <= y < end ensures contribs[a].n0 <= contribs[y].n0 {
        assert WindowsFit(rows, y - a, n);
      }
      forall i, y | a <= i <= y < end ensures contribs[i].n1 - n + 1 <= contribs[y].n0 {
        assert WindowsFit(rows, y - a, n);
        assert rows[i - a] == contribs[i] && rows[y - a] == contribs[y];
      }
    }
  }

  /** A row past the scan at range i, but before the next boundary, starts before all rows scanned. */
  predicate RangeUndercut(height: nat, splits: nat, margin: nat, contribs: seq<Contributors>, i: nat)
    requires i < splits && Scannable(height, splits, margin, contribs)
  {
    var cur, j := Cut(height, splits, i), ScanEnd(height, splits, margin, contribs, i);
    RangeEndInTable(height, splits, margin, contribs, i);
    cur + j < |contribs| && Undercut(contribs, cur, j, RangeEnd(height, splits, margin, contribs, i))
  }

  lemma RangeEndInTable(height: nat, splits: nat, margin: nat, contribs: seq<Contributors>, i: nat)
    requires i < splits && Scannable(height, splits, margin, contribs)
    ensures RangeEnd(height, splits, margin, contribs, i) <= |contribs|
  {
    hide Cut, Stop, ReadsPastTable;
  }

  lemma RangeStartsFirstIff(contribs: seq<Contributors>, height: nat, splits: nat, margin: nat, i: nat)
    requires i < splits && Scannable(height, splits, margin, contribs)
    requires Boundary(height, splits, margin, contribs, i) < RangeEnd(height, splits, margin, contribs, i)
    ensures StartsFirst(contribs, Boundary(height, splits, margin, contribs, i),
                        RangeEnd(height, splits, margin, contribs, i))
       <==> !RangeUndercut(height, splits, margin, contribs, i)
  {
    var cur, j, end := Cut(height, splits, i), ScanEnd(height, splits, margin, contribs, i),
      RangeEnd(height, splits, margin, contribs, i);
    RangeEndInTable(height, splits, margin, contribs, i);
    hide RangeEnd, ScanEnd, Cut, Stop, Scannable;
    if i == 0 {
      ShiftedStartIsEarliest(contribs, cur, 0, 0, 0, end);
    } else {
      ShiftedStartIsEarliest(contribs, cur, Stop(height, splits, margin, i), j, FirstOf(contribs, cur, j), end);
    }
  }

  /** Which ranges a ring can be fed from: those that no row past the boundary's scan undercuts. */
  lemma RangeFeedsRingIff(contribs: seq<Contributors>, height: nat, splits: nat, margin: nat, i: nat, n: nat)
    requires i < splits && Scannable(height, splits, margin, contribs)
    requires var a, end := Boundary(height, splits, margin, contribs, i), RangeEnd(height, splits, margin, contribs, i);
             a < end && Holdable(contribs, a, end, n)
    ensures var a, end := Boundary(height, splits, margin, contribs, i), RangeEnd(height, splits, margin, contribs, i);
            (forall y :: 0 <= y < end - a ==> WindowsFit(contribs[a..end], y, n))
            <==> !RangeUndercut(height, splits, margin, contribs, i)
  {
    var a, end := Boundary(height, splits, margin, contribs, i), RangeEnd(height, splits, margin, contribs, i);
    RangeStartsFirstIff(contribs, height, splits, margin, i);
    hide Holdable, WindowsFit, Boundary, RangeEnd, RangeUndercut, Scannable;
    RangeFitsIff(contribs, a, end, n);
  }

  lemma {:induction false} EndsWithin(info: seq<Range>, splits: nat, height: nat, i: nat)
    requires i < splits == |info| && Tiles(info, splits, height)
    ensures info[i].start <= info[i].end <= height
    decreases splits - i
  {
    if splits - 1 <= i {
    } else {
      EndsWithin(info, splits, height, i + 1);
    }
  }

  /** The example of an undercut boundary does not feed a ring of any size. */
  lemma UndercutRangeDoesNotFit(n: nat)
    ensures !WindowsFit(Windows([0, 1, 2, 3, 4, 5, 3, 6])[4..8], 2, n)
  {
    var c := Windows([0, 1, 2, 3, 4, 5, 3, 6]);
    assert c[4..8][0] == c[4] && c[4..8][2] == c[6];
  }

  /** Row y of a range reaches back no further than a ring of n lines that is filled from the range's first row. */
  predicate RowFits(contribs: seq<Contributors>, a: nat, end: nat, y: nat, n: nat) {
    a <= y < end <= |contribs| && WindowsFit(contribs[a..end], y - a, n)
  }

  /** Rows of the right width, each its own, with as many weights as source rows in its window. */
  ghost predicate Gatherable(src: Source, memory: int -> scanline, contribs: seq<Contributors>, coeffs: seq<seq<real>>,
                             output: seq<array<real>>)
    requires |output| == |coeffs| <= |contribs|
  {
    && (forall y :: 0 <= y < |output| ==>
          contribs[y].n0 <= contribs[y].n1 && contribs[y].n1 - contribs[y].n0 < |coeffs[y]|)
    && (forall s :: GoodLine(src, s)) && (forall i :: |memory(i)| == src.width)
    && (forall y :: 0 <= y < |output| ==> output[y].Length == src.width)
    && (forall y, z :: 0 <= y < z < |output| ==> output[y] != output[z])
  }

  /** One split: its range gathered with a ring of its own, and no other row touched. */
  method GatherRange(src: Source, memory: int -> scanline, entries: nat, a: nat, end: nat, contribs: seq<Contributors>,
                     coeffs: seq<seq<real>>, output: seq<array<real>>)
    requires entries > 0 && a < end <= |output| == |coeffs| <= |contribs|
    requires Gatherable(src, memory, contribs, coeffs, output)
    modifies set y | a <= y < end :: output[y]
    ensures forall y :: a <= y < end && RowFits(contribs, a, end, y, entries) ==>
              output[y][..] == OutputRow(src, coeffs[y], contribs[y])
  {
    var split := new Split(src, entries, memory);
    var rows := output[a..end];
    var shown := split.VerticalGatherLoop(contribs[a..end], coeffs[a..end], rows);
    forall y | a <= y < end && RowFits(contribs, a, end, y, entries)
      ensures output[y][..] == OutputRow(src, coeffs[y], contribs[y])
    {
      hide WindowsFit;
      assert rows[y - a] == output[y];
    }
  }

  /** All splits together, however the rows were cut: every row that fits the ring of its range is given, and none is
      lost or computed differently at a boundary. */
  method GatherRanges(src: Source, memory: int -> scanline, entries: nat, info: seq<Range>,
                      contribs: seq<Contributors>, coeffs: seq<seq<real>>, output: seq<array<real>>)
    requires entries > 0 && |info| > 0 && |output| == |coeffs| <= |contribs|
    requires Tiles(info, |info|, |output|) && Gatherable(src, memory, contribs, coeffs, output)
    modifies set y | 0 <= y < |output| :: output[y]
    ensures forall i, y :: 0 <= i < |info| && 0 <= y < |output|
                           && RowFits(contribs, info[i].start, info[i].end, y, entries) ==>
              output[y][..] == OutputRow(src, coeffs[y], contribs[y])
  {
    for i := 0 to |info|
      invariant forall k, y :: 0 <= k < i && 0 <= y < |output|
                               && RowFits(contribs, info[k].start, info[k].end, y, entries) ==>
                  output[y][..] == OutputRow(src, coeffs[y], contribs[y])
    {
      EndsWithin(info, |info|, |output|, i);
      forall k | 0 <= k < i ensures info[k].end <= info[i].start {
        Ordered(info, |output|, k, i);
      }
      hide WindowsFit, Tiles;
      if info[i].start < info[i].end {
        GatherRange(src, memory, entries, info[i].start, info[i].end, contribs, coeffs, output);
      }
    }
  }

  /** Every range of the split suits a ring of n lines. */
  predicate Feedable(height: nat, splits: nat, margin: nat, contribs: seq<Contributors>, n: nat)
    requires splits > 0 && Scannable(height, splits, margin, contribs)
  {
    forall i :: 0 <= i < splits ==>
      var a, end := Boundary(height, splits, margin, contribs, i), RangeEnd(height, splits, margin, contribs, i);
      a < end ==> !RangeUndercut(height, splits, margin, contribs, i) && Holdable(contribs, a, end, n)
  }

  lemma RangeSuits(contribs: seq<Contributors>, height: nat, splits: nat, margin: nat, i: nat, n: nat)
    requires i < splits && Scannable(height, splits, margin, contribs)
    requires Feedable(height, splits, margin, contribs, n)
    ensures var a, end := Boundary(height, splits, margin, contribs, i), RangeEnd(height, splits, margin, contribs, i);
            StartsFirst(contribs, a, end) && Holdable(contribs, a, end, n)
  {
    RangeEndInTable(height, splits, margin, contribs, i);
    var a, end := Boundary(height, splits, margin, contribs, i), RangeEnd(height, splits, margin, contribs, i);
    if a < end {
      RangeStartsFirstIff(contribs, height, splits, margin, i);
    }
    hide Boundary, RangeEnd, RangeUndercut, Scannable;
  }

  /** In a range that suits the ring every row fits. */
  lemma AllFit(contribs: seq<Contributors>, a: nat, end: nat, y: nat, n: nat)
    requires a <= y < end <= |contribs| && StartsFirst(contribs, a, end) && Holdable(contribs, a, end, n)
    ensures RowFits(contribs, a, end, y, n)
  {
    hide StartsFirst, Holdable, WindowsFit;
    RangeFitsIff(contribs, a, end, n);
  }

  /** The rows are cut and gathered: every output row that fits the ring of its range is the weighted sum of its source
      rows, and all do if every range suits the ring. */
  method GatherInSplits(src: Source, memory: int -> scanline, entries: nat, splits: nat, margin: nat,
                        contribs: seq<Contributors>, coeffs: seq<seq<real>>, output: seq<array<real>>)
    requires entries > 0 && splits > 0 && |output| == |coeffs| <= |contribs|
    requires Scannable(|output|, splits, margin, contribs) && Gatherable(src, memory, contribs, coeffs, output)
    modifies set y | 0 <= y < |output| :: output[y]
    ensures forall i, y :: 0 <= i < splits && 0 <= y < |output|
                           && RowFits(contribs, Boundary(|output|, splits, margin, contribs, i),
                                      RangeEnd(|output|, splits, margin, contribs, i), y, entries) ==>
              output[y][..] == OutputRow(src, coeffs[y], contribs[y])
    ensures Feedable(|output|, splits, margin, contribs, entries) ==>
              forall y :: 0 <= y < |output| ==> output[y][..] == OutputRow(src, coeffs[y], contribs[y])
  {
    hide Boundary, RangeEnd, RowFits, Feedable, Scannable, Tiles, OutputRow;
    var info := CutRows(|output|, splits, margin, contribs);
    GatherRanges(src, memory, entries, info, contribs, coeffs, output);
    forall i, y | 0 <= i < splits && 0 <= y < |output|
                  && RowFits(contribs, Boundary(|output|, splits, margin, contribs, i),
                             RangeEnd(|output|, splits, margin, contribs, i), y, entries)
      ensures output[y][..] == OutputRow(src, coeffs[y], contribs[y])
    {
      assert info[i] == RangeOf(|output|, splits, margin, contribs, i);
    }
    if Feedable(|output|, splits, margin, contribs, entries) {
      forall y | 0 <= y < |output| ensures output[y][..] == OutputRow(src, coeffs[y], contribs[y]) {
        var i := FitsSomewhere(info, |output|, splits, margin, contribs, y, entries);
      }
    }
  }

  /** The rows cut, as the ranges that the arguments determine. */
  method CutRows(height: nat, splits: nat, margin: nat, contribs: seq<Contributors>) returns (info: seq<Range>)
    requires splits > 0 && Scannable(height, splits, margin, contribs)
    ensures |info| == splits && Tiles(info, splits, height)
    ensures forall i :: 0 <= i < splits ==> info[i] == RangeOf(height, splits, margin, contribs, i)
  {
    var ranges := new Range[splits](_ => Range(0, 0));
    ghost var top := GetSplitInfo(ranges, splits, height, margin, true, contribs);
    info := ranges[..];
    hide Boundary, RangeEnd, StartsAt, Tiles;
    forall i | 0 <= i < splits ensures info[i] == RangeOf(height, splits, margin, contribs, i) {
      RangeIs(info, height, splits, margin, contribs, i);
    }
  }

  function RangeOf(height: nat, splits: nat, margin: nat, contribs: seq<Contributors>, i: nat): Range
    requires i < splits && Scannable(height, splits, margin, contribs)
  {
    Range(Boundary(height, splits, margin, contribs, i), RangeEnd(height, splits, margin, contribs, i))
  }

  lemma FitsSomewhere(info: seq<Range>, height: nat, splits: nat, margin: nat, contribs: seq<Contributors>, y: nat,
                      n: nat) returns (i: nat)
    requires 0 < splits == |info| && Tiles(info, splits, height) && y < height
    requires Scannable(height, splits, margin, contribs) && Feedable(height, splits, margin, contribs, n)
    requires forall i :: 0 <= i < splits ==> info[i] == RangeOf(height, splits, margin, contribs, i)
    ensures i < splits && RowFits(contribs, info[i].start, info[i].end, y, n)
  {
    hide StartsFirst, Holdable, RangeUndercut, Boundary, RangeEnd, RowFits, Feedable, Scannable;
    TilesExactlyOnce(info, height, y);
    i :| 0 <= i < splits && info[i].start <= y < info[i].end;
    RangeSuits(contribs, height, splits, margin, i, n);
    RangeEndInTable(height, splits, margin, contribs, i);
    AllFit(contribs, info[i].start, info[i].end, y, n);
  }

  /** Ends do not dip back, and no window is taller than n lines. */
  predicate Steady(contribs: seq<Contributors>, n: nat) {
    && (forall i, y :: 0 <= i <= y < |contribs| ==> contribs[i].n1 <= contribs[y].n1)
    && (forall y :: 0 <= y < |contribs| ==> contribs[y].n1 - contribs[y].n0 < n)
  }

  lemma SteadyHolds(contribs: seq<Contributors>, a: nat, end: nat, n: nat)
    requires Steady(contribs, n) && end <= |contribs|
    ensures Holdable(contribs, a, end, n)
  {
    forall i, y | a <= i <= y < end ensures contribs[i].n1 - n + 1 <= contribs[y].n0 {
      assert contribs[i].n1 <= contribs[y].n1;
    }
  }

  /** All ranges are right when row 0 starts first, starts dip back only within every scan's reach, and the windows are
      steady. */
  lemma ShortDipsFeed(height: nat, splits: nat, margin: nat, contribs: seq<Contributors>, n: nat)
    requires splits > 0 && Scannable(height, splits, margin, contribs)
    requires StartsFirst(contribs, 0, |contribs|) && Steady(contribs, n)
    requires forall i :: 0 < i < splits ==> DipsAreShort(contribs, Stop(height, splits, margin, i))
    ensures Feedable(height, splits, margin, contribs, n)
  {
    hide Steady, DipsAreShort, RangeUndercut, Scannable, Stop, Boundary, RangeEnd, Holdable, StartsFirst;
    forall i | 0 <= i < splits
      ensures !RangeUndercut(height, splits, margin, contribs, i)
      ensures Holdable(contribs, Boundary(height, splits, margin, contribs, i),
                       RangeEnd(height, splits, margin, contribs, i), n)
    {
      RangeEndInTable(height, splits, margin, contribs, i);
      SteadyHolds(contribs, Boundary(height, splits, margin, contribs, i),
                  RangeEnd(height, splits, margin, contribs, i), n);
      NoUndercut(height, splits, margin, contribs, i);
    }
  }

  lemma NoUndercut(height: nat, splits: nat, margin: nat, contribs: seq<Contributors>, i: nat)
    requires i < splits && Scannable(height, splits, margin, contribs)
    requires StartsFirst(contribs, 0, |contribs|)
    requires i > 0 ==> DipsAreShort(contribs, Stop(height, splits, margin, i))
    ensures !RangeUndercut(height, splits, margin, contribs, i)
  {
    RangeEndInTable(height, splits, margin, contribs, i);
    var end, j := RangeEnd(height, splits, margin, contribs, i), ScanEnd(height, splits, margin, contribs, i);
    if i > 0 {
      hide RangeEnd, ScanEnd, Cut, Stop, Scannable, DipsAreShort, StartsFirst;
      ShortDipsDoNotUndercut(contribs, Cut(height, splits, i), Stop(height, splits, margin, i), j, end);
    } else {
      assert Cut(height, splits, i) == 0 && j == 0;
      hide RangeEnd, Scannable, Cut, ScanEnd;
      forall y | 0 < y < end ensures !Before(contribs, y, 0, 0) {
        NotBefore(contribs, y, 0, 0);
      }
    }
  }
}
