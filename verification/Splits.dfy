/** Cutting the output rows into one range a thread: `stbir__get_split_info` and `stbir__get_max_split`. */
module Splits {
  import opened Words
  import opened GatherSpec

  datatype Range = Range(start: nat, end: nat)

  /** Rows left once i of the splits are cut. */
  function Left(height: nat, splits: nat, i: nat): (r: nat)
    requires i <= splits
    ensures r <= height
  {
    if i == 0 then height
    else
      var left := Left(height, splits, i - 1);
      QuoAtMost(left, splits - (i - 1));
      left - Quo(left, splits - (i - 1))
  }

  function Each(height: nat, splits: nat, i: nat): nat
    requires i < splits
  {
    Quo(Left(height, splits, i), splits - i)
  }

  function Cut(height: nat, splits: nat, i: nat): nat
    requires i <= splits
  {
    height - Left(height, splits, i)
  }

  lemma Share(left: nat, m: nat, q: nat, r: nat)
    requires m > 0 && left == q * m + r && r < m
    ensures Quo(left, m) == q
    ensures left - q == q * (m - 1) + r
  {
    QuoRemUnique(left, q, r, m);
    hide Quo;
    assert q * m == q * (m - 1) + q;
  }

  /** Rows for m ranges of q each, where up to m of them may get one of r extra rows. */
  function Shared(q: nat, r: nat, m: nat): nat {
    q * m + if m <= r then m else r
  }

  lemma SharedStep(q: nat, r: nat, m: nat)
    requires m > 0
    ensures Quo(Shared(q, r, m), m) == q + if m <= r then 1 else 0
    ensures Shared(q, r, m) - Quo(Shared(q, r, m), m) == Shared(q, r, m - 1)
  {
    if m <= r {
      assert Shared(q, r, m) == (q + 1) * m;
      Share(Shared(q, r, m), m, q + 1, 0);
      assert (q + 1) * (m - 1) == q * (m - 1) + (m - 1);
    } else {
      Share(Shared(q, r, m), m, q, r);
    }
  }

  /** The last ranges, as many as the remainder, get one row more than the others. */
  lemma {:induction false} LeftClosed(height: nat, splits: nat, i: nat)
    requires i <= splits && splits > 0
    ensures Left(height, splits, i) == Shared(Quo(height, splits), Rem(height, splits), splits - i)
  {
    hide Quo, Rem, Shared;
    var q, r := Quo(height, splits), Rem(height, splits);
    if i == 0 {
      WholeShared(height, splits);
    } else {
      LeftClosed(height, splits, i - 1);
      SharedStep(q, r, splits - (i - 1));
    }
  }

  lemma WholeShared(height: nat, splits: nat)
    requires splits > 0
    ensures Shared(Quo(height, splits), Rem(height, splits), splits) == height
  {
    QuoRem(height, splits);
  }

  lemma EachClosed(height: nat, splits: nat, i: nat)
    requires i < splits
    ensures Each(height, splits, i) == Quo(height, splits) + if i < splits - Rem(height, splits) then 0 else 1
  {
    hide Quo, Rem, Shared;
    LeftClosed(height, splits, i);
    SharedStep(Quo(height, splits), Rem(height, splits), splits - i);
  }

  lemma NothingLeft(height: nat, splits: nat)
    requires splits > 0
    ensures Left(height, splits, splits) == 0 && Cut(height, splits, splits) == height
  {
    LeftClosed(height, splits, splits);
  }

  /** The largest range is the height divided by the splits, rounded up. */
  method GetMaxSplit(splits: nat, height: nat) returns (max: nat)
    requires splits > 0
    ensures max == Quo(height + splits - 1, splits)
    ensures forall i :: 0 <= i < splits ==> Each(height, splits, i) <= max
  {
    max := 0;
    var left := height;
    for i := 0 to splits
      invariant left == Left(height, splits, i)
      invariant forall j :: 0 <= j < i ==> Each(height, splits, j) <= max
      invariant if i == 0 then max == 0 else max == Each(height, splits, i - 1)
    {
      EachClosed(height, splits, i);
      if i > 0 {
        EachClosed(height, splits, i - 1);
      }
      var each := Quo(left, splits - i);
      QuoAtMost(left, splits - i);
      if each > max {
        max := each;
      }
      left := left - each;
    }
    EachClosed(height, splits, splits - 1);
    RoundedUp(height, splits);
  }

  lemma RoundedUp(height: nat, splits: nat)
    requires splits > 0
    ensures Quo(height + splits - 1, splits) == Quo(height, splits) + if Rem(height, splits) == 0 then 0 else 1
  {
    hide Quo, Rem;
    QuoRem(height, splits);
    var q, r := Quo(height, splits), Rem(height, splits);
    if r == 0 {
      Share(height + splits - 1, splits, q, splits - 1);
    } else {
      assert height + splits - 1 == (q + 1) * splits + (r - 1);
      Share(height + splits - 1, splits, q + 1, r - 1);
    }
  }

  // ----- moving a boundary off a row that starts late -----

  /** The scan from row cur reads row cur + m: no row before it starts later than row cur. */
  predicate Reads(contribs: seq<Contributors>, cur: nat, m: nat) {
    m == 0 || (cur + m <= |contribs| && forall k :: cur <= k < cur + m ==> contribs[k].n0 <= contribs[cur].n0)
  }

  /** All rows that the scan of at most stop further rows reads are in the table. */
  predicate InTable(contribs: seq<Contributors>, cur: nat, stop: nat) {
    && cur < |contribs|
    && (|contribs| <= cur + stop ==> !Reads(contribs, cur, |contribs| - cur))
  }

  /** The scan goes on up to row cur + j: past stop rows, or at a row that starts later than row cur. */
  predicate Scanned(contribs: seq<Contributors>, cur: nat, stop: nat, j: nat) {
    && j <= stop && cur + j < |contribs|
    && (forall k :: cur <= k <= cur + j ==> contribs[k].n0 <= contribs[cur].n0)
    && (j < stop ==> cur + j + 1 < |contribs| && contribs[cur + j + 1].n0 > contribs[cur].n0)
  }

  /** The first of the rows scanned that starts earliest. */
  predicate Earliest(contribs: seq<Contributors>, cur: nat, n: nat, smallest: nat) {
    && smallest <= n && cur + n < |contribs|
    && (forall k :: cur <= k <= cur + n ==> contribs[cur + smallest].n0 <= contribs[k].n0)
    && (forall k :: cur <= k < cur + smallest ==> contribs[cur + smallest].n0 < contribs[k].n0)
  }

  predicate Shift(contribs: seq<Contributors>, cur: nat, stop: nat, smallest: nat) {
    exists j: nat :: j <= stop && Scanned(contribs, cur, stop, j) && Earliest(contribs, cur, j, smallest)
  }

  /** The scan; `top` is the last row it reads. */
  method FindShift(contribs: seq<Contributors>, cur: nat, stop: nat) returns (smallest: nat, ghost top: nat)
    requires InTable(contribs, cur, stop)
    ensures smallest <= stop && Shift(contribs, cur, stop, smallest)
    ensures cur <= top <= cur + stop && top < |contribs| && Reads(contribs, cur, top - cur)
    ensures top < cur + stop ==> !Reads(contribs, cur, top - cur + 1)
  {
    smallest := 0;
    var small, startN0 := contribs[cur].n0, contribs[cur].n0;
    var j := 1;
    top := cur;
    while j <= stop
      invariant 1 <= j <= stop + 1 && cur + j - 1 == top < |contribs|
      invariant smallest < j && small == contribs[cur + smallest].n0 && startN0 == contribs[cur].n0
      invariant Earliest(contribs, cur, j - 1, smallest)
      invariant forall k :: cur <= k < cur + j ==> contribs[k].n0 <= startN0
    {
      assert Reads(contribs, cur, j);
      top := cur + j;
      if contribs[cur + j].n0 > startN0 {
        break;
      }
      if contribs[cur + j].n0 < small {
        small, smallest := contribs[cur + j].n0, j;
      }
      j := j + 1;
    }
    assert Scanned(contribs, cur, stop, j - 1);
  }

  /** How far split i's boundary may be scanned. */
  function Stop(height: nat, splits: nat, margin: nat, i: nat): nat
    requires i < splits
  {
    var each := Each(height, splits, i);
    if each < margin * 3 then each else margin * 3
  }

  /** Where range i starts: at its cut, or when gathering at the earliest-starting row scanned there. */
  predicate StartsAt(height: nat, splits: nat, margin: nat, isGather: bool, contribs: seq<Contributors>, i: nat,
                     start: nat)
    requires i < splits
  {
    var cur := Cut(height, splits, i);
    if isGather && i > 0 then cur <= start && Shift(contribs, cur, Stop(height, splits, margin, i), start - cur)
    else start == cur
  }

  lemma CutWithin(height: nat, splits: nat, i: nat)
    requires i < splits
    ensures Cut(height, splits, i) + Each(height, splits, i) == Cut(height, splits, i + 1) <= height
  {
  }

  // ----- the row after the last one -----

  /** Exactly when the scans read the contributor after that of the last row: the last range is no longer than the scan
      may reach, and none of its rows starts later than its first. */
  predicate ReadsPastTable(height: nat, splits: nat, margin: nat, isGather: bool, contribs: seq<Contributors>)
    requires isGather ==> height <= |contribs|
  {
    && isGather && splits > 1
    && Each(height, splits, splits - 1) <= 3 * margin
    && var cur := Cut(height, splits, splits - 1);
    && forall k :: cur <= k < height ==> contribs[k].n0 <= contribs[cur].n0
  }

  // ----- what moving the boundary is for -----

  /** No row from a up to end starts before row a. */
  predicate StartsFirst(contribs: seq<Contributors>, a: nat, end: nat) {
    end <= |contribs| && forall y :: a <= y < end ==> contribs[a].n0 <= contribs[y].n0
  }

  /** A row past those scanned, but before end, starts before all of them. */
  predicate Undercut(contribs: seq<Contributors>, cur: nat, j: nat, end: nat)
    requires cur + j < |contribs| && end <= |contribs|
  {
    exists y :: cur + j < y < end && Before(contribs, y, cur, j)
  }

  /** Row y starts before all rows scanned. */
  predicate Before(contribs: seq<Contributors>, y: nat, cur: nat, j: nat)
    requires cur + j < |contribs| && y < |contribs|
  {
    forall k :: cur <= k <= cur + j ==> contribs[y].n0 < contribs[k].n0
  }

  lemma NotBefore(contribs: seq<Contributors>, y: nat, cur: nat, j: nat)
    requires cur + j < |contribs| && y < |contribs| && contribs[cur].n0 <= contribs[y].n0
    ensures !Before(contribs, y, cur, j)
  {
  }

  /** What the shift is for, and exactly when it achieves it: no row of the range starts before the row at the moved
      boundary, unless a row past the scan starts before all rows scanned. */
  lemma ShiftedStartIsEarliest(contribs: seq<Contributors>, cur: nat, stop: nat, j: nat, smallest: nat, end: nat)
    requires Scanned(contribs, cur, stop, j) && Earliest(contribs, cur, j, smallest)
    requires cur + smallest < end <= |contribs|
    ensures StartsFirst(contribs, cur + smallest, end) <==> !Undercut(contribs, cur, j, end)
  {
    var a := cur + smallest;
    if !StartsFirst(contribs, a, end) {
      var y :| a <= y < end && contribs[y].n0 < contribs[a].n0;
      assert cur + j < y && Before(contribs, y, cur, j);
    } else {
      forall y | cur + j < y < end ensures !Before(contribs, y, cur, j) {
        assert contribs[a].n0 <= contribs[y].n0;
      }
    }
  }

  /** Rows that start earlier than a row before them follow within reach, with none in between that starts later. */
  predicate DipsAreShort(contribs: seq<Contributors>, reach: nat) {
    forall a, b :: 0 <= a < b < |contribs| && contribs[b].n0 < contribs[a].n0 ==>
      b - a <= reach && forall k :: a <= k <= b ==> contribs[k].n0 <= contribs[a].n0
  }

  lemma ShortDipsDoNotUndercut(contribs: seq<Contributors>, cur: nat, stop: nat, j: nat, end: nat)
    requires Scanned(contribs, cur, stop, j) && DipsAreShort(contribs, stop) && end <= |contribs|
    ensures !Undercut(contribs, cur, j, end)
  {
    assert j < stop ==> contribs[cur + j + 1].n0 > contribs[cur].n0;
    forall y | cur + j < y < end ensures !Before(contribs, y, cur, j) {
      assert contribs[cur].n0 <= contribs[y].n0;
      NotBefore(contribs, y, cur, j);
    }
  }

  /**
    Where a range starts, said without the scan: at a row within three margins and within
    the share of the range that starts first of all those rows, if no row before it starts
    later than the row at the cut; and never further on.
   */
  lemma StartIsEarliestInReach(height: nat, splits: nat, margin: nat, contribs: seq<Contributors>, i: nat, start: nat,
                               y: nat)
    requires 0 < i < splits && StartsAt(height, splits, margin, true, contribs, i, start)
    ensures var cur, each := Cut(height, splits, i), Each(height, splits, i);
            var reach := if each < 3 * margin then each else 3 * margin;
            && cur <= start <= cur + reach
            && (cur <= y <= cur + reach < |contribs|
                && (forall k :: cur <= k < y ==> contribs[k].n0 <= contribs[cur].n0 && contribs[y].n0 < contribs[k].n0)
                && (forall k :: y < k <= cur + reach ==> contribs[y].n0 <= contribs[k].n0)
                ==> start == y)
  {
    hide Cut, Each;
    var cur, stop := Cut(height, splits, i), Stop(height, splits, margin, i);
    var j: nat :| j <= stop && Scanned(contribs, cur, stop, j) && Earliest(contribs, cur, j, start - cur);
  }

  /** Rows starting at the given source rows, four of which each needs. */
  function Windows(starts: seq<int>): seq<Contributors> {
    seq(|starts|, i requires 0 <= i < |starts| => Contributors(starts[i], starts[i] + 3))
  }

  /** A boundary that stays where row 6 undercuts it: the scan from row 4 ends at row 5. */
  lemma UndercutBoundary(start: nat)
    requires StartsAt(8, 2, 2, true, Windows([0, 1, 2, 3, 4, 5, 3, 6]), 1, start)
    ensures start == 4 && !StartsFirst(Windows([0, 1, 2, 3, 4, 5, 3, 6]), 4, 8)
  {
    var c := Windows([0, 1, 2, 3, 4, 5, 3, 6]);
    HalfOfEight();
    hide Cut, Each, Windows;
    NoShiftBefore(c, 4, 4, start - 4);
  }

  lemma HalfOfEight()
    ensures Cut(8, 2, 1) == 4 && Each(8, 2, 1) == 4
    ensures var c := Windows([0, 1, 2, 3, 4, 5, 3, 6]);
            |c| == 8 && c[4].n0 == 4 && c[5].n0 == 5 && c[6].n0 == 3
  {
    CutWithin(8, 2, 1);
    EachClosed(8, 2, 1);
    NothingLeft(8, 2);
    QuoRemUnique(8, 4, 0, 2);
  }

  lemma NoShiftBefore(contribs: seq<Contributors>, cur: nat, stop: nat, smallest: nat)
    requires stop > 0 && cur + 1 < |contribs| && contribs[cur + 1].n0 > contribs[cur].n0
    requires Shift(contribs, cur, stop, smallest)
    ensures smallest == 0
  {
    var j: nat :| j <= stop && Scanned(contribs, cur, stop, j) && Earliest(contribs, cur, j, smallest);
    assert contribs[cur].n0 < contribs[cur + 1].n0;
  }

  // ----- the row after the last one, and before the first -----

  /** Only the last cut is followed by no other, unless there are no rows. */
  lemma LaterRowsFollow(height: nat, splits: nat, i: nat)
    requires i < splits && height > 0
    ensures Cut(height, splits, i + 1) < height <==> i < splits - 1
  {
    NothingLeft(height, splits);
    if i < splits - 1 {
      SomethingLeft(height, splits, i + 1);
    }
  }

  lemma SomethingLeft(height: nat, splits: nat, i: nat)
    requires i < splits && height > 0
    ensures Left(height, splits, i) > 0
  {
    LeftClosed(height, splits, i);
    QuoRem(height, splits);
    var q, r := Quo(height, splits), Rem(height, splits);
    hide Quo, Rem;
    if q > 0 {
      MulMono(1, q, splits - i);
    }
  }

  /** The first n ranges tile the rows up to the n-th cut: ordered, without gaps or overlaps. */
  predicate Tiles(info: seq<Range>, n: nat, end: nat)
    requires n <= |info|
  {
    && (n > 0 ==> info[0].start == 0 && info[n - 1].end == end)
    && (forall i :: 0 <= i < n ==> info[i].start <= info[i].end)
    && (forall i :: 0 < i < n ==> info[i - 1].end == info[i].start)
  }

  /** The scan at range i's boundary stays in the table, but for the one entry that is read past it. */
  lemma ScanInTable(height: nat, splits: nat, margin: nat, contribs: seq<Contributors>, i: nat)
    requires 0 < i < splits && height <= |contribs|
    requires ReadsPastTable(height, splits, margin, true, contribs) ==> height < |contribs|
    ensures InTable(contribs, Cut(height, splits, i), Stop(height, splits, margin, i))
  {
    ScanSpan(height, splits, margin, i);
    hide Cut, Each;
  }

  lemma ReadsBefore(contribs: seq<Contributors>, cur: nat, m: nat, n: nat)
    requires m <= n && Reads(contribs, cur, n)
    ensures Reads(contribs, cur, m)
  {
  }

  /** Where the scan at range i may reach. */
  lemma ScanSpan(height: nat, splits: nat, margin: nat, i: nat)
    requires i < splits
    ensures var cur, each := Cut(height, splits, i), Each(height, splits, i);
            && cur + Stop(height, splits, margin, i) <= cur + each <= height
            && (height > 0 ==> cur < height)
            && (i == splits - 1 ==> cur + each == height)
            && (height > 0 && i < splits - 1 ==> cur + each < height)
  {
    CutWithin(height, splits, i);
    if height > 0 {
      LaterRowsFollow(height, splits, i);
      if i > 0 {
        LaterRowsFollow(height, splits, i - 1);
      }
    }
    if i == splits - 1 {
      NothingLeft(height, splits);
    }
    hide Left, Each;
  }

  /** The last row a scan reads is the one past the table just when it is the last scan and the condition holds. */
  lemma TopIsPastTable(height: nat, splits: nat, margin: nat, contribs: seq<Contributors>, i: nat, top: nat)
    requires 0 < i < splits && height <= |contribs|
    requires var cur, stop := Cut(height, splits, i), Stop(height, splits, margin, i);
             && cur <= top <= cur + stop && top < |contribs| && Reads(contribs, cur, top - cur)
             && (top < cur + stop ==> !Reads(contribs, cur, top - cur + 1))
    ensures top <= height
    ensures top == height ==> ReadsPastTable(height, splits, margin, true, contribs)
    ensures i == splits - 1 && ReadsPastTable(height, splits, margin, true, contribs) ==> top == height
  {
    ScanSpan(height, splits, margin, i);
    ScanSpan(height, splits, margin, splits - 1);
    hide Cut, Each;
    if i == splits - 1 && ReadsPastTable(height, splits, margin, true, contribs) {
      var cur := Cut(height, splits, i);
      assert Reads(contribs, cur, height - cur);
      ReadsBefore(contribs, cur, if top < height then top - cur + 1 else 0, height - cur);
    }
  }

  // ----- where the ranges start, from the arguments alone -----

  /** The scans stay in the table, or may read the one entry after it. */
  predicate Scannable(height: nat, splits: nat, margin: nat, contribs: seq<Contributors>) {
    height <= |contribs| && (ReadsPastTable(height, splits, margin, true, contribs) ==> height < |contribs|)
  }

  /** How far a scan goes on from row cur + j. */
  function ScanFrom(contribs: seq<Contributors>, cur: nat, stop: nat, j: nat): (end: nat)
    requires InTable(contribs, cur, stop) && j <= stop && Reads(contribs, cur, j + 1)
    ensures j <= end && Scanned(contribs, cur, stop, end)
    decreases stop - j
  {
    if j == stop then j
    else
      assert cur + j + 1 < |contribs|;
      if contribs[cur + j + 1].n0 > contribs[cur].n0 then j else ScanFrom(contribs, cur, stop, j + 1)
  }

  /** Which of the rows cur to cur + n starts first. */
  function FirstOf(contribs: seq<Contributors>, cur: nat, n: nat): (m: nat)
    requires cur + n < |contribs|
    ensures Earliest(contribs, cur, n, m)
  {
    if n == 0 then 0
    else
      var m := FirstOf(contribs, cur, n - 1);
      if contribs[cur + n].n0 < contribs[cur + m].n0 then n else m
  }

  /** How far the scan at range i goes on; there is none at the first. */
  function ScanEnd(height: nat, splits: nat, margin: nat, contribs: seq<Contributors>, i: nat): (j: nat)
    requires i < splits && Scannable(height, splits, margin, contribs)
    ensures i > 0 ==> Scanned(contribs, Cut(height, splits, i), Stop(height, splits, margin, i), j)
  {
    if i == 0 then 0
    else
      ScanInTable(height, splits, margin, contribs, i);
      ScanFrom(contribs, Cut(height, splits, i), Stop(height, splits, margin, i), 0)
  }

  /** Where range i starts when gathering. */
  function Boundary(height: nat, splits: nat, margin: nat, contribs: seq<Contributors>, i: nat): (start: nat)
    requires i < splits && Scannable(height, splits, margin, contribs)
    ensures StartsAt(height, splits, margin, true, contribs, i, start)
  {
    var cur := Cut(height, splits, i);
    if i == 0 then cur else cur + FirstOf(contribs, cur, ScanEnd(height, splits, margin, contribs, i))
  }

  /** Where it ends: at the next boundary. */
  function RangeEnd(height: nat, splits: nat, margin: nat, contribs: seq<Contributors>, i: nat): nat
    requires i < splits && Scannable(height, splits, margin, contribs)
  {
    if i + 1 < splits then Boundary(height, splits, margin, contribs, i + 1) else height
  }

  lemma ScanEndUnique(contribs: seq<Contributors>, cur: nat, stop: nat, i: nat, j: nat)
    requires Scanned(contribs, cur, stop, i) && Scanned(contribs, cur, stop, j)
    ensures i == j
  {
    ScanEndLast(contribs, cur, stop, i, j);
    ScanEndLast(contribs, cur, stop, j, i);
  }

  lemma ScanEndLast(contribs: seq<Contributors>, cur: nat, stop: nat, i: nat, j: nat)
    requires Scanned(contribs, cur, stop, i) && Scanned(contribs, cur, stop, j)
    ensures j <= i
  {
    assert i < stop ==> contribs[cur + i + 1].n0 > contribs[cur].n0;
  }

  lemma ShiftUnique(contribs: seq<Contributors>, cur: nat, stop: nat, m: nat, n: nat)
    requires Shift(contribs, cur, stop, m) && Shift(contribs, cur, stop, n)
    ensures m == n
  {
    var i: nat :| i <= stop && Scanned(contribs, cur, stop, i) && Earliest(contribs, cur, i, m);
    var j: nat :| j <= stop && Scanned(contribs, cur, stop, j) && Earliest(contribs, cur, j, n);
    ScanEndUnique(contribs, cur, stop, i, j);
    hide Scanned;
    assert contribs[cur + m].n0 <= contribs[cur + n].n0 && contribs[cur + n].n0 <= contribs[cur + m].n0;
  }

  /** The range that was cut is that one. */
  lemma RangeIs(info: seq<Range>, height: nat, splits: nat, margin: nat, contribs: seq<Contributors>, i: nat)
    requires i < splits == |info| && Tiles(info, splits, height) && Scannable(height, splits, margin, contribs)
    requires forall k :: 0 <= k < splits ==> StartsAt(height, splits, margin, true, contribs, k, info[k].start)
    ensures info[i].start == Boundary(height, splits, margin, contribs, i)
    ensures info[i].end == RangeEnd(height, splits, margin, contribs, i)
  {
    StartIs(height, splits, margin, contribs, i, info[i].start);
    if i + 1 < splits {
      StartIs(height, splits, margin, contribs, i + 1, info[i + 1].start);
    }
  }

  lemma StartIs(height: nat, splits: nat, margin: nat, contribs: seq<Contributors>, i: nat, start: nat)
    requires i < splits && Scannable(height, splits, margin, contribs)
    requires StartsAt(height, splits, margin, true, contribs, i, start)
    ensures start == Boundary(height, splits, margin, contribs, i)
  {
    var b, cur := Boundary(height, splits, margin, contribs, i), Cut(height, splits, i);
    hide Boundary, Cut, Shift, Scannable;
    if i > 0 {
      ShiftUnique(contribs, cur, Stop(height, splits, margin, i), start - cur, b - cur);
    }
  }

  /** What holds of the first i ranges when the loop gets to range i. */
  ghost predicate CutSoFar(info: seq<Range>, splits: nat, height: nat, margin: nat, isGather: bool,
                           contribs: seq<Contributors>, i: nat)
    requires i <= splits == |info|
  {
    && Tiles(info, i, Cut(height, splits, i))
    && (forall k :: 0 <= k < i ==> StartsAt(height, splits, margin, isGather, contribs, k, info[k].start))
    && (i > 0 ==> info[i - 1].start <= Cut(height, splits, i))
  }

  /** `top` is the last contributor read, or -1.  The table has one for each row; the entry past it is read exactly
      under the condition above, and only then must there be one. */
  method GetSplitInfo(info: array<Range>, splits: nat, height: nat, margin: nat, isGather: bool,
                      contribs: seq<Contributors>)
    returns (ghost top: int)
    requires 0 < splits == info.Length && (isGather ==> height <= |contribs|)
    requires ReadsPastTable(height, splits, margin, isGather, contribs) ==> height < |contribs|
    modifies info
    ensures Tiles(info[..], splits, height)
    ensures forall i :: 0 <= i < splits ==> StartsAt(height, splits, margin, isGather, contribs, i, info[i].start)
    ensures top <= height && (top == height <==> ReadsPastTable(height, splits, margin, isGather, contribs))
  {
    var cur, left := 0, height;
    top := -1;
    assert Cut(height, splits, 0) == 0;
    hide StartsAt, Quo, Left, ReadsPastTable;
    for i := 0 to splits
      invariant cur == Cut(height, splits, i) && left == Left(height, splits, i)
      invariant CutSoFar(info[..], splits, height, margin, isGather, contribs, i)
      invariant top <= height && (top == height ==> ReadsPastTable(height, splits, margin, isGather, contribs))
      invariant i == splits && ReadsPastTable(height, splits, margin, isGather, contribs) ==> top == height
    {
      var each := Quo(left, splits - i);
      QuoAtMost(left, splits - i);
      ghost var read := CutOne(info, splits, height, margin, isGather, contribs, i, cur, each);
      top := if read > top then read else top;
      cur := cur + each;
      left := left - each;
      CutWithin(height, splits, i);
    }
    NothingLeft(height, splits);
  }

  /** One round of it: range i is cut, and its boundary to the range before moved if need be. */
  method CutOne(info: array<Range>, ghost splits: nat, ghost height: nat, margin: nat, isGather: bool,
                contribs: seq<Contributors>, i: nat, cur: nat, each: nat)
    returns (ghost top: int)
    requires i < splits == info.Length && (isGather ==> height <= |contribs|)
    requires ReadsPastTable(height, splits, margin, isGather, contribs) ==> height < |contribs|
    requires cur == Cut(height, splits, i) && each == Each(height, splits, i)
    requires CutSoFar(info[..], splits, height, margin, isGather, contribs, i)
    modifies info
    ensures CutSoFar(info[..], splits, height, margin, isGather, contribs, i + 1)
    ensures top <= height && (top == height ==> ReadsPastTable(height, splits, margin, isGather, contribs))
    ensures i == splits - 1 && ReadsPastTable(height, splits, margin, isGather, contribs) ==> top == height
  {
    assert i == 0 && i == splits - 1 ==> !ReadsPastTable(height, splits, margin, isGather, contribs);
    assert !isGather ==> !ReadsPastTable(height, splits, margin, isGather, contribs);
    hide CutSoFar, StartsAt, Cut, Each, ReadsPastTable;
    ghost var before := info[..];
    ghost var shift := 0;
    top := -1;
    info[i] := Range(cur, cur + each);
    if isGather && i > 0 {
      var smallest;
      smallest, top := ShiftOf(splits, height, margin, contribs, i, cur, each);
      info[i - 1] := Range(info[i - 1].start, info[i - 1].end + smallest);
      info[i] := Range(info[i].start + smallest, info[i].end);
      shift := smallest;
    } else {
      NoShift(splits, height, margin, isGather, contribs, i);
    }
    CutSoFarStep(before, info[..], splits, height, margin, isGather, contribs, i, shift);
  }

  /** How many rows later range i starts than its cut. */
  method ShiftOf(ghost splits: nat, ghost height: nat, margin: nat, contribs: seq<Contributors>, i: nat, cur: nat,
                 each: nat)
    returns (smallest: nat, ghost top: nat)
    requires 0 < i < splits && height <= |contribs|
    requires ReadsPastTable(height, splits, margin, true, contribs) ==> height < |contribs|
    requires cur == Cut(height, splits, i) && each == Each(height, splits, i)
    ensures smallest <= each && StartsAt(height, splits, margin, true, contribs, i, cur + smallest)
    ensures top <= height && (top == height ==> ReadsPastTable(height, splits, margin, true, contribs))
    ensures i == splits - 1 && ReadsPastTable(height, splits, margin, true, contribs) ==> top == height
  {
    hide Left, Shift, Each, ReadsPastTable, Reads, InTable;
    ScanInTable(height, splits, margin, contribs, i);
    var stop := margin * 3;
    if each < stop {
      stop := each;
    }
    smallest, top := FindShift(contribs, cur, stop);
    TopIsPastTable(height, splits, margin, contribs, i, top);
  }

  lemma NoShift(splits: nat, height: nat, margin: nat, isGather: bool, contribs: seq<Contributors>, i: nat)
    requires i < splits && (i == 0 || !isGather)
    ensures StartsAt(height, splits, margin, isGather, contribs, i, Cut(height, splits, i))
  {
  }

  lemma CutSoFarStep(before: seq<Range>, after: seq<Range>, splits: nat, height: nat, margin: nat, isGather: bool,
                     contribs: seq<Contributors>, i: nat, shift: nat)
    requires i < splits == |before| == |after|
    requires CutSoFar(before, splits, height, margin, isGather, contribs, i)
    requires forall k :: 0 <= k < i - 1 ==> after[k] == before[k]
    requires i > 0 ==> after[i - 1] == Range(before[i - 1].start, before[i - 1].end + shift)
    requires i == 0 ==> shift == 0
    requires after[i] == Range(Cut(height, splits, i) + shift, Cut(height, splits, i) + Each(height, splits, i))
    requires shift <= Each(height, splits, i)
    requires StartsAt(height, splits, margin, isGather, contribs, i, after[i].start)
    ensures CutSoFar(after, splits, height, margin, isGather, contribs, i + 1)
  {
    assert i == 0 ==> Cut(height, splits, i) == 0;
    CutWithin(height, splits, i);
    hide Cut, Each, StartsAt, Tiles;
    TilesStep(before, after, i, Cut(height, splits, i), shift, Cut(height, splits, i + 1));
    forall k | 0 <= k < i ensures StartsAt(height, splits, margin, isGather, contribs, k, after[k].start) {
      assert after[k].start == before[k].start;
    }
  }

  lemma TilesStep(before: seq<Range>, after: seq<Range>, i: nat, cut: nat, shift: nat, next: nat)
    requires i < |before| == |after| && Tiles(before, i, cut) && cut + shift <= next
    requires forall k :: 0 <= k < i - 1 ==> after[k] == before[k]
    requires i > 0 ==> after[i - 1] == Range(before[i - 1].start, before[i - 1].end + shift)
    requires i == 0 ==> cut + shift == 0
    requires after[i] == Range(cut + shift, next)
    ensures Tiles(after, i + 1, next)
  {
  }

  /** Every row is in exactly one range. */
  lemma TilesExactlyOnce(info: seq<Range>, height: nat, y: nat)
    requires 0 < |info| && Tiles(info, |info|, height) && y < height
    ensures exists i :: 0 <= i < |info| && info[i].start <= y < info[i].end
    ensures forall i, j :: 0 <= i < |info| && 0 <= j < |info| ==>
              info[i].start <= y < info[i].end && info[j].start <= y < info[j].end ==> i == j
  {
    TileOf(info, height, y, |info|);
    forall i, j | 0 <= i < j < |info| ensures info[i].end <= info[j].start {
      Ordered(info, height, i, j);
    }
  }

  lemma {:induction false} TileOf(info: seq<Range>, height: nat, y: nat, n: nat)
    requires 0 < n <= |info| && Tiles(info, |info|, height) && y < info[n - 1].end
    ensures exists i :: 0 <= i < n && info[i].start <= y < info[i].end
  {
    if y >= info[n - 1].start {
      assert info[n - 1].start <= y < info[n - 1].end;
    } else {
      TileOf(info, height, y, n - 1);
    }
  }

  lemma {:induction false} Ordered(info: seq<Range>, height: nat, i: nat, j: nat)
    requires i < j < |info| && Tiles(info, |info|, height)
    ensures info[i].end <= info[j].start
  {
    if j - 1 <= i {
    } else {
      Ordered(info, height, i, j - 1);
    }
  }

  /** Without gathering no range is longer than the largest split. */
  lemma RangesWithinMax(info: seq<Range>, splits: nat, height: nat, margin: nat, contribs: seq<Contributors>, i: nat)
    requires i < splits == |info| && Tiles(info, splits, height)
    requires forall k :: 0 <= k < splits ==> StartsAt(height, splits, margin, false, contribs, k, info[k].start)
    ensures info[i].end - info[i].start <= Quo(height + splits - 1, splits)
  {
    NothingLeft(height, splits);
    CutWithin(height, splits, i);
    EachClosed(height, splits, i);
    RoundedUp(height, splits);
    if i + 1 < splits {
      assert StartsAt(height, splits, margin, false, contribs, i + 1, info[i + 1].start);
    }
    assert StartsAt(height, splits, margin, false, contribs, i, info[i].start);
  }

  /** When the entry past the table is read, the last range is left empty exactly if that entry starts before every row
      of the range. */
  lemma LastRangeEmptied(info: seq<Range>, splits: nat, height: nat, margin: nat, contribs: seq<Contributors>)
    requires 0 < splits == |info| && Tiles(info, splits, height) && height < |contribs|
    requires StartsAt(height, splits, margin, true, contribs, splits - 1, info[splits - 1].start)
    requires ReadsPastTable(height, splits, margin, true, contribs)
    ensures info[splits - 1].start == info[splits - 1].end
       <==> forall k :: Cut(height, splits, splits - 1) <= k < height ==> contribs[height].n0 < contribs[k].n0
  {
    ScanSpan(height, splits, margin, splits - 1);
    hide Cut, Each;
    var cur, stop := Cut(height, splits, splits - 1), Stop(height, splits, margin, splits - 1);
    var smallest := info[splits - 1].start - cur;
    var j: nat :| j <= stop && Scanned(contribs, cur, stop, j) && Earliest(contribs, cur, j, smallest);
  }

  /** Otherwise it keeps a row, if there are any. */
  lemma LastRangeKept(info: seq<Range>, splits: nat, height: nat, margin: nat, contribs: seq<Contributors>)
    requires 0 < splits == |info| && Tiles(info, splits, height) && 0 < height <= |contribs|
    requires StartsAt(height, splits, margin, true, contribs, splits - 1, info[splits - 1].start)
    requires !ReadsPastTable(height, splits, margin, true, contribs)
    ensures info[splits - 1].start < info[splits - 1].end
  {
  }

  /** Eight rows in two ranges, with a margin of 2 and rows 4 to 7 starting at the same source row: the entry past the
      table is read. */
  lemma EqualStartsReadPast(contribs: seq<Contributors>)
    requires |contribs| == 8 && forall k :: 4 <= k < 8 ==> contribs[k].n0 == contribs[4].n0
    ensures ReadsPastTable(8, 2, 2, true, contribs)
  {
    HalfOfEight();
  }
}
