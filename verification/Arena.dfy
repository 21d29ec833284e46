/** The single block of `stbir__alloc_internal_mem_and_build_samplers`: a pass from address 0 to add up the sizes, and a
    second one over the allocated block to hand out the pieces. */
module Arena {
  /** Sizes in bytes of everything the resizer keeps. */
  datatype Plan = Plan(
    info: nat, splitInfo: nat, splits: nat, decode: nat, ring: nat, vertical: nat,
    isGather: bool, prescatterContributors: nat, prescatterCoefficients: nat,
    horizontalContributors: nat, horizontalCoefficients: nat,
    copyHorizontal: bool, verticalContributors: nat, verticalCoefficients: nat)

  datatype Region = Region(start: nat, size: nat) {
    function End(): nat {
      start + size
    }
  }

  function AlignUp(a: nat): (r: nat)
    ensures r % 16 == 0 && a <= r <= a + 15
  {
    (a + 15) / 16 * 16
  }

  // ----- what must be laid out -----

  function SplitSizes(p: Plan, n: nat): seq<nat> {
    if n == 0 then [] else SplitSizes(p, n - 1) + [p.decode, p.ring, p.vertical]
  }

  /** The split buffers can hold the tables that are pivoted. */
  predicate ScratchFits(p: Plan) {
    (p.decode + p.ring + p.vertical) * p.splits >= p.prescatterContributors + p.prescatterCoefficients
  }

  function SizesOf(p: Plan): seq<nat> {
    [p.info, p.splitInfo] + SplitSizes(p, p.splits)
    + (if !p.isGather && !ScratchFits(p) then [p.prescatterContributors, p.prescatterCoefficients] else [])
    + [p.horizontalContributors, p.horizontalCoefficients]
    + (if p.copyHorizontal then [] else [p.verticalContributors, p.verticalCoefficients])
  }

  // ----- where it goes -----

  /** The first address past the pieces, laid out in order from address at. */
  function Past(sizes: seq<nat>, at: nat): nat {
    if |sizes| == 0 then at else AlignUp(Past(sizes[..|sizes| - 1], at)) + sizes[|sizes| - 1]
  }

  function Placed(sizes: seq<nat>, at: nat): (r: seq<Region>)
    ensures |r| == |sizes|
  {
    if |sizes| == 0 then []
    else
      var before := sizes[..|sizes| - 1];
      Placed(before, at) + [Region(AlignUp(Past(before, at)), sizes[|sizes| - 1])]
  }

  lemma AlignUpShifts(a: nat, b: nat)
    requires a % 16 == 0
    ensures AlignUp(a + b) == a + AlignUp(b)
  {
  }

  /** From any address the pieces take the room they take from 0, once the first is aligned. */
  lemma {:induction false} PastShifts(sizes: seq<nat>, at: nat)
    requires |sizes| > 0
    ensures Past(sizes, at) == AlignUp(at) + Past(sizes, 0)
  {
    var before := sizes[..|sizes| - 1];
    if |before| == 0 {
    } else {
      hide AlignUp;
      PastShifts(before, at);
      AlignUpShifts(AlignUp(at), Past(before, 0));
    }
  }

  lemma {:induction false} PlacedInOrder(sizes: seq<nat>, at: nat, k: nat)
    requires k < |sizes|
    ensures var r := Placed(sizes, at);
            && r[k].start % 16 == 0 && r[k].size == sizes[k] && at <= r[k].start
            && r[k].End() <= Past(sizes, at)
            && forall j :: 0 <= j < k ==> r[j].End() <= r[k].start
  {
    var before := sizes[..|sizes| - 1];
    if k < |before| {
      PlacedInOrder(before, at, k);
    } else {
      forall j | 0 <= j < k ensures Placed(before, at)[j].End() <= Past(before, at) {
        PlacedInOrder(before, at, j);
      }
      AtOrAfter(before, at);
    }
  }

  lemma {:induction false} AtOrAfter(sizes: seq<nat>, at: nat)
    ensures at <= Past(sizes, at)
  {
    if |sizes| == 0 {
    } else {
      AtOrAfter(sizes[..|sizes| - 1], at);
    }
  }

  // ----- the two passes -----

  /** STBIR__NEXT_PTR: the next aligned address, and what follows the piece placed there. */
  method NextPtr(ghost sizes: seq<nat>, ghost at: nat, regions: seq<Region>, advanceMem: nat, size: nat)
    returns (regions': seq<Region>, advanceMem': nat)
    requires regions == Placed(sizes, at) && advanceMem == Past(sizes, at)
    ensures regions' == Placed(sizes + [size], at) && advanceMem' == Past(sizes + [size], at)
  {
    assert (sizes + [size])[..|sizes|] == sizes;
    var ptr := AlignUp(advanceMem);
    regions', advanceMem' := regions + [Region(ptr, size)], ptr + size;
  }

  method Pass(p: Plan, alloced: nat) returns (regions: seq<Region>, advanceMem: nat)
    ensures regions == Placed(SizesOf(p), alloced) && advanceMem == Past(SizesOf(p), alloced)
  {
    hide Placed, Past, ScratchFits;
    ghost var sizes: seq<nat> := [];
    regions, advanceMem := Nothing(alloced);
    regions, advanceMem := NextPtr(sizes, alloced, regions, advanceMem, p.info);
    sizes := sizes + [p.info];
    regions, advanceMem := NextPtr(sizes, alloced, regions, advanceMem, p.splitInfo);
    sizes := sizes + [p.splitInfo];
    for i := 0 to p.splits
      invariant sizes == [p.info, p.splitInfo] + SplitSizes(p, i)
      invariant regions == Placed(sizes, alloced) && advanceMem == Past(sizes, alloced)
    {
      regions, advanceMem := NextPtr(sizes, alloced, regions, advanceMem, p.decode);
      sizes := sizes + [p.decode];
      regions, advanceMem := NextPtr(sizes, alloced, regions, advanceMem, p.ring);
      sizes := sizes + [p.ring];
      regions, advanceMem := NextPtr(sizes, alloced, regions, advanceMem, p.vertical);
      sizes := sizes + [p.vertical];
    }
    if !p.isGather && !ScratchFits(p) {
      regions, advanceMem := NextPtr(sizes, alloced, regions, advanceMem, p.prescatterContributors);
      sizes := sizes + [p.prescatterContributors];
      regions, advanceMem := NextPtr(sizes, alloced, regions, advanceMem, p.prescatterCoefficients);
      sizes := sizes + [p.prescatterCoefficients];
    }
    regions, advanceMem := NextPtr(sizes, alloced, regions, advanceMem, p.horizontalContributors);
    sizes := sizes + [p.horizontalContributors];
    regions, advanceMem := NextPtr(sizes, alloced, regions, advanceMem, p.horizontalCoefficients);
    sizes := sizes + [p.horizontalCoefficients];
    if !p.copyHorizontal {
      regions, advanceMem := NextPtr(sizes, alloced, regions, advanceMem, p.verticalContributors);
      sizes := sizes + [p.verticalContributors];
      regions, advanceMem := NextPtr(sizes, alloced, regions, advanceMem, p.verticalCoefficients);
      sizes := sizes + [p.verticalCoefficients];
    }
    assert sizes == SizesOf(p);
  }

  method Nothing(alloced: nat) returns (regions: seq<Region>, advanceMem: nat)
    ensures regions == Placed([], alloced) && advanceMem == Past([], alloced)
  {
    regions, advanceMem := [], alloced;
  }

  function AllocedTotal(p: Plan): nat {
    15 + Past(SizesOf(p), 0)
  }

  /** Wherever the block of the size added up by the first pass lies, the second pass places every piece inside it,
      16-byte aligned and clear of all others. */
  lemma PiecesFit(p: Plan, base: nat, j: nat, k: nat)
    requires j < |SizesOf(p)| && k < |SizesOf(p)|
    ensures var r := Placed(SizesOf(p), base);
            && r[k].start % 16 == 0 && r[k].size == SizesOf(p)[k]
            && base <= r[k].start && r[k].End() <= base + AllocedTotal(p)
            && (j != k ==> r[j].End() <= r[k].start || r[k].End() <= r[j].start)
  {
    hide Past, Placed, SizesOf;
    PlacedInOrder(SizesOf(p), base, k);
    PlacedInOrder(SizesOf(p), base, j);
    PastShifts(SizesOf(p), base);
  }

  method AllocAndPlace(p: Plan, base: nat) returns (total: nat, regions: seq<Region>)
    ensures total == AllocedTotal(p) && regions == Placed(SizesOf(p), base)
    ensures forall k :: 0 <= k < |regions| ==>
              && regions[k].size == SizesOf(p)[k]
              && regions[k].start % 16 == 0 && base <= regions[k].start && regions[k].End() <= base + total
    ensures forall j, k :: 0 <= j < k < |regions| ==> regions[j].End() <= regions[k].start
  {
    var _, advanceMem := Pass(p, 0);
    total := 15 + advanceMem;
    regions, advanceMem := Pass(p, base);
    hide Placed, Past, SizesOf;
    PastShifts(SizesOf(p), base);
    forall k | 0 <= k < |regions|
      ensures regions[k].size == SizesOf(p)[k]
      ensures regions[k].start % 16 == 0 && base <= regions[k].start && regions[k].End() <= base + total
      ensures forall j :: 0 <= j < k ==> regions[j].End() <= regions[k].start
    {
      PlacedInOrder(SizesOf(p), base, k);
    }
  }

  /** Where the pieces after the splits' buffers begin in the list. */
  function AfterSplits(p: Plan): nat {
    2 + 3 * p.splits
  }

  /** The tables that are pivoted have pieces of their own only when scattering without room in the split buffers. */
  function OwnScratch(p: Plan): nat {
    if p.isGather || (p.decode + p.ring + p.vertical) * p.splits >= p.prescatterContributors + p.prescatterCoefficients
    then 0 else 2
  }

  /** Every piece of the plan has its size in the list, and there are no others. */
  lemma PieceSizes(p: Plan, i: nat)
    ensures var s, at := SizesOf(p), AfterSplits(p);
            var tables := at + OwnScratch(p);
            && |s| == tables + (if p.copyHorizontal then 2 else 4)
            && s[0] == p.info && s[1] == p.splitInfo
            && (i < p.splits ==> s[2 + 3 * i] == p.decode && s[3 + 3 * i] == p.ring && s[4 + 3 * i] == p.vertical)
            && (OwnScratch(p) == 2 ==> s[at] == p.prescatterContributors && s[at + 1] == p.prescatterCoefficients)
            && s[tables] == p.horizontalContributors && s[tables + 1] == p.horizontalCoefficients
            && (!p.copyHorizontal ==>
                  s[tables + 2] == p.verticalContributors && s[tables + 3] == p.verticalCoefficients)
  {
    hide SplitSizes;
    SplitSizesTake(p, p.splits);
    if i < p.splits {
      SplitSizesAt(p, p.splits, i);
    }
  }

  lemma {:induction false} SplitSizesAt(p: Plan, n: nat, i: nat)
    requires i < n
    ensures |SplitSizes(p, n)| == 3 * n
    ensures SplitSizes(p, n)[3 * i] == p.decode && SplitSizes(p, n)[3 * i + 1] == p.ring
    ensures SplitSizes(p, n)[3 * i + 2] == p.vertical
    decreases n
  {
    SplitSizesTake(p, n - 1);
    if i < n - 1 {
      SplitSizesAt(p, n - 1, i);
    }
  }

  /** No room is wasted but for the alignment of each piece. */
  lemma {:induction false} PiecesTight(sizes: seq<nat>, at: nat, k: nat)
    requires k < |sizes|
    ensures var r := Placed(sizes, at);
            && r[k].start < (if k == 0 then at else r[k - 1].End()) + 16
            && Past(sizes, at) == r[|sizes| - 1].End()
    decreases |sizes|
  {
    var before := sizes[..|sizes| - 1];
    if 0 < |before| {
      PiecesTight(before, at, if k < |before| then k else 0);
    }
  }

  // ----- the aliased scratch tables -----

  lemma {:induction false} SplitSizesTake(p: Plan, n: nat)
    ensures |SplitSizes(p, n)| == 3 * n
  {
    if n == 0 {
    } else {
      SplitSizesTake(p, n - 1);
    }
  }

  /** n splits' buffers take at least n times their sizes. */
  lemma {:induction false} SplitsSpan(p: Plan, head: seq<nat>, at: nat, n: nat)
    requires n > 0
    ensures Past(head + SplitSizes(p, n), at) >= AlignUp(Past(head, at)) + (p.decode + p.ring + p.vertical) * n
  {
    hide AlignUp, Past;
    var before, unit := head + SplitSizes(p, n - 1), p.decode + p.ring + p.vertical;
    assert unit * n == unit * (n - 1) + unit;
    PastOfThree(before, at, p.decode, p.ring, p.vertical);
    assert before + [p.decode, p.ring, p.vertical] == head + SplitSizes(p, n);
    if n == 1 {
      assert before == head;
    } else {
      SplitsSpan(p, head, at, n - 1);
    }
  }

  lemma PastOfThree(before: seq<nat>, at: nat, a: nat, b: nat, c: nat)
    ensures Past(before + [a, b, c], at) >= AlignUp(Past(before, at)) + a + b + c
  {
    hide AlignUp, Past;
    PastOfOne(before, at, a);
    PastOfOne(before + [a], at, b);
    PastOfOne(before + [a] + [b], at, c);
    assert before + [a] + [b] + [c] == before + [a, b, c];
  }

  lemma PastOfOne(before: seq<nat>, at: nat, a: nat)
    ensures Past(before + [a], at) == AlignUp(Past(before, at)) + a
  {
    assert (before + [a])[..|before|] == before;
  }

  /** Placing is stable: later pieces do not move earlier ones. */
  lemma {:induction false} PlacedPrefix(sizes: seq<nat>, at: nat, k: nat)
    requires k < |sizes|
    ensures Placed(sizes, at)[k].start == AlignUp(Past(sizes[..k], at))
  {
    if k < |sizes| - 1 {
      var before := sizes[..|sizes| - 1];
      PlacedPrefix(before, at, k);
      assert before[..k] == sizes[..k];
    }
  }

  /** The tables to be pivoted, put on top of the split buffers, end before the coefficient tables and start after the
      bookkeeping. */
  lemma ScratchClear(p: Plan, base: nat, k: nat)
    requires !p.isGather && ScratchFits(p) && p.splits > 0
    requires k < |SizesOf(p)| && (k < 2 || 2 + 3 * p.splits <= k)
    ensures var r := Placed(SizesOf(p), base);
            var scratch := Region(r[2].start, p.prescatterContributors + p.prescatterCoefficients);
            if k < 2 then r[k].End() <= scratch.start else scratch.End() <= r[k].start
  {
    SplitSizesTake(p, p.splits);
    var sizes, first := SizesOf(p), 2 + 3 * p.splits;
    PlacedInOrder(sizes, base, 2);
    if k >= 2 {
      var head := [p.info, p.splitInfo];
      assert sizes[..2] == head && sizes[..first] == head + SplitSizes(p, p.splits);
      SplitsSpan(p, head, base, p.splits);
      PlacedPrefix(sizes, base, 2);
      PlacedPrefix(sizes, base, first);
      PlacedInOrder(sizes, base, k);
    }
  }
}
