/** `stbir__insert_coeff`, and the clamp case of `stbir__cleanup_gathered_coefficients` for one contributor. */
module ClampFold {
  import opened Words
  import opened GatherSpec
  import opened FilterSpec

  // A contributor's group of weights is `width` places of the table of all weights, from place `at` on.

  /** Nothing outside the group has changed. */
  predicate Kept(before: seq<real>, after: seq<real>, at: nat, width: nat) {
    && |before| == |after|
    && forall k :: 0 <= k < |before| && !(at <= k < at + width) ==> after[k] == before[k]
  }

  /** The window grown to reach pixel p, unless that makes it wider than its group. */
  function Widened(c: Contributors, p: int, width: nat): (d: Contributors)
  {
    if c.n1 < c.n0 then Contributors(p, p)
    else if p < c.n0 && c.n1 - p + 1 <= width then Contributors(p, c.n1)
    else if c.n1 < p && p - c.n0 + 1 <= width then Contributors(c.n0, p)
    else c
  }

  /** The weights after an insertion: newCoeff joins newPixel's if the window may reach it, and is lost otherwise. */
  ghost predicate Inserted(c: Contributors, before: seq<real>, d: Contributors, after: seq<real>, p: int, coeff: real) {
    forall q :: Weight(d, after, q) == Weight(c, before, q) + if q == p && d.n0 <= p <= d.n1 then coeff else 0.0
  }

  method InsertCoeff(c: Contributors, table: array<real>, at: nat, width: nat, newPixel: int, newCoeff: real)
    returns (d: Contributors)
    requires 0 < width && at + width <= table.Length && c.n1 - c.n0 + 1 <= width
    modifies table
    ensures d == Widened(c, newPixel, width) && Kept(old(table[..]), table[..], at, width)
    ensures Inserted(c, old(table[at..at + width]), d, table[at..at + width], newPixel, newCoeff)
    ensures c.n0 <= newPixel <= c.n1 ==>
              table[..] == old(table[..])[at + newPixel - c.n0 := old(table[at + newPixel - c.n0]) + newCoeff]
    ensures c.n1 < c.n0 ==> table[..] == old(table[..])[at := newCoeff]
    ensures d == c && c.n0 <= c.n1 && !(c.n0 <= newPixel <= c.n1) ==> table[..] == old(table[..])
  {
    d := c;
    ghost var was := table[at..at + width];
    if c.n1 < c.n0 {
      d := Contributors(newPixel, newPixel);
      table[at] := newCoeff;
      assert table[at..at + width] == was[0 := newCoeff];
    } else if newPixel <= c.n1 {
      if newPixel < c.n0 {
        if c.n1 - newPixel + 1 <= width {
          ShiftUp(table, at, c.n0 - newPixel, c.n1 - c.n0 + 1, newCoeff);
          d := Contributors(newPixel, c.n1);
          ShiftedIn(c, was, table[at..at + width], newPixel, newCoeff);
        }
      } else {
        table[at + newPixel - c.n0] := table[at + newPixel - c.n0] + newCoeff;
        assert table[at..at + width] == was[newPixel - c.n0 := was[newPixel - c.n0] + newCoeff];
      }
    } else if newPixel - c.n0 + 1 <= width {
      Extend(c, table, at, width, newPixel, newCoeff);
      d := Contributors(c.n0, newPixel);
    }
  }

  lemma ShiftedIn(c: Contributors, was: seq<real>, now: seq<real>, p: int, coeff: real)
    requires p < c.n0 <= c.n1 && c.n1 - p < |now| == |was| && now[0] == coeff
    requires forall i :: 0 < i < c.n0 - p ==> now[i] == 0.0
    requires forall i :: c.n0 - p <= i <= c.n1 - p ==> now[i] == was[i - (c.n0 - p)]
    ensures Inserted(c, was, Contributors(p, c.n1), now, p, coeff)
  {
    forall q ensures Weight(Contributors(p, c.n1), now, q) == Weight(c, was, q) + if q == p then coeff else 0.0 {
      if c.n0 <= q <= c.n1 {
        assert now[q - p] == was[q - p - (c.n0 - p)];
      }
    }
  }

  /** The loop that clears the weights in between. */
  method Clear(table: array<real>, a: nat, b: nat)
    requires a <= b <= table.Length
    modifies table
    ensures forall i :: 0 <= i < table.Length ==> table[i] == if a <= i < b then 0.0 else old(table[i])
  {
    for j := a to b
      invariant forall i :: 0 <= i < table.Length ==> table[i] == if a <= i < j then 0.0 else old(table[i])
    {
      table[j] := 0.0;
    }
  }

  /** Moves n weights up by o places and puts newCoeff first, with zeros between it and them. */
  method ShiftUp(table: array<real>, at: nat, o: nat, n: nat, newCoeff: real)
    requires 0 < o && at + o + n <= table.Length
    modifies table
    ensures table[at] == newCoeff
    ensures forall i :: at < i < at + o ==> table[i] == 0.0
    ensures forall i :: at + o <= i < at + o + n ==> table[i] == old(table[i - o])
    ensures forall i :: 0 <= i < table.Length && !(at <= i < at + o + n) ==> table[i] == old(table[i])
  {
    var j := n - 1;
    while j >= 0
      invariant -1 <= j < n
      invariant forall i :: 0 <= i <= at + j ==> table[i] == old(table[i])
      invariant forall i :: at + o + j < i < at + o + n ==> table[i] == old(table[i - o])
      invariant forall i :: 0 <= i < table.Length && !(at <= i < at + o + n) ==> table[i] == old(table[i])
    {
      table[at + j + o] := table[at + j];
      j := j - 1;
    }
    Clear(table, at + 1, at + o);
    table[at] := newCoeff;
  }

  /** Reaching past the end of the window, with zeros between the old pixels and the new one. */
  method Extend(c: Contributors, table: array<real>, at: nat, width: nat, newPixel: int, newCoeff: real)
    requires c.n0 <= c.n1 < newPixel && newPixel - c.n0 < width && at + width <= table.Length
    modifies table
    ensures Kept(old(table[..]), table[..], at, width)
    ensures Inserted(c, old(table[at..at + width]), Contributors(c.n0, newPixel), table[at..at + width],
                     newPixel, newCoeff)
  {
    Clear(table, at + c.n1 - c.n0 + 1, at + newPixel - c.n0);
    table[at + newPixel - c.n0] := newCoeff;
  }

  // ----- the right edge -----

  /** Place k of the table, or what the memory around it holds there. */
  function Peek(table: seq<real>, outside: int -> real, k: int): real {
    if 0 <= k < |table| then table[k] else outside(k)
  }

  /** Places a to b-1, added up. */
  function SumOf(table: seq<real>, outside: int -> real, a: int, b: int): real
    decreases b - a
  {
    if b <= a then 0.0 else SumOf(table, outside, a, b - 1) + Peek(table, outside, b - 1)
  }

  /** A nonempty window with its group of weights in the table. */
  predicate Placed(c: Contributors, at: nat, width: nat, size: nat, length: nat) {
    size > 0 && c.n0 <= c.n1 && c.n1 - c.n0 < width && at + width <= length
  }

  /** What sits on the last pixel when the overhang up to pixel i has been added, for a window that starts beyond the
      pixel after the last: places before the group are taken for its first ones, and the first one for itself. */
  function Beyond(c: Contributors, table: seq<real>, outside: int -> real, at: nat, width: nat, size: nat, i: int): real
    requires Placed(c, at, width, size, |table|) && size < c.n0
  {
    var stale := at - (c.n0 - size);
    if i <= c.n0 then SumOf(table, outside, stale, at + i - c.n0)
    else 2.0 * SumOf(table, outside, stale, at) + WeightOn(c, table[at..at + width], c.n0 + 1, i)
  }

  /** The right overhang has been folded up to pixel i. */
  ghost predicate RightSoFar(c: Contributors, before: seq<real>, outside: int -> real, at: nat, width: nat, size: nat,
                             i: int, d: Contributors, after: seq<real>)
    requires Placed(c, at, width, size, |before|) && |after| == |before|
  {
    var was, now := before[at..at + width], after[at..at + width];
    && Kept(before, after, at, width)
    && (forall k :: 0 <= k < width && i - c.n0 <= k && 0 < k ==> now[k] == was[k])
    && if c.n0 <= size then
         && d == Contributors(if i > size && c.n0 == size then size - 1 else c.n0, size - 1)
         && (i <= c.n0 ==> now[0] == was[0])
         && (forall q :: q != size - 1 ==> Weight(d, now, q) == if q >= size then 0.0 else Weight(c, was, q))
         && Weight(d, now, size - 1) == Weight(c, was, size - 1) + WeightOn(c, was, size, i)
       else if i == size then d == Contributors(c.n0, size - 1) && after == before
       else d == Contributors(size - 1, size - 1) && now[0] == Beyond(c, before, outside, at, width, size, i)
  }

  /** The overhang past the last pixel is added to the last pixel. */
  method FoldRight(c: Contributors, table: array<real>, outside: int -> real, at: nat, width: nat, size: nat)
    returns (d: Contributors)
    requires Placed(c, at, width, size, table.Length)
    modifies table
    ensures if size <= c.n1 then RightSoFar(c, old(table[..]), outside, at, width, size, c.n1 + 1, d, table[..])
            else d == c && table[..] == old(table[..])
  {
    d := c;
    ghost var before := table[..];
    if c.n1 > size - 1 {
      d := Contributors(c.n0, size - 1);
      for i := size to c.n1 + 1
        invariant RightSoFar(c, before, outside, at, width, size, i, d, table[..])
      {
        d := RightStep(c, before, table, outside, at, width, size, i, d);
      }
    }
  }

  method RightStep(c: Contributors, ghost before: seq<real>, table: array<real>, outside: int -> real, at: nat,
                   width: nat, size: nat, i: nat, d: Contributors) returns (d': Contributors)
    requires Placed(c, at, width, size, table.Length) && |before| == table.Length && size <= i <= c.n1
    requires RightSoFar(c, before, outside, at, width, size, i, d, table[..])
    modifies table
    ensures RightSoFar(c, before, outside, at, width, size, i + 1, d', table[..])
  {
    ghost var mid := table[..];
    d' := InsertCoeff(d, table, at, width, Clamp(i, size), Peek(table[..], outside, at + i - c.n0));
    hide RightSoFar;
    if c.n0 <= size {
      RightInside(c, before, outside, at, width, size, i, d, mid, d', table[..]);
    } else {
      RightBeyond(c, before, outside, at, width, size, i, d, mid, d', table[..]);
    }
  }

  /** One weight has been added to the last pixel. */
  ghost predicate OneMore(at: nat, width: nat, size: nat, d: Contributors, mid: seq<real>, d': Contributors,
                          after: seq<real>, coeff: real)
    requires 0 < width && at + width <= |mid|
  {
    && d' == Widened(d, size - 1, width)
    && after == if d.n1 < d.n0 then mid[at := coeff]
                else if 0 <= size - 1 - d.n0 < width then mid[at + size - 1 - d.n0 := mid[at + size - 1 - d.n0] + coeff]
                else mid
  }

  lemma RightInside(c: Contributors, before: seq<real>, outside: int -> real, at: nat, width: nat, size: nat, i: nat,
                    d: Contributors, mid: seq<real>, d': Contributors, after: seq<real>)
    requires Placed(c, at, width, size, |before|) && |mid| == |before| && size <= i <= c.n1 && c.n0 <= size
    requires RightSoFar(c, before, outside, at, width, size, i, d, mid)
    requires OneMore(at, width, size, d, mid, d', after, Peek(mid, outside, at + i - c.n0))
    ensures RightSoFar(c, before, outside, at, width, size, i + 1, d', after)
  {
    var was, group, now := before[at..at + width], mid[at..at + width], after[at..at + width];
    WeightOnNext(c, was, size, i);
    hide WeightOn;
    assert group[i - c.n0] == was[i - c.n0];
    forall k | 0 < k < width && i + 1 - c.n0 <= k ensures now[k] == was[k] {
      assert group[k] == was[k];
    }
  }

  lemma RightBeyond(c: Contributors, before: seq<real>, outside: int -> real, at: nat, width: nat, size: nat, i: nat,
                    d: Contributors, mid: seq<real>, d': Contributors, after: seq<real>)
    requires Placed(c, at, width, size, |before|) && |mid| == |before| && size <= i <= c.n1 && size < c.n0
    requires RightSoFar(c, before, outside, at, width, size, i, d, mid)
    requires OneMore(at, width, size, d, mid, d', after, Peek(mid, outside, at + i - c.n0))
    ensures RightSoFar(c, before, outside, at, width, size, i + 1, d', after)
  {
    var was, group := before[at..at + width], mid[at..at + width];
    BeyondNext(c, before, outside, at, width, size, i);
    hide Beyond, WeightOn;
    if c.n0 < i {
      assert group[i - c.n0] == was[i - c.n0];
    }
    forall k | 0 < k < width && i + 1 - c.n0 <= k ensures after[at..at + width][k] == was[k] {
      assert group[k] == was[k];
    }
  }

  lemma WeightOnNext(c: Contributors, coeffs: seq<real>, a: int, b: int)
    requires a <= b
    ensures WeightOn(c, coeffs, a, b + 1) == WeightOn(c, coeffs, a, b) + Weight(c, coeffs, b)
  {
  }

  lemma BeyondNext(c: Contributors, table: seq<real>, outside: int -> real, at: nat, width: nat, size: nat, i: int)
    requires Placed(c, at, width, size, |table|) && size < c.n0 && size <= i <= c.n1
    ensures Beyond(c, table, outside, at, width, size, size) == 0.0
    ensures Beyond(c, table, outside, at, width, size, i + 1)
         == Beyond(c, table, outside, at, width, size, i)
          + if i == c.n0 then Beyond(c, table, outside, at, width, size, i) else Peek(table, outside, at + i - c.n0)
  {
    if c.n0 < i {
      WeightOnNext(c, table[at..at + width], c.n0 + 1, i);
    }
  }

  // ----- the left edge -----

  /** What the fold takes for the weight of pixel -1 if the window ends before that pixel and can be extended to 0. */
  function Stale(c: Contributors, was: seq<real>): real
    requires c.n0 <= c.n1
  {
    if c.n1 < -1 && -c.n0 < |was| then was[-1 - c.n0] else 0.0
  }

  /** The weight of pixel q once the left overhang is folded: if pixel 0 does not fit, only the first weight is left. */
  function LeftFolded(c: Contributors, was: seq<real>, q: int): real
    requires c.n0 <= c.n1 && was != []
  {
    if q < 0 then 0.0
    else if 0 < q then Weight(c, was, q)
    else if |was| <= -c.n0 then was[0]
    else Weight(c, was, 0) + WeightOn(c, was, c.n0, 0) + Stale(c, was)
  }

  ghost predicate LeftDone(c: Contributors, was: seq<real>, d: Contributors, now: seq<real>)
    requires c.n0 <= c.n1 && was != []
  {
    forall q :: Weight(d, now, q) == LeftFolded(c, was, q)
  }

  /** The overhang before pixel 0 is added to pixel 0, all but its first weight, which follows once the rest has slid
      down. */
  method FoldLeft(c: Contributors, table: array<real>, outside: int -> real, at: nat, width: nat, size: nat)
    returns (d: Contributors)
    requires Placed(c, at, width, size, table.Length) && c.n1 < size
    modifies table
    ensures d == Contributors(if c.n0 < 0 then 0 else c.n0, if c.n1 < 0 then 0 else c.n1)
    ensures Kept(old(table[..]), table[..], at, width)
    ensures LeftDone(c, old(table[at..at + width]), d, table[at..at + width])
  {
    d := c;
    ghost var was := table[at..at + width];
    if c.n0 < 0 {
      hide WeightOn;
      var e := AddOverhang(c, table, outside, at, width, size);
      var saved := table[at];
      assert saved == Weight(e, table[at..at + width], c.n0) == Weight(c, was, c.n0);
      d := DropOverhang(e, table, at, width);
      WeightOnFromLeft(c, was, c.n0, 0);
      d := InsertCoeff(d, table, at, width, Clamp(c.n0, size), saved);
    }
  }

  /** The window while the overhang is added: extended to pixel 0 if that is possible. */
  function Reached(c: Contributors, width: nat, i: int): Contributors {
    Contributors(c.n0, if c.n1 < 0 && i < -1 && -c.n0 < width then 0 else c.n1)
  }

  /** The weights after i have been added to pixel 0, if it could be reached. */
  ghost predicate LeftSoFar(c: Contributors, before: seq<real>, at: nat, width: nat, i: int, d: Contributors,
                            after: seq<real>)
    requires c.n0 <= c.n1 && at + width <= |before| == |after|
  {
    var was, now := before[at..at + width], after[at..at + width];
    && d == Reached(c, width, i) && Kept(before, after, at, width)
    && (i == -1 || width <= -c.n0 ==> after == before)
    && (forall q :: q != 0 ==> Weight(d, now, q) == Weight(c, was, q))
    && Weight(d, now, 0) == if width <= -c.n0 then 0.0
         else Weight(c, was, 0) + WeightOn(c, was, i + 1, 0) + if i < -1 then Stale(c, was) else 0.0
  }

  /** All weights before pixel 0 but the first are added to pixel 0, in place. */
  method AddOverhang(c: Contributors, table: array<real>, outside: int -> real, at: nat, width: nat, size: nat)
    returns (d: Contributors)
    requires Placed(c, at, width, size, table.Length) && c.n0 < 0 && c.n1 < size
    modifies table
    ensures LeftSoFar(c, old(table[..]), at, width, c.n0, d, table[..])
  {
    d := c;
    ghost var before := table[..];
    var i := -1;
    while i > c.n0
      invariant c.n0 <= i <= -1
      invariant LeftSoFar(c, before, at, width, i, d, table[..])
    {
      d := LeftStep(c, before, table, outside, at, width, size, i, d);
      i := i - 1;
    }
  }

  method LeftStep(c: Contributors, ghost before: seq<real>, table: array<real>, outside: int -> real, at: nat,
                  width: nat, size: nat, i: int, d: Contributors) returns (d': Contributors)
    requires Placed(c, at, width, size, table.Length) && |before| == table.Length && c.n0 < i < 0 && c.n1 < size
    requires LeftSoFar(c, before, at, width, i, d, table[..])
    modifies table
    ensures LeftSoFar(c, before, at, width, i - 1, d', table[..])
  {
    ghost var was, mid := before[at..at + width], table[at..at + width];
    WeightOnFromLeft(c, was, i, 0);
    hide WeightOn;
    if -c.n0 < width {
      assert Weight(d, mid, i) == Weight(c, was, i);
    }
    d' := InsertCoeff(d, table, at, width, Clamp(i, size), Peek(table[..], outside, at + i - c.n0));
  }

  lemma {:induction false} WeightOnFromLeft(c: Contributors, coeffs: seq<real>, a: int, b: int)
    requires a < b
    ensures WeightOn(c, coeffs, a, b) == Weight(c, coeffs, a) + WeightOn(c, coeffs, a + 1, b)
  {
    TotalSplits(Weights(c, coeffs), One, a, a + 1, b);
  }

  /** The weights before pixel 0 are gone. */
  ghost predicate Cut(c: Contributors, was: seq<real>, d: Contributors, now: seq<real>) {
    forall q :: Weight(d, now, q) == if q < 0 then 0.0 else Weight(c, was, q)
  }

  /** Slides the weights of pixels 0 and up to the front. */
  method DropOverhang(c: Contributors, table: array<real>, at: nat, width: nat) returns (d: Contributors)
    requires c.n0 < 0 && c.n1 - c.n0 < width && at + width <= table.Length
    modifies table
    ensures d == Contributors(0, c.n1) && Kept(old(table[..]), table[..], at, width)
    ensures Cut(c, old(table[at..at + width]), d, table[at..at + width])
  {
    d := Contributors(0, c.n1);
    var i := 0;
    while i <= c.n1
      invariant 0 <= i && (0 <= c.n1 ==> i <= c.n1 + 1) && (c.n1 < 0 ==> i == 0)
      invariant forall k :: at <= k < at + i ==> table[k] == old(table[k - c.n0])
      invariant forall k :: 0 <= k < table.Length && !(at <= k < at + i) ==> table[k] == old(table[k])
    {
      table[at + i] := table[at + i - c.n0];
      i := i + 1;
    }
    ghost var was, now := old(table[at..at + width]), table[at..at + width];
    forall q | 0 <= q <= c.n1 ensures now[q] == was[q - c.n0] {
      assert now[q] == table[at + q] && was[q - c.n0] == old(table[at + q - c.n0]);
    }
    hide Cut, Kept;
    CutIs(c, was, now);
  }

  lemma CutIs(c: Contributors, was: seq<real>, now: seq<real>)
    requires c.n0 < 0 && c.n1 - c.n0 < |was| == |now| && forall q :: 0 <= q <= c.n1 ==> now[q] == was[q - c.n0]
    ensures Cut(c, was, Contributors(0, c.n1), now)
  {
  }

  ghost predicate SameWeights(c: Contributors, was: seq<real>, d: Contributors, now: seq<real>) {
    forall q :: Weight(d, now, q) == Weight(c, was, q)
  }

  /** Trailing zero weights are dropped, and unused ones cleared. */
  method Trim(c: Contributors, table: array<real>, at: nat, width: nat) returns (d: Contributors)
    requires c.n0 <= c.n1 && c.n1 - c.n0 < width && at + width <= table.Length
    modifies table
    ensures d.n0 == c.n0 && d.n0 - 1 <= d.n1 <= c.n1 && Kept(old(table[..]), table[..], at, width)
    ensures SameWeights(c, old(table[at..at + width]), d, table[at..at + width])
    ensures d.n0 <= d.n1 ==> Weight(d, table[at..at + width], d.n1) != 0.0
    ensures forall k :: at + d.n1 - d.n0 < k < at + width ==> table[k] == 0.0
  {
    var diff := c.n1 - c.n0 + 1;
    while diff > 0 && table[at + diff - 1] == 0.0
      invariant 0 <= diff <= c.n1 - c.n0 + 1
      invariant forall k :: at + diff <= k <= at + c.n1 - c.n0 ==> table[k] == 0.0
    {
      diff := diff - 1;
    }
    d := Contributors(c.n0, c.n0 + diff - 1);
    for i := diff to width
      invariant forall k :: 0 <= k < table.Length && !(at + diff <= k < at + i) ==> table[k] == old(table[k])
      invariant forall k :: at + diff <= k < at + i ==> table[k] == 0.0
    {
      table[at + i] := 0.0;
    }
    ghost var was, now := old(table[at..at + width]), table[at..at + width];
    forall q ensures Weight(d, now, q) == Weight(c, was, q) {
      if c.n0 <= q <= c.n1 {
        assert now[q - c.n0] == table[at + q - c.n0] && was[q - c.n0] == old(table[at + q - c.n0]);
      }
    }
  }

  // ----- both edges -----

  /** What ends up on the edge pixel beyond the weight that belongs there. */
  function Excess(c: Contributors, table: seq<real>, outside: int -> real, at: nat, width: nat, size: nat): real
    requires Placed(c, at, width, size, |table|)
  {
    if size < c.n0 then 2.0 * SumOf(table, outside, at - (c.n0 - size), at) - table[at]
    else if width <= -c.n0 then -WeightOn(c, table[at..at + width], c.n0 + 1, 0)
    else if c.n1 < -1 then table[at - 1 - c.n0]
    else 0.0
  }

  /** The edge pixel in question. */
  function Edge(c: Contributors, size: nat): nat
    requires size > 0
  {
    if size < c.n0 then size - 1 else 0
  }

  /** The clean-up is exact: it filters all pixels as the original window does on clamped ones. */
  ghost predicate Exact(c: Contributors, was: seq<real>, size: nat, d: Contributors, now: seq<real>)
    requires size > 0
  {
    forall px :: Filtered(d, now, px) == Filtered(c, was, Edged(px, size))
  }

  /** The contributors d with their group in `after` lie in the image, and filter as c with its group in `before` did on
      clamped pixels, but for the excess on the edge pixel. */
  ghost predicate CleanedFrom(c: Contributors, before: seq<real>, outside: int -> real, at: nat, width: nat, size: nat,
                              d: Contributors, after: seq<real>)
    requires Placed(c, at, width, size, |before|) && |after| == |before|
  {
    var was, now, extra := before[at..at + width], after[at..at + width], Excess(c, before, outside, at, width, size);
    && 0 <= d.n0 <= d.n1 + 1 <= size
    && (forall px :: Filtered(d, now, px) == Filtered(c, was, Edged(px, size)) + extra * px(Edge(c, size)))
    && (Exact(c, was, size, d, now) <==> extra == 0.0)
  }

  /**
    One contributor under STBIR_EDGE_CLAMP, whatever its window and whatever stands around its group: the folded window
    lies in the image, and filters as the original did on clamped pixels but for an excess on the edge pixel.
   */
  method CleanupClamped(c: Contributors, table: array<real>, outside: int -> real, at: nat, width: nat, size: nat)
    returns (d: Contributors)
    requires Placed(c, at, width, size, table.Length)
    modifies table
    ensures CleanedFrom(c, old(table[..]), outside, at, width, size, d, table[..])
    ensures Kept(old(table[..]), table[..], at, width)
    ensures Overlaps(c, size) ==> c.n0 <= d.n0 && d.n1 <= c.n1
    ensures d.n0 <= d.n1 ==> Weight(d, table[at..at + width], d.n1) != 0.0
    ensures forall k :: at + d.n1 - d.n0 < k < at + width ==> table[k] == 0.0
  {
    hide RightSoFar, Excess, Filtered, Edged, LeftDone, SameWeights, Exact;
    ghost var before := table[..];
    var right := FoldRight(c, table, outside, at, width, size);
    ghost var mid := table[..];
    RightEnds(c, before, outside, at, width, size, right, mid);
    var inside := FoldLeft(right, table, outside, at, width, size);
    ghost var folded := table[..];
    d := Trim(inside, table, at, width);
    CleanedUp(c, before, outside, at, width, size, right, mid, inside, folded[at..at + width], d,
              table[at..at + width]);
    hide CleanedFrom, Weighted, Kept;
    WeightedCleans(c, before, outside, at, width, size, d, table[..]);
    KeptTwice(before, mid, folded, at, width);
    KeptTwice(before, folded, table[..], at, width);
  }

  lemma KeptTwice(before: seq<real>, mid: seq<real>, after: seq<real>, at: nat, width: nat)
    requires Kept(before, mid, at, width) && Kept(mid, after, at, width)
    ensures Kept(before, after, at, width)
  {
  }

  lemma WeightedCleans(c: Contributors, before: seq<real>, outside: int -> real, at: nat, width: nat, size: nat,
                       d: Contributors, after: seq<real>)
    requires Placed(c, at, width, size, |before|) && |after| == |before| && 0 <= d.n0 <= d.n1 + 1 <= size
    requires Weighted(c, before, outside, at, width, size, d, after[at..at + width])
    ensures CleanedFrom(c, before, outside, at, width, size, d, after)
  {
    hide Excess, Filtered, Edged, Exact, Weighted;
    FilteredSoIs(c, before, outside, at, width, size, d, after[at..at + width]);
  }

  lemma RightEnds(c: Contributors, before: seq<real>, outside: int -> real, at: nat, width: nat, size: nat,
                  right: Contributors, mid: seq<real>)
    requires Placed(c, at, width, size, |before|) && |mid| == |before|
    requires if size <= c.n1 then RightSoFar(c, before, outside, at, width, size, c.n1 + 1, right, mid)
             else right == c && mid == before
    ensures Kept(before, mid, at, width) && Placed(right, at, width, size, |mid|)
    ensures right == Contributors(if size <= c.n0 then size - 1 else c.n0, if size <= c.n1 then size - 1 else c.n1)
  {
  }

  /** The weights after both folds. */
  lemma CleanedUp(c: Contributors, before: seq<real>, outside: int -> real, at: nat, width: nat, size: nat,
                  right: Contributors, mid: seq<real>, inside: Contributors, folded: seq<real>, d: Contributors,
                  now: seq<real>)
    requires Placed(c, at, width, size, |before|) && |mid| == |before| && right.n0 <= right.n1
    requires if size <= c.n1 then RightSoFar(c, before, outside, at, width, size, c.n1 + 1, right, mid)
             else right == c && mid == before
    requires LeftDone(right, mid[at..at + width], inside, folded) && SameWeights(inside, folded, d, now)
    ensures Weighted(c, before, outside, at, width, size, d, now)
  {
    hide RightSoFar, Extra, Folded, LeftFolded, Weight;
    var was := before[at..at + width];
    forall q ensures Weight(d, now, q) == Folded(c, was, size, q) + Extra(c, before, outside, at, width, size, q) {
      Folds(c, before, outside, at, width, size, right, mid, q);
      assert Weight(d, now, q) == Weight(inside, folded, q);
    }
  }

  ghost predicate Weighted(c: Contributors, table: seq<real>, outside: int -> real, at: nat, width: nat, size: nat,
                           d: Contributors, now: seq<real>)
    requires Placed(c, at, width, size, |table|)
  {
    var was := table[at..at + width];
    forall q :: Weight(d, now, q) == Folded(c, was, size, q) + Extra(c, table, outside, at, width, size, q)
  }

  function Extra(c: Contributors, table: seq<real>, outside: int -> real, at: nat, width: nat, size: nat, q: int): real
    requires Placed(c, at, width, size, |table|)
  {
    if q == Edge(c, size) then Excess(c, table, outside, at, width, size) else 0.0
  }

  /** Both folds together. */
  lemma Folds(c: Contributors, before: seq<real>, outside: int -> real, at: nat, width: nat, size: nat,
              right: Contributors, mid: seq<real>, q: int)
    requires Placed(c, at, width, size, |before|) && |mid| == |before|
    requires if size <= c.n1 then RightSoFar(c, before, outside, at, width, size, c.n1 + 1, right, mid)
             else right == c && mid == before
    ensures right.n0 <= right.n1
    ensures LeftFolded(right, mid[at..at + width], q)
         == Folded(c, before[at..at + width], size, q) + Extra(c, before, outside, at, width, size, q)
  {
    if c.n1 < size {
      FoldsLeft(c, before, outside, at, width, size, q);
    } else if c.n0 <= size {
      FoldsInside(c, before[at..at + width], size, right, mid[at..at + width], q);
    } else {
      FoldsBeyond(c, before, outside, at, width, size, q);
    }
  }

  lemma FoldsLeft(c: Contributors, table: seq<real>, outside: int -> real, at: nat, width: nat, size: nat, q: int)
    requires Placed(c, at, width, size, |table|) && c.n1 < size
    ensures var was := table[at..at + width];
            LeftFolded(c, was, q) == Folded(c, was, size, q) + Extra(c, table, outside, at, width, size, q)
  {
    if c.n0 < 0 {
      WeightOnFromLeft(c, table[at..at + width], c.n0, 0);
    }
  }

  lemma FoldsInside(c: Contributors, was: seq<real>, size: nat, right: Contributors, mid: seq<real>, q: int)
    requires size > 0 && c.n0 <= size <= c.n1 && c.n1 - c.n0 < |was| == |mid|
    requires right == Contributors(if c.n0 == size then size - 1 else c.n0, size - 1)
    requires forall p :: p != size - 1 ==> Weight(right, mid, p) == if p >= size then 0.0 else Weight(c, was, p)
    requires Weight(right, mid, size - 1) == Weight(c, was, size - 1) + WeightOn(c, was, size, c.n1 + 1)
    ensures LeftFolded(right, mid, q) == Folded(c, was, size, q)
  {
    if c.n0 < 0 {
      TotalAgrees(Weights(right, mid), Weights(c, was), One, One, c.n0, 0);
    }
  }

  lemma FoldsBeyond(c: Contributors, table: seq<real>, outside: int -> real, at: nat, width: nat, size: nat, q: int)
    requires Placed(c, at, width, size, |table|) && size < c.n0
    ensures (if q == size - 1 then Beyond(c, table, outside, at, width, size, c.n1 + 1) else 0.0)
         == Folded(c, table[at..at + width], size, q) + Extra(c, table, outside, at, width, size, q)
  {
    var was := table[at..at + width];
    TotalSplits(Weights(c, was), One, size, c.n0, c.n1 + 1);
    TotalOfZeros(Weights(c, was), One, size, c.n0);
    WeightOnFromLeft(c, was, c.n0, c.n1 + 1);
  }

  /** What the weights say of the pixels. */
  lemma FilteredSoIs(c: Contributors, table: seq<real>, outside: int -> real, at: nat, width: nat, size: nat,
                     d: Contributors, now: seq<real>)
    requires Placed(c, at, width, size, |table|) && 0 <= d.n0 && d.n1 < size && d.n0 <= d.n1 + 1
    requires Weighted(c, table, outside, at, width, size, d, now)
    ensures forall px :: Filtered(d, now, px) == Filtered(c, table[at..at + width], Edged(px, size))
                                               + Excess(c, table, outside, at, width, size) * px(Edge(c, size))
    ensures Exact(c, table[at..at + width], size, d, now) <==> Excess(c, table, outside, at, width, size) == 0.0
  {
    var was, extra, e := table[at..at + width], Excess(c, table, outside, at, width, size), Edge(c, size);
    hide Excess, Filtered, Edged, Folded;
    forall px: int -> real
      ensures Filtered(d, now, px) == Filtered(c, was, Edged(px, size)) + extra * px(e)
    {
      FoldingAdds(c, was, size, d, now, e, extra, px);
    }
    assert Filtered(d, now, One) == Filtered(c, was, Edged(One, size)) + extra * One(e);
    assert One(e) == 1.0;
  }

  // ----- all contributors -----

  /** Where group n starts. */
  function Start(n: nat, width: nat): nat {
    n * width
  }

  lemma StartBefore(k: nat, n: nat, width: nat)
    requires k < n
    ensures Start(k + 1, width) == Start(k, width) + width <= Start(n, width)
  {
    MulMono(k + 1, n, width);
  }

  /** Nonempty windows, a group of weights for each. */
  predicate Grouped(contribs: seq<Contributors>, width: nat, size: nat, length: nat) {
    && size > 0 && length == Start(|contribs|, width)
    && forall n :: 0 <= n < |contribs| ==> contribs[n].n0 <= contribs[n].n1 && contribs[n].n1 - contribs[n].n0 < width
  }

  lemma GroupPlaced(contribs: seq<Contributors>, width: nat, size: nat, length: nat, n: nat)
    requires Grouped(contribs, width, size, length) && n < |contribs|
    ensures Placed(contribs[n], Start(n, width), width, size, length)
  {
    StartBefore(n, |contribs|, width);
  }

  /** The table when contributor n's turn has come: the groups before it are cleaned up, the others as they were. */
  function TableAt(before: seq<real>, after: seq<real>, at: nat): (t: seq<real>)
    requires at <= |before| == |after|
    ensures |t| == |before|
  {
    after[..at] + before[at..]
  }

  /** Contributor n is cleaned up, but for the excess that its window and its neighbours' weights bring about. */
  ghost predicate CleanedAt(was: seq<Contributors>, now: seq<Contributors>, before: seq<real>, after: seq<real>,
                            outside: int -> real, width: nat, size: nat, n: nat)
    requires n < |was| == |now| && |before| == |after| && Grouped(was, width, size, |before|)
  {
    var at := Start(n, width);
    GroupPlaced(was, width, size, |before|, n);
    CleanedFrom(was[n], TableAt(before, after, at), outside, at, width, size, now[n], after)
  }

  /** The clean-up loop of `stbir__cleanup_gathered_coefficients` under STBIR_EDGE_CLAMP. */
  method CleanupAll(contribs: array<Contributors>, table: array<real>, outside: int -> real, width: nat, size: nat)
    requires Grouped(contribs[..], width, size, table.Length)
    modifies contribs, table
    ensures forall n :: 0 <= n < contribs.Length ==>
              CleanedAt(old(contribs[..]), contribs[..], old(table[..]), table[..], outside, width, size, n)
  {
    hide CleanedAt, Start;
    ghost var was, before := contribs[..], table[..];
    var at := 0;
    assert at == Start(0, width) by {
      StartZero(width);
    }
    for n := 0 to contribs.Length
      invariant at == Start(n, width) <= table.Length
      invariant forall k :: n <= k < contribs.Length ==> contribs[k] == was[k]
      invariant forall k :: at <= k < table.Length ==> table[k] == before[k]
      invariant forall k :: 0 <= k < n ==> CleanedAt(was, contribs[..], before, table[..], outside, width, size, k)
    {
      CleanupOne(was, before, contribs, table, outside, width, size, n, at);
      StartBefore(n, contribs.Length, width);
      at := at + width;
    }
  }

  lemma StartZero(width: nat)
    ensures Start(0, width) == 0
  {
  }

  /** One round of it. */
  method CleanupOne(ghost was: seq<Contributors>, ghost before: seq<real>, contribs: array<Contributors>,
                    table: array<real>, outside: int -> real, width: nat, size: nat, n: nat, at: nat)
    requires n < |was| == contribs.Length && |before| == table.Length && Grouped(was, width, size, |before|)
    requires at == Start(n, width) <= table.Length
    requires forall k :: n <= k < contribs.Length ==> contribs[k] == was[k]
    requires forall k :: at <= k < table.Length ==> table[k] == before[k]
    requires forall k :: 0 <= k < n ==> CleanedAt(was, contribs[..], before, table[..], outside, width, size, k)
    modifies contribs, table
    ensures forall k :: n < k < contribs.Length ==> contribs[k] == was[k]
    ensures forall k :: at + width <= k < table.Length ==> table[k] == before[k]
    ensures forall k :: 0 <= k <= n ==> CleanedAt(was, contribs[..], before, table[..], outside, width, size, k)
  {
    hide CleanedAt, CleanedFrom, Start, Kept;
    GroupPlaced(was, width, size, |before|, n);
    ghost var mid, cleaned := table[..], contribs[..];
    contribs[n] := CleanupClamped(contribs[n], table, outside, at, width, size);
    forall k | 0 <= k < n ensures CleanedAt(was, contribs[..], before, table[..], outside, width, size, k) {
      StartBefore(k, n, width);
      KeptBefore(mid, table[..], at, width, Start(k, width) + width);
      StaysClean(was, cleaned, contribs[..], before, mid, table[..], outside, width, size, k);
    }
    KeptBehind(mid, table[..], at, width);
    assert mid[at..] == before[at..];
    OneCleaned(was, contribs[..], before, mid, table[..], outside, width, size, n);
  }

  lemma KeptBefore(mid: seq<real>, after: seq<real>, at: nat, width: nat, end: nat)
    requires Kept(mid, after, at, width) && end <= at <= |mid|
    ensures mid[..end] == after[..end]
  {
  }

  lemma KeptBehind(mid: seq<real>, after: seq<real>, at: nat, width: nat)
    requires Kept(mid, after, at, width)
    ensures forall k :: at + width <= k < |mid| ==> after[k] == mid[k]
  {
  }

  lemma OneCleaned(was: seq<Contributors>, now: seq<Contributors>, before: seq<real>, mid: seq<real>, after: seq<real>,
                   outside: int -> real, width: nat, size: nat, n: nat)
    requires n < |was| == |now| && |before| == |mid| == |after| && Grouped(was, width, size, |before|)
    requires Placed(was[n], Start(n, width), width, size, |before|)
    requires Kept(mid, after, Start(n, width), width) && mid[Start(n, width)..] == before[Start(n, width)..]
    requires CleanedFrom(was[n], mid, outside, Start(n, width), width, size, now[n], after)
    ensures CleanedAt(was, now, before, after, outside, width, size, n)
  {
    hide CleanedFrom, Start;
    assert TableAt(before, after, Start(n, width)) == mid;
  }

  /** What happens behind group n leaves contributor n as it is. */
  lemma StaysClean(was: seq<Contributors>, now: seq<Contributors>, later: seq<Contributors>, before: seq<real>,
                   after: seq<real>, last: seq<real>, outside: int -> real, width: nat, size: nat, n: nat)
    requires n < |was| == |now| == |later| && |before| == |after| == |last| && Grouped(was, width, size, |before|)
    requires CleanedAt(was, now, before, after, outside, width, size, n) && later[n] == now[n]
    requires Start(n, width) + width <= |after|
    requires after[..Start(n, width) + width] == last[..Start(n, width) + width]
    ensures CleanedAt(was, later, before, last, outside, width, size, n)
  {
    var at := Start(n, width);
    GroupPlaced(was, width, size, |before|, n);
    assert after[..at] == after[..at + width][..at] == last[..at];
    assert after[at..at + width] == after[..at + width][at..] == last[at..at + width];
    hide Start, Grouped, Placed;
    SameGroup(was[n], TableAt(before, after, at), outside, at, width, size, now[n], after, last);
  }

  lemma SameGroup(c: Contributors, before: seq<real>, outside: int -> real, at: nat, width: nat, size: nat,
                  d: Contributors, after: seq<real>, last: seq<real>)
    requires Placed(c, at, width, size, |before|) && |before| == |after| == |last|
    requires CleanedFrom(c, before, outside, at, width, size, d, after)
    requires after[at..at + width] == last[at..at + width]
    ensures CleanedFrom(c, before, outside, at, width, size, d, last)
  {
    hide Excess, Exact, Filtered;
  }

  // ----- which windows are folded right, and what is read -----

  /** Windows that overlap the image are, and those at its border if there is room for pixel 0. */
  lemma BorderExact(c: Contributors, table: seq<real>, outside: int -> real, at: nat, width: nat, size: nat)
    requires Placed(c, at, width, size, |table|) && c.n0 <= size && -1 <= c.n1 && (c.n1 == -1 ==> -c.n0 < width)
    ensures Excess(c, table, outside, at, width, size) == 0.0
  {
  }

  /** The fold of a group reads the table only. */
  predicate ReadsTable(c: Contributors, at: nat, size: nat, length: nat) {
    c.n0 - size <= at && (c.n1 < -1 ==> at - 1 - c.n0 < length)
  }

  /** Then what stands around the table does not matter. */
  lemma ExcessInside(c: Contributors, table: seq<real>, outside: int -> real, other: int -> real, at: nat, width: nat,
                     size: nat)
    requires Placed(c, at, width, size, |table|) && ReadsTable(c, at, size, |table|)
    ensures Excess(c, table, outside, at, width, size) == Excess(c, table, other, at, width, size)
  {
    if size < c.n0 {
      SumInside(table, outside, other, at - (c.n0 - size), at);
    }
  }

  lemma {:induction false} SumInside(table: seq<real>, outside: int -> real, other: int -> real, a: int, b: int)
    requires 0 <= a && b <= |table|
    ensures SumOf(table, outside, a, b) == SumOf(table, other, a, b)
    decreases b - a
  {
    if b <= a {
    } else {
      SumInside(table, outside, other, a, b - 1);
    }
  }

  /** The windows of a region: none starts further behind the one before it than a group is wide. */
  predicate Sliding(contribs: seq<Contributors>, width: nat) {
    forall n :: 0 < n < |contribs| ==> contribs[n].n0 <= contribs[n - 1].n0 + width
  }

  lemma {:induction false} Slid(contribs: seq<Contributors>, width: nat, m: nat, n: nat)
    requires Sliding(contribs, width) && m <= n < |contribs|
    ensures contribs[n].n0 <= contribs[m].n0 + Start(n - m, width)
    decreases n
  {
    if n <= m {
    } else {
      Slid(contribs, width, m, n - 1);
      StartBefore(n - 1 - m, n - m, width);
    }
  }

  /** If the first does not start beyond the pixel after the last, and the last does not end before pixel -1, no fold
      reads outside the table. */
  lemma SlidingReadsTable(contribs: seq<Contributors>, width: nat, size: nat, length: nat, n: nat)
    requires Grouped(contribs, width, size, length) && Sliding(contribs, width) && n < |contribs|
    requires contribs[0].n0 <= size && -1 <= contribs[|contribs| - 1].n1
    ensures ReadsTable(contribs[n], Start(n, width), size, length)
  {
    var last := |contribs| - 1;
    Slid(contribs, width, 0, n);
    Slid(contribs, width, n, last);
    Starts(n, last, width);
  }

  lemma Starts(m: nat, n: nat, width: nat)
    requires m <= n
    ensures Start(n + 1, width) == Start(m, width) + Start(n - m, width) + width
  {
  }

  /** A region that starts further behind the image makes the first fold read before the table. */
  lemma FirstReadsBefore(contribs: seq<Contributors>, width: nat, size: nat, length: nat)
    requires Grouped(contribs, width, size, length) && contribs != []
    ensures ReadsTable(contribs[0], Start(0, width), size, length) ==> contribs[0].n0 <= size
  {
  }

  // ----- windows that are folded wrongly -----

  /** Doubling the width of two pixels with the triangle filter, from one image width before the image on: the first
      window ends before pixel -1, the second at it, and neither has room for pixel 0. */
  lemma RegionBeforeImage(table: seq<real>, outside: int -> real)
    requires |table| >= 4 && table[..4] == [0.25, 0.75, 0.75, 0.25]
    ensures Placed(Contributors(-3, -2), 0, 2, 2, |table|) && Placed(Contributors(-2, -1), 2, 2, 2, |table|)
    ensures Excess(Contributors(-3, -2), table, outside, 0, 2, 2) == -0.75
    ensures Excess(Contributors(-2, -1), table, outside, 2, 2, 2) == -0.25
  {
    assert table[0..2] == [0.25, 0.75] && table[2..4] == [0.75, 0.25];
    WeightOnNext(Contributors(-3, -2), [0.25, 0.75], -2, -2);
    WeightOnNext(Contributors(-3, -2), [0.25, 0.75], -2, -1);
    WeightOnNext(Contributors(-2, -1), [0.75, 0.25], -1, -1);
  }

  /** The last two windows of the mirrored region: the first, at the border, is folded to a weight of 1 and a cleared
      place, and the second takes that place for its first weight. */
  lemma RegionBehindImage(table: seq<real>, outside: int -> real)
    requires |table| >= 4 && table[..4] == [1.0, 0.0, 0.75, 0.25]
    ensures Placed(Contributors(3, 4), 2, 2, 2, |table|)
    ensures Excess(Contributors(3, 4), table, outside, 2, 2, 2) == -0.75
  {
    assert SumOf(table, outside, 1, 2) == SumOf(table, outside, 1, 1) + table[1];
  }

  /** A window that has room for pixel 0 takes up what stands behind its weights. */
  lemma RoomForStale(table: seq<real>, outside: int -> real)
    requires |table| >= 3 && table[..3] == [1.0, 0.5, 0.0]
    ensures Placed(Contributors(-2, -2), 0, 3, 1, |table|)
    ensures Excess(Contributors(-2, -2), table, outside, 0, 3, 1) == 0.5
  {
  }
}
