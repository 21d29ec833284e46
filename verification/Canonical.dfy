/**
  Canonical prefix codes: the code a list of code lengths stands for
  (section 3.2.2 of RFC 1951, and Annex C of ITU-T T.81, which uses the same rule).

  Symbol i has a code of L[i] bits, or none if L[i] is 0.  Codes of one length are
  consecutive, in symbol order, and follow on from all shorter codes.
 */
module Canonical {
  import opened Words

  type lengths = seq<nat>

  function Repeat(v: nat, n: nat): (r: lengths)
    ensures |r| == n && forall i :: 0 <= i < n ==> r[i] == v
  {
    seq(n, _ => v)
  }

  /** How many of the first n symbols have length s. */
  function CountTo(L: lengths, n: nat, s: nat): (c: nat)
    requires n <= |L|
    ensures c <= n
  {
    if n == 0 then 0 else CountTo(L, n - 1, s) + if L[n - 1] == s then 1 else 0
  }

  function Count(L: lengths, s: nat): nat {
    CountTo(L, |L|, s)
  }

  /** One past the last code of length s. */
  function EndCode(L: lengths, s: nat): nat {
    if s == 0 then 0 else 2 * EndCode(L, s - 1) + Count(L, s)
  }

  function FirstCode(L: lengths, s: nat): nat
    requires s > 0
  {
    2 * EndCode(L, s - 1)
  }

  function CodeOf(L: lengths, i: nat): nat
    requires i < |L| && L[i] > 0
  {
    FirstCode(L, L[i]) + CountTo(L, i, L[i])
  }

  predicate Bounded(L: lengths, m: nat) {
    forall i :: 0 <= i < |L| ==> L[i] <= m
  }

  /** The codes of at most m bits are numbers of at most m bits; by FitsBelow, so are the shorter ones. */
  predicate Fits(L: lengths, m: nat) {
    EndCode(L, m) <= Pow2(m)
  }

  // ----- ranks -----

  lemma {:induction false} CountMono(L: lengths, i: nat, n: nat, s: nat)
    requires i <= n <= |L|
    ensures CountTo(L, i, s) <= CountTo(L, n, s)
    ensures i < n && L[i] == s ==> CountTo(L, i, s) < CountTo(L, n, s)
    decreases n - i
  {
    if n <= i {
    } else {
      CountMono(L, i + 1, n, s);
    }
  }

  /** The symbol of length s with a given rank. */
  lemma {:induction false} FindRank(L: lengths, n: nat, s: nat, rank: nat) returns (i: nat)
    requires n <= |L| && rank < CountTo(L, n, s)
    ensures i < n && L[i] == s && CountTo(L, i, s) == rank
    decreases n
  {
    if rank < CountTo(L, n - 1, s) {
      i := FindRank(L, n - 1, s, rank);
    } else {
      i := n - 1;
    }
  }

  lemma SameRank(L: lengths, i: nat, j: nat)
    requires i < |L| && j < |L| && L[i] == L[j]
    requires CountTo(L, i, L[i]) == CountTo(L, j, L[j])
    ensures i == j
  {
    var s := L[i];
    if i < j {
      CountMono(L, i, j, s);
    } else if j < i {
      CountMono(L, j, i, s);
    }
  }

  lemma CodeRange(L: lengths, i: nat)
    requires i < |L| && L[i] > 0
    ensures FirstCode(L, L[i]) <= CodeOf(L, i) < EndCode(L, L[i])
  {
    CountMono(L, i, |L|, L[i]);
  }

  // ----- the code tree, cut at depth w -----

  /** One past the last w-bit word that starts with a code of at most s bits. */
  function Limit(L: lengths, s: nat, w: nat): nat
    requires s <= w
  {
    EndCode(L, s) * Pow2(w - s)
  }

  /** The w-bit word k starts with the code of symbol i. */
  predicate Matches(L: lengths, i: nat, k: nat, w: nat) {
    i < |L| && 0 < L[i] <= w && Shr(k, w - L[i]) == CodeOf(L, i)
  }

  lemma LimitStep(L: lengths, s: nat, w: nat)
    requires 0 < s <= w
    ensures Limit(L, s, w) == Limit(L, s - 1, w) + Count(L, s) * Pow2(w - s)
    ensures Limit(L, s - 1, w) == FirstCode(L, s) * Pow2(w - s)
  {
    assert Pow2(w - s + 1) == 2 * Pow2(w - s);
    var e, c, p := EndCode(L, s - 1), Count(L, s), Pow2(w - s);
    assert (2 * e + c) * p == e * (2 * p) + c * p;
    assert 2 * e * p == e * (2 * p);
  }

  lemma {:induction false} LimitMono(L: lengths, s: nat, t: nat, w: nat)
    requires s <= t <= w
    ensures Limit(L, s, w) <= Limit(L, t, w)
    decreases t
  {
    if t <= s {
    } else {
      LimitStep(L, t, w);
      LimitMono(L, s, t - 1, w);
      MulMono(0, Count(L, t), Pow2(w - t));
    }
  }

  /** Words that start with a code of length s are exactly those between two limits. */
  lemma MatchRange(L: lengths, i: nat, k: nat, w: nat)
    requires Matches(L, i, k, w)
    ensures Limit(L, L[i] - 1, w) <= k < Limit(L, L[i], w)
  {
    var s := L[i];
    CodeRange(L, i);
    ShrLess(k, w - s, EndCode(L, s));
    ShrLess(k, w - s, FirstCode(L, s));
    LimitStep(L, s, w);
  }

  lemma RangeMatch(L: lengths, s: nat, k: nat, w: nat) returns (i: nat)
    requires 0 < s <= w
    requires Limit(L, s - 1, w) <= k < Limit(L, s, w)
    ensures Matches(L, i, k, w) && L[i] == s
    ensures Shr(k, w - s) == FirstCode(L, s) + CountTo(L, i, s)
  {
    LimitStep(L, s, w);
    ShrLess(k, w - s, EndCode(L, s));
    ShrLess(k, w - s, FirstCode(L, s));
    i := FindRank(L, |L|, s, Shr(k, w - s) - FirstCode(L, s));
  }

  /** A word starts with at most one code. */
  lemma MatchUnique(L: lengths, i: nat, j: nat, k: nat, w: nat)
    requires Matches(L, i, k, w) && Matches(L, j, k, w)
    ensures i == j
  {
    MatchRange(L, i, k, w);
    MatchRange(L, j, k, w);
    if L[i] < L[j] {
      LimitMono(L, L[i], L[j] - 1, w);
    } else if L[j] < L[i] {
      LimitMono(L, L[j], L[i] - 1, w);
    } else {
      SameRank(L, i, j);
    }
  }

  /** No code is a prefix of another. */
  lemma PrefixFree(L: lengths, i: nat, j: nat)
    requires i < |L| && j < |L| && 0 < L[i] <= L[j]
    requires Shr(CodeOf(L, j), L[j] - L[i]) == CodeOf(L, i)
    ensures i == j
  {
    MatchUnique(L, i, j, CodeOf(L, j), L[j]);
  }

  /** A word starts with a code of at most m bits iff it is below the m-bit limit. */
  lemma {:induction false} MatchIffBelow(L: lengths, k: nat, m: nat, w: nat)
    requires m <= w
    ensures k < Limit(L, m, w) <==> exists i: nat :: Matches(L, i, k, w) && L[i] <= m
  {
    if k < Limit(L, m, w) {
      if m > 0 && Limit(L, m - 1, w) <= k {
        var i := RangeMatch(L, m, k, w);
      } else if m > 0 {
        MatchIffBelow(L, k, m - 1, w);
      }
    } else if i: nat :| Matches(L, i, k, w) && L[i] <= m {
      MatchRange(L, i, k, w);
      LimitMono(L, L[i], m, w);
    }
  }

  // ----- when a length list is acceptable -----

  /** The codes of at most s bits among the first n symbols, each weighted by its share of the s-bit words. */
  function KraftSum(L: lengths, n: nat, s: nat): nat
    requires n <= |L|
  {
    if n == 0 then 0
    else KraftSum(L, n - 1, s) + if 0 < L[n - 1] <= s then Pow2(s - L[n - 1]) else 0
  }

  lemma {:induction false} KraftStep(L: lengths, n: nat, s: nat)
    requires n <= |L|
    ensures KraftSum(L, n, s + 1) == 2 * KraftSum(L, n, s) + CountTo(L, n, s + 1)
    decreases n
  {
    if n == 0 {
    } else {
      KraftStep(L, n - 1, s);
      if 0 < L[n - 1] <= s {
        assert Pow2(s + 1 - L[n - 1]) == 2 * Pow2(s - L[n - 1]);
      }
    }
  }

  lemma {:induction false} KraftZero(L: lengths, n: nat)
    requires n <= |L|
    ensures KraftSum(L, n, 0) == 0
    decreases n
  {
    if n == 0 {
    } else {
      KraftZero(L, n - 1);
    }
  }

  lemma {:induction false} KraftIsEnd(L: lengths, s: nat)
    ensures KraftSum(L, |L|, s) == EndCode(L, s)
  {
    if s == 0 {
      KraftZero(L, |L|);
    } else {
      KraftIsEnd(L, s - 1);
      KraftStep(L, |L|, s - 1);
    }
  }

  /** Once a length runs out of codes, so do all longer ones. */
  lemma {:induction false} FitsBelow(L: lengths, s: nat, m: nat)
    requires s <= m && Fits(L, m)
    ensures Fits(L, s)
    decreases m
  {
    if m <= s {
    } else {
      FitsBelow(L, s, m - 1);
    }
  }

  /** Codes never run out iff the Kraft sum (in units of 2^-m) is at most one. */
  lemma FitsIffKraft(L: lengths, m: nat)
    ensures KraftSum(L, |L|, m) <= Pow2(m) <==> forall s :: 0 <= s <= m ==> EndCode(L, s) <= Pow2(s)
  {
    KraftIsEnd(L, m);
    if Fits(L, m) {
      forall s | 0 <= s <= m ensures EndCode(L, s) <= Pow2(s) {
        FitsBelow(L, s, m);
      }
    }
  }

  // ----- symbols sorted by code -----

  /** How many of the first n symbols have a code shorter than s bits. */
  function ShorterTo(L: lengths, n: nat, s: nat): nat
    requires n <= |L|
    decreases s
  {
    if s <= 1 then 0 else ShorterTo(L, n, s - 1) + CountTo(L, n, s - 1)
  }

  function FirstSlot(L: lengths, s: nat): nat {
    ShorterTo(L, |L|, s)
  }

  /** The place of symbol i in the list of used symbols sorted by code. */
  function Slot(L: lengths, i: nat): nat
    requires i < |L| && L[i] > 0
  {
    FirstSlot(L, L[i]) + CountTo(L, i, L[i])
  }

  lemma {:induction false} ShorterStep(L: lengths, n: nat, s: nat)
    requires n < |L|
    ensures ShorterTo(L, n + 1, s) == ShorterTo(L, n, s) + if 0 < L[n] < s then 1 else 0
    decreases s
  {
    if s <= 1 {
    } else {
      ShorterStep(L, n, s - 1);
    }
  }

  lemma {:induction false} ShorterBound(L: lengths, n: nat, s: nat)
    requires n <= |L|
    ensures ShorterTo(L, n, s) <= n
    decreases n
  {
    if n > 0 {
      ShorterStep(L, n - 1, s);
      ShorterBound(L, n - 1, s);
    } else {
      ShorterNone(L, s);
    }
  }

  lemma {:induction false} ShorterNone(L: lengths, s: nat)
    ensures ShorterTo(L, 0, s) == 0
    decreases s
  {
    if s <= 1 {
    } else {
      ShorterNone(L, s - 1);
    }
  }

  lemma {:induction false} FirstSlotMono(L: lengths, s: nat, t: nat)
    requires 0 < s <= t
    ensures FirstSlot(L, s) <= FirstSlot(L, t)
    decreases t
  {
    if t <= s {
    } else {
      FirstSlotMono(L, s, t - 1);
    }
  }

  lemma SlotRange(L: lengths, i: nat)
    requires i < |L| && L[i] > 0
    ensures FirstSlot(L, L[i]) <= Slot(L, i) < FirstSlot(L, L[i] + 1) <= |L|
  {
    CountMono(L, i, |L|, L[i]);
    ShorterBound(L, |L|, L[i] + 1);
  }

  /** Every used symbol has a place of its own. */
  lemma SlotUnique(L: lengths, i: nat, j: nat)
    requires i < |L| && j < |L| && L[i] > 0 && L[j] > 0
    requires Slot(L, i) == Slot(L, j)
    ensures i == j
  {
    SlotRange(L, i);
    SlotRange(L, j);
    if L[i] < L[j] {
      FirstSlotMono(L, L[i] + 1, L[j]);
    } else if L[j] < L[i] {
      FirstSlotMono(L, L[j] + 1, L[i]);
    } else {
      SameRank(L, i, j);
    }
  }

  /** Places are in the order of section 3.2.2 of RFC 1951: by length, and by symbol within a length. */
  lemma SlotOrder(L: lengths, i: nat, j: nat)
    requires i < |L| && j < |L| && L[i] > 0 && L[j] > 0
    ensures Slot(L, i) < Slot(L, j) <==> L[i] < L[j] || (L[i] == L[j] && i < j)
  {
    SlotRange(L, i);
    SlotRange(L, j);
    if L[i] < L[j] {
      FirstSlotMono(L, L[i] + 1, L[j]);
    } else if L[j] < L[i] {
      FirstSlotMono(L, L[j] + 1, L[i]);
    } else if i < j {
      CountMono(L, i, j, L[i]);
    } else {
      CountMono(L, j, i, L[i]);
    }
  }

  lemma {:induction false} EmptyLengths(L: lengths, s: nat, t: nat)
    requires 0 < s <= t && FirstSlot(L, s) == FirstSlot(L, t)
    ensures FirstCode(L, t) == FirstCode(L, s) * Pow2(t - s)
    decreases t
  {
    if s < t {
      FirstSlotMono(L, s, t - 1);
      EmptyLengths(L, s, t - 1);
      Twice(FirstCode(L, s), t - s);
    }
  }

  /** The first code is all zeros. */
  lemma FirstIsZero(L: lengths, i: nat)
    requires i < |L| && L[i] > 0 && Slot(L, i) == 0
    ensures CodeOf(L, i) == 0
  {
    FirstSlotMono(L, 1, L[i]);
    EmptyLengths(L, 1, L[i]);
  }

  /** The last code of one length and the first of the next used length. */
  lemma AcrossLengths(L: lengths, i: nat, j: nat)
    requires i < |L| && j < |L| && 0 < L[i] < L[j] && Slot(L, j) == Slot(L, i) + 1
    ensures FirstSlot(L, L[i] + 1) == FirstSlot(L, L[j])
    ensures CodeOf(L, i) + 1 == EndCode(L, L[i]) && CodeOf(L, j) == FirstCode(L, L[j])
  {
    hide CountTo;
    SlotRange(L, i);
    SlotRange(L, j);
    FirstSlotMono(L, L[i] + 1, L[j]);
  }

  /** Each code is the one before it plus one, with zeros appended where it is longer. */
  lemma ConsecutiveCodes(L: lengths, i: nat, j: nat)
    requires i < |L| && j < |L| && L[i] > 0 && L[j] > 0 && Slot(L, j) == Slot(L, i) + 1
    ensures L[i] <= L[j] && CodeOf(L, j) == (CodeOf(L, i) + 1) * Pow2(L[j] - L[i])
  {
    SlotOrder(L, i, j);
    var s, t := L[i], L[j];
    if s < t {
      AcrossLengths(L, i, j);
      EmptyLengths(L, s + 1, t);
      assert FirstCode(L, s + 1) == 2 * (CodeOf(L, i) + 1);
      hide CodeOf, FirstCode, Slot, FirstSlot;
      TwiceUp(CodeOf(L, i) + 1, t - s);
    }
  }

  lemma TwiceUp(a: nat, n: nat)
    requires n > 0
    ensures a * Pow2(n) == 2 * a * Pow2(n - 1)
  {
  }
}
