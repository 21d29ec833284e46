/** How a growable output buffer gets its size: by doubling. */
module Growth {
  import opened Words

  const UINT_MAX: nat := 0xFFFF_FFFF

  /** The first of cap, 2 * cap, 4 * cap, ... that has room for `total` bytes. */
  function Grown(cap: nat, total: nat): (r: nat)
    requires cap > 0
    ensures cap <= r && total <= r
    decreases total - cap
  {
    if total <= cap then cap else Grown(2 * cap, total)
  }

  /** Nothing below it that doubling reaches has room. */
  lemma {:induction false} GrownIsLeast(cap: nat, total: nat) returns (k: nat)
    requires cap > 0
    ensures Grown(cap, total) == cap * Pow2(k) && total <= cap * Pow2(k)
    ensures forall j: nat :: j < k ==> cap * Pow2(j) < total
    decreases total - cap
  {
    if total <= cap {
      k := 0;
    } else {
      var m := GrownIsLeast(2 * cap, total);
      k := m + 1;
      DoubledFirst(cap, m);
      forall j: nat | j < k ensures cap * Pow2(j) < total {
        if j > 0 {
          DoubledFirst(cap, j - 1);
        }
      }
    }
  }

  lemma DoubledFirst(cap: nat, n: nat)
    ensures cap * Pow2(n + 1) == 2 * cap * Pow2(n)
  {
  }

  /** Exactly when `total` bytes can be had: they fit already, or the doubled size is one that 32 bits can express and
      the allocator grants.  Doubling nothing leads nowhere. */
  predicate CanHold(expandable: bool, allocLimit: nat, cap: nat, total: nat) {
    total <= cap || (expandable && cap > 0 && Grown(cap, total) <= UINT_MAX && Grown(cap, total) <= allocLimit)
  }

  /** The size is still the first one, or was reached from it. */
  predicate Grows(expandable: bool, allocLimit: nat, cap: nat, now: nat) {
    now == cap || (expandable && 0 < cap < now && Grown(cap, now) == now && now <= UINT_MAX && now <= allocLimit)
  }

  lemma NotYetGrown(expandable: bool, allocLimit: nat, cap: nat)
    ensures Grows(expandable, allocLimit, cap, cap)
  {
  }

  /** What was reached is reached again. */
  lemma {:induction false} GrownAgain(cap: nat, total: nat)
    requires cap > 0
    ensures Grown(cap, Grown(cap, total)) == Grown(cap, total)
    decreases total - cap
  {
    if total <= cap {
    } else {
      GrownAgain(2 * cap, total);
    }
  }

  /** Doubling on from a size that was reached is doubling from the start. */
  lemma {:induction false} GrownThrough(cap: nat, now: nat, total: nat)
    requires 0 < cap <= now <= total && Grown(cap, now) == now
    ensures Grown(cap, total) == Grown(now, total)
    decreases now - cap
  {
    if now <= cap {
    } else {
      GrownThrough(2 * cap, now, total);
    }
  }

  lemma {:induction false} GrownMono(cap: nat, total: nat, more: nat)
    requires 0 < cap && total <= more
    ensures Grown(cap, total) <= Grown(cap, more)
    decreases total - cap
  {
    if total <= cap {
    } else {
      GrownMono(2 * cap, total, more);
    }
  }

  /** What can be held does not depend on how far the buffer has grown. */
  lemma CanHoldStays(expandable: bool, allocLimit: nat, cap: nat, now: nat, total: nat)
    requires Grows(expandable, allocLimit, cap, now)
    ensures CanHold(expandable, allocLimit, now, total) <==> CanHold(expandable, allocLimit, cap, total)
  {
    if cap < now {
      if now <= total {
        GrownThrough(cap, now, total);
      } else {
        GrownMono(cap, total, now);
      }
    }
  }

  lemma GrowsOn(expandable: bool, allocLimit: nat, cap: nat, now: nat, later: nat)
    requires Grows(expandable, allocLimit, cap, now) && Grows(expandable, allocLimit, now, later)
    ensures Grows(expandable, allocLimit, cap, later)
  {
    if cap < now < later {
      GrownThrough(cap, now, later);
    }
  }

  lemma CanHoldLess(expandable: bool, allocLimit: nat, cap: nat, total: nat, more: nat)
    requires CanHold(expandable, allocLimit, cap, more) && total <= more
    ensures CanHold(expandable, allocLimit, cap, total)
  {
    if cap < total {
      GrownMono(cap, total, more);
    }
  }

  /** What is held could be held from the start. */
  lemma HeldIsHoldable(expandable: bool, allocLimit: nat, cap: nat, now: nat, total: nat)
    requires Grows(expandable, allocLimit, cap, now) && total <= now
    ensures CanHold(expandable, allocLimit, cap, total)
  {
    CanHoldStays(expandable, allocLimit, cap, now, total);
  }
}
