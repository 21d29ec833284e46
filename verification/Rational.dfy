/** `stbir__double_to_rational`: a scale as a fraction, by continued fractions. */
module Rational {
  import opened Words

  const TOP_SCALE: nat := 0x200_0000
  const FLOAT_BIT: real := 1.0 / 0x100_0000 as real

  function Abs(x: real): real {
    if x < 0.0 then -x else x
  }

  function AsUint32(n: nat): nat {
    n % 0x1_0000_0000
  }

  /** The scale in units of 2^-25, rounded down. */
  function Scaled(f: real): nat
    requires f > 0.0
  {
    (f * TOP_SCALE as real).Floor
  }

  /** The loop's variables: remainders, and the last two estimates. */
  datatype Euclid = Euclid(top: nat, bot: nat, numer: nat, denom: nat, numerLast: nat, denomLast: nat)

  function Start(f: real): Euclid
    requires f > 0.0
  {
    Euclid(Scaled(f), TOP_SCALE, 1, 0, 0, 1)
  }

  /** One round of Euclid's algorithm. */
  function Refined(e: Euclid): Euclid
    requires e.bot > 0
  {
    var est := e.top / e.bot;
    Euclid(e.bot, e.top % e.bot, NextEstimate(est, e.numer, e.numerLast), NextEstimate(est, e.denom, e.denomLast),
           e.numer, e.denom)
  }

  function NextEstimate(est: nat, estimate: nat, last: nat): nat {
    est * estimate + last
  }

  predicate Close(n: nat, d: nat, f: real) {
    d > 0 && Abs(n as real / d as real - f) < FLOAT_BIT
  }

  /** In whole terms: n / d is within 2^-24 of f. */
  lemma CloseMeans(n: nat, d: nat, f: real)
    requires d > 0
    ensures Close(n, d, f) <==>
            0.0 - d as real < (n as real - f * d as real) * 0x100_0000 as real < d as real
  {
    var r, k := n as real / d as real, d as real;
    assert r * k == n as real;
    TakenOut(r, f, k);
    ByTwoSigns(r - f, k, n as real - f * k);
  }

  lemma TakenOut(x: real, y: real, k: real)
    ensures (x - y) * k == x * k - y * k
  {
  }

  lemma ByTwoSigns(q: real, k: real, t: real)
    requires k > 0.0 && t == q * k
    ensures Abs(q) < FLOAT_BIT <==> 0.0 - k < t * 0x100_0000 as real < k
  {
    if q < 0.0 {
      TimesLess(0.0 - q, k, 0.0 - t);
    } else {
      TimesLess(q, k, t);
    }
    if 0.0 < q {
      TimesPositive(0.0, q, k);
    } else if q < 0.0 {
      TimesPositive(q, 0.0, k);
    }
  }

  lemma TimesLess(q: real, k: real, t: real)
    requires k > 0.0 && t == q * k
    ensures q < FLOAT_BIT <==> t * 0x100_0000 as real < k
  {
    if q < FLOAT_BIT {
      TimesPositive(q, FLOAT_BIT, k);
    } else if FLOAT_BIT < q {
      TimesPositive(FLOAT_BIT, q, k);
    }
  }

  /** What is scaled is the whole part of 2^25 times the value. */
  lemma ScaledMeans(f: real)
    requires f > 0.0
    ensures Scaled(f) as real <= f * 0x200_0000 as real < Scaled(f) as real + 1.0
  {
  }

  predicate HitLimit(e: Euclid, limit: nat, limitDenom: bool) {
    (if limitDenom then e.denom else e.numer) >= limit
  }

  /** What every round keeps: the remainders rebuild the start, and consecutive estimates have determinant 1 or -1. */
  ghost predicate Rebuilds(e: Euclid, f: real)
    requires f > 0.0
  {
    && e.numer * e.top + e.numerLast * e.bot == Scaled(f)
    && e.denom * e.top + e.denomLast * e.bot == TOP_SCALE
    && (e.numer * e.denomLast - e.numerLast * e.denom == 1 || e.numer * e.denomLast - e.numerLast * e.denom == -1)
    && (e.top > 0 || e == Start(f))
  }

  lemma StartRebuilds(f: real)
    requires f > 0.0
    ensures Rebuilds(Start(f), f)
  {
  }

  lemma RefinedSum(n: nat, last: nat, top: nat, bot: nat)
    requires bot > 0
    ensures (top / bot * n + last) * bot + n * (top % bot) == n * top + last * bot
  {
    assert top == top / bot * bot + top % bot;
    assert n * top == n * (top / bot * bot) + n * (top % bot);
    assert n * (top / bot * bot) == top / bot * n * bot;
  }

  lemma RefinedDeterminant(est: nat, n: nat, nLast: nat, d: nat, dLast: nat)
    ensures (est * n + nLast) * d - n * (est * d + dLast) == -(n * dLast - nLast * d)
  {
    assert (est * n + nLast) * d == est * n * d + nLast * d;
    assert n * (est * d + dLast) == est * n * d + n * dLast;
  }

  lemma RefinedRebuilds(e: Euclid, f: real)
    requires f > 0.0 && e.bot > 0 && Rebuilds(e, f)
    ensures Rebuilds(Refined(e), f)
  {
    RefinedSum(e.numer, e.numerLast, e.top, e.bot);
    RefinedSum(e.denom, e.denomLast, e.top, e.bot);
    RefinedDeterminant(e.top / e.bot, e.numer, e.numerLast, e.denom, e.denomLast);
  }

  /** Consecutive estimates with determinant 1 or -1 are in lowest terms. */
  lemma LowestTerms(e: Euclid, f: real, g: nat, n: nat, d: nat)
    requires f > 0.0 && Rebuilds(e, f) && e.numer == g * n && e.denom == g * d
    ensures g == 1
  {
    var det := n * e.denomLast - e.numerLast * d;
    assert e.numer * e.denomLast - e.numerLast * e.denom == g * det by {
      assert g * n * e.denomLast == g * (n * e.denomLast);
      assert e.numerLast * (g * d) == g * (e.numerLast * d);
    }
    UnitDivisor(g, det);
  }

  lemma MulGrows(a: nat, b: nat)
    requires b > 0
    ensures a <= a * b
  {
  }

  lemma UnitDivisor(g: nat, k: int)
    requires g * k == 1 || g * k == -1
    ensures g == 1
  {
    if k > 0 {
      MulGrows(g, k);
    } else if k < 0 {
      MulGrows(g, -k);
    }
  }

  /** The estimates never outgrow the start values, so 64 bits hold them. */
  lemma EstimatesBounded(e: Euclid, f: real)
    requires f > 0.0 && Rebuilds(e, f) && e.top > 0
    ensures e.numer <= Scaled(f) && e.denom <= TOP_SCALE
  {
    MulGrows(e.numer, e.top);
    MulGrows(e.denom, e.top);
  }

  /** When nothing remains, the estimate is the scaled value exactly. */
  lemma ExactAtTheEnd(e: Euclid, f: real)
    requires f > 0.0 && Rebuilds(e, f) && e.bot == 0
    ensures Close(e.numer, e.denom, f)
  {
    var n, d, t := e.numer, e.denom, e.top;
    assert n * t == Scaled(f) && d * t == TOP_SCALE;
    ReducedQuotient(n, d, t, TOP_SCALE);
    FloorClose(f);
  }

  lemma ReducedQuotient(n: nat, d: nat, t: nat, whole: nat)
    requires d * t == whole && whole > 0
    ensures d > 0 && n as real / d as real == (n * t) as real / whole as real
  {
    var q := n as real / d as real;
    assert q * d as real == n as real;
    assert (n * t) as real == n as real * t as real;
    assert whole as real == d as real * t as real;
    TimesAssociates(q, d as real, t as real);
    QuotientIs(q, (n * t) as real, whole as real);
  }

  lemma TimesAssociates(x: real, y: real, z: real)
    ensures x * y * z == x * (y * z)
  {
  }

  lemma QuotientIs(q: real, x: real, y: real)
    requires y > 0.0 && q * y == x
    ensures q == x / y
  {
  }

  lemma FloorClose(f: real)
    requires f > 0.0
    ensures Abs(Scaled(f) as real / TOP_SCALE as real - f) < FLOAT_BIT
  {
    var x := f * TOP_SCALE as real;
    assert x - 1.0 < Scaled(f) as real <= x;
  }

  // ----- the search -----

  datatype Outcome = Found(estimate: Euclid) | Limited | Exhausted

  /** The refinement loop from e on: the first estimate within a float's bit of f, unless the limit is hit before. */
  function Search(e: Euclid, f: real, limit: nat, limitDenom: bool): Outcome
    decreases e.bot
  {
    if HitLimit(e, limit, limitDenom) then Limited
    else if Close(e.numer, e.denom, f) then Found(e)
    else if e.bot == 0 then Exhausted
    else Search(Refined(e), f, limit, limitDenom)
  }

  /** Refinement never runs out of bits: what it finds is close, within the limit and in lowest terms. */
  lemma {:induction false} SearchSound(e: Euclid, f: real, limit: nat, limitDenom: bool)
    requires f > 0.0 && Rebuilds(e, f)
    ensures Search(e, f, limit, limitDenom) != Exhausted
    ensures var r := Search(e, f, limit, limitDenom);
            r.Found? ==>
              && Rebuilds(r.estimate, f) && Close(r.estimate.numer, r.estimate.denom, f)
              && !HitLimit(r.estimate, limit, limitDenom)
    decreases e.bot
  {
    if e.bot == 0 {
      ExactAtTheEnd(e, f);
    } else if !HitLimit(e, limit, limitDenom) && !Close(e.numer, e.denom, f) {
      RefinedRebuilds(e, f);
      SearchSound(Refined(e), f, limit, limitDenom);
    }
  }

  lemma SearchGoesOn(e: Euclid, f: real, limit: nat, limitDenom: bool)
    requires Search(e, f, limit, limitDenom) != Exhausted
    requires !HitLimit(e, limit, limitDenom) && !Close(e.numer, e.denom, f)
    ensures e.bot > 0 && Search(e, f, limit, limitDenom) == Search(Refined(e), f, limit, limitDenom)
  {
  }

  lemma SearchStops(e: Euclid, f: real, limit: nat, limitDenom: bool)
    requires HitLimit(e, limit, limitDenom) || Close(e.numer, e.denom, f)
    ensures Search(e, f, limit, limitDenom) == if HitLimit(e, limit, limitDenom) then Limited else Found(e)
  {
  }

  /** A found estimate in lowest terms: no common divisor but 1. */
  lemma FoundInLowestTerms(f: real, limit: nat, limitDenom: bool, g: nat, n: nat, d: nat)
    requires f > 0.0
    requires var r := Search(Start(f), f, limit, limitDenom);
             r.Found? && r.estimate.numer == g * n && r.estimate.denom == g * d
    ensures g == 1
  {
    StartRebuilds(f);
    SearchSound(Start(f), f, limit, limitDenom);
    LowestTerms(Search(Start(f), f, limit, limitDenom).estimate, f, g, n, d);
  }

  // ----- 32-bit results -----

  lemma QuotientLess(m: nat, n: nat, d: nat, k: nat)
    requires 0 < d && m + k * d <= n
    ensures m as real / d as real + k as real <= n as real / d as real
  {
    var q := m as real / d as real;
    assert (q + k as real) * d as real == m as real + (k * d) as real;
    QuotientOrder(q + k as real, n, d);
  }

  lemma QuotientOrder(x: real, n: nat, d: nat)
    requires d > 0 && x * d as real <= n as real
    ensures x <= n as real / d as real
  {
    var q := n as real / d as real;
    assert q * d as real == n as real;
    if x > q {
      TimesPositive(q, x, d as real);
    }
  }

  lemma TimesPositive(x: real, y: real, z: real)
    requires x < y && z > 0.0
    ensures x * z < y * z
  {
  }

  /** A found numerator survives the cast to 32 bits if and only if it is below 2^32; else what is returned is not
      close. */
  lemma CloseIffFits(f: real, limit: nat, limitDenom: bool)
    requires f > 0.0 && Search(Start(f), f, limit, limitDenom).Found?
    ensures var e := Search(Start(f), f, limit, limitDenom).estimate;
            Close(AsUint32(e.numer), e.denom, f) <==> e.numer < 0x1_0000_0000
  {
    hide Search, Rebuilds, Start, AsUint32, Close;
    StartRebuilds(f);
    SearchSound(Start(f), f, limit, limitDenom);
    var e := Search(Start(f), f, limit, limitDenom).estimate;
    DenomBounded(e, f);
    TruncatedNotClose(e.numer, e.denom, f);
  }

  lemma TruncatedNotClose(n: nat, d: nat, f: real)
    requires Close(n, d, f) && d <= TOP_SCALE
    ensures Close(AsUint32(n), d, f) <==> n < 0x1_0000_0000
  {
    if n >= 0x1_0000_0000 {
      assert AsUint32(n) + 64 * d <= n;
      QuotientLess(AsUint32(n), n, d, 64);
    }
  }

  /** The search finds a numerator that 32 bits cannot hold. */
  predicate Truncates(f: real, limit: nat, limitDenom: bool)
    requires f > 0.0
  {
    var r := Search(Start(f), f, limit, limitDenom);
    r.Found? && r.estimate.numer >= 0x1_0000_0000
  }

  /** From 2^32 on, whatever is found has such a numerator. */
  lemma LargeScaleTruncates(f: real, limit: nat, limitDenom: bool)
    requires f - FLOAT_BIT >= 0x1_0000_0000 as real && Search(Start(f), f, limit, limitDenom).Found?
    ensures Truncates(f, limit, limitDenom)
  {
    hide Close, Search, Rebuilds, Start;
    StartRebuilds(f);
    SearchSound(Start(f), f, limit, limitDenom);
    var e := Search(Start(f), f, limit, limitDenom).estimate;
    NumeratorAbove(e.numer, e.denom, f);
  }

  lemma NumeratorAbove(n: nat, d: nat, f: real)
    requires Close(n, d, f) && f - FLOAT_BIT >= 0x1_0000_0000 as real
    ensures n >= 0x1_0000_0000
  {
    var q := n as real / d as real;
    assert q * d as real == n as real;
    TimesPositive(0x1_0000_0000 as real, q, d as real);
  }

  /** Below 128 nothing found has such a numerator, whatever the limit. */
  lemma SmallScaleNeverTruncates(f: real, limit: nat, limitDenom: bool)
    requires 0.0 < f < 128.0
    ensures !Truncates(f, limit, limitDenom)
  {
    hide Close, Search;
    StartRebuilds(f);
    SearchSound(Start(f), f, limit, limitDenom);
    var r := Search(Start(f), f, limit, limitDenom);
    assert Scaled(f) < 0x1_0000_0000;
    if r.Found? && r.estimate.top > 0 {
      EstimatesBounded(r.estimate, f);
    }
  }

  lemma DenomBounded(e: Euclid, f: real)
    requires f > 0.0 && Rebuilds(e, f)
    ensures e.denom <= TOP_SCALE
  {
    if e.top > 0 {
      EstimatesBounded(e, f);
    }
  }

  /** The numerator fits whenever numerators are limited, or the scale times the limit is small enough. */
  lemma NumeratorFits(f: real, limit: nat, limitDenom: bool)
    requires f > 0.0 && limit < 0x1_0000_0000 && Search(Start(f), f, limit, limitDenom).Found?
    requires limitDenom ==> (f + FLOAT_BIT) * limit as real <= 0x1_0000_0000 as real
    ensures Search(Start(f), f, limit, limitDenom).estimate.numer < 0x1_0000_0000
  {
    hide Close, Search, Rebuilds, Start;
    StartRebuilds(f);
    SearchSound(Start(f), f, limit, limitDenom);
    var e := Search(Start(f), f, limit, limitDenom).estimate;
    if limitDenom {
      NumeratorBelow(e.numer, e.denom, limit, f);
    }
  }

  lemma NumeratorBelow(n: nat, d: nat, limit: nat, f: real)
    requires f > 0.0 && Close(n, d, f) && d < limit
    ensures n as real < (f + FLOAT_BIT) * limit as real
  {
    var q := n as real / d as real;
    assert q * d as real == n as real;
    ProductLess(q, f + FLOAT_BIT, d as real, limit as real);
  }

  lemma ProductLess(x: real, y: real, m: real, n: real)
    requires x < y && 0.0 < m < n && 0.0 < y
    ensures x * m < y * n
  {
    TimesPositive(x, y, m);
    TimesPositive(m, n, y);
  }

  // ----- the function -----

  predicate Rounds(n: nat, x: real) {
    x - 0.5 < n as real <= x + 0.5
  }

  /** What is returned when the limit is hit: limit as one part, and the other rounded to match. */
  ghost predicate FullRange(f: real, limit: nat, limitDenom: bool, numer: nat, denom: nat)
    requires f > 0.0
  {
    exists full: nat :: FullRangeOf(f, limit, limitDenom, numer, denom, full)
  }

  predicate FullRangeOf(f: real, limit: nat, limitDenom: bool, numer: nat, denom: nat, full: nat)
    requires f > 0.0
  {
    if limitDenom then Rounds(full, f * limit as real) && numer == AsUint32(full) && denom == limit
    else Rounds(full, limit as real / f) && numer == limit && denom == AsUint32(full)
  }

  /** What that is for: the fraction with this term that is nearest to f, as long as the other term fits. */
  lemma FullRangeNear(f: real, limit: nat, limitDenom: bool, numer: nat, denom: nat)
    requires f > 0.0 && FullRange(f, limit, limitDenom, numer, denom)
    requires (if limitDenom then f * limit as real else limit as real / f) + 0.5 < 0x1_0000_0000 as real
    ensures if limitDenom then denom == limit && -0.5 <= numer as real - f * denom as real <= 0.5
            else numer == limit && 0.0 - f <= 2.0 * (numer as real - f * denom as real) <= f
  {
    var full: nat :| FullRangeOf(f, limit, limitDenom, numer, denom, full);
    hide FullRange;
    hide Rounds, AsUint32;
    if limitDenom {
      NearProduct(f * limit as real, full);
      assert numer == full && denom == limit;
    } else {
      Inverse(limit as real, f, limit as real / f);
      NearInverse(limit as real, limit as real / f, full, f);
      assert numer == limit && denom == full;
    }
  }

  lemma Inverse(x: real, f: real, q: real)
    requires f > 0.0 && q == x / f
    ensures q * f == x
  {
  }

  lemma NearProduct(x: real, full: nat)
    requires Rounds(full, x) && x + 0.5 < 0x1_0000_0000 as real
    ensures AsUint32(full) == full && -0.5 <= full as real - x <= 0.5
  {
    assert full < 0x1_0000_0000;
  }

  function Times(x: real, y: real): real {
    x * y
  }

  lemma NearInverse(x: real, q: real, full: nat, f: real)
    requires f > 0.0 && Times(q, f) == x && Rounds(full, q) && q + 0.5 < 0x1_0000_0000 as real
    ensures AsUint32(full) == full && 0.0 - f <= 2.0 * (x - Times(full as real, f)) <= f
  {
    hide Times;
    assert full < 0x1_0000_0000;
    NotAbove(q - 0.5, full as real, f);
    NotAbove(full as real, q + 0.5, f);
    HalfMore(q, f);
  }

  lemma NotAbove(x: real, y: real, f: real)
    requires x <= y && f > 0.0
    ensures Times(x, f) <= Times(y, f)
  {
    if x < y {
      TimesPositive(x, y, f);
    }
  }

  lemma HalfMore(q: real, f: real)
    ensures Times(q - 0.5, f) == Times(q, f) - 0.5 * f && Times(q + 0.5, f) == Times(q, f) + 0.5 * f
  {
  }

  method FullRangeEstimate(f: real, limit: nat, limitDenom: bool) returns (numer: nat, denom: nat)
    requires f > 0.0 && limit < 0x1_0000_0000
    ensures FullRange(f, limit, limitDenom, numer, denom)
  {
    var numerEstimate, denomEstimate;
    if limitDenom {
      numerEstimate, denomEstimate := RoundedHalfUp(f * limit as real), limit;
    } else {
      numerEstimate, denomEstimate := limit, RoundedHalfUp(limit as real / f);
    }
    numer, denom := AsUint32(numerEstimate), AsUint32(denomEstimate);
    assert FullRangeOf(f, limit, limitDenom, numer, denom, if limitDenom then numerEstimate else denomEstimate);
  }

  function RoundedHalfUp(x: real): (n: nat)
    requires x >= 0.0
    ensures Rounds(n, x)
  {
    (x + 0.5).Floor
  }

  /** ok means that the fraction is within a float's bit of f, but for numerators that 32 bits cannot hold. */
  method DoubleToRational(f: real, limit: nat, limitDenom: bool) returns (ok: bool, numer: nat, denom: nat)
    requires f > 0.0 && limit < 0x1_0000_0000
    ensures match Search(Start(f), f, limit, limitDenom)
            case Found(e) => ok && numer == AsUint32(e.numer) && denom == e.denom
            case Limited => FullRange(f, limit, limitDenom, numer, denom) && (ok <==> Close(numer, denom, f))
            case Exhausted => false
    ensures ok && !Close(numer, denom, f) <==> Truncates(f, limit, limitDenom)
  {
    hide Close, FullRange, Scaled, Search, Rebuilds;
    var top, bot := Scaled(f), TOP_SCALE;
    var numerEstimate: nat, denomEstimate: nat, numerLast: nat, denomLast: nat := 1, 0, 0, 1;
    ghost var e := Start(f);
    StartRebuilds(f);
    SearchSound(e, f, limit, limitDenom);
    while (if limitDenom then denomEstimate else numerEstimate) < limit
      invariant e == Euclid(top, bot, numerEstimate, denomEstimate, numerLast, denomLast)
      invariant Rebuilds(e, f)
      invariant Search(Start(f), f, limit, limitDenom) == Search(e, f, limit, limitDenom)
      invariant Search(e, f, limit, limitDenom) != Exhausted
      decreases bot
    {
      if Close(numerEstimate, denomEstimate, f) {
        SearchStops(e, f, limit, limitDenom);
        DenomBounded(e, f);
        CloseIffFits(f, limit, limitDenom);
        return true, AsUint32(numerEstimate), AsUint32(denomEstimate);
      }
      SearchGoesOn(e, f, limit, limitDenom);
      RefinedRebuilds(e, f);
      e := Refined(e);
      var est: nat := top / bot;
      top, bot := bot, top % bot;
      denomEstimate, denomLast := NextEstimate(est, denomEstimate, denomLast), denomEstimate;
      numerEstimate, numerLast := NextEstimate(est, numerEstimate, numerLast), numerEstimate;
    }
    SearchStops(e, f, limit, limitDenom);
    numer, denom := FullRangeEstimate(f, limit, limitDenom);
    ok := Close(numer, denom, f);
  }

  // ----- scales that are fractions -----

  predicate Divides(g: nat, n: nat) {
    g > 0 && n % g == 0
  }

  ghost predicate Coprime(a: nat, b: nat) {
    forall g: nat :: Divides(g, a) && Divides(g, b) ==> g == 1
  }

  /** The scale as a real number. */
  function Ratio(a: nat, b: nat): real
    requires b > 0
  {
    a as real / b as real
  }

  /** What rounding down leaves of the scaled ratio. */
  lemma ScaledRatio(a: nat, b: nat)
    requires a > 0 && b > 0
    ensures Ratio(a, b) > 0.0 && 0 <= a * TOP_SCALE - b * Scaled(Ratio(a, b)) < b
  {
    var f, s := Ratio(a, b), TOP_SCALE as real;
    assert f * b as real == a as real;
    PositiveQuotient(a, b);
    TimesAssociates(f, s, b as real);
    TimesAssociates(f, b as real, s);
    assert s * b as real == b as real * s;
    FloorTimes(f * s, b, a * TOP_SCALE);
  }

  lemma PositiveQuotient(a: nat, b: nat)
    requires a > 0 && b > 0
    ensures Ratio(a, b) > 0.0
  {
  }

  lemma Products(m: nat, n: nat)
    ensures m as real * n as real == (m * n) as real
  {
  }

  lemma FloorTimes(y: real, b: nat, c: nat)
    requires b > 0 && y >= 0.0 && y * b as real == c as real
    ensures 0 <= c - b * y.Floor < b
  {
    var n := y.Floor;
    TimesBetween(n, y, n + 1, b, c);
    assert (n + 1) * b == b * n + b && n * b == b * n;
  }

  lemma TimesBetween(n: nat, y: real, k: nat, b: nat, c: nat)
    requires n as real <= y < k as real && b > 0 && y * b as real == c as real
    ensures n * b <= c < k * b
  {
    TimesOrder(n as real, y, k as real, b as real);
    Products(n, b);
    Products(k, b);
    hide *;
    var low, high := n * b, k * b;
    OrderOfInts(low, c, high);
  }

  lemma OrderOfInts(x: nat, y: nat, z: nat)
    requires x as real <= y as real < z as real
    ensures x <= y < z
  {
  }

  lemma TimesOrder(x: real, y: real, z: real, b: real)
    requires x <= y < z && b > 0.0
    ensures x * b <= y * b < z * b
  {
  }

  /** How far the ratio is from an estimate: zero just if they are equal. */
  function Off(a: nat, b: nat, n: nat, d: nat): int {
    a * d - b * n
  }

  /** The offsets of consecutive estimates rebuild what rounding down has left. */
  lemma OffRebuilds(e: Euclid, f: real, a: nat, b: nat)
    requires f > 0.0 && Rebuilds(e, f)
    ensures Off(a, b, e.numer, e.denom) * e.top + Off(a, b, e.numerLast, e.denomLast) * e.bot
         == a * TOP_SCALE - b * Scaled(f)
  {
    RegroupOff(a, b, e.numer, e.denom, e.numerLast, e.denomLast, e.top, e.bot);
  }

  lemma RegroupOff(a: int, b: int, n: int, d: int, n0: int, d0: int, t: int, r: int)
    ensures (a * d - b * n) * t + (a * d0 - b * n0) * r == a * (d * t + d0 * r) - b * (n * t + n0 * r)
  {
    Distribute(a, d, b, n, t);
    Distribute(a, d0, b, n0, r);
    assert a * (d * t + d0 * r) == a * (d * t) + a * (d0 * r);
    assert b * (n * t + n0 * r) == b * (n * t) + b * (n0 * r);
  }

  lemma Distribute(a: int, d: int, b: int, n: int, t: int)
    ensures (a * d - b * n) * t == a * (d * t) - b * (n * t)
  {
    assert a * d * t == a * (d * t);
    assert b * n * t == b * (n * t);
  }

  /** Their cross difference is the determinant times b. */
  lemma OffCross(a: nat, b: nat, n: nat, d: nat, n0: nat, d0: nat)
    ensures Off(a, b, n0, d0) * d - Off(a, b, n, d) * d0 == b * (n * d0 - n0 * d)
  {
    Distribute(a, d0, b, n0, d);
    Distribute(a, d, b, n, d0);
    assert d0 * d == d * d0;
  }

  /** An estimate with a larger denominator comes only after the ratio itself. */
  lemma Passed(e: Euclid, f: real, a: nat, b: nat)
    requires 0 < a && 0 < b <= 4096 && f == Ratio(a, b)
    requires f > 0.0 && Rebuilds(e, f) && e.top > 0 && e.denomLast <= b < e.denom
    ensures Off(a, b, e.numerLast, e.denomLast) == 0
  {
    hide Off, Ratio, Scaled;
    ScaledRatio(a, b);
    OffRebuilds(e, f, a, b);
    OffCross(a, b, e.numer, e.denom, e.numerLast, e.denomLast);
    var cross := e.numer * e.denomLast - e.numerLast * e.denom;
    assert cross == 1 || cross == -1;
    NoOffset(Off(a, b, e.numer, e.denom), Off(a, b, e.numerLast, e.denomLast), e.denom, e.denomLast, e.top, e.bot, b,
             a * TOP_SCALE - b * Scaled(f), b * cross);
  }

  lemma NoOffset(u: int, v: int, d: nat, d0: nat, t: nat, r: nat, b: nat, left: int, cross: int)
    requires u * t + v * r == left && 0 <= left < b && v * d - u * d0 == cross && (cross == b || cross + b == 0)
    requires d * t + d0 * r == TOP_SCALE && 0 < t && d0 <= b < d && 0 < b <= 4096
    ensures v == 0
  {
    assert (-v) * d == -(v * d) && (-u) * d0 == -(u * d0) && (-u) * t == -(u * t);
    if v > 0 {
      if u <= 0 {
        AtMostZero(u, d0);
        AtLeast(v, d);
      } else {
        Small(u, v, d, d0, t, r, b, left, cross);
      }
    } else if v < 0 {
      if u >= 0 {
        AtMostZero(-u, d0);
        AtLeast(-v, d);
      } else {
        AtMostZero(v, r);
        AtLeast(-u, t);
      }
    }
  }

  lemma AtLeast(x: int, y: nat)
    requires x > 0
    ensures x * y >= y
  {
  }

  lemma AtMostZero(x: int, y: nat)
    requires x <= 0
    ensures x * y <= 0
  {
  }

  /** Offsets on the same side make the whole small. */
  lemma Small(u: int, v: int, d: nat, d0: nat, t: nat, r: nat, b: nat, left: int, cross: int)
    requires u > 0 && v >= 0 && u * t + v * r == left && 0 <= left < b && v * d - u * d0 == cross && cross <= b
    requires d * t + d0 * r == TOP_SCALE && d0 <= b <= 4096
    ensures v * TOP_SCALE < TOP_SCALE
  {
    AtLeast(u, t);
    assert v * r >= 0;
    WholeIs(u, v, d, d0, t, r);
    Below(cross, t, b);
    Below(d0, left, b);
  }

  lemma WholeIs(u: int, v: int, d: nat, d0: nat, t: nat, r: nat)
    ensures v * (d * t + d0 * r) == (v * d - u * d0) * t + d0 * (u * t + v * r)
  {
    assert v * (d * t) == v * d * t && v * (d0 * r) == d0 * (v * r);
    Distribute(v, d, u, d0, t);
    assert d0 * (u * t) == u * (d0 * t);
  }

  lemma Below(x: int, y: int, b: nat)
    requires x <= b && 0 <= y < b <= 4096
    ensures x * y < 0x100_0000
  {
    MulMono(x, b, y);
    MulMono(b, 4096, y);
  }

  /** When no remainder is left, the ratio has been reached. */
  lemma Ended(e: Euclid, f: real, a: nat, b: nat)
    requires 0 < a && 0 < b <= 4096 && f == Ratio(a, b)
    requires f > 0.0 && Rebuilds(e, f) && e.bot == 0 && e.denom <= b
    ensures Off(a, b, e.numer, e.denom) == 0
  {
    hide Off, Ratio, Scaled;
    ScaledRatio(a, b);
    OffRebuilds(e, f, a, b);
    var u, t := Off(a, b, e.numer, e.denom), e.top;
    assert u * t == a * TOP_SCALE - b * Scaled(f) && e.denom * t == TOP_SCALE;
    LargeFactor(u, t, e.denom, b);
  }

  lemma LargeFactor(u: int, t: nat, d: nat, b: nat)
    requires 0 <= u * t < b <= 4096 && d * t == TOP_SCALE && d <= b
    ensures u == 0
  {
    MulMono(d, 4096, t);
    assert (-u) * t == -(u * t);
    if u > 0 {
      AtLeast(u, t);
    } else if u < 0 {
      AtLeast(-u, t);
    }
  }

  /** An estimate in lowest terms that equals the ratio has its terms. */
  lemma SameFraction(e: Euclid, f: real, a: nat, b: nat)
    requires f > 0.0 && Rebuilds(e, f) && b > 0 && Coprime(a, b) && Off(a, b, e.numer, e.denom) == 0
    ensures e.numer == a && e.denom == b
  {
    var n, d, x, y := e.numer, e.denom, e.denomLast, e.numerLast;
    Multiples(a, b, n, d, x, y);
    hide Scaled;
    var k: int := a * x - b * y;
    SameTerms(a, b, n, d, if n * x == y * d + 1 then k else -k);
  }

  lemma SameTerms(a: nat, b: nat, n: nat, d: nat, g: int)
    requires b > 0 && Coprime(a, b) && a == n * g && b == d * g
    ensures n == a && d == b
  {
    if g <= 0 {
      AtMostZero(g, d);
    } else {
      Dividing(g, n);
      Dividing(g, d);
    }
  }

  lemma Multiples(a: nat, b: nat, n: nat, d: nat, x: nat, y: nat)
    requires a * d == b * n
    ensures n * (a * x - b * y) == a * (n * x - y * d) && d * (a * x - b * y) == b * (n * x - y * d)
    ensures n * -(a * x - b * y) == -(a * (n * x - y * d)) && d * -(a * x - b * y) == -(b * (n * x - y * d))
  {
    assert n * (a * x) == a * (n * x) && n * (b * y) == b * n * y && a * (y * d) == a * d * y;
    assert d * (a * x) == a * d * x && b * (n * x) == b * n * x && d * (b * y) == b * (y * d);
  }

  lemma Dividing(g: int, n: nat)
    requires g > 0
    ensures Divides(g, n * g)
  {
    DivMod(n * g, g, n, 0);
  }

  /** An estimate with so small a denominator is close only if it is equal. */
  lemma CloseIsExact(n: nat, d: nat, f: real, a: nat, b: nat)
    requires 0 < b <= 4096 && 0 < d <= b && f == Ratio(a, b)
    ensures Close(n, d, f) <==> Off(a, b, n, d) == 0
  {
    var q, w := n as real / d as real, d as real * b as real;
    assert q * d as real == n as real && f * b as real == a as real;
    OffIs(q, f, a, b, n, d);
    MulMono(d, b, b);
    MulMono(b, 4096, b);
    Products(d, b);
    Within(f - q, w, Off(a, b, n, d));
  }

  lemma OffIs(q: real, f: real, a: nat, b: nat, n: nat, d: nat)
    requires q * d as real == n as real && f * b as real == a as real
    ensures (f - q) * (d as real * b as real) == Off(a, b, n, d) as real
  {
    var x, y := d as real, b as real;
    assert (f - q) * (x * y) == f * y * x - q * x * y;
    Products(a, d);
    Products(n, b);
    assert b * n == n * b;
  }

  lemma Within(x: real, w: real, off: int)
    requires 0.0 < w <= 0x100_0000 as real && x * w == off as real
    ensures Abs(x) < FLOAT_BIT <==> off == 0
  {
    assert FLOAT_BIT * w <= 1.0;
    AbsTimes(x, w);
    if Abs(x) < FLOAT_BIT {
      TimesPositive(Abs(x), FLOAT_BIT, w);
    }
  }

  lemma AbsTimes(x: real, w: real)
    requires w > 0.0
    ensures Abs(x) * w == Abs(x * w)
  {
  }

  /** Short of the ratio there is a next estimate, which does not go past it. */
  lemma NextBelow(e: Euclid, f: real, a: nat, b: nat)
    requires 0 < a && 0 < b <= 4096 && f == Ratio(a, b)
    requires f > 0.0 && Rebuilds(e, f) && e.denom <= b && Off(a, b, e.numer, e.denom) != 0
    ensures e.bot > 0 && Rebuilds(Refined(e), f) && Refined(e).denom <= b && Refined(e).bot < Refined(e).top
  {
    hide Off, Ratio, Scaled, Rebuilds;
    if e.bot == 0 {
      Ended(e, f, a, b);
    }
    RefinedRebuilds(e, f);
    if Refined(e).denom > b {
      Passed(Refined(e), f, a, b);
    }
  }

  /** Up to the ratio the numerators do not exceed its own. */
  lemma {:induction false} NumeratorUpTo(e: Euclid, f: real, a: nat, b: nat)
    requires 0 < a && 0 < b <= 4096 && f == Ratio(a, b) && Coprime(a, b)
    requires f > 0.0 && Rebuilds(e, f) && e.denom <= b && e.bot < e.top
    ensures e.numer <= a
    decreases e.bot
  {
    if Off(a, b, e.numer, e.denom) == 0 {
      SameFraction(e, f, a, b);
    } else {
      hide Off, Ratio, Scaled, Rebuilds, Coprime;
      NextBelow(e, f, a, b);
      NumeratorUpTo(Refined(e), f, a, b);
      QuotientAtLeastOne(e.top, e.bot);
      AtLeast(e.top / e.bot, e.numer);
    }
  }

  lemma QuotientAtLeastOne(x: nat, y: nat)
    requires 0 < y < x
    ensures x / y >= 1
  {
  }

  /** The search finds a fraction with a small denominator just if its own term is below the limit, and then exactly. */
  lemma {:induction false} RatioFound(e: Euclid, f: real, a: nat, b: nat, limit: nat, limitDenom: bool)
    requires 0 < a && 0 < b <= 4096 && f == Ratio(a, b) && Coprime(a, b)
    requires f > 0.0 && Rebuilds(e, f) && e.denom <= b && (e.bot < e.top || e == Start(f))
    ensures var r := Search(e, f, limit, limitDenom);
            && (r.Found? <==> (if limitDenom then b else a) < limit)
            && (r.Found? ==> r.estimate.numer == a && r.estimate.denom == b)
    decreases e.bot
  {
    if e != Start(f) {
      NumeratorUpTo(e, f, a, b);
    }
    if e.denom > 0 {
      CloseIsExact(e.numer, e.denom, f, a, b);
    } else {
      assert Off(a, b, e.numer, e.denom) == -(b * e.numer);
      AtLeast(e.numer, b);
    }
    if Off(a, b, e.numer, e.denom) == 0 {
      SameFraction(e, f, a, b);
    } else {
      hide Off, Ratio, Rebuilds, Coprime, Close;
      if !HitLimit(e, limit, limitDenom) {
        NextBelow(e, f, a, b);
        RatioFound(Refined(e), f, a, b, limit, limitDenom);
      }
    }
  }

  lemma RatioSearch(f: real, a: nat, b: nat, limit: nat, limitDenom: bool)
    requires 0 < a && 0 < b <= 4096 && Coprime(a, b) && f == Ratio(a, b)
    ensures f > 0.0
    ensures var r := Search(Start(f), f, limit, limitDenom);
            && (r.Found? <==> (if limitDenom then b else a) < limit)
            && (r.Found? ==> r.estimate.numer == a && r.estimate.denom == b)
  {
    PositiveQuotient(a, b);
    StartRebuilds(f);
    hide Ratio, Coprime, Scaled, Rebuilds, Search;
    RatioFound(Start(f), f, a, b, limit, limitDenom);
  }

  /** Exactly when the numerator of such a fraction is cut. */
  lemma RatioTruncatesIff(a: nat, b: nat, limit: nat, limitDenom: bool)
    requires 0 < a && 0 < b <= 4096 && Coprime(a, b) && limit < 0x1_0000_0000
    ensures Ratio(a, b) > 0.0
    ensures Truncates(Ratio(a, b), limit, limitDenom) <==> limitDenom && b < limit && a >= 0x1_0000_0000
  {
    hide Ratio, Coprime, Search, Start;
    RatioSearch(Ratio(a, b), a, b, limit, limitDenom);
  }

  /** For whole scales: the denominator is limited, to more than 1, and the scale is at least 2^32. */
  lemma WholeScaleTruncatesIff(m: nat, limit: nat, limitDenom: bool)
    requires m > 0 && limit < 0x1_0000_0000
    ensures Truncates(m as real, limit, limitDenom) <==> limitDenom && limit > 1 && m >= 0x1_0000_0000
  {
    forall g: nat | Divides(g, m) && Divides(g, 1) ensures g == 1 {
      DividesOne(g);
    }
    assert Ratio(m, 1) == m as real;
    hide Truncates, Ratio, Divides;
    RatioTruncatesIff(m, 1, limit, limitDenom);
  }

  lemma DividesOne(g: nat)
    requires Divides(g, 1)
    ensures g == 1
  {
  }

  /** A scale of 2^32 is reported as found, and returned as 0 over 1. */
  method TruncatedScale() returns (ok: bool, numer: nat, denom: nat)
    ensures ok && !Close(numer, denom, 4294967296.0)
  {
    WholeScaleTruncatesIff(0x1_0000_0000, 2, true);
    ok, numer, denom := DoubleToRational(4294967296.0, 2, true);
  }

  /** A fraction with a denominator up to 4096 comes back as it is, in lowest terms, within the limit and 32 bits. */
  method RecoverRatio(ghost a: nat, ghost b: nat, f: real, limit: nat, limitDenom: bool)
    returns (ok: bool, numer: nat, denom: nat)
    requires 0 < a < 0x1_0000_0000 && 0 < b <= 4096 && Coprime(a, b) && f == Ratio(a, b)
    requires (if limitDenom then b else a) < limit < 0x1_0000_0000
    ensures ok && numer == a && denom == b
  {
    hide Ratio, Coprime, Search, Start, Close, FullRange, Truncates;
    RatioSearch(f, a, b, limit, limitDenom);
    ok, numer, denom := DoubleToRational(f, limit, limitDenom);
  }
}
