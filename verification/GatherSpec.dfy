/** Vertical gathering in stb_image_resize2, as direct weighted sums of source scanlines. */
module GatherSpec {
  type scanline = seq<real>

  /** The source rows n0 to n1 contribute to an output row. */
  datatype Contributors = Contributors(n0: int, n1: int)

  /** A source image as the resizer sees it: row s, decoded and already scaled horizontally if that comes first. */
  datatype Source = Source(width: nat, line: int -> scanline)

  predicate GoodLine(src: Source, s: int) {
    |src.line(s)| == src.width
  }

  /** coeffs[0] * row n0 + ... + coeffs[n-1] * row n0+n-1, at column x. */
  function Weighted(src: Source, coeffs: seq<real>, n0: int, n: nat, x: nat): real
    requires n <= |coeffs| && x < src.width && forall k :: n0 <= k < n0 + n ==> GoodLine(src, k)
  {
    if n == 0 then 0.0
    else
      assert GoodLine(src, n0 + n - 1);
      Weighted(src, coeffs, n0, n - 1, x) + coeffs[n - 1] * src.line(n0 + n - 1)[x]
  }

  /** The output row of one set of contributors. */
  function OutputRow(src: Source, coeffs: seq<real>, c: Contributors): (r: scanline)
    requires c.n0 <= c.n1 && c.n1 - c.n0 < |coeffs| && forall k :: c.n0 <= k <= c.n1 ==> GoodLine(src, k)
    ensures |r| == src.width
  {
    seq(src.width, x requires 0 <= x < src.width => Weighted(src, coeffs, c.n0, c.n1 - c.n0 + 1, x))
  }

  /** A coefficient of 1 among zeros gives its row. */
  lemma {:induction false} UnitPicksRow(src: Source, coeffs: seq<real>, n0: int, n: nat, x: nat, i: nat)
    requires n <= |coeffs| && x < src.width && forall k :: n0 <= k < n0 + n ==> GoodLine(src, k)
    requires i < |coeffs| && forall k :: 0 <= k < |coeffs| ==> coeffs[k] == if k == i then 1.0 else 0.0
    ensures i < n ==> GoodLine(src, n0 + i) && Weighted(src, coeffs, n0, n, x) == src.line(n0 + i)[x]
    ensures n <= i ==> Weighted(src, coeffs, n0, n, x) == 0.0
    decreases n
  {
    if n == 0 {
    } else {
      assert GoodLine(src, n0 + n - 1);
      UnitPicksRow(src, coeffs, n0, n - 1, x, i);
    }
  }

  /** So every row of the window can be picked, the first and the last among them. */
  lemma UnitGivesRow(src: Source, coeffs: seq<real>, c: Contributors, k: int)
    requires c.n0 <= k <= c.n1 && c.n1 - c.n0 < |coeffs| && forall p :: c.n0 <= p <= c.n1 ==> GoodLine(src, p)
    requires forall i :: 0 <= i < |coeffs| ==> coeffs[i] == if c.n0 + i == k then 1.0 else 0.0
    ensures OutputRow(src, coeffs, c) == src.line(k)
  {
    assert GoodLine(src, k);
    forall x: nat | x < src.width ensures OutputRow(src, coeffs, c)[x] == src.line(k)[x] {
      UnitPicksRow(src, coeffs, c.n0, c.n1 - c.n0 + 1, x, k - c.n0);
    }
  }

  lemma {:induction false} WeightedIsLinear(src: Source, u: seq<real>, v: seq<real>, w: seq<real>, a: real, n0: int,
                                            n: nat, x: nat)
    requires n <= |u| == |v| == |w| && x < src.width && forall k :: n0 <= k < n0 + n ==> GoodLine(src, k)
    requires forall k :: 0 <= k < |w| ==> w[k] == u[k] + a * v[k]
    ensures Weighted(src, w, n0, n, x) == Weighted(src, u, n0, n, x) + a * Weighted(src, v, n0, n, x)
    decreases n
  {
    if n == 0 {
    } else {
      assert GoodLine(src, n0 + n - 1);
      WeightedIsLinear(src, u, v, w, a, n0, n - 1, x);
      var k, px := n - 1, src.line(n0 + n - 1)[x];
      OneTerm(u[k], v[k], a, px, Weighted(src, v, n0, n - 1, x));
    }
  }

  /** Adding a multiple of other coefficients adds that multiple of the row they give. */
  lemma RowIsLinear(src: Source, u: seq<real>, v: seq<real>, w: seq<real>, a: real, c: Contributors, x: nat)
    requires c.n0 <= c.n1 && c.n1 - c.n0 < |u| == |v| == |w| && x < src.width
    requires forall p :: c.n0 <= p <= c.n1 ==> GoodLine(src, p)
    requires forall k :: 0 <= k < |w| ==> w[k] == u[k] + a * v[k]
    ensures OutputRow(src, w, c)[x] == OutputRow(src, u, c)[x] + a * OutputRow(src, v, c)[x]
  {
    WeightedIsLinear(src, u, v, w, a, c.n0, c.n1 - c.n0 + 1, x);
  }

  lemma OneTerm(u: real, v: real, a: real, px: real, sum: real)
    ensures (u + a * v) * px + a * sum == u * px + a * (sum + v * px)
  {
    assert (u + a * v) * px == u * px + a * v * px;
    assert a * v * px == a * (v * px);
  }

  /** Only the rows of the window matter. */
  lemma {:induction false} WeightedAgrees(src: Source, other: Source, coeffs: seq<real>, n0: int, n: nat, x: nat)
    requires n <= |coeffs| && x < src.width && forall k :: n0 <= k < n0 + n ==> GoodLine(src, k) && GoodLine(other, k)
    requires src.width == other.width && forall k :: n0 <= k < n0 + n ==> src.line(k) == other.line(k)
    ensures Weighted(src, coeffs, n0, n, x) == Weighted(other, coeffs, n0, n, x)
    decreases n
  {
    if n == 0 {
    } else {
      WeightedAgrees(src, other, coeffs, n0, n - 1, x);
    }
  }

  lemma SameRow(src: Source, other: Source, coeffs: seq<real>, c: Contributors)
    requires c.n0 <= c.n1 && c.n1 - c.n0 < |coeffs| && src.width == other.width
    requires forall k :: c.n0 <= k <= c.n1 ==> GoodLine(src, k) && GoodLine(other, k)
    requires forall k :: c.n0 <= k <= c.n1 ==> src.line(k) == other.line(k)
    ensures OutputRow(src, coeffs, c) == OutputRow(other, coeffs, c)
  {
    var n: nat := c.n1 - c.n0 + 1;
    forall x: nat | x < src.width ensures Weighted(src, coeffs, c.n0, n, x) == Weighted(other, coeffs, c.n0, n, x) {
      WeightedAgrees(src, other, coeffs, c.n0, n, x);
    }
  }

  // ----- when the ring buffer suffices -----

  /** The last source row loaded once output row y (counted from the first) has been prepared. */
  function LastLoaded(contribs: seq<Contributors>, y: nat): int
    requires y < |contribs|
  {
    var before := if y == 0 then contribs[0].n0 - 1 else LastLoaded(contribs, y - 1);
    if contribs[y].n1 > before then contribs[y].n1 else before
  }

  /** The first source row still held then, in a ring of n lines. */
  function FirstHeld(contribs: seq<Contributors>, y: nat, n: nat): int
    requires y < |contribs|
  {
    var last := LastLoaded(contribs, y);
    if last - n + 1 > contribs[0].n0 then last - n + 1 else contribs[0].n0
  }

  /** No row reaches back before the first row's window, or further than n lines behind any window up to its own. */
  predicate WindowsFit(contribs: seq<Contributors>, y: nat, n: nat)
    requires y < |contribs|
  {
    contribs[0].n0 <= contribs[y].n0 && forall i :: 0 <= i <= y ==> contribs[i].n1 - n + 1 <= contribs[y].n0
  }

  lemma {:induction false} LastLoadedIsMax(contribs: seq<Contributors>, y: nat)
    requires y < |contribs|
    ensures contribs[0].n0 - 1 <= LastLoaded(contribs, y)
    ensures forall i :: 0 <= i <= y ==> contribs[i].n1 <= LastLoaded(contribs, y)
    ensures LastLoaded(contribs, y) == contribs[0].n0 - 1
            || exists i :: 0 <= i <= y && contribs[i].n1 == LastLoaded(contribs, y)
  {
    if y == 0 {
    } else {
      LastLoadedIsMax(contribs, y - 1);
    }
  }

  /** The rows an output row needs are exactly then all held when its window fits. */
  lemma HeldIffFits(contribs: seq<Contributors>, y: nat, n: nat)
    requires y < |contribs| && n > 0 && contribs[y].n0 <= contribs[y].n1
    ensures WindowsFit(contribs, y, n)
       <==> FirstHeld(contribs, y, n) <= contribs[y].n0 && contribs[y].n1 <= LastLoaded(contribs, y)
  {
    LastLoadedIsMax(contribs, y);
    if FirstHeld(contribs, y, n) <= contribs[y].n0 {
      forall i | 0 <= i <= y ensures contribs[i].n1 - n + 1 <= contribs[y].n0 {
      }
    }
  }
}
