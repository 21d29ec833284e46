/** Filter windows of stb_image_resize2: weights on source pixels, and what clamping to the image's edge means. */
module FilterSpec {
  import opened Words
  import opened GatherSpec

  /** The weight of source pixel p; coeffs[k] belongs to pixel c.n0 + k. */
  function Weight(c: Contributors, coeffs: seq<real>, p: int): real {
    if c.n0 <= p <= c.n1 && p - c.n0 < |coeffs| then coeffs[p - c.n0] else 0.0
  }

  function Weights(c: Contributors, coeffs: seq<real>): int -> real {
    p => Weight(c, coeffs, p)
  }

  /** `stbir__edge_clamp_full`, and in-range pixels left alone. */
  function Clamp(p: int, size: nat): (q: int)
    requires size > 0
    ensures 0 <= q < size
  {
    if p < 0 then 0 else if p >= size then size - 1 else p
  }

  /** It is the pixel of the image that is nearest to p. */
  lemma ClampNearest(p: int, size: nat, other: nat)
    requires other < size
    ensures (p - Clamp(p, size)) * (p - Clamp(p, size)) <= (p - other) * (p - other)
  {
    var q := Clamp(p, size);
    if p < 0 {
      MulMono(0 - p, other - p, 0 - p);
      MulMono(0 - p, other - p, other - p);
    } else if p >= size {
      MulMono(p - q, p - other, p - q);
      MulMono(p - q, p - other, p - other);
    }
  }

  /** w(a) * px(a) + ... + w(b-1) * px(b-1). */
  function Total(w: int -> real, px: int -> real, a: int, b: int): real
    decreases b - a
  {
    if b <= a then 0.0 else Total(w, px, a, b - 1) + w(b - 1) * px(b - 1)
  }

  /** What the window computes from the pixels px. */
  function Filtered(c: Contributors, coeffs: seq<real>, px: int -> real): real {
    Total(Weights(c, coeffs), px, c.n0, c.n1 + 1)
  }

  /** Column x of the source rows, as pixels. */
  function Column(src: Source, x: nat): int -> real
    requires x < src.width
  {
    p => if GoodLine(src, p) then src.line(p)[x] else 0.0
  }

  lemma {:induction false} WeightedIsTotal(src: Source, coeffs: seq<real>, c: Contributors, n: nat, x: nat)
    requires n <= |coeffs| && n <= c.n1 - c.n0 + 1 && x < src.width
    requires forall k :: c.n0 <= k < c.n0 + n ==> GoodLine(src, k)
    ensures Weighted(src, coeffs, c.n0, n, x) == Total(Weights(c, coeffs), Column(src, x), c.n0, c.n0 + n)
    decreases n
  {
    if n == 0 {
    } else {
      assert GoodLine(src, c.n0 + n - 1);
      WeightedIsTotal(src, coeffs, c, n - 1, x);
    }
  }

  /** Gathering a row is filtering each of its columns. */
  lemma GatheredIsFiltered(src: Source, coeffs: seq<real>, c: Contributors, x: nat)
    requires c.n0 <= c.n1 && c.n1 - c.n0 < |coeffs| && x < src.width
    requires forall k :: c.n0 <= k <= c.n1 ==> GoodLine(src, k)
    ensures OutputRow(src, coeffs, c)[x] == Filtered(c, coeffs, Column(src, x))
  {
    WeightedIsTotal(src, coeffs, c, c.n1 - c.n0 + 1, x);
  }

  lemma {:induction false} TotalSplits(w: int -> real, px: int -> real, a: int, m: int, b: int)
    requires a <= m <= b
    ensures Total(w, px, a, b) == Total(w, px, a, m) + Total(w, px, m, b)
    decreases b - m
  {
    if b <= m {
    } else {
      TotalSplits(w, px, a, m, b - 1);
    }
  }

  lemma {:induction false} TotalAgrees(w: int -> real, v: int -> real, px: int -> real, py: int -> real, a: int, b: int)
    requires forall p :: a <= p < b ==> w(p) == v(p) && px(p) == py(p)
    ensures Total(w, px, a, b) == Total(v, py, a, b)
    decreases b - a
  {
    if b <= a {
    } else {
      TotalAgrees(w, v, px, py, a, b - 1);
    }
  }

  lemma {:induction false} TotalOfZeros(w: int -> real, px: int -> real, a: int, b: int)
    requires forall p :: a <= p < b ==> w(p) == 0.0
    ensures Total(w, px, a, b) == 0.0
    decreases b - a
  {
    if b <= a {
    } else {
      TotalOfZeros(w, px, a, b - 1);
    }
  }

  function One(p: int): real {
    1.0
  }

  lemma {:induction false} TotalOfConstant(w: int -> real, px: int -> real, a: int, b: int, v: real)
    requires forall p :: a <= p < b ==> px(p) == v
    ensures Total(w, px, a, b) == Total(w, One, a, b) * v
    decreases b - a
  {
    if b <= a {
    } else {
      TotalOfConstant(w, px, a, b - 1, v);
    }
  }

  /** Weight d more at pixel q adds d times that pixel. */
  lemma {:induction false} TotalRaised(w: int -> real, v: int -> real, px: int -> real, a: int, b: int, q: int, d: real)
    requires a <= q < b && forall p :: a <= p < b ==> v(p) == w(p) + if p == q then d else 0.0
    ensures Total(v, px, a, b) == Total(w, px, a, b) + d * px(q)
    decreases b - a
  {
    if q == b - 1 {
      TotalAgrees(w, v, px, px, a, b - 1);
      TimesDistributes(w(q), d, px(q));
    } else {
      TotalRaised(w, v, px, a, b - 1, q, d);
    }
  }

  lemma TimesDistributes(x: real, y: real, z: real)
    ensures (x + y) * z == x * z + y * z
  {
  }

  // ----- folding -----

  /** The weight on pixels a to b-1 together. */
  function WeightOn(c: Contributors, coeffs: seq<real>, a: int, b: int): real {
    Total(Weights(c, coeffs), One, a, b)
  }

  /** The weight of pixel q once the right overhang sits on the last pixel. */
  function FoldedRight(c: Contributors, coeffs: seq<real>, size: nat, q: int): real {
    if q >= size then 0.0
    else Weight(c, coeffs, q) + if q == size - 1 then WeightOn(c, coeffs, size, c.n1 + 1) else 0.0
  }

  /** The weight of pixel q once both overhangs sit on the edge pixels. */
  function Folded(c: Contributors, coeffs: seq<real>, size: nat, q: int): real {
    if q < 0 then 0.0
    else FoldedRight(c, coeffs, size, q) + if q == 0 then WeightOn(c, coeffs, c.n0, 0) else 0.0
  }

  predicate Overlaps(c: Contributors, size: nat) {
    c.n0 <= c.n1 && c.n0 < size && 0 <= c.n1
  }

  /** The pixels seen through the clamped edge. */
  function Edged(px: int -> real, size: nat): int -> real
    requires size > 0
  {
    p => px(Clamp(p, size))
  }

  /** A window inside the image with the folded weights computes what the original computes on clamped pixels. */
  lemma FoldingPreserves(c: Contributors, coeffs: seq<real>, size: nat, d: Contributors, folded: seq<real>,
                         px: int -> real)
    requires size > 0 && c.n0 <= c.n1
    requires 0 <= d.n0 && d.n1 < size && d.n0 <= d.n1 + 1
    requires forall p :: Weight(d, folded, p) == Folded(c, coeffs, size, p)
    ensures Filtered(d, folded, px) == Filtered(c, coeffs, Edged(px, size))
  {
    hide Filtered, Folded;
    FoldingAdds(c, coeffs, size, d, folded, 0, 0.0, px);
  }

  /** With `extra` more on pixel q, it computes that times the pixel besides. */
  lemma FoldingAdds(c: Contributors, coeffs: seq<real>, size: nat, d: Contributors, folded: seq<real>, q: nat,
                    extra: real, px: int -> real)
    requires q < size && c.n0 <= c.n1
    requires 0 <= d.n0 && d.n1 < size && d.n0 <= d.n1 + 1
    requires forall p :: Weight(d, folded, p) == Folded(c, coeffs, size, p) + if p == q then extra else 0.0
    ensures Filtered(d, folded, px) == Filtered(c, coeffs, Edged(px, size)) + extra * px(q)
  {
    hide Total, Weight, Filtered, Edged;
    var w, v, u := Weights(c, coeffs), Weights(d, folded), p => Folded(c, coeffs, size, p);
    var lo, hi := if c.n0 < 0 then c.n0 else 0, if c.n1 < size then size else c.n1 + 1;
    FilteredWide(d, folded, px, 0, size);
    FilteredWide(c, coeffs, Edged(px, size), lo, hi);
    var left, right := WeightOn(c, coeffs, c.n0, 0), WeightOn(c, coeffs, size, c.n1 + 1);
    Overhangs(c, coeffs, size, lo, hi);
    OverhangsTotal(w, px, size, lo, hi, left, right);
    forall p | 0 <= p < size
      ensures u(p) == w(p) + (if p == size - 1 then right else 0.0) + (if p == 0 then left else 0.0)
      ensures v(p) == u(p) + if p == q then extra else 0.0
    {
      assert Weight(d, folded, p) == Folded(c, coeffs, size, p) + if p == q then extra else 0.0;
    }
    EdgesRaised(w, u, px, size, left, right);
    TotalRaised(u, v, px, 0, size, q, extra);
  }

  /** Both overhangs, counted from as far as need be. */
  lemma Overhangs(c: Contributors, coeffs: seq<real>, size: nat, lo: int, hi: int)
    requires lo == (if c.n0 < 0 then c.n0 else 0) && hi == if c.n1 < size then size else c.n1 + 1
    ensures WeightOn(c, coeffs, lo, 0) == WeightOn(c, coeffs, c.n0, 0)
    ensures WeightOn(c, coeffs, size, hi) == WeightOn(c, coeffs, size, c.n1 + 1)
  {
  }

  /** Pixels outside the window add nothing. */
  lemma FilteredWide(c: Contributors, coeffs: seq<real>, px: int -> real, a: int, b: int)
    requires a <= c.n0 <= c.n1 + 1 <= b
    ensures Filtered(c, coeffs, px) == Total(Weights(c, coeffs), px, a, b)
  {
    var w := Weights(c, coeffs);
    TotalSplits(w, px, a, c.n0, b);
    TotalSplits(w, px, c.n0, c.n1 + 1, b);
    TotalOfZeros(w, px, a, c.n0);
    TotalOfZeros(w, px, c.n1 + 1, b);
  }

  lemma OverhangsTotal(w: int -> real, px: int -> real, size: nat, lo: int, hi: int, left: real, right: real)
    requires size > 0 && lo <= 0 && size <= hi
    requires left == Total(w, One, lo, 0) && right == Total(w, One, size, hi)
    ensures Total(w, Edged(px, size), lo, hi) == Total(w, px, 0, size) + left * px(0) + right * px(size - 1)
  {
    hide Total;
    var py := Edged(px, size);
    forall p ensures py(p) == px(Clamp(p, size)) {
    }
    TotalSplits(w, py, lo, 0, hi);
    TotalSplits(w, py, 0, size, hi);
    forall p | lo <= p < 0 ensures py(p) == px(0) {
      assert Clamp(p, size) == 0;
    }
    TotalOfConstant(w, py, lo, 0, px(0));
    TotalAgrees(w, w, py, px, 0, size);
    forall p | size <= p < hi ensures py(p) == px(size - 1) {
      assert Clamp(p, size) == size - 1;
    }
    TotalOfConstant(w, py, size, hi, px(size - 1));
  }

  lemma EdgesRaised(w: int -> real, v: int -> real, px: int -> real, size: nat, left: real, right: real)
    requires size > 0
    requires forall p :: 0 <= p < size ==>
               v(p) == w(p) + (if p == size - 1 then right else 0.0) + (if p == 0 then left else 0.0)
    ensures Total(v, px, 0, size) == Total(w, px, 0, size) + left * px(0) + right * px(size - 1)
  {
    hide Total;
    var u := p => w(p) + if p == size - 1 then right else 0.0;
    TotalRaised(w, u, px, 0, size, size - 1, right);
    TotalRaised(u, v, px, 0, size, 0, left);
  }
}
