/** Adam7 interlacing (section 2.6 of RFC 2083) and `stbi__create_png_image`. */
module Adam7 {
  import opened Words
  import opened PngSpec
  import opened PngFormat
  import opened Png

  const XORIG: seq<nat> := [0, 4, 0, 2, 0, 1, 0]
  const YORIG: seq<nat> := [0, 0, 4, 0, 2, 0, 1]
  const XSPC: seq<nat> := [8, 8, 4, 4, 2, 2, 1]
  const YSPC: seq<nat> := [8, 8, 8, 4, 4, 2, 2]

  /** Columns and rows of the sub-image of pass p; the sum never goes below zero. */
  function PassW(width: nat, p: nat): nat
    requires p < 7
  {
    (width - XORIG[p] + XSPC[p] - 1) / XSPC[p]
  }

  function PassH(height: nat, p: nat): nat
    requires p < 7
  {
    (height - YORIG[p] + YSPC[p] - 1) / YSPC[p]
  }

  /** The image column and row of column i and row j of pass p. */
  function ToX(p: nat, i: nat): nat
    requires p < 7
  {
    i * XSPC[p] + XORIG[p]
  }

  function ToY(p: nat, j: nat): nat
    requires p < 7
  {
    j * YSPC[p] + YORIG[p]
  }

  /** The pass that transmits pixel (x, y). */
  function PassOf(x: nat, y: nat): (p: nat)
    ensures p < 7
  {
    if y % 2 == 1 then 6
    else if x % 2 == 1 then 5
    else if y % 4 == 2 then 4
    else if x % 4 == 2 then 3
    else if y % 8 == 4 then 2
    else if x % 8 == 4 then 1
    else 0
  }

  /** Column and row of pixel (x, y) within its pass. */
  function ColOf(x: nat, y: nat): nat {
    x / XSPC[PassOf(x, y)]
  }

  function LineOf(x: nat, y: nat): nat {
    y / YSPC[PassOf(x, y)]
  }

  /** Column i of a grid from `orig` on, every `spc` columns, lies within n columns iff it is one of those counted. */
  lemma GridCount(n: nat, orig: nat, spc: nat, i: nat)
    requires (spc == 1 || spc == 2 || spc == 4 || spc == 8) && orig < spc
    ensures i < (n - orig + spc - 1) / spc <==> i * spc + orig < n
  {
  }

  lemma Spacings(p: nat)
    requires p < 7
    ensures XSPC[p] == 1 || XSPC[p] == 2 || XSPC[p] == 4 || XSPC[p] == 8
    ensures YSPC[p] == 1 || YSPC[p] == 2 || YSPC[p] == 4 || YSPC[p] == 8
    ensures XORIG[p] < XSPC[p] && YORIG[p] < YSPC[p]
  {
  }

  lemma PassIff(p: nat, i: nat, j: nat, width: nat, height: nat)
    requires p < 7
    ensures i < PassW(width, p) <==> ToX(p, i) < width
    ensures j < PassH(height, p) <==> ToY(p, j) < height
  {
    Spacings(p);
    GridCount(width, XORIG[p], XSPC[p], i);
    GridCount(height, YORIG[p], YSPC[p], j);
  }

  lemma Backwards(x: nat, y: nat)
    ensures var p := PassOf(x, y); ToX(p, ColOf(x, y)) == x && ToY(p, LineOf(x, y)) == y
  {
    var p := PassOf(x, y);
    Spacings(p);
    Remainders(x, y);
    hide PassOf;
    Rebuilt(x, XSPC[p], XORIG[p]);
    Rebuilt(y, YSPC[p], YORIG[p]);
  }

  /** What the pass of a pixel says about where it is. */
  lemma Remainders(x: nat, y: nat)
    ensures var p := PassOf(x, y); x % XSPC[p] == XORIG[p] && y % YSPC[p] == YORIG[p]
  {
    Eighths(x);
    Eighths(y);
  }

  lemma Rebuilt(n: nat, spc: nat, orig: nat)
    requires (spc == 1 || spc == 2 || spc == 4 || spc == 8) && n % spc == orig
    ensures n / spc * spc + orig == n
  {
  }

  lemma Forwards(p: nat, i: nat, j: nat)
    requires p < 7
    ensures var x, y := ToX(p, i), ToY(p, j); PassOf(x, y) == p && ColOf(x, y) == i && LineOf(x, y) == j
  {
    Spacings(p);
    var x, y := ToX(p, i), ToY(p, j);
    DivMod(x, XSPC[p], i, XORIG[p]);
    DivMod(y, YSPC[p], j, YORIG[p]);
    Eighths(x);
    Eighths(y);
  }

  /** Every pixel is transmitted: its pass has a column and a row that map to it. */
  lemma PassCovers(x: nat, y: nat, width: nat, height: nat)
    requires x < width && y < height
    ensures var p := PassOf(x, y);
            && ColOf(x, y) < PassW(width, p) && LineOf(x, y) < PassH(height, p)
            && ToX(p, ColOf(x, y)) == x && ToY(p, LineOf(x, y)) == y
  {
    hide ToX, ToY, ColOf, LineOf, PassOf, PassW, PassH;
    Backwards(x, y);
    PassIff(PassOf(x, y), ColOf(x, y), LineOf(x, y), width, height);
  }

  /** No pixel is transmitted twice, and every destination is in range. */
  lemma PassPlaces(p: nat, i: nat, j: nat, width: nat, height: nat)
    requires p < 7 && i < PassW(width, p) && j < PassH(height, p)
    ensures var x, y := ToX(p, i), ToY(p, j);
            x < width && y < height && PassOf(x, y) == p && ColOf(x, y) == i && LineOf(x, y) == j
  {
    hide ToX, ToY, ColOf, LineOf, PassOf, PassW, PassH;
    Forwards(p, i, j);
    PassIff(p, i, j, width, height);
  }

  /**
    What section 2.6 of RFC 2083 is after: once passes 0 to p are there, so is every pixel of
    a grid through (0, 0), of every eighth, fourth, second and at last every column and row.
   */
  lemma PassRefines(x: nat, y: nat, p: nat)
    requires p < 7
    ensures PassOf(x, y) <= p <==> x % [8, 4, 4, 2, 2, 1, 1][p] == 0 && y % [8, 8, 4, 4, 2, 2, 1][p] == 0
  {
    Eighths(x);
    Eighths(y);
  }

  /** Within a pass, pixels keep their order. */
  lemma PassOrder(p: nat, i: nat, i': nat)
    requires p < 7 && i < i'
    ensures ToX(p, i) < ToX(p, i') && ToY(p, i) < ToY(p, i')
  {
    Spacings(p);
    Later(i, i', XSPC[p]);
    Later(i, i', YSPC[p]);
  }

  lemma Later(a: nat, b: nat, c: nat)
    requires a < b && c > 0
    ensures a * c < b * c
  {
    MulMono(a + 1, b, c);
  }

  /** The pass sizes add up to the size of the image. */
  lemma PassSizesSum(width: nat, height: nat)
    ensures PassW(width, 0) * PassH(height, 0) + PassW(width, 1) * PassH(height, 1) + PassW(width, 2) * PassH(height, 2)
          + PassW(width, 3) * PassH(height, 3) + PassW(width, 4) * PassH(height, 4) + PassW(width, 5) * PassH(height, 5)
          + PassW(width, 6) * PassH(height, 6) == width * height
  {
    RowsAddUp(height);
    ColumnsAddUp(width);
    hide PassW, PassH;
    Areas(PassH(height, 0), PassH(height, 2), PassH(height, 4), PassH(height, 6),
          PassW(width, 0), PassW(width, 1), PassW(width, 3), PassW(width, 5));
  }

  /** Seven rectangles that tile an image: the even rows are cut again by columns. */
  lemma Areas(a: nat, b: nat, c: nat, d: nat, w0: nat, w1: nat, w3: nat, w5: nat)
    ensures w0 * a + w1 * a + (w0 + w1) * b + w3 * (a + b) + (w0 + w1 + w3) * c + w5 * (a + b + c)
          + (w0 + w1 + w3 + w5) * d == (w0 + w1 + w3 + w5) * (a + b + c + d)
  {
    var w := w0 + w1 + w3 + w5;
    assert w * (a + b + c + d) == w * (a + b + c) + w * d;
  }

  lemma RowsAddUp(height: nat)
    ensures PassH(height, 1) == PassH(height, 0) && PassH(height, 3) == PassH(height, 0) + PassH(height, 2)
    ensures PassH(height, 5) == PassH(height, 0) + PassH(height, 2) + PassH(height, 4)
    ensures PassH(height, 0) + PassH(height, 2) + PassH(height, 4) + PassH(height, 6) == height
  {
    GridsAddUp(height);
  }

  lemma ColumnsAddUp(width: nat)
    ensures PassW(width, 2) == PassW(width, 0) + PassW(width, 1)
    ensures PassW(width, 4) == PassW(width, 0) + PassW(width, 1) + PassW(width, 3)
    ensures PassW(width, 0) + PassW(width, 1) + PassW(width, 3) + PassW(width, 5) == width == PassW(width, 6)
  {
    GridsAddUp(width);
  }

  // ----- scattering one pass -----

  /** Pixel (x, y) of an image `width` pixels wide. */
  function Cell(width: nat, x: nat, y: nat): nat {
    y * width + x
  }

  lemma CellInjective(width: nat, x: nat, y: nat, x': nat, y': nat)
    requires x < width && x' < width && Cell(width, x, y) == Cell(width, x', y')
    ensures x == x' && y == y'
  {
    SameDigits(y, x, y', x', width);
  }

  lemma CellInside(width: nat, height: nat, x: nat, y: nat)
    requires x < width && y < height
    ensures Cell(width, x, y) < height * width
  {
    MulMono(y + 1, height, width);
  }

  /** Cell (x, y) of pass p has been written when the loops have reached row j and column i. */
  predicate Written(p: nat, x: nat, y: nat, j: nat, i: nat) {
    PassOf(x, y) == p && (LineOf(x, y) < j || (LineOf(x, y) == j && ColOf(x, y) < i))
  }

  /** The image after pass p has been scattered up to row j, column i, from `img`. */
  ghost predicate Scattered(final: seq<pixel>, before: seq<pixel>, img: seq<pixel>,
                            width: nat, height: nat, p: nat, j: nat, i: nat)
    requires p < 7
  {
    && |final| == |before| == height * width && |img| == PassH(height, p) * PassW(width, p)
    && forall x: nat, y: nat :: x < width && y < height ==>
         (CellInside(width, height, x, y);
          final[Cell(width, x, y)] ==
          if Written(p, x, y, j, i) then PassPixel(img, width, height, x, y) else before[Cell(width, x, y)])
  }

  /** Pixel (x, y) of the image within the sub-image of its pass. */
  function PassPixel(img: seq<pixel>, width: nat, height: nat, x: nat, y: nat): pixel
    requires x < width && y < height && |img| == PassH(height, PassOf(x, y)) * PassW(width, PassOf(x, y))
  {
    var p := PassOf(x, y);
    PassCovers(x, y, width, height);
    CellInside(PassW(width, p), PassH(height, p), ColOf(x, y), LineOf(x, y));
    img[Cell(PassW(width, p), ColOf(x, y), LineOf(x, y))]
  }

  lemma ScatterStep(final: seq<pixel>, before: seq<pixel>, img: seq<pixel>,
                    width: nat, height: nat, p: nat, j: nat, i: nat)
    requires p < 7 && i < PassW(width, p) && j < PassH(height, p)
    requires Scattered(final, before, img, width, height, p, j, i)
    ensures var x, y := ToX(p, i), ToY(p, j);
            && Cell(width, x, y) < |final| && Cell(PassW(width, p), i, j) < |img|
            && Scattered(final[Cell(width, x, y) := img[Cell(PassW(width, p), i, j)]], before, img, width, height,
                         p, j, i + 1)
  {
    hide PassW, PassH, ColOf, LineOf, PassOf, ToX, ToY, Cell;
    PassPlaces(p, i, j, width, height);
    var tx, ty := ToX(p, i), ToY(p, j);
    CellInside(width, height, tx, ty);
    CellInside(PassW(width, p), PassH(height, p), i, j);
    var after := final[Cell(width, tx, ty) := img[Cell(PassW(width, p), i, j)]];
    forall x: nat, y: nat | x < width && y < height
      ensures Cell(width, x, y) < |final|
      ensures after[Cell(width, x, y)] ==
              if Written(p, x, y, j, i + 1) then PassPixel(img, width, height, x, y) else before[Cell(width, x, y)]
    {
      CellInside(width, height, x, y);
      PassCovers(x, y, width, height);
      if Cell(width, x, y) == Cell(width, tx, ty) {
        CellInjective(width, x, y, tx, ty);
      } else {
        assert Written(p, x, y, j, i + 1) <==> Written(p, x, y, j, i);
      }
    }
  }

  lemma NextLine(final: seq<pixel>, before: seq<pixel>, img: seq<pixel>, width: nat, height: nat, p: nat,
                 j: nat)
    requires p < 7 && Scattered(final, before, img, width, height, p, j, PassW(width, p))
    ensures Scattered(final, before, img, width, height, p, j + 1, 0)
  {
    hide PassW, PassH, ColOf, LineOf, PassOf, ToX, ToY, Cell, PassPixel;
    forall x: nat, y: nat | x < width && y < height
      ensures Cell(width, x, y) < |final|
      ensures Written(p, x, y, j + 1, 0) <==> Written(p, x, y, j, PassW(width, p))
    {
      CellInside(width, height, x, y);
      PassCovers(x, y, width, height);
    }
  }

  /** The scatter loops of `stbi__create_png_image`, for one pass. */
  method ScatterPass(final: array<pixel>, img: array<pixel>, width: nat, height: nat, p: nat)
    requires p < 7 && final.Length == height * width && img.Length == PassH(height, p) * PassW(width, p) && final != img
    modifies final
    ensures Scattered(final[..], old(final[..]), img[..], width, height, p, PassH(height, p), 0)
  {
    hide Scattered, PassW, PassH, ToX, ToY;
    ghost var before := final[..];
    var x, y := PassW(width, p), PassH(height, p);
    NothingScattered(before, img[..], width, height, p);
    for j := 0 to y
      invariant Scattered(final[..], before, img[..], width, height, p, j, 0)
    {
      for i := 0 to x
        invariant Scattered(final[..], before, img[..], width, height, p, j, i)
      {
        ScatterStep(final[..], before, img[..], width, height, p, j, i);
        var outY, outX := ToY(p, j), ToX(p, i);
        ghost var was := final[..];
        final[outY * width + outX] := img[j * x + i];
        assert final[..] == was[Cell(width, outX, outY) := img[..][Cell(x, i, j)]];
      }
      NextLine(final[..], before, img[..], width, height, p, j);
    }
  }

  lemma NothingScattered(before: seq<pixel>, img: seq<pixel>, width: nat, height: nat, p: nat)
    requires p < 7 && |before| == height * width && |img| == PassH(height, p) * PassW(width, p)
    ensures Scattered(before, before, img, width, height, p, 0, 0)
  {
    forall x: nat, y: nat | x < width && y < height ensures Cell(width, x, y) < |before| {
      CellInside(width, height, x, y);
    }
  }

  // ----- interlaced data -----

  datatype Dims = Dims(width: nat, height: nat, f: Format)

  predicate EmptyPass(d: Dims, p: nat)
    requires p < 7
  {
    PassW(d.width, p) == 0 || PassH(d.height, p) == 0
  }

  /** The bytes of pass p in the filtered data; empty passes have none. */
  function PassLen(d: Dims, p: nat): nat
    requires p < 7
  {
    if EmptyPass(d, p) then 0 else PassH(d.height, p) * (RowWidth(d.f, PassW(d.width, p)) + 1)
  }

  function PassStart(d: Dims, p: nat): nat
    requires p <= 7
  {
    if p == 0 then 0 else PassStart(d, p - 1) + PassLen(d, p - 1)
  }

  predicate PassOk(rest: seq<byte>, d: Dims, p: nat)
    requires p < 7
  {
    && PassLen(d, p) <= |rest|
    && (EmptyPass(d, p) || GoodFilters(rest, RowWidth(d.f, PassW(d.width, p)), PassH(d.height, p)))
  }

  /** The first n passes are all there and name known filters. */
  predicate AllOk(raw: seq<byte>, d: Dims, n: nat)
    requires n <= 7
  {
    n == 0 || (AllOk(raw, d, n - 1) && PassStart(d, n - 1) <= |raw| && PassOk(raw[PassStart(d, n - 1)..], d, n - 1))
  }

  lemma {:induction false} AllOkPrefix(raw: seq<byte>, d: Dims, m: nat, n: nat)
    requires m <= n <= 7 && AllOk(raw, d, n)
    ensures AllOk(raw, d, m) && PassStart(d, m) <= |raw|
    decreases n
  {
    if m < n {
      AllOkPrefix(raw, d, m, n - 1);
    } else if n > 0 {
      AllOkPrefix(raw, d, n - 1, n - 1);
    }
  }

  /** The sub-image of a pass, reconstructed from the data that start with it. */
  function SubImage(rest: seq<byte>, d: Dims, p: nat): (r: seq<pixel>)
    requires p < 7 && GoodFormat(d.f) && PassOk(rest, d, p)
    ensures |r| == PassH(d.height, p) * PassW(d.width, p)
  {
    if EmptyPass(d, p) then (EmptyArea(d, p); [])
    else OutRows(rest, PassW(d.width, p), d.f, PassH(d.height, p))
  }

  lemma EmptyArea(d: Dims, p: nat)
    requires p < 7 && EmptyPass(d, p)
    ensures PassH(d.height, p) * PassW(d.width, p) == 0
  {
  }

  /** The sub-image of pass p of interlaced data. */
  function PassImage(raw: seq<byte>, d: Dims, p: nat): (r: seq<pixel>)
    requires p < 7 && GoodFormat(d.f) && AllOk(raw, d, p + 1)
    ensures |r| == PassH(d.height, p) * PassW(d.width, p)
  {
    SubImage(raw[PassStart(d, p)..], d, p)
  }

  /** The final image shows every pixel of the passes before p. */
  ghost predicate Shows(final: seq<pixel>, raw: seq<byte>, d: Dims, p: nat)
    requires p <= 7 && GoodFormat(d.f) && AllOk(raw, d, p)
  {
    && |final| == d.height * d.width
    && forall x: nat, y: nat :: x < d.width && y < d.height && PassOf(x, y) < p ==>
         (CellInside(d.width, d.height, x, y);
          AllOkPrefix(raw, d, PassOf(x, y) + 1, p);
          final[Cell(d.width, x, y)] == PassPixel(PassImage(raw, d, PassOf(x, y)), d.width, d.height, x, y))
  }

  lemma ShowsNext(final: seq<pixel>, before: seq<pixel>, raw: seq<byte>, d: Dims, p: nat)
    requires p < 7 && GoodFormat(d.f) && AllOk(raw, d, p + 1) && Shows(before, raw, d, p)
    requires Scattered(final, before, PassImage(raw, d, p), d.width, d.height, p, PassH(d.height, p), 0)
    ensures Shows(final, raw, d, p + 1)
  {
    hide PassW, PassH, ColOf, LineOf, PassOf, ToX, ToY, Cell, PassPixel, PassImage, AllOk;
    forall x: nat, y: nat | x < d.width && y < d.height
      ensures Cell(d.width, x, y) < |final|
      ensures Written(p, x, y, PassH(d.height, p), 0) <==> PassOf(x, y) == p
    {
      CellInside(d.width, d.height, x, y);
      PassCovers(x, y, d.width, d.height);
    }
  }

  lemma ShowsEmpty(final: seq<pixel>, raw: seq<byte>, d: Dims, p: nat)
    requires p < 7 && GoodFormat(d.f) && AllOk(raw, d, p + 1) && AllOk(raw, d, p) && Shows(final, raw, d, p)
    requires EmptyPass(d, p)
    ensures Shows(final, raw, d, p + 1)
  {
    hide PassW, PassH, ColOf, LineOf, PassOf, ToX, ToY, Cell, PassPixel, PassImage, AllOk;
    forall x: nat, y: nat | x < d.width && y < d.height
      ensures Cell(d.width, x, y) < |final| && PassOf(x, y) != p
    {
      CellInside(d.width, d.height, x, y);
      PassCovers(x, y, d.width, d.height);
    }
  }

  /**
    The interlaced branch of `stbi__create_png_image`: it fails exactly when a pass is
    incomplete or names an unknown filter, and otherwise every pixel of the image is the
    pixel of its pass.
   */
  method CreateInterlaced(raw: seq<byte>, d: Dims) returns (ok: bool, final: array<pixel>)
    requires GoodFormat(d.f)
    ensures fresh(final)
    ensures ok <==> AllOk(raw, d, 7)
    ensures ok ==> Shows(final[..], raw, d, 7)
  {
    hide Shows, AllOk, OutRows, GoodFilters, PassW, PassH, Scattered;
    final := new pixel[d.height * d.width](_ => []);
    var at := 0;
    NothingShown(final[..], raw, d);
    for p := 0 to 7
      invariant AllOk(raw, d, p) && at == PassStart(d, p) <= |raw|
      invariant Shows(final[..], raw, d, p)
    {
      var x, y := PassW(d.width, p), PassH(d.height, p);
      NextPassOk(raw, d, p);
      if x != 0 && y != 0 {
        var out;
        ok, out := CreatePngImageRaw(raw[at..], d.f, x, y);
        if !ok {
          return;
        }
        ghost var before := final[..];
        ScatterPass(final, out, d.width, d.height, p);
        ShowsNext(final[..], before, raw, d, p);
        at := at + (RowWidth(d.f, x) + 1) * y;
      } else {
        ShowsEmpty(final[..], raw, d, p);
      }
    }
    ok := true;
  }

  lemma NothingShown(final: seq<pixel>, raw: seq<byte>, d: Dims)
    requires GoodFormat(d.f) && |final| == d.height * d.width
    ensures AllOk(raw, d, 0) && Shows(final, raw, d, 0)
  {
  }

  /** All passes are good iff the first ones are and this one is. */
  lemma NextPassOk(raw: seq<byte>, d: Dims, p: nat)
    requires p < 7 && AllOk(raw, d, p) && PassStart(d, p) <= |raw|
    ensures AllOk(raw, d, p + 1) <==> PassOk(raw[PassStart(d, p)..], d, p)
    ensures AllOk(raw, d, 7) ==> PassOk(raw[PassStart(d, p)..], d, p)
  {
    if AllOk(raw, d, 7) {
      AllOkPrefix(raw, d, p + 1, 7);
    }
  }
}
