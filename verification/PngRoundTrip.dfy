/** What a PNG encoder writes, plain or interlaced, comes back as the image. */
module PngRoundTrip {
  import opened Words
  import opened PngSpec
  import opened PngFormat
  import opened Png
  import opened Adam7

  predicate GoodRow(pixels: seq<pixel>, f: Format) {
    forall x :: 0 <= x < |pixels| ==> |pixels[x]| == f.imgN && Fitting(pixels[x], f.depth)
  }

  /** An image: rows of pixels whose samples fit the depth. */
  predicate GoodImage(image: seq<seq<pixel>>, width: nat, height: nat, f: Format) {
    |image| == height && forall y :: 0 <= y < height ==> |image[y]| == width && GoodRow(image[y], f)
  }

  /** What the decoder makes of a pixel: gray is scaled, and alpha is added on request. */
  function WithAlpha(px: pixel, f: Format): pixel
    requires GoodFormat(f)
  {
    seq<nat>(|px|, c requires 0 <= c < |px| => Scaled(f, px[c])) + Opaque(f)
  }

  // ----- one (sub-)image -----

  /** The samples of the first k pixels of a row. */
  function Flat(pixels: seq<pixel>, f: Format, k: nat): (s: seq<nat>)
    requires k <= |pixels| && GoodRow(pixels, f)
    ensures |s| == k * f.imgN && Fitting(s, f.depth)
  {
    if k == 0 then [] else
      PixelInRow(k - 1, k, f.imgN);
      Flat(pixels, f, k - 1) + pixels[k - 1]
  }

  lemma {:induction false} FlatAt(pixels: seq<pixel>, f: Format, k: nat, i: nat)
    requires i < k <= |pixels| && GoodRow(pixels, f)
    ensures i * f.imgN + f.imgN <= k * f.imgN && Flat(pixels, f, k)[i * f.imgN..i * f.imgN + f.imgN] == pixels[i]
    decreases k
  {
    hide Flat, GoodRow, Fitting;
    var n, before, last := f.imgN, Flat(pixels, f, k - 1), pixels[k - 1];
    FlatNext(pixels, f, k);
    PixelInRow(i, k, n);
    if k - 1 <= i {
      Rear(before, last);
    } else {
      FlatAt(pixels, f, k - 1, i);
      Front(before, last, i * n, n);
    }
  }

  lemma FlatNext(pixels: seq<pixel>, f: Format, k: nat)
    requires 0 < k <= |pixels| && GoodRow(pixels, f)
    ensures Flat(pixels, f, k) == Flat(pixels, f, k - 1) + pixels[k - 1] && |pixels[k - 1]| == f.imgN
  {
  }

  lemma Rear(a: seq<nat>, b: seq<nat>)
    ensures (a + b)[|a|..|a| + |b|] == b
  {
  }

  lemma Front(a: seq<nat>, b: seq<nat>, at: nat, n: nat)
    requires at + n <= |a|
    ensures (a + b)[at..at + n] == a[at..at + n]
  {
  }

  /** The bytes of a row of pixels. */
  function PackedRow(pixels: seq<pixel>, f: Format): (r: row)
    requires GoodFormat(f) && GoodRow(pixels, f)
    ensures |r| == RowWidth(f, |pixels|)
  {
    Pack(Flat(pixels, f, |pixels|), f.depth)
  }

  /** A packed pixel reads back. */
  lemma PackedPixel(pixels: seq<pixel>, f: Format, i: nat)
    requires GoodFormat(f) && GoodRow(pixels, f) && i < |pixels|
    ensures OutPixel(PackedRow(pixels, f), i, |pixels|, f) == WithAlpha(pixels[i], f)
  {
    hide Flat, Pack, Sample, Scaled, RowWidth;
    var x, s := |pixels|, Flat(pixels, f, |pixels|);
    FlatAt(pixels, f, x, i);
    forall c | 0 <= c < f.imgN
      ensures Component(PackedRow(pixels, f), i, c, x, f) == Scaled(f, pixels[i][c])
    {
      assert pixels[i][c] == s[i * f.imgN..i * f.imgN + f.imgN][c];
      PackedSample(s, i * f.imgN + c, f.depth);
    }
  }

  function PackedRows(image: seq<seq<pixel>>, width: nat, height: nat, f: Format): (rows: seq<row>)
    requires GoodFormat(f) && GoodImage(image, width, height, f)
    ensures |rows| == height && Uniform(rows, RowWidth(f, width))
  {
    seq(height, y requires 0 <= y < height => PackedRow(image[y], f))
  }

  /** The encoded image: one filter choice a row. */
  function EncodeImage(image: seq<seq<pixel>>, filters: seq<nat>, width: nat, height: nat, f: Format): (raw: seq<byte>)
    requires GoodFormat(f) && GoodImage(image, width, height, f) && |filters| == height && GoodChoices(filters)
    ensures |raw| == height * (RowWidth(f, width) + 1)
  {
    FilterImage(PackedRows(image, width, height, f), filters, RowWidth(f, width), Unit(f), height)
  }

  lemma {:induction false} FilterImageMore(rows: seq<row>, filters: seq<nat>, w: nat, bpp: nat, m: nat, n: nat,
                                           more: seq<byte>)
      returns (rest: seq<byte>)
    requires m <= n <= |rows| == |filters| && Uniform(rows, w) && GoodChoices(filters)
    ensures FilterImage(rows, filters, w, bpp, n) + more == FilterImage(rows, filters, w, bpp, m) + rest
    decreases n
  {
    if m == n {
      rest := more;
    } else {
      var prior := if n == 1 then Zeros(w) else rows[n - 2];
      var last := [filters[n - 1]] + FilterRow(filters[n - 1], bpp, rows[n - 1], prior) + more;
      assert FilterImage(rows, filters, w, bpp, n) + more == FilterImage(rows, filters, w, bpp, n - 1) + last;
      rest := FilterImageMore(rows, filters, w, bpp, m, n - 1, last);
    }
  }

  /** Every row of filtered data is reconstructed, whatever follows. */
  lemma ReconRowOf(rows: seq<row>, filters: seq<nat>, w: nat, bpp: nat, n: nat, raw: seq<byte>, more: seq<byte>,
                   j: nat)
    requires j < n <= |rows| == |filters| && bpp > 0 && Uniform(rows, w) && GoodChoices(filters)
    requires raw == FilterImage(rows, filters, w, bpp, n) + more
    ensures (j + 1) * (w + 1) <= |raw| && GoodFilters(raw, w, j + 1)
    ensures ReconUpTo(raw, w, bpp, j + 1) == rows[j]
  {
    hide FilterImage, ReconUpTo, GoodFilters;
    var rest := FilterImageMore(rows, filters, w, bpp, j + 1, n, more);
    ImageRoundTrip(rows, filters, w, bpp, j + 1, rest);
  }

  lemma {:induction false} OutRowsAt(raw: seq<byte>, f: Format, x: nat, n: nat, i: nat, j: nat)
    requires GoodFormat(f) && n * (RowWidth(f, x) + 1) <= |raw| && GoodFilters(raw, RowWidth(f, x), n) && i < x && j < n
    ensures Cell(x, i, j) < n * x
    ensures (j + 1) * (RowWidth(f, x) + 1) <= |raw| && GoodFilters(raw, RowWidth(f, x), j + 1)
    ensures OutRows(raw, x, f, n)[Cell(x, i, j)] == OutPixel(ReconUpTo(raw, RowWidth(f, x), Unit(f), j + 1), i, x, f)
    decreases n
  {
    var w := RowWidth(f, x);
    hide ReconUpTo, OutPixel, RowWidth, Unit;
    CellInside(x, n, i, j);
    GoodFiltersPrefix(raw, w, j + 1, n);
    if n - 1 <= j {
    } else {
      GoodFiltersPrefix(raw, w, n - 1, n);
      OutRowsAt(raw, f, x, n - 1, i, j);
    }
  }

  /** The round trip for one image of any size, depth and number of components. */
  lemma EncodedImageReads(image: seq<seq<pixel>>, filters: seq<nat>, width: nat, height: nat, f: Format,
                          more: seq<byte>, i: nat, j: nat)
    requires GoodFormat(f) && GoodImage(image, width, height, f) && |filters| == height && GoodChoices(filters)
    requires i < width && j < height
    ensures var raw := EncodeImage(image, filters, width, height, f) + more;
            && height * (RowWidth(f, width) + 1) <= |raw| && GoodFilters(raw, RowWidth(f, width), height)
            && Cell(width, i, j) < height * width
            && OutRows(raw, width, f, height)[Cell(width, i, j)] == WithAlpha(image[j][i], f)
  {
    hide EncodeImage, OutRows, PackedRow, GoodFilters, ReconUpTo, RowWidth, Unit, OutPixel, WithAlpha, Cell;
    var raw := EncodeImage(image, filters, width, height, f) + more;
    EncodedRowReads(image, filters, width, height, f, raw, more, RowWidth(f, width), height - 1);
    EncodedRowReads(image, filters, width, height, f, raw, more, RowWidth(f, width), j);
    OutRowsAt(raw, f, width, height, i, j);
    CellInside(width, height, i, j);
    PackedPixel(image[j], f, i);
  }

  /** Row j of an encoded image is reconstructed. */
  lemma EncodedRowReads(image: seq<seq<pixel>>, filters: seq<nat>, width: nat, height: nat, f: Format,
                        raw: seq<byte>, more: seq<byte>, w: nat, j: nat)
    requires GoodFormat(f) && GoodImage(image, width, height, f) && |filters| == height && GoodChoices(filters)
    requires width > 0 && j < height && w == RowWidth(f, width)
    requires raw == EncodeImage(image, filters, width, height, f) + more
    ensures (j + 1) * (w + 1) <= |raw| && GoodFilters(raw, w, j + 1)
    ensures 0 < Unit(f) && ReconUpTo(raw, w, Unit(f), j + 1) == PackedRow(image[j], f)
  {
    UnitInRow(f, width);
    var rows, bpp := PackedRows(image, width, height, f), Unit(f);
    assert Uniform(rows, w) && rows[j] == PackedRow(image[j], f);
    assert raw == FilterImage(rows, filters, w, bpp, height) + more;
    hide *;
    ReconRowOf(rows, filters, w, bpp, height, raw, more, j);
  }

  // ----- interlaced images -----

  /** The pixel that pass p transmits at column i of row j. */
  function Transmitted(image: seq<seq<pixel>>, d: Dims, p: nat, i: nat, j: nat): (px: pixel)
    requires p < 7 && GoodFormat(d.f) && GoodImage(image, d.width, d.height, d.f)
    requires i < PassW(d.width, p) && j < PassH(d.height, p)
    ensures |px| == d.f.imgN && Fitting(px, d.f.depth)
  {
    PassPlaces(p, i, j, d.width, d.height);
    image[ToY(p, j)][ToX(p, i)]
  }

  /** The pixels of pass p, as an image of its own. */
  function PassPixels(image: seq<seq<pixel>>, d: Dims, p: nat): (sub: seq<seq<pixel>>)
    requires p < 7 && GoodFormat(d.f) && GoodImage(image, d.width, d.height, d.f)
    ensures GoodImage(sub, PassW(d.width, p), PassH(d.height, p), d.f)
  {
    seq(PassH(d.height, p), j requires 0 <= j < PassH(d.height, p) =>
      seq(PassW(d.width, p), i requires 0 <= i < PassW(d.width, p) => Transmitted(image, d, p, i, j)))
  }

  /** One list of filter choices a pass. */
  ghost predicate GoodPassChoices(filters: seq<seq<nat>>, d: Dims) {
    |filters| == 7 && forall p :: 0 <= p < 7 ==> |filters[p]| == PassH(d.height, p) && GoodChoices(filters[p])
  }

  ghost function EncodePass(image: seq<seq<pixel>>, filters: seq<seq<nat>>, d: Dims, p: nat): (raw: seq<byte>)
    requires p < 7 && GoodFormat(d.f) && GoodImage(image, d.width, d.height, d.f) && GoodPassChoices(filters, d)
    ensures |raw| == PassLen(d, p)
  {
    if EmptyPass(d, p) then []
    else EncodeImage(PassPixels(image, d, p), filters[p], PassW(d.width, p), PassH(d.height, p), d.f)
  }

  /** The first n passes of an interlaced image. */
  ghost function EncodeInterlaced(image: seq<seq<pixel>>, filters: seq<seq<nat>>, d: Dims, n: nat): (raw: seq<byte>)
    requires n <= 7 && GoodFormat(d.f) && GoodImage(image, d.width, d.height, d.f) && GoodPassChoices(filters, d)
    ensures |raw| == PassStart(d, n)
  {
    if n == 0 then [] else EncodeInterlaced(image, filters, d, n - 1) + EncodePass(image, filters, d, n - 1)
  }

  /** The data from pass p on begin with that pass. */
  lemma {:induction false} PassBegins(image: seq<seq<pixel>>, filters: seq<seq<nat>>, d: Dims, p: nat, n: nat,
                                      more: seq<byte>)
      returns (rest: seq<byte>)
    requires p < n <= 7 && GoodFormat(d.f) && GoodImage(image, d.width, d.height, d.f) && GoodPassChoices(filters, d)
    ensures var raw := EncodeInterlaced(image, filters, d, n) + more;
            PassStart(d, p) <= |raw| && raw[PassStart(d, p)..] == EncodePass(image, filters, d, p) + rest
    decreases n
  {
    hide EncodePass, PassLen;
    var last := EncodePass(image, filters, d, n - 1);
    if p == n - 1 {
      rest := more;
    } else {
      rest := PassBegins(image, filters, d, p, n - 1, last + more);
      assert EncodeInterlaced(image, filters, d, n) + more
          == EncodeInterlaced(image, filters, d, n - 1) + (last + more);
    }
  }

  /** A pass of encoded data is good, and its sub-image is what was transmitted. */
  lemma EncodedPassReads(image: seq<seq<pixel>>, filters: seq<seq<nat>>, d: Dims, p: nat, rest: seq<byte>)
    requires p < 7 && GoodFormat(d.f) && GoodImage(image, d.width, d.height, d.f) && GoodPassChoices(filters, d)
    ensures var data := EncodePass(image, filters, d, p) + rest;
            && PassOk(data, d, p)
            && forall i: nat, j: nat :: i < PassW(d.width, p) && j < PassH(d.height, p) ==>
                 (CellInside(PassW(d.width, p), PassH(d.height, p), i, j);
                  SubImage(data, d, p)[Cell(PassW(d.width, p), i, j)] == WithAlpha(PassPixels(image, d, p)[j][i], d.f))
  {
    hide PassW, PassH, EncodeImage, OutRows, GoodFilters, PassPixels, WithAlpha, Cell;
    var data := EncodePass(image, filters, d, p) + rest;
    var x, y := PassW(d.width, p), PassH(d.height, p);
    if !EmptyPass(d, p) {
      var sub := PassPixels(image, d, p);
      EncodedImageReads(sub, filters[p], x, y, d.f, rest, 0, 0);
      forall i: nat, j: nat | i < x && j < y
        ensures Cell(x, i, j) < y * x && OutRows(data, x, d.f, y)[Cell(x, i, j)] == WithAlpha(sub[j][i], d.f)
      {
        EncodedImageReads(sub, filters[p], x, y, d.f, rest, i, j);
      }
    }
  }

  lemma {:induction false} EncodedPassesOk(image: seq<seq<pixel>>, filters: seq<seq<nat>>, d: Dims, n: nat,
                                           more: seq<byte>)
    requires n <= 7 && GoodFormat(d.f) && GoodImage(image, d.width, d.height, d.f) && GoodPassChoices(filters, d)
    ensures AllOk(EncodeInterlaced(image, filters, d, 7) + more, d, n)
    decreases n
  {
    hide EncodePass, EncodeInterlaced, PassOk;
    if n == 0 {
    } else {
      EncodedPassesOk(image, filters, d, n - 1, more);
      var rest := PassBegins(image, filters, d, n - 1, 7, more);
      EncodedPassReads(image, filters, d, n - 1, rest);
    }
  }

  /** The interlaced round trip: decoding shows every pixel of the image that was encoded. */
  lemma InterlacedRoundTrip(image: seq<seq<pixel>>, filters: seq<seq<nat>>, d: Dims, more: seq<byte>,
                            final: seq<pixel>, x: nat, y: nat)
    requires GoodFormat(d.f) && GoodImage(image, d.width, d.height, d.f) && GoodPassChoices(filters, d)
    requires x < d.width && y < d.height
    ensures var raw := EncodeInterlaced(image, filters, d, 7) + more;
            && AllOk(raw, d, 7)
            && (Shows(final, raw, d, 7) ==>
                  Cell(d.width, x, y) < |final| && final[Cell(d.width, x, y)] == WithAlpha(image[y][x], d.f))
  {
    hide EncodePass, EncodeInterlaced, PassOk, SubImage, PassW, PassH, ToX, ToY, ColOf, LineOf, PassOf, Cell;
    hide WithAlpha, AllOk;
    var raw := EncodeInterlaced(image, filters, d, 7) + more;
    var p := PassOf(x, y);
    EncodedPassesOk(image, filters, d, 7, more);
    AllOkPrefix(raw, d, p + 1, 7);
    var rest := PassBegins(image, filters, d, p, 7, more);
    EncodedPassReads(image, filters, d, p, rest);
    PassCovers(x, y, d.width, d.height);
    CellInside(d.width, d.height, x, y);
  }

  /** End to end: the de-interlacer accepts what an encoder wrote, whatever follows, and yields the image. */
  method DecodeInterlaced(raw: seq<byte>, d: Dims, ghost image: seq<seq<pixel>>, ghost filters: seq<seq<nat>>,
                          ghost more: seq<byte>)
    returns (ok: bool, final: array<pixel>)
    requires GoodFormat(d.f) && GoodImage(image, d.width, d.height, d.f) && GoodPassChoices(filters, d)
    requires raw == EncodeInterlaced(image, filters, d, 7) + more
    ensures ok && final.Length == d.height * d.width
    ensures forall x: nat, y: nat :: x < d.width && y < d.height ==>
              Cell(d.width, x, y) < final.Length && final[Cell(d.width, x, y)] == WithAlpha(image[y][x], d.f)
  {
    hide EncodeInterlaced, AllOk, WithAlpha, Cell, GoodPassChoices;
    EncodedPassesOk(image, filters, d, 7, more);
    ok, final := CreateInterlaced(raw, d);
    ShowsAll(final[..], raw, d);
    hide Shows;
    forall x: nat, y: nat | x < d.width && y < d.height
      ensures Cell(d.width, x, y) < final.Length && final[Cell(d.width, x, y)] == WithAlpha(image[y][x], d.f)
    {
      InterlacedRoundTrip(image, filters, d, more, final[..], x, y);
    }
  }

  lemma ShowsAll(final: seq<pixel>, raw: seq<byte>, d: Dims)
    requires GoodFormat(d.f) && AllOk(raw, d, 7) && Shows(final, raw, d, 7)
    ensures |final| == d.height * d.width
  {
  }

  /** The same for an image that is not interlaced. */
  method DecodePlain(raw: seq<byte>, f: Format, width: nat, height: nat, ghost image: seq<seq<pixel>>,
                     ghost filters: seq<nat>, ghost more: seq<byte>)
    returns (ok: bool, out: array<pixel>)
    requires GoodFormat(f) && GoodImage(image, width, height, f) && |filters| == height && GoodChoices(filters)
    requires width > 0 && raw == EncodeImage(image, filters, width, height, f) + more
    ensures ok && out.Length == height * width
    ensures forall x: nat, y: nat :: x < width && y < height ==>
              Cell(width, x, y) < out.Length && out[Cell(width, x, y)] == WithAlpha(image[y][x], f)
  {
    hide EncodeImage, OutRows, RowWidth, WithAlpha, Cell, GoodImage, GoodFilters, GoodChoices;
    EncodedImageOk(image, filters, width, height, f, raw, more);
    ok, out := CreatePngImageRaw(raw, f, width, height);
    assert out.Length == height * width;
    forall x: nat, y: nat | x < width && y < height
      ensures Cell(width, x, y) < out.Length && out[Cell(width, x, y)] == WithAlpha(image[y][x], f)
    {
      EncodedImageReads(image, filters, width, height, f, more, x, y);
    }
  }

  lemma EncodedImageOk(image: seq<seq<pixel>>, filters: seq<nat>, width: nat, height: nat, f: Format, raw: seq<byte>,
                       more: seq<byte>)
    requires GoodFormat(f) && GoodImage(image, width, height, f) && |filters| == height && GoodChoices(filters)
    requires width > 0 && raw == EncodeImage(image, filters, width, height, f) + more
    ensures height * (RowWidth(f, width) + 1) <= |raw| && GoodFilters(raw, RowWidth(f, width), height)
    ensures |image| == height && forall y :: 0 <= y < height ==> |image[y]| == width
  {
    hide EncodeImage, OutRows, RowWidth, WithAlpha, Cell;
    if height > 0 {
      EncodedImageReads(image, filters, width, height, f, more, 0, 0);
    }
  }
}
