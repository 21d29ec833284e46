/** What the filters of section 6 of RFC 2083 mean for the pixels that come out. */
module PngPixels {
  import opened Words
  import opened PngSpec
  import opened PngFormat
  import opened Png
  import opened Adam7
  import opened PngRoundTrip

  /** Data for x by y pixels of n bytes each, every row behind a filter type. */
  ghost predicate WholeImage(raw: seq<byte>, f: Format, x: nat, y: nat) {
    && GoodFormat(f) && f.depth == 8
    && y * (x * f.imgN + 1) <= |raw| && GoodFilters(raw, x * f.imgN, y)
  }

  lemma BytesAre(f: Format, x: nat)
    requires f.depth == 8
    ensures RowWidth(f, x) == x * f.imgN && Unit(f) == f.imgN
  {
  }

  /** Component c of the decoded pixel (i, j), or 0 left of the image and above it. */
  ghost function Decoded(raw: seq<byte>, f: Format, x: nat, y: nat, i: int, j: int, c: nat): int
    requires WholeImage(raw, f, x, y) && i < x && j < y && c < f.imgN
  {
    if i < 0 || j < 0 then 0
    else
      BytesAre(f, x);
      OutRowsAt(raw, f, x, y, i, j);
      OutRows(raw, x, f, y)[j * x + i][c] as int
  }

  lemma DecodedByte(raw: seq<byte>, f: Format, x: nat, y: nat, i: nat, j: nat, c: nat)
    requires WholeImage(raw, f, x, y) && i < x && j < y && c < f.imgN
    ensures i * f.imgN + c < x * f.imgN && (j + 1) * (x * f.imgN + 1) <= |raw|
    ensures GoodFilters(raw, x * f.imgN, j + 1)
    ensures Decoded(raw, f, x, y, i, j, c) == ReconUpTo(raw, x * f.imgN, f.imgN, j + 1)[i * f.imgN + c] as int
  {
    hide ReconUpTo, GoodFilters, OutRows;
    BytesAre(f, x);
    OutRowsAt(raw, f, x, y, i, j);
    PixelInRow(i, x, f.imgN);
  }

  /** A byte of a reconstructed row from the bytes n before it and above it. */
  lemma ReconAt(ft: nat, n: nat, raw: row, prior: row, k: nat)
    requires ft <= 4 && k < |raw| == |prior| && n > 0
    ensures var cur := ReconRow(ft, n, raw, prior);
            var a, b, d := if k < n then 0 else cur[k - n], prior[k], if k < n then 0 else prior[k - n];
            cur[k] == (raw[k] as int + Predict(ft, a, b, d) as int) % 256
  {
    hide Predict;
  }

  lemma Predictions(ft: nat, a: byte, b: byte, d: byte)
    requires ft <= 4
    ensures ft == 0 ==> Predict(ft, a, b, d) == 0
    ensures ft == 1 ==> Predict(ft, a, b, d) == a
    ensures ft == 2 ==> Predict(ft, a, b, d) == b
    ensures ft == 3 ==> Predict(ft, a, b, d) as int == (a as int + b as int) / 2
    ensures ft == 4 ==> Predict(ft, a, b, d) as int == PaethPredictor(a, b, d)
  {
    hide PaethPredictor;
  }

  /** Where row j of w bytes begins in the data, and component c of pixel i in a row of n components a pixel. */
  function RowAt(w: nat, j: nat): nat {
    j * (w + 1)
  }

  function ByteIn(n: nat, i: nat, c: nat): nat {
    i * n + c
  }

  /** The filter type and the bytes of row j in the data. */
  lemma RowParts(raw: seq<byte>, w: nat, j: nat, k: nat)
    requires (j + 1) * (w + 1) <= |raw| && k < w
    ensures var at := RowAt(w, j);
            at + 1 + k < |raw| && RowFilter(raw, w, j) == raw[at] && RowBytes(raw, w, j)[k] == raw[at + 1 + k]
  {
    RowStart(w, j);
  }

  /** The row above, which is zeros for the first one. */
  lemma ByteAbove(raw: seq<byte>, f: Format, x: nat, y: nat, i: nat, j: nat, c: nat)
    requires WholeImage(raw, f, x, y) && i < x && j < y && c < f.imgN
    ensures i * f.imgN + c < x * f.imgN && j * (x * f.imgN + 1) <= |raw| && GoodFilters(raw, x * f.imgN, j)
    ensures Decoded(raw, f, x, y, i, j - 1, c) == ReconUpTo(raw, x * f.imgN, f.imgN, j)[i * f.imgN + c] as int
  {
    hide ReconUpTo, GoodFilters, OutRows;
    if j == 0 {
      PixelInRow(i, x, f.imgN);
      RowAboveFirst(raw, x * f.imgN, f.imgN);
    } else {
      hide Decoded;
      DecodedByte(raw, f, x, y, i, j - 1, c);
    }
  }

  lemma RowAboveFirst(raw: seq<byte>, w: nat, n: nat)
    requires n > 0
    ensures GoodFilters(raw, w, 0) && ReconUpTo(raw, w, n, 0) == Zeros(w)
  {
  }

  /** The neighbours in the bytes of the two rows. */
  lemma Neighbours(raw: seq<byte>, f: Format, x: nat, y: nat, i: nat, j: nat, c: nat, w: nat, n: nat, k: nat)
    requires WholeImage(raw, f, x, y) && i < x && j < y && c < f.imgN
    requires n == f.imgN && w == x * n && k == i * n + c
    ensures n > 0 && k < w && (j + 1) * (w + 1) <= |raw| && j * (w + 1) <= |raw|
    ensures GoodFilters(raw, w, j) && GoodFilters(raw, w, j + 1)
    ensures var cur, prior := ReconUpTo(raw, w, n, j + 1), ReconUpTo(raw, w, n, j);
            && Decoded(raw, f, x, y, i, j, c) == cur[k] as int
            && Decoded(raw, f, x, y, i - 1, j, c) == (if k < n then 0 else cur[k - n] as int)
            && Decoded(raw, f, x, y, i, j - 1, c) == prior[k] as int
            && Decoded(raw, f, x, y, i - 1, j - 1, c) == if k < n then 0 else prior[k - n] as int
  {
    hide GoodFilters, OutRows, ReconUpTo;
    DecodedByte(raw, f, x, y, i, j, c);
    ByteAbove(raw, f, x, y, i, j, c);
    if i > 0 {
      hide Decoded;
      DecodedByte(raw, f, x, y, i - 1, j, c);
      ByteAbove(raw, f, x, y, i - 1, j, c);
      OnePixelBack(i, n, c);
    }
  }

  lemma OnePixelBack(i: nat, n: nat, c: nat)
    requires i > 0
    ensures i * n + c - n == (i - 1) * n + c
  {
  }

  /**
    Every component of every pixel comes from its byte by the component of the pixel on the
    left, above, or nearest in value to what the three neighbours suggest.
   */
  lemma ComponentFilter(raw: seq<byte>, f: Format, x: nat, y: nat, i: nat, j: nat, c: nat)
    requires WholeImage(raw, f, x, y) && i < x && j < y && c < f.imgN
    ensures RowAt(x * f.imgN, j) + 1 + ByteIn(f.imgN, i, c) < |raw|
    ensures var at := RowAt(x * f.imgN, j);
            var v := raw[at + 1 + ByteIn(f.imgN, i, c)] as int;
            var left, up := Decoded(raw, f, x, y, i - 1, j, c), Decoded(raw, f, x, y, i, j - 1, c);
            var corner := Decoded(raw, f, x, y, i - 1, j - 1, c);
            var got := Decoded(raw, f, x, y, i, j, c);
            && raw[at] <= 4
            && (raw[at] == 0 ==> got == v)
            && (raw[at] == 1 ==> got == (v + left) % 256)
            && (raw[at] == 2 ==> got == (v + up) % 256)
            && (raw[at] == 3 ==> got == (v + (left + up) / 2) % 256)
            && (raw[at] == 4 ==> got == (v + PaethPredictor(left, up, corner)) % 256)
  {
    hide Decoded, PaethPredictor, Predict, OutRows, ReconRow, ReconUpTo, RowFilter, RowBytes, GoodFilters, RowAt;
    hide WholeImage;
    var n, w, k := f.imgN, x * f.imgN, ByteIn(f.imgN, i, c);
    Neighbours(raw, f, x, y, i, j, c, w, n, k);
    RowParts(raw, w, j, k);
    GoodFiltersStep(raw, w, j);
    ReconUpToNext(raw, w, n, j);
    var cur, prior := ReconUpTo(raw, w, n, j + 1), ReconUpTo(raw, w, n, j);
    ReconAt(RowFilter(raw, w, j), n, RowBytes(raw, w, j), prior, k);
    Predictions(RowFilter(raw, w, j), if k < n then 0 else cur[k - n], prior[k], if k < n then 0 else prior[k - n]);
  }
}
