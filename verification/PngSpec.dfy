/** PNG row filtering (section 6 of RFC 2083) and Adam7 interlacing (section 2.6). */
module PngSpec {
  import opened Words

  type row = seq<byte>

  // ----- predictors -----

  function Abs(x: int): nat {
    if x < 0 then -x else x
  }

  /** The Paeth predictor as the PNG specification defines it. */
  function PaethPredictor(a: int, b: int, c: int): int {
    var p := a + b - c;
    var pa, pb, pc := Abs(p - a), Abs(p - b), Abs(p - c);
    if pa <= pb && pa <= pc then a else if pb <= pc then b else c
  }

  function Square(x: int): nat {
    x * x
  }

  lemma SquareOrder(x: int, y: int)
    ensures Abs(x) <= Abs(y) <==> Square(x) <= Square(y)
  {
    assert Square(x) == Abs(x) * Abs(x) && Square(y) == Abs(y) * Abs(y);
    if Abs(x) <= Abs(y) {
      MulMono(Abs(x), Abs(y), Abs(x));
      MulMono(Abs(x), Abs(y), Abs(y));
    } else {
      MulMono(Abs(y) + 1, Abs(x), Abs(x));
      MulMono(Abs(y), Abs(x), Abs(y));
    }
  }

  /** It is the one of the three that is nearest to a + b - c; of equally near ones a comes first, and then b. */
  lemma PaethNearest(a: int, b: int, c: int)
    ensures var p, r := a + b - c, PaethPredictor(a, b, c);
            && (r == a || r == b || r == c)
            && Square(p - r) <= Square(p - a) && Square(p - r) <= Square(p - b) && Square(p - r) <= Square(p - c)
            && (Square(p - a) == Square(p - r) ==> r == a)
            && (Square(p - b) == Square(p - r) ==> r == a || r == b)
  {
    hide Square;
    var p := a + b - c;
    SquareOrder(p - a, p - b);
    SquareOrder(p - b, p - a);
    SquareOrder(p - a, p - c);
    SquareOrder(p - c, p - a);
    SquareOrder(p - b, p - c);
    SquareOrder(p - c, p - b);
  }

  /** Filter types 0 to 4: none, sub, up, average, Paeth. */
  function Predict(ft: nat, a: byte, b: byte, c: byte): (r: byte)
    requires ft <= 4
  {
    if ft == 0 then 0
    else if ft == 1 then a
    else if ft == 2 then b
    else if ft == 3 then (a as int + b as int) / 2
    else PaethPredictor(a, b, c)
  }

  // ----- rows -----

  /** Byte k of a row, or 0 left of it. */
  function At(r: row, k: int): byte
    requires k < |r|
  {
    if k < 0 then 0 else r[k]
  }

  function Wrap(x: int): byte {
    x % 256
  }

  /** The filtered form of byte k of `cur`: what a PNG encoder writes. */
  function FilteredByte(ft: nat, bpp: nat, cur: row, prior: row, k: nat): byte
    requires ft <= 4 && k < |cur| == |prior|
  {
    Wrap(cur[k] as int - Predict(ft, At(cur, k - bpp), prior[k], At(prior, k - bpp)) as int)
  }

  function FilterRow(ft: nat, bpp: nat, cur: row, prior: row): (r: row)
    requires ft <= 4 && |cur| == |prior|
    ensures |r| == |cur|
  {
    seq(|cur|, k requires 0 <= k < |cur| => FilteredByte(ft, bpp, cur, prior, k))
  }

  /** Byte k of the row reconstructed from `raw`. */
  function ReconByte(ft: nat, bpp: nat, raw: row, prior: row, k: nat): byte
    requires ft <= 4 && k < |raw| == |prior| && bpp > 0
    decreases k
  {
    var left := if k < bpp then 0 else ReconByte(ft, bpp, raw, prior, k - bpp);
    Wrap(raw[k] as int + Predict(ft, left, prior[k], At(prior, k - bpp)) as int)
  }

  function ReconRow(ft: nat, bpp: nat, raw: row, prior: row): (r: row)
    requires ft <= 4 && |raw| == |prior| && bpp > 0
    ensures |r| == |raw|
  {
    seq(|raw|, k requires 0 <= k < |raw| => ReconByte(ft, bpp, raw, prior, k))
  }

  lemma WrapCancels(x: byte, y: byte)
    ensures Wrap(Wrap(x as int - y as int) as int + y as int) == x
  {
  }

  /** Reconstruction undoes filtering, byte by byte. */
  lemma {:induction false} ReconOfFiltered(ft: nat, bpp: nat, cur: row, prior: row, k: nat)
    requires ft <= 4 && k < |cur| == |prior| && bpp > 0
    ensures ReconByte(ft, bpp, FilterRow(ft, bpp, cur, prior), prior, k) == cur[k]
    decreases k
  {
    hide Predict, Wrap;
    if bpp <= k {
      ReconOfFiltered(ft, bpp, cur, prior, k - bpp);
    }
    WrapCancels(cur[k], Predict(ft, At(cur, k - bpp), prior[k], At(prior, k - bpp)));
  }

  lemma RowRoundTrip(ft: nat, bpp: nat, cur: row, prior: row)
    requires ft <= 4 && |cur| == |prior| && bpp > 0
    ensures ReconRow(ft, bpp, FilterRow(ft, bpp, cur, prior), prior) == cur
  {
    hide ReconByte, FilterRow;
    forall k | 0 <= k < |cur| ensures ReconByte(ft, bpp, FilterRow(ft, bpp, cur, prior), prior, k) == cur[k] {
      ReconOfFiltered(ft, bpp, cur, prior, k);
    }
  }

  // ----- images -----

  function Zeros(n: nat): (r: row)
    ensures |r| == n
  {
    seq(n, _ => 0)
  }

  /** The filter type and the bytes of row j of a filtered image with w bytes a row. */
  function RowFilter(raw: seq<byte>, w: nat, j: nat): byte
    requires (j + 1) * (w + 1) <= |raw|
  {
    RowStart(w, j);
    raw[j * (w + 1)]
  }

  function RowBytes(raw: seq<byte>, w: nat, j: nat): (r: row)
    requires (j + 1) * (w + 1) <= |raw|
    ensures |r| == w
  {
    RowStart(w, j);
    raw[j * (w + 1) + 1..(j + 1) * (w + 1)]
  }

  lemma RowStart(w: nat, j: nat)
    ensures (j + 1) * (w + 1) == j * (w + 1) + 1 + w
  {
  }

  /** All of the first n rows name one of the five filters. */
  predicate GoodFilters(raw: seq<byte>, w: nat, n: nat)
    requires n * (w + 1) <= |raw|
  {
    n == 0 || (RowStart(w, n - 1); RowFilter(raw, w, n - 1) <= 4 && GoodFilters(raw, w, n - 1))
  }

  /** Row n-1 of the image reconstructed from raw; row -1 is zeros. */
  function ReconUpTo(raw: seq<byte>, w: nat, bpp: nat, n: nat): (r: row)
    requires n * (w + 1) <= |raw| && GoodFilters(raw, w, n) && bpp > 0
    ensures |r| == w
  {
    if n == 0 then Zeros(w)
    else
      RowStart(w, n - 1);
      ReconRow(RowFilter(raw, w, n - 1), bpp, RowBytes(raw, w, n - 1), ReconUpTo(raw, w, bpp, n - 1))
  }

  lemma {:induction false} GoodFiltersPrefix(raw: seq<byte>, w: nat, m: nat, n: nat)
    requires m <= n && n * (w + 1) <= |raw| && GoodFilters(raw, w, n)
    ensures m * (w + 1) <= |raw| && GoodFilters(raw, w, m)
    decreases n
  {
    if n <= m {
    } else {
      RowStart(w, n - 1);
      GoodFiltersPrefix(raw, w, m, n - 1);
    }
  }

  predicate Uniform(rows: seq<row>, w: nat) {
    forall i :: 0 <= i < |rows| ==> |rows[i]| == w
  }

  predicate GoodChoices(filters: seq<nat>) {
    forall i :: 0 <= i < |filters| ==> filters[i] <= 4
  }

  /** A PNG encoder's output for the first n rows of an image, one filter choice a row. */
  function FilterImage(rows: seq<row>, filters: seq<nat>, w: nat, bpp: nat, n: nat): (raw: seq<byte>)
    requires n <= |rows| == |filters|
    requires Uniform(rows, w) && GoodChoices(filters)
    ensures |raw| == n * (w + 1)
  {
    if n == 0 then []
    else
      RowStart(w, n - 1);
      var prior := if n == 1 then Zeros(w) else rows[n - 2];
      FilterImage(rows, filters, w, bpp, n - 1) + [filters[n - 1]] + FilterRow(filters[n - 1], bpp, rows[n - 1], prior)
  }

  lemma FilteredRow(rows: seq<row>, filters: seq<nat>, w: nat, bpp: nat, n: nat, more: seq<byte>)
    requires 0 < n <= |rows| == |filters|
    requires Uniform(rows, w) && GoodChoices(filters)
    ensures var raw := FilterImage(rows, filters, w, bpp, n) + more;
            var prior := if n == 1 then Zeros(w) else rows[n - 2];
            && n * (w + 1) <= |raw|
            && RowFilter(raw, w, n - 1) == filters[n - 1]
            && RowBytes(raw, w, n - 1) == FilterRow(filters[n - 1], bpp, rows[n - 1], prior)
  {
    RowStart(w, n - 1);
  }

  /** The round trip: for any rows, any filter unit and any choice of filters, and whatever follows. */
  lemma {:induction false} ImageRoundTrip(rows: seq<row>, filters: seq<nat>, w: nat, bpp: nat, n: nat, more: seq<byte>)
    requires n <= |rows| == |filters| && bpp > 0
    requires Uniform(rows, w) && GoodChoices(filters)
    ensures var raw := FilterImage(rows, filters, w, bpp, n) + more;
            GoodFilters(raw, w, n) && ReconUpTo(raw, w, bpp, n) == if n == 0 then Zeros(w) else rows[n - 1]
    decreases n
  {
    hide ReconRow, FilterRow, RowFilter, RowBytes;
    if n == 0 {
    } else {
      RowStart(w, n - 1);
      var prior := if n == 1 then Zeros(w) else rows[n - 2];
      var rest := [filters[n - 1]] + FilterRow(filters[n - 1], bpp, rows[n - 1], prior) + more;
      assert FilterImage(rows, filters, w, bpp, n) + more == FilterImage(rows, filters, w, bpp, n - 1) + rest;
      ImageRoundTrip(rows, filters, w, bpp, n - 1, rest);
      FilteredRow(rows, filters, w, bpp, n, more);
      RowRoundTrip(filters[n - 1], bpp, rows[n - 1], prior);
    }
  }
}
