/**
  One frame of a GIF from its colour table to the canvas, against an encoder: the
  indices of an image in transmission order, LZW coded behind the colours.
 */
module GifFrame {
  import opened Words
  import opened Input
  import opened GifSpec
  import opened Gif
  import opened GifLzw
  import opened GifEncode

  // ----- the transmission order -----

  /** The rows from `start` on, every `step` rows. */
  function Every(start: nat, step: nat, h: nat): seq<nat>
    requires step > 0
    decreases if start < h then h - start else 0
  {
    if start < h then [start] + Every(start + step, step, h) else []
  }

  /** The four groups of rows of Appendix E of GIF89a. */
  function RowList(h: nat, interlaced: bool): seq<nat> {
    if interlaced then Every(0, 8, h) + Every(4, 8, h) + Every(2, 4, h) + Every(1, 2, h) else Every(0, 1, h)
  }

  lemma {:induction false} EveryAt(start: nat, step: nat, h: nat, n: nat, k: nat)
    requires step > 0 && (n == 0 || start + (n - 1) * step < h) && h <= start + n * step
    ensures |Every(start, step, h)| == n
    ensures k < n ==> Every(start, step, h)[k] == start + k * step
    decreases n
  {
    if n == 0 {
    } else {
      assert start < h by { MulMono(0, n - 1, step); }
      assert start + step + (n - 1) * step == start + n * step;
      assert n > 1 ==> start + step + (n - 2) * step == start + (n - 1) * step;
      EveryAt(start + step, step, h, n - 1, if k > 0 then k - 1 else 0);
      assert k > 0 ==> start + step + (k - 1) * step == start + k * step;
    }
  }

  /** Each pass ends with the last of its rows. */
  lemma PassEnds(h: nat)
    requires h > 0
    ensures var a, b, c, d := After1(h), After2(h) - After1(h), After3(h) - After2(h), h - After3(h);
            && 0 <= b && 0 <= c && 0 <= d
            && 8 * (a - 1) < h <= 8 * a && (b > 0 ==> 4 + 8 * (b - 1) < h) && h <= 4 + 8 * b
            && (c > 0 ==> 2 + 4 * (c - 1) < h) && h <= 2 + 4 * c && (d > 0 ==> 1 + 2 * (d - 1) < h) && h <= 1 + 2 * d
  {
    PassSizes(h);
  }

  lemma FourLists(a: seq<nat>, b: seq<nat>, c: seq<nat>, d: seq<nat>, k: nat)
    requires k < |a| + |b| + |c| + |d|
    ensures (a + b + c + d)[k] ==
            if k < |a| then a[k]
            else if k < |a| + |b| then b[k - |a|]
            else if k < |a| + |b| + |c| then c[k - |a| - |b|]
            else d[k - |a| - |b| - |c|]
  {
  }

  lemma PassLengths(h: nat)
    requires h > 0
    ensures After1(h) <= After2(h) <= After3(h) <= h
    ensures |Every(0, 8, h)| == After1(h) && |Every(4, 8, h)| == After2(h) - After1(h)
    ensures |Every(2, 4, h)| == After3(h) - After2(h) && |Every(1, 2, h)| == h - After3(h)
  {
    hide After1, After2, After3, Every;
    PassEnds(h);
    EveryAt(0, 8, h, After1(h), 0);
    EveryAt(4, 8, h, After2(h) - After1(h), 0);
    EveryAt(2, 4, h, After3(h) - After2(h), 0);
    EveryAt(1, 2, h, h - After3(h), 0);
  }

  /** Row k of the list, in its pass. */
  lemma PassesAt(h: nat, k: nat)
    requires k < h && After1(h) <= After2(h) <= After3(h) <= h
    ensures var a, b, c := After1(h), After2(h), After3(h);
            if k < a then k < |Every(0, 8, h)| && Every(0, 8, h)[k] == 8 * k
            else if k < b then k - a < |Every(4, 8, h)| && Every(4, 8, h)[k - a] == 4 + 8 * (k - a)
            else if k < c then k - b < |Every(2, 4, h)| && Every(2, 4, h)[k - b] == 2 + 4 * (k - b)
            else k - c < |Every(1, 2, h)| && Every(1, 2, h)[k - c] == 1 + 2 * (k - c)
  {
    hide After1, After2, After3, Every;
    PassEnds(h);
    var a, b, c := After1(h), After2(h), After3(h);
    if k < a {
      EveryAt(0, 8, h, a, k);
    } else if k < b {
      EveryAt(4, 8, h, b - a, k - a);
    } else if k < c {
      EveryAt(2, 4, h, c - b, k - b);
    } else {
      EveryAt(1, 2, h, h - c, k - c);
    }
  }

  /** The row order of the specification is that list. */
  lemma RowListAt(k: nat, h: nat, interlaced: bool)
    requires k < h
    ensures |RowList(h, interlaced)| == h && RowList(h, interlaced)[k] == RowAt(k, h, interlaced)
  {
    hide After1, After2, After3, Every, RowList;
    InterlacedList(h);
    if !interlaced {
      EveryAt(0, 1, h, h, k);
    } else {
      PassLengths(h);
      PassesAt(h, k);
      FourLists(Every(0, 8, h), Every(4, 8, h), Every(2, 4, h), Every(1, 2, h), k);
    }
  }

  lemma InterlacedList(h: nat)
    ensures RowList(h, true) == Every(0, 8, h) + Every(4, 8, h) + Every(2, 4, h) + Every(1, 2, h)
    ensures RowList(h, false) == Every(0, 1, h)
  {
  }

  lemma RowsBelow(h: nat, interlaced: bool)
    ensures forall k :: 0 <= k < |RowList(h, interlaced)| ==> RowList(h, interlaced)[k] < h
  {
    hide RowAt, RankOf;
    var rows := RowList(h, interlaced);
    forall k | 0 <= k < |rows| ensures rows[k] < h {
      if h > 0 {
        hide RowList;
        RowListAt(0, h, interlaced);
        RowListAt(k, h, interlaced);
        RowOrderBijective(k, h, interlaced);
      }
    }
  }

  /** An image is a list of rows of w indices. */
  predicate IsImage(img: seq<seq<byte>>, w: nat, h: nat) {
    |img| == h && forall r :: 0 <= r < h ==> |img[r]| == w
  }

  function SendRows(img: seq<seq<byte>>, rows: seq<nat>): seq<byte>
    requires forall k :: 0 <= k < |rows| ==> rows[k] < |img|
  {
    if rows == [] then [] else img[rows[0]] + SendRows(img, rows[1..])
  }

  lemma {:induction false} SentAt(img: seq<seq<byte>>, w: nat, rows: seq<nat>, k: nat, col: nat)
    requires forall r :: 0 <= r < |img| ==> |img[r]| == w
    requires forall k :: 0 <= k < |rows| ==> rows[k] < |img|
    requires k < |rows| && col < w
    ensures |SendRows(img, rows)| == |rows| * w && k * w + col < |rows| * w
    ensures SendRows(img, rows)[k * w + col] == img[rows[k]][col]
    decreases k
  {
    SentLength(img, w, rows);
    MulMono(k + 1, |rows|, w);
    AndOneMore(k, w);
    if k > 0 {
      SentAt(img, w, rows[1..], k - 1, col);
      AndOneMore(k - 1, w);
    }
  }

  lemma {:induction false} SentLength(img: seq<seq<byte>>, w: nat, rows: seq<nat>)
    requires forall r :: 0 <= r < |img| ==> |img[r]| == w
    requires forall k :: 0 <= k < |rows| ==> rows[k] < |img|
    ensures |SendRows(img, rows)| == |rows| * w
    decreases |rows|
  {
    if rows == [] {
    } else {
      SentLength(img, w, rows[1..]);
      AndOneMore(|rows| - 1, w);
    }
  }

  /** The indices of an image in the order of its frame. */
  function Transmitted(f: Frame, img: seq<seq<byte>>): seq<byte>
    requires IsImage(img, f.w, f.h)
  {
    RowsBelow(f.h, f.interlaced);
    SendRows(img, RowList(f.h, f.interlaced))
  }

  /** A canvas painted with a transmitted image shows each index of the image at its own column and row. */
  lemma PaintedImage(f: Frame, img: seq<seq<byte>>, s: seq<byte>, col: nat, row: nat)
    requires IsImage(img, f.w, f.h) && s == Transmitted(f, img) && f.x + f.w <= f.width
    requires col < f.w && row < f.h
    ensures PixelAt(f, col, row) in Painting(f, s) && Painting(f, s)[PixelAt(f, col, row)] == img[row][col]
  {
    hide Quo, Rem, RowAt, RankOf, Painting, PixelAt, RowList, SendRows;
    var k := RankOf(row, f.h, f.interlaced);
    RowOrderBijective(row, f.h, f.interlaced);
    RowListAt(k, f.h, f.interlaced);
    RowsBelow(f.h, f.interlaced);
    SentAt(img, f.w, RowList(f.h, f.interlaced), k, col);
    var n := k * f.w + col;
    QuoRemUnique(n, k, col, f.w);
    QuoBelow(n, f.w, f.h);
    PaintingAt(f, s, n);
  }

  // ----- colours -----

  datatype Color = Color(red: byte, green: byte, blue: byte)

  /** The stored colours. */
  function ColorBytes(colors: seq<Color>): (s: seq<byte>)
    ensures |s| == 3 * |colors|
  {
    if colors == [] then [] else [colors[0].red, colors[0].green, colors[0].blue] + ColorBytes(colors[1..])
  }

  lemma {:induction false} ColorByteAt(colors: seq<Color>, i: nat)
    requires i < |colors|
    ensures ColorBytes(colors)[3 * i] == colors[i].red && ColorBytes(colors)[3 * i + 1] == colors[i].green
    ensures ColorBytes(colors)[3 * i + 2] == colors[i].blue
  {
    if i > 0 {
      ColorByteAt(colors[1..], i - 1);
    }
  }

  /** `stbi__gif_parse_colortable`: blue first, and opaque but for one entry. */
  method ParseColorTable(input: seq<byte>, cursor: nat, pal: array<Pixel>, n: nat, transp: int) returns (after: nat)
    requires n <= pal.Length
    modifies pal
    ensures forall i :: 0 <= i < n ==>
      pal[i] == Pixel(Get8(input, cursor + 3 * i + 2), Get8(input, cursor + 3 * i + 1), Get8(input, cursor + 3 * i),
                      if transp == i then 0 else 255)
    ensures forall i :: n <= i < pal.Length ==> pal[i] == old(pal[i])
    ensures SamePlace(input, after, cursor + 3 * n)
  {
    after := cursor;
    for i := 0 to n
      invariant SamePlace(input, after, cursor + 3 * i)
      invariant forall j :: 0 <= j < i ==>
        pal[j] == Pixel(Get8(input, cursor + 3 * j + 2), Get8(input, cursor + 3 * j + 1),
                        Get8(input, cursor + 3 * j), if transp == j then 0 else 255)
      invariant forall j :: i <= j < pal.Length ==> pal[j] == old(pal[j])
    {
      var red := Get8(input, after);
      after := Next(input, after);
      var green := Get8(input, after);
      after := Next(input, after);
      var blue := Get8(input, after);
      after := Next(input, after);
      pal[i] := Pixel(blue, green, red, if transp == i then 0 else 255);
    }
  }

  /** What a pixel of the frame looks like: its colour, opaque, or what is below where it is transparent. */
  function Shown(colors: seq<Color>, transp: int, index: byte, under: Pixel): Pixel
    requires index < |colors|
  {
    if index == transp then under else Pixel(colors[index].red, colors[index].green, colors[index].blue, 255)
  }

  /** A colour table read from the stored colours draws them as they are. */
  lemma TableShows(input: seq<byte>, cursor: nat, colors: seq<Color>, transp: int, i: byte, under: Pixel)
    requires i < |colors| && StartsAt(input, cursor, ColorBytes(colors))
    ensures Render(Pixel(Get8(input, cursor + 3 * i + 2), Get8(input, cursor + 3 * i + 1), Get8(input, cursor + 3 * i),
                         if transp == i then 0 else 255), under)
         == Shown(colors, transp, i, under)
  {
    hide ColorBytes;
    ColorByteAt(colors, i);
    var s := ColorBytes(colors);
    StartsWith(input, cursor, s, 3 * i);
    StartsWith(input, cursor, s, 3 * i + 1);
    StartsWith(input, cursor, s, 3 * i + 2);
  }

  /** An encoded frame: its colours, the minimum code size and the coded image. */
  datatype Encoded = Encoded(colors: seq<Color>, cs: byte, rs: seq<run>, chunks: seq<seq<byte>>)

  ghost predicate Encodes(e: Encoded, f: Frame, img: seq<seq<byte>>) {
    && |e.colors| <= 256 && 1 <= e.cs <= 12 && GoodRuns(e.cs, e.rs) && GoodChunks(e.chunks)
    && EncodedAs(e.cs, e.rs, Joined(e.chunks))
    && IsImage(img, f.w, f.h) && Indices(e.rs) == Transmitted(f, img)
    && forall r, c :: 0 <= r < f.h && 0 <= c < f.w ==> img[r][c] < |e.colors|
  }

  function FrameBytes(e: Encoded): seq<byte>
    requires GoodChunks(e.chunks)
  {
    ColorBytes(e.colors) + ([e.cs] + Blocks(e.chunks))
  }

  lemma ReadyIsPainted(r: Raster)
    requires r.Ready()
    ensures |r.colorTable| == 256 && |r.out[..]| == |r.history[..]| == |r.under|
    ensures PaintedAs(Painting(r.frame, r.emitted), r.colorTable, r.under, r.out[..], r.history[..])
  {
    hide PaintedAs, Painting;
  }

  lemma PaintedPixel(m: map<nat, byte>, colors: seq<Pixel>, under: seq<Pixel>, out: seq<Pixel>, history: seq<nat>,
                     a: nat)
    requires |colors| == 256 && |out| == |history| == |under| && PaintedAs(m, colors, under, out, history)
    requires a < |out|
    ensures out[a] == if a in m then Render(colors[m[a]], under[a]) else under[a]
  {
  }

  lemma EncodedParts(e: Encoded, f: Frame, img: seq<seq<byte>>)
    requires Encodes(e, f, img)
    ensures |e.colors| <= 256 && 1 <= e.cs <= 12 && GoodRuns(e.cs, e.rs) && GoodChunks(e.chunks)
    ensures EncodedAs(e.cs, e.rs, Joined(e.chunks)) && IsImage(img, f.w, f.h) && Indices(e.rs) == Transmitted(f, img)
    ensures forall r, c :: 0 <= r < f.h && 0 <= c < f.w ==> c < |img[r]| && img[r][c] < |e.colors|
  {
  }

  /** The table holds the colours stored at the cursor. */
  ghost predicate TableOf(table: seq<Pixel>, input: seq<byte>, cursor: nat, n: nat, transp: int) {
    && |table| == 256
    && forall i :: 0 <= i < n <= 256 ==>
         table[i] == Pixel(Get8(input, cursor + 3 * i + 2), Get8(input, cursor + 3 * i + 1),
                           Get8(input, cursor + 3 * i), if transp == i then 0 else 255)
  }

  ghost predicate InFrame(f: Frame, a: nat) {
    exists col: nat, row: nat :: col < f.w && row < f.h && PixelAt(f, col, row) == a
  }

  /** The canvas shows the image in its colours, and is as it was outside the frame. */
  ghost predicate FrameShown(f: Frame, colors: seq<Color>, transp: int, img: seq<seq<byte>>, under: seq<Pixel>,
                             out: seq<Pixel>)
    requires IsImage(img, f.w, f.h) && |out| == |under|
  {
    && (forall col: nat, row: nat :: col < f.w && row < f.h ==>
          && img[row][col] < |colors| && PixelAt(f, col, row) < |out|
          && out[PixelAt(f, col, row)] == Shown(colors, transp, img[row][col], under[PixelAt(f, col, row)]))
    && forall a: nat :: a < |out| && !InFrame(f, a) ==> out[a] == under[a]
  }

  lemma PaintingShows(f: Frame, height: nat, input: seq<byte>, cursor: nat, e: Encoded, img: seq<seq<byte>>,
                      transp: int, table: seq<Pixel>, under: seq<Pixel>, out: seq<Pixel>, history: seq<nat>)
    requires f.x + f.w <= f.width && f.y + f.h <= height && |out| == |history| == |under| == f.width * height
    requires Encodes(e, f, img) && TableOf(table, input, cursor, |e.colors|, transp)
    requires StartsAt(input, cursor, ColorBytes(e.colors))
    requires PaintedAs(Painting(f, Indices(e.rs)), table, under, out, history)
    ensures IsImage(img, f.w, f.h) && FrameShown(f, e.colors, transp, img, under, out)
  {
    hide Encodes, PaintedAs, ColorBytes, Indices, Transmitted, IsImage, Painting, PixelAt, EncodedAs, StartsAt, InFrame;
    EncodedParts(e, f, img);
    var s := Indices(e.rs);
    forall col: nat, row: nat | col < f.w && row < f.h
      ensures PixelAt(f, col, row) < |out|
      ensures out[PixelAt(f, col, row)] == Shown(e.colors, transp, img[row][col], under[PixelAt(f, col, row)])
    {
      AddressOnCanvas(f, col, row, height);
      PaintedImage(f, img, s, col, row);
      PaintedPixel(Painting(f, s), table, under, out, history, PixelAt(f, col, row));
      TableShows(input, cursor, e.colors, transp, img[row][col], under[PixelAt(f, col, row)]);
    }
    forall a: nat | a < |out| && !InFrame(f, a) ensures out[a] == under[a] {
      OutsideFrame(f, s, a);
      PaintedPixel(Painting(f, s), table, under, out, history, a);
    }
  }

  lemma OutsideFrame(f: Frame, s: seq<byte>, a: nat)
    requires !InFrame(f, a)
    ensures a !in Painting(f, s)
  {
    hide Painting, RowAt, RankOf, Quo, Rem, PixelAt;
    if f.w == 0 {
      EmptyFrame(f, s);
    } else if a in Painting(f, s) {
      var n := PaintedBy(f, s, a);
      QuoBelow(n, f.w, f.h);
      RowOrderBijective(Quo(n, f.w), f.h, f.interlaced);
    }
  }

  lemma {:induction false} EmptyFrame(f: Frame, s: seq<byte>)
    requires f.w == 0
    ensures Painting(f, s) == map[]
    decreases |s|
  {
    if s == [] {
    } else {
      EmptyFrame(f, s[..|s| - 1]);
    }
  }

  /** A colour table of its own for one frame. */
  method LocalTable(input: seq<byte>, cursor: nat, size: nat, transp: int) returns (table: seq<Pixel>, after: nat)
    requires size <= 256
    ensures TableOf(table, input, cursor, size, transp) && SamePlace(input, after, cursor + 3 * size)
  {
    var pal := new Pixel[256](_ => Pixel(0, 0, 0, 0));
    after := ParseColorTable(input, cursor, pal, size, transp);
    table := pal[..];
  }

  /**
    From the local colour table to the last sub-block: decoding an encoded frame puts each
    pixel of the image in its colour at its own place of the canvas.
   */
  method DecodeFrame(input: seq<byte>, cursor: nat, f: Frame, height: nat, size: nat, transp: int,
                     canvas: array<Pixel>, history: array<nat>, ghost e: Encoded, ghost img: seq<seq<byte>>)
    returns (ok: bool)
    requires f.x + f.w <= f.width && f.y + f.h <= height && canvas.Length == history.Length == f.width * height
    requires forall a :: 0 <= a < history.Length ==> history[a] == 0
    requires Encodes(e, f, img) && size == |e.colors| && StartsAt(input, cursor, FrameBytes(e))
    modifies canvas, history
    ensures ok && FrameShown(f, e.colors, transp, img, old(canvas[..]), canvas[..])
  {
    hide Encodes, Raster.Ready, ColorBytes, Blocks, GoodRun, EncodedAs, Indices, Transmitted, IsImage, Painting;
    hide PixelAt, PaintedAs, FrameShown;
    EncodedParts(e, f, img);
    StartsParts(input, cursor, ColorBytes(e.colors), [e.cs] + Blocks(e.chunks));
    var table, at := LocalTable(input, cursor, size, transp);
    hide TableOf;
    var raster := new Raster(table, canvas, history, height);
    raster.StartFrame(f);
    var d := new Decoder(input, at, raster);
    ok := DecodeRaster(d, e.cs, e.rs, e.chunks);
    ReadyIsPainted(raster);
    assert raster.emitted == Indices(e.rs);
    PaintingShows(f, height, input, cursor, e, img, transp, table, raster.under, canvas[..], history[..]);
  }
}
