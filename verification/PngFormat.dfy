/** Samples of 1 to 16 bits in the bytes of a PNG row (section 2.3 of RFC 2083), and the pixels made of them. */
module PngFormat {
  import opened Words
  import opened PngSpec

  type pixel = seq<nat>

  /** imgN samples a pixel, of `depth` bits each; outN asks for an opaque alpha sample besides. */
  datatype Format = Format(imgN: nat, outN: nat, depth: nat, gray: bool)

  predicate GoodDepth(depth: nat) {
    depth == 1 || depth == 2 || depth == 4 || depth == 8 || depth == 16
  }

  predicate GoodFormat(f: Format) {
    f.imgN > 0 && GoodDepth(f.depth) && (f.outN == f.imgN || f.outN == f.imgN + 1)
  }

  /** Bytes of n samples. */
  function Bytes(n: nat, depth: nat): nat {
    (n * depth + 7) / 8
  }

  /** Bytes of a row of x pixels. */
  function RowWidth(f: Format, x: nat): nat {
    Bytes(x * f.imgN, f.depth)
  }

  /** The filter unit: the bytes of a whole pixel, or one. */
  function Unit(f: Format): nat {
    if f.depth == 16 then f.imgN * 2 else if f.depth < 8 then 1 else f.imgN
  }

  /** The unit is the least number of bytes that holds a pixel; pixels below a byte have one sample. */
  lemma UnitHoldsPixel(f: Format)
    requires GoodDepth(f.depth) && f.imgN > 0 && (f.imgN == 1 || f.depth >= 8)
    ensures 8 * (Unit(f) - 1) < f.imgN * f.depth <= 8 * Unit(f)
  {
  }

  /** A row takes the least number of bytes that holds its samples. */
  lemma RowHoldsPixels(f: Format, x: nat)
    ensures 8 * RowWidth(f, x) - 8 < x * f.imgN * f.depth <= 8 * RowWidth(f, x)
  {
  }

  /** Samples a byte for depths below 8. */
  function PerByte(depth: nat): nat
    requires depth == 1 || depth == 2 || depth == 4
  {
    8 / depth
  }

  /** Where the byte of sample m is, and how far the sample is above its low end. */
  function ByteOf(m: nat, depth: nat): nat
    requires depth == 1 || depth == 2 || depth == 4
  {
    Quo(m, PerByte(depth))
  }

  /** Sample t of a byte is this far above its low end; the first is the topmost. */
  function SampleShift(t: nat, depth: nat): nat
    requires (depth == 1 || depth == 2 || depth == 4) && t < PerByte(depth)
  {
    8 - depth - t * depth
  }

  function ShiftOf(m: nat, depth: nat): nat
    requires depth == 1 || depth == 2 || depth == 4
  {
    SampleShift(Rem(m, PerByte(depth)), depth)
  }

  lemma SampleInRow(m: nat, n: nat, depth: nat)
    requires m < n && GoodDepth(depth)
    ensures depth == 16 ==> 2 * m + 1 < Bytes(n, depth)
    ensures depth == 8 ==> m < Bytes(n, depth)
    ensures depth < 8 ==> ByteOf(m, depth) < Bytes(n, depth)
  {
    if depth == 4 {
      assert Bytes(n, 4) == (n * 4 + 7) / 8;
    } else if depth == 2 {
      assert Bytes(n, 2) == (n * 2 + 7) / 8;
    } else if depth == 1 {
      assert Bytes(n, 1) == (n + 7) / 8;
    }
  }

  /** Sample m of a row. */
  function Sample(cur: row, m: nat, n: nat, depth: nat): nat
    requires m < n && GoodDepth(depth) && Bytes(n, depth) <= |cur|
  {
    SampleInRow(m, n, depth);
    if depth == 16 then cur[2 * m] as nat * 256 + cur[2 * m + 1] as nat
    else if depth == 8 then cur[m]
    else Low(Shr(cur[ByteOf(m, depth)], ShiftOf(m, depth)), depth)
  }

  /**
    Samples lie in the row one after the other, each with its most significant bit first,
    whatever the depth: bit t of sample m is this bit of the row, counted from the top of byte 0.
   */
  function SampleBit(m: nat, depth: nat, t: nat): nat
    requires t < depth
  {
    m * depth + (depth - 1 - t)
  }

  lemma SampleBits(cur: row, m: nat, n: nat, depth: nat, t: nat)
    requires m < n && GoodDepth(depth) && Bytes(n, depth) <= |cur| && t < depth
    ensures Sample(cur, m, n, depth) < Pow2(depth)
    ensures var p := SampleBit(m, depth, t);
            p / 8 < |cur| && Bit(Sample(cur, m, n, depth), t) == Bit(cur[p / 8], 7 - p % 8)
  {
    hide Bytes, ByteOf, ShiftOf;
    SampleInRow(m, n, depth);
    if depth == 16 {
      WideBits(cur, m, t);
    } else if depth == 8 {
      assert Pow2(8) == 256;
      DivMod(8 * m + (7 - t), 8, m, 7 - t);
    } else {
      NarrowBits(cur, m, depth, t);
    }
  }

  lemma WideBits(cur: row, m: nat, t: nat)
    requires 2 * m + 1 < |cur| && t < 16
    ensures var v, p := cur[2 * m] as nat * 256 + cur[2 * m + 1] as nat, SampleBit(m, 16, t);
            v < Pow2(16) && p / 8 < |cur| && Bit(v, t) == Bit(cur[p / 8], 7 - p % 8)
  {
    Pow2Of16();
    assert Pow2(8) == 256;
    hide Bit, Pow2;
    BitOfConcat(cur[2 * m + 1], cur[2 * m], 8, t);
    if t < 8 {
      DivMod(16 * m + (15 - t), 8, 2 * m + 1, 7 - t);
    } else {
      DivMod(16 * m + (15 - t), 8, 2 * m, 15 - t);
    }
  }

  lemma NarrowBits(cur: row, m: nat, depth: nat, t: nat)
    requires (depth == 1 || depth == 2 || depth == 4) && ByteOf(m, depth) < |cur| && t < depth
    ensures var v, p := Low(Shr(cur[ByteOf(m, depth)], ShiftOf(m, depth)), depth), SampleBit(m, depth, t);
            v < Pow2(depth) && p / 8 < |cur| && Bit(v, t) == Bit(cur[p / 8], 7 - p % 8)
  {
    hide Bit, Low, Shr, Pow2, Quo, Rem, SampleBit, ByteOf, ShiftOf;
    var b, sh := cur[ByteOf(m, depth)], ShiftOf(m, depth);
    Split(Shr(b, sh), depth);
    BitOfLow(Shr(b, sh), depth, t);
    BitOfShr(b, sh, t);
    NarrowPlace(m, depth, t);
  }

  lemma NarrowPlace(m: nat, depth: nat, t: nat)
    requires (depth == 1 || depth == 2 || depth == 4) && t < depth
    ensures var p := SampleBit(m, depth, t); p / 8 == ByteOf(m, depth) && 7 - p % 8 == ShiftOf(m, depth) + t
  {
    hide Quo, Rem;
    var k, r := Quo(m, PerByte(depth)), Rem(m, PerByte(depth));
    QuoRem(m, PerByte(depth));
    if depth == 4 {
      DivMod(4 * m + (3 - t), 8, k, 4 * r + (3 - t));
    } else if depth == 2 {
      DivMod(2 * m + (1 - t), 8, k, 2 * r + (1 - t));
    } else {
      DivMod(m, 8, k, r);
    }
  }

  const DEPTH_SCALE: seq<nat> := [0, 0xFF, 0x55, 0, 0x11, 0, 0, 0, 0x01]

  /** Gray samples of less than a byte are spread over the range of a byte. */
  function Scale(f: Format): nat
    requires GoodFormat(f)
  {
    if f.depth < 8 && f.gray then DEPTH_SCALE[f.depth] else 1
  }

  function Scaled(f: Format, v: nat): nat
    requires GoodFormat(f)
  {
    Scale(f) * v
  }

  /** The full range of a depth comes out as 0 to 255. */
  lemma ScaleFills(depth: nat)
    requires depth == 1 || depth == 2 || depth == 4
    ensures DEPTH_SCALE[depth] * (Pow2(depth) - 1) == 255
  {
    SmallPowers();
  }

  /** Scaling keeps the share of the full range; only small gray samples are scaled. */
  lemma ScaledShare(f: Format, v: nat)
    requires GoodFormat(f)
    ensures f.depth < 8 && f.gray ==> Scaled(f, v) * (Pow2(f.depth) - 1) == 255 * v
    ensures f.depth >= 8 || !f.gray ==> Scaled(f, v) == v
  {
    SmallPowers();
  }

  function Opaque(f: Format): pixel {
    if f.outN == f.imgN then [] else if f.depth == 16 then [0xFFFF] else [255]
  }

  /** An added alpha is the largest sample that comes out. */
  lemma OpaqueIsFull(f: Format)
    requires GoodFormat(f)
    ensures Opaque(f) == if f.outN == f.imgN then [] else [Pow2(if f.depth == 16 then 16 else 8) - 1]
  {
    Pow2Of16();
    SmallPowers();
  }

  lemma PixelInRow(i: nat, x: nat, n: nat)
    requires i < x
    ensures i * n + n <= x * n
  {
    MulMono(i + 1, x, n);
  }

  /** Component c of pixel i of a row of x. */
  function Component(cur: row, i: nat, c: nat, x: nat, f: Format): nat
    requires GoodFormat(f) && i < x && c < f.imgN && |cur| == RowWidth(f, x)
  {
    PixelInRow(i, x, f.imgN);
    Scaled(f, Sample(cur, i * f.imgN + c, x * f.imgN, f.depth))
  }

  function Components(cur: row, i: nat, x: nat, f: Format): (px: pixel)
    requires GoodFormat(f) && i < x && |cur| == RowWidth(f, x)
    ensures |px| == f.imgN
  {
    seq<nat>(f.imgN, c requires 0 <= c < f.imgN => Component(cur, i, c, x, f))
  }

  /** Pixel i of a row of x. */
  function OutPixel(cur: row, i: nat, x: nat, f: Format): (px: pixel)
    requires GoodFormat(f) && i < x && |cur| == RowWidth(f, x)
    ensures |px| == f.outN
  {
    Components(cur, i, x, f) + Opaque(f)
  }

  lemma UnitInRow(f: Format, x: nat)
    requires GoodFormat(f) && x > 0
    ensures 0 < Unit(f) <= RowWidth(f, x)
  {
    MulMono(1, x, f.imgN);
  }

  // ----- packing -----

  /** The samples of an encoder fit the depth. */
  predicate Fitting(s: seq<nat>, depth: nat) {
    forall m :: 0 <= m < |s| ==> s[m] < Pow2(depth)
  }

  /** The next t samples from m on, most significant first, with zeros past the last. */
  function Joined(s: seq<nat>, m: nat, t: nat, depth: nat): nat
  {
    if t == 0 then 0
    else Joined(s, m, t - 1, depth) * Pow2(depth) + if m + t - 1 < |s| then s[m + t - 1] else 0
  }

  lemma {:induction false} JoinedBound(s: seq<nat>, m: nat, t: nat, depth: nat)
    requires Fitting(s, depth)
    ensures Joined(s, m, t, depth) < Pow2(t * depth)
  {
    if t == 0 {
    } else {
      hide Pow2;
      JoinedBound(s, m, t - 1, depth);
      var b := if m + t - 1 < |s| then s[m + t - 1] else 0;
      Positive(depth);
      Pow2Add((t - 1) * depth, depth);
      DigitsBelow(Joined(s, m, t - 1, depth), Pow2((t - 1) * depth), b, Pow2(depth));
      assert (t - 1) * depth + depth == t * depth;
    }
  }

  lemma DigitsBelow(a: nat, q: nat, b: nat, p: nat)
    requires a < q && b < p
    ensures a * p + b < q * p
  {
    MulMono(a + 1, q, p);
  }

  lemma Positive(n: nat)
    ensures Pow2(n) > 0
  {
  }

  lemma LastJoined(s: seq<nat>, m: nat, t: nat, depth: nat)
    requires Fitting(s, depth) && t > 0
    ensures Shr(Joined(s, m, t, depth), depth) == Joined(s, m, t - 1, depth)
  {
    hide Pow2, Shr;
    var b := if m + t - 1 < |s| then s[m + t - 1] else 0;
    Positive(depth);
    SplitUnique(Joined(s, m, t, depth), depth, Joined(s, m, t - 1, depth), b);
  }

  /** Shifting away later samples. */
  lemma {:induction false} JoinedShr(s: seq<nat>, m: nat, t: nat, r: nat, depth: nat)
    requires Fitting(s, depth)
    ensures Shr(Joined(s, m, t + r, depth), r * depth) == Joined(s, m, t, depth)
    decreases r
  {
    if r == 0 {
    } else {
      LastJoined(s, m, t + r, depth);
      JoinedShr(s, m, t, r - 1, depth);
      hide Joined, Pow2, Shr;
      assert depth + (r - 1) * depth == r * depth;
      ShrShr(Joined(s, m, t + r, depth), depth, (r - 1) * depth);
    }
  }

  /** Sample t of those joined. */
  lemma JoinedAt(s: seq<nat>, m: nat, t: nat, all: nat, depth: nat)
    requires Fitting(s, depth) && t < all && m + t < |s|
    ensures Low(Shr(Joined(s, m, all, depth), (all - 1 - t) * depth), depth) == s[m + t]
  {
    hide Pow2, Shr, Low;
    JoinedShr(s, m, t + 1, all - 1 - t, depth);
    SplitUnique(Joined(s, m, t + 1, depth), depth, Joined(s, m, t, depth), s[m + t]);
  }

  /** Byte k of the samples packed. */
  function PackedByte(s: seq<nat>, k: nat, depth: nat): byte
    requires GoodDepth(depth) && Fitting(s, depth) && k < Bytes(|s|, depth)
  {
    PackFits(s, k, depth);
    if depth == 16 then (if k % 2 == 0 then s[k / 2] / 256 else s[k / 2] % 256)
    else if depth == 8 then s[k]
    else Joined(s, k * PerByte(depth), PerByte(depth), depth)
  }

  lemma PackFits(s: seq<nat>, k: nat, depth: nat)
    requires GoodDepth(depth) && Fitting(s, depth) && k < Bytes(|s|, depth)
    ensures depth == 16 ==> k / 2 < |s| && s[k / 2] < 0x1_0000
    ensures depth == 8 ==> k < |s| && s[k] < 256
    ensures depth < 8 ==> Joined(s, k * PerByte(depth), PerByte(depth), depth) < 256
  {
    SmallPowers();
    Pow2Of16();
    hide Pow2;
    if depth < 8 {
      JoinedBound(s, k * PerByte(depth), PerByte(depth), depth);
      assert PerByte(depth) * depth == 8;
    } else if depth == 8 {
      assert Bytes(|s|, 8) == |s|;
    } else {
      assert Bytes(|s|, 16) == 2 * |s|;
    }
  }

  function Pack(s: seq<nat>, depth: nat): (r: row)
    requires GoodDepth(depth) && Fitting(s, depth)
    ensures |r| == Bytes(|s|, depth)
  {
    seq(Bytes(|s|, depth), k requires 0 <= k < Bytes(|s|, depth) => PackedByte(s, k, depth))
  }

  /** Packed samples read back, at every depth. */
  lemma PackedSample(s: seq<nat>, m: nat, depth: nat)
    requires GoodDepth(depth) && Fitting(s, depth) && m < |s|
    ensures Sample(Pack(s, depth), m, |s|, depth) == s[m]
  {
    SampleInRow(m, |s|, depth);
    var r := Pack(s, depth);
    if depth == 16 {
      assert r[2 * m] == PackedByte(s, 2 * m, 16) && r[2 * m + 1] == PackedByte(s, 2 * m + 1, 16);
      TwoBytes(s, m);
    } else if depth == 8 {
      assert r[m] == PackedByte(s, m, 8);
    } else {
      hide ByteOf, ShiftOf, Joined, Low, Shr;
      assert r[ByteOf(m, depth)] == PackedByte(s, ByteOf(m, depth), depth);
      SubByte(s, m, depth);
    }
  }

  lemma TwoBytes(s: seq<nat>, m: nat)
    requires Fitting(s, 16) && m < |s|
    ensures 2 * m + 1 < Bytes(|s|, 16)
    ensures PackedByte(s, 2 * m, 16) as nat * 256 + PackedByte(s, 2 * m + 1, 16) as nat == s[m]
  {
    DivMod(2 * m, 2, m, 0);
    DivMod(2 * m + 1, 2, m, 1);
  }

  lemma SubByte(s: seq<nat>, m: nat, depth: nat)
    requires (depth == 1 || depth == 2 || depth == 4) && Fitting(s, depth) && m < |s|
    ensures var packed := Joined(s, ByteOf(m, depth) * PerByte(depth), PerByte(depth), depth);
            Low(Shr(packed, ShiftOf(m, depth)), depth) == s[m]
  {
    hide Joined, Pow2, Shr, Low;
    var per := PerByte(depth);
    var k, t := Quo(m, per), Rem(m, per);
    QuoRem(m, per);
    JoinedAt(s, k * per, t, per, depth);
    assert (per - 1 - t) * depth == 8 - depth - t * depth;
  }
}
