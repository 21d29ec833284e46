/**
  What a GIF raster means: the sub-block layer and the variable-width LZW code of
  GIF89a (Appendix F), and the row order of interlaced images (Appendix E).
 */
module GifSpec {
  import opened Words
  import opened BitStream
  import opened Input

  // ----- sub-blocks -----

  /** The data bytes still to come when `len` bytes of the current sub-block are left. */
  function Pending(input: seq<byte>, c: nat, len: nat): seq<byte>
    decreases if c < |input| then |input| - c else 0, len
  {
    if len > 0 then [Get8(input, c)] + Pending(input, Next(input, c), len - 1)
    else if Get8(input, c) == 0 then []
    else Pending(input, c + 1, Get8(input, c))
  }

  /** Where the reader stands after the terminator of the image data. */
  function AfterPending(input: seq<byte>, c: nat, len: nat): nat
    decreases if c < |input| then |input| - c else 0, len
  {
    if len > 0 then AfterPending(input, Next(input, c), len - 1)
    else if Get8(input, c) == 0 then Next(input, c)
    else AfterPending(input, c + 1, Get8(input, c))
  }

  // ----- LZW -----

  const MAX_ENTRIES: nat := 8192

  /**
    A decoder state: the strings of all codes so far (the two control codes have empty
    ones), the last code since a clear, the code width, and whether a clear was seen.
   */
  datatype Lzw = Lzw(table: seq<seq<byte>>, last: int, width: nat, started: bool)

  function Roots(cs: nat): seq<seq<byte>> {
    seq(Pow2(cs), c requires 0 <= c => [c % 256]) + [[], []]
  }

  function Fresh(cs: nat, started: bool): Lzw {
    Lzw(Roots(cs), -1, cs + 1, started)
  }

  /** The empty string has no first index; only control codes have it. */
  function First(s: seq<byte>): byte {
    if s == [] then 0 else s[0]
  }

  datatype Outcome =
    | Continue(s: Lzw, emitted: seq<byte>)
    | Finished
    | Failed

  /** The width grows as soon as the next free code reaches a multiple of 2^width, up to 12 bits. */
  function Widen(s: Lzw): Lzw {
    if Low(|s.table|, s.width) == 0 && |s.table| <= 0xFFF then s.(width := s.width + 1) else s
  }

  /**
    One code.  A code extends the table by the last string plus the first index of its
    own string, which may be the very entry being added.
   */
  function Step(cs: nat, s: Lzw, code: nat): Outcome
    requires -1 <= s.last < |s.table|
  {
    if code == Pow2(cs) then Continue(Fresh(cs, true), [])
    else if code == Pow2(cs) + 1 then Finished
    else if code > |s.table| || !s.started then Failed
    else if s.last >= 0 then
      if |s.table| >= MAX_ENTRIES then Failed
      else
        var prev := s.table[s.last];
        var current := if code == |s.table| then prev else s.table[code];
        var table := s.table + [prev + [First(current)]];
        Continue(Widen(s.(table := table, last := code)), table[code])
    else if code == |s.table| then Failed
    else Continue(Widen(s.(last := code)), s.table[code])
  }

  lemma ControlCodes(cs: nat, s: Lzw)
    requires -1 <= s.last < |s.table|
    ensures Step(cs, s, Pow2(cs)) == Continue(Fresh(cs, true), [])
    ensures Step(cs, s, Pow2(cs) + 1) == Finished
  {
  }

  datatype Decoded = Decoded(ok: bool, indices: seq<byte>)

  /** The rest of the raster from bit p of the data, after `out` has been emitted. */
  function Decode(cs: nat, data: seq<byte>, p: nat, s: Lzw, out: seq<byte>): Decoded
    requires -1 <= s.last < |s.table| && s.width > 0
    decreases 8 * |data| - p
  {
    if 8 * |data| < p + s.width then Decoded(true, out)
    else
      match Step(cs, s, Lsb(data, p, s.width))
      case Continue(s', emitted) => Decode(cs, data, p + s.width, s', out + emitted)
      case Finished => Decoded(true, out)
      case Failed => Decoded(false, out)
  }

  /** The next free code is narrow enough for the current width, or codes have reached 12 bits. */
  predicate WidthFits(s: Lzw) {
    s.width > 0 && (|s.table| < Pow2(s.width) || 0x1000 <= |s.table|)
  }

  lemma FreshWidthFits(cs: nat, started: bool)
    requires cs <= 12
    ensures WidthFits(Fresh(cs, started)) <==> cs >= 2
  {
    assert Pow2(cs + 1) == 2 * Pow2(cs);
    SmallPowers();
    if cs >= 2 {
      Pow2Mono(2, cs);
    }
  }

  /** One code keeps this, for minimum code sizes from 2. */
  lemma StepKeepsWidth(cs: nat, s: Lzw, code: nat)
    requires 2 <= cs <= 12 && -1 <= s.last < |s.table| && WidthFits(s)
    ensures var o := Step(cs, s, code); o.Continue? ==> WidthFits(o.s)
  {
    FreshWidthFits(cs, true);
    var n := if s.last >= 0 then |s.table| + 1 else |s.table|;
    Split(n, s.width);
    if n == Pow2(s.width) {
      SplitUnique(n, s.width, 1, 0);
    }
  }

  /** The state after some codes, and all they emit. */
  function Run(cs: nat, codes: seq<nat>): (o: Outcome)
    ensures o.Continue? ==> -1 <= o.s.last < |o.s.table|
  {
    if codes == [] then Continue(Fresh(cs, false), [])
    else
      match Run(cs, codes[..|codes| - 1])
      case Continue(s, out) =>
        (match Step(cs, s, codes[|codes| - 1])
         case Continue(s', emitted) => Continue(s', out + emitted)
         case other => other)
      case other => other
  }

  /** In every reachable state, every code a decoder may still need can be read at the current width. */
  lemma {:induction false} RunKeepsWidth(cs: nat, codes: seq<nat>)
    requires 2 <= cs <= 12
    ensures var o := Run(cs, codes); o.Continue? ==> WidthFits(o.s)
    decreases |codes|
  {
    if codes == [] {
      FreshWidthFits(cs, false);
    } else {
      hide Step, Fresh, WidthFits;
      RunKeepsWidth(cs, codes[..|codes| - 1]);
      var o := Run(cs, codes[..|codes| - 1]);
      if o.Continue? {
        StepKeepsWidth(cs, o.s, codes[|codes| - 1]);
      }
    }
  }

  // ----- row order -----

  /** How many of h rows the first pass, the first two and the first three passes visit. */
  function After1(h: nat): nat { (h + 7) / 8 }

  function After2(h: nat): nat { (h + 7) / 8 + (h + 3) / 8 }

  function After3(h: nat): nat { (h + 7) / 8 + (h + 3) / 8 + (h + 1) / 4 }

  /** The k-th row of an image of h rows in transmission order. */
  function RowAt(k: nat, h: nat, interlaced: bool): nat {
    if !interlaced then k
    else if k < After1(h) then 8 * k
    else if k < After2(h) then 4 + 8 * (k - After1(h))
    else if k < After3(h) then 2 + 4 * (k - After2(h))
    else 1 + 2 * (k - After3(h))
  }

  /** When a row is transmitted. */
  function RankOf(r: nat, h: nat, interlaced: bool): nat {
    if !interlaced then r
    else if r % 8 == 0 then r / 8
    else if r % 8 == 4 then After1(h) + r / 8
    else if r % 4 == 2 then After2(h) + r / 4
    else After3(h) + r / 2
  }

  /** The interlaced order is a permutation of the rows, whatever passes are empty. */
  lemma RowOrderBijective(k: nat, h: nat, interlaced: bool)
    requires k < h
    ensures RowAt(k, h, interlaced) < h && RankOf(RowAt(k, h, interlaced), h, interlaced) == k
    ensures RankOf(k, h, interlaced) < h && RowAt(RankOf(k, h, interlaced), h, interlaced) == k
  {
    if interlaced {
      RowThenRank(k, h);
      RankThenRow(k, h);
    }
  }

  lemma PassSizes(h: nat)
    ensures After2(h) == After1(h) + (h + 3) / 8 && After3(h) == After2(h) + (h + 1) / 4
    ensures After1(h) <= After2(h) <= After3(h) && After3(h) + h / 2 == h
  {
    GridsAddUp(h);
  }

  lemma RowThenRank(k: nat, h: nat)
    requires k < h
    ensures RowAt(k, h, true) < h && RankOf(RowAt(k, h, true), h, true) == k
  {
    PassSizes(h);
    if k < After1(h) {
      assert 8 * k < h;
      hide After1, After2, After3, RankOf;
      EightRow(k, h);
    } else if k < After2(h) {
      hide After1, After2, After3, RankOf;
      FourRow(k - After1(h), h);
    } else if k < After3(h) {
      hide After1, After2, After3, RankOf;
      TwoRow(k - After2(h), h);
    } else {
      hide After1, After2, After3, RankOf;
      OddRow(k - After3(h), h);
    }
  }

  lemma RankThenRow(r: nat, h: nat)
    requires r < h
    ensures RankOf(r, h, true) < h && RowAt(RankOf(r, h, true), h, true) == r
  {
    hide After1, After2, After3, RankOf;
    PassSizes(h);
    Residue(r);
    if r % 2 == 1 {
      OddRow(r / 2, h);
    } else if r % 4 == 2 {
      TwoRow(r / 4, h);
    } else if r % 8 == 4 {
      FourRow(r / 8, h);
    } else {
      EightRow(r / 8, h);
    }
  }

  lemma Residue(r: nat)
    ensures r == if r % 2 == 1 then 2 * (r / 2) + 1 else if r % 4 == 2 then 4 * (r / 4) + 2
                 else if r % 8 == 4 then 8 * (r / 8) + 4 else 8 * (r / 8)
  {
    Eighths(r);
  }

  lemma OddRow(j: nat, h: nat)
    requires 2 * j + 1 < h
    ensures RankOf(2 * j + 1, h, true) == After3(h) + j && j < h / 2
  {
    Eighths(2 * j + 1);
    DivMod(2 * j + 1, 2, j, 1);
  }

  lemma TwoRow(j: nat, h: nat)
    requires 4 * j + 2 < h
    ensures RankOf(4 * j + 2, h, true) == After2(h) + j < After3(h)
  {
    Eighths(4 * j + 2);
    DivMod(4 * j + 2, 4, j, 2);
  }

  lemma FourRow(j: nat, h: nat)
    requires 8 * j + 4 < h
    ensures RankOf(8 * j + 4, h, true) == After1(h) + j < After2(h)
  {
    DivMod(8 * j + 4, 8, j, 4);
  }

  lemma EightRow(j: nat, h: nat)
    requires 8 * j < h
    ensures RankOf(8 * j, h, true) == j < After1(h)
  {
    DivMod(8 * j, 8, j, 0);
  }

  // ----- pixels -----

  /** A frame of w by h pixels at (x, y) on a canvas `width` pixels wide. */
  datatype Frame = Frame(x: nat, y: nat, w: nat, h: nat, width: nat, interlaced: bool)

  /** Where the n-th index of a frame goes on the canvas. */
  function Address(f: Frame, n: nat): nat
    requires f.w > 0
  {
    PixelAt(f, Rem(n, f.w), RowAt(Quo(n, f.w), f.h, f.interlaced))
  }

  /** The canvas address of a pixel of the frame. */
  function PixelAt(f: Frame, col: nat, row: nat): nat {
    f.x + col + (f.y + row) * f.width
  }

  /** Which index each canvas pixel receives; indices beyond the frame are dropped. */
  function Painting(f: Frame, s: seq<byte>): map<nat, byte>
    decreases |s|
  {
    if s == [] then map[]
    else
      var n := |s| - 1;
      if n < f.w * f.h then Painting(f, s[..n])[Address(f, n) := s[n]] else Painting(f, s[..n])
  }

  lemma QuoBelow(n: nat, w: nat, h: nat)
    requires w > 0
    ensures n < w * h <==> Quo(n, w) < h
  {
    hide Quo, Rem;
    QuoRem(n, w);
    var q := Quo(n, w);
    if h <= q {
      MulMono(h, q, w);
    } else {
      MulMono(q + 1, h, w);
      assert (q + 1) * w == q * w + w;
    }
  }

  /** A frame that fits its canvas has its pixels at distinct addresses. */
  lemma AddressInjective(f: Frame, m: nat, n: nat)
    requires f.w > 0 && f.x + f.w <= f.width && m < f.w * f.h && n < f.w * f.h
    requires Address(f, m) == Address(f, n)
    ensures m == n
  {
    hide Quo, Rem, RowAt, RankOf;
    var w, h := f.w, f.h;
    QuoBelow(m, w, h);
    QuoBelow(n, w, h);
    QuoRem(m, w);
    QuoRem(n, w);
    var rm, rn := RowAt(Quo(m, w), h, f.interlaced), RowAt(Quo(n, w), h, f.interlaced);
    SameDigits(f.y + rm, f.x + Rem(m, w), f.y + rn, f.x + Rem(n, w), f.width);
    RowOrderBijective(Quo(m, w), h, f.interlaced);
    RowOrderBijective(Quo(n, w), h, f.interlaced);
  }

  /** Every index of a frame reaches its own pixel and no later one overwrites it. */
  lemma {:induction false} PaintingAt(f: Frame, s: seq<byte>, n: nat)
    requires f.w > 0 && f.x + f.w <= f.width && n < |s| && n < f.w * f.h
    ensures Address(f, n) in Painting(f, s) && Painting(f, s)[Address(f, n)] == s[n]
    decreases |s|
  {
    hide Address;
    var last := |s| - 1;
    if last <= n {
    } else {
      PaintingAt(f, s[..last], n);
      if last < f.w * f.h && Address(f, last) == Address(f, n) {
        AddressInjective(f, last, n);
      }
    }
  }

  /** Only indices emitted so far have painted anything. */
  lemma {:induction false} PaintedBy(f: Frame, s: seq<byte>, a: nat) returns (n: nat)
    requires f.w > 0 && a in Painting(f, s)
    ensures n < |s| && n < f.w * f.h && a == Address(f, n)
    decreases |s|
  {
    hide Address;
    n := |s| - 1;
    if !(n < f.w * f.h && a == Address(f, n)) {
      n := PaintedBy(f, s[..n], a);
    }
  }

  lemma NotYetPainted(f: Frame, s: seq<byte>)
    requires f.w > 0 && f.x + f.w <= f.width && |s| < f.w * f.h
    ensures Address(f, |s|) !in Painting(f, s)
  {
    hide Address, Painting;
    if Address(f, |s|) in Painting(f, s) {
      var n := PaintedBy(f, s, Address(f, |s|));
      AddressInjective(f, n, |s|);
    }
  }

  /** A full frame paints each pixel of its rectangle: for every column and row some index lands there. */
  lemma EveryPixelPainted(f: Frame, s: seq<byte>, col: nat, row: nat)
    requires f.w > 0 && f.x + f.w <= f.width && f.w * f.h <= |s| && col < f.w && row < f.h
    ensures PixelAt(f, col, row) in Painting(f, s)
  {
    hide Quo, Rem, RowAt, RankOf, Painting, PixelAt;
    RowOrderBijective(row, f.h, f.interlaced);
    var k := RankOf(row, f.h, f.interlaced);
    var n := k * f.w + col;
    QuoRemUnique(n, k, col, f.w);
    QuoBelow(n, f.w, f.h);
    PaintingAt(f, s, n);
  }
}
