/** The GIF raster decoder of stb_image: `stbi__process_gif_raster` and `stbi__out_gif_code`. */
module Gif {
  import opened Words
  import opened GifSpec

  /** One colour or canvas pixel: four bytes in storage order. */
  datatype Pixel = Pixel(c0: byte, c1: byte, c2: byte, c3: byte)

  /** What a palette entry turns a canvas pixel into: transparent entries leave it alone. */
  function Render(c: Pixel, under: Pixel): Pixel {
    if c.c3 > 128 then Pixel(c.c2, c.c1, c.c0, c.c3) else under
  }

  // ----- the row-order state machine -----

  /** The state of the row walk before the k-th row: its row, and the current pass. */
  ghost predicate RowState(k: nat, row: nat, spacing: nat, parse: nat, h: nat, interlaced: bool) {
    if !interlaced then parse == 0 && spacing == 1 && row == k <= h
    else
      || (parse == 3 && spacing == 8 && row == 8 * k && k <= After1(h))
      || (parse == 2 && spacing == 8 && row == 4 + 8 * (k - After1(h)) && After1(h) <= k <= After2(h))
      || (parse == 1 && spacing == 4 && row == 2 + 4 * (k - After2(h)) && After2(h) <= k <= After3(h))
      || (parse == 0 && spacing == 2 && row == 1 + 2 * (k - After3(h)) && After3(h) <= k <= h)
  }

  lemma RowStateStart(h: nat, interlaced: bool)
    ensures RowState(0, 0, if interlaced then 8 else 1, if interlaced then 3 else 0, h, interlaced)
  {
  }

  /** Inside the image the state machine is at the k-th row of the transmission order. */
  lemma RowStateIsOrder(k: nat, row: nat, spacing: nat, parse: nat, h: nat, interlaced: bool)
    requires RowState(k, row, spacing, parse, h, interlaced) && row < h
    ensures k < h && row == RowAt(k, h, interlaced)
    ensures RowState(k + 1, row + spacing, spacing, parse, h, interlaced)
  {
    PassSizes(h);
  }

  /** Past the last row of a pass, the next pass takes over without losing a row. */
  lemma RowStateNextPass(k: nat, row: nat, spacing: nat, parse: nat, h: nat, interlaced: bool)
    requires RowState(k, row, spacing, parse, h, interlaced) && h <= row && parse > 0
    ensures RowState(k, Pow2(parse) / 2, Pow2(parse), parse - 1, h, interlaced)
  {
    SmallPowers();
    PassSizes(h);
  }

  lemma RowStateEnd(k: nat, row: nat, spacing: nat, parse: nat, h: nat, interlaced: bool)
    requires RowState(k, row, spacing, parse, h, interlaced) && h <= row && parse == 0
    ensures k == h
  {
    PassSizes(h);
  }

  /**
    The walk in the source's own units: columns and rows count bytes, four to a pixel.
    (k, col) is the next place of the frame to fill.
   */
  ghost predicate WalkAt(f: Frame, curX: nat, curY: nat, step: nat, parse: nat, k: nat, col: nat, row: nat,
                         spacing: nat) {
    && RowState(k, row, spacing, parse, f.h, f.interlaced)
    && curX == 4 * (f.x + col)
    && curY == LineOffset(f, f.y + row)
    && step == LineOffset(f, spacing)
    && col < f.w
    && (f.h <= row ==> parse == 0 && col == 0)
  }

  /** `rows * line_size`, in bytes. */
  function LineOffset(f: Frame, rows: nat): nat {
    rows * (f.width * 4)
  }

  lemma LineOffsetAdd(f: Frame, a: nat, b: nat)
    ensures LineOffset(f, a) + LineOffset(f, b) == LineOffset(f, a + b)
  {
  }

  lemma LineOffsetOrder(f: Frame, a: nat, b: nat)
    requires f.width > 0
    ensures LineOffset(f, a) >= LineOffset(f, b) <==> a >= b
  {
    if a >= b {
      MulMono(b, a, f.width * 4);
    } else {
      MulMono(a + 1, b, f.width * 4);
    }
  }

  /** The byte index divided by four is the pixel's canvas address. */
  lemma ByteIndex(f: Frame, col: nat, row: nat)
    ensures (4 * (f.x + col) + LineOffset(f, f.y + row)) / 4 == PixelAt(f, col, row)
  {
    var r := f.y + row;
    assert r * (f.width * 4) == 4 * (r * f.width);
  }

  lemma AddressOnCanvas(f: Frame, col: nat, row: nat, height: nat)
    requires col < f.w && row < f.h && f.x + f.w <= f.width && f.y + f.h <= height
    ensures PixelAt(f, col, row) < f.width * height
  {
    MulMono(f.y + row + 1, height, f.width);
    assert (f.y + row + 1) * f.width == (f.y + row) * f.width + f.width;
  }

  class Raster {
    const colorTable: seq<Pixel>
    const out: array<Pixel>
    const history: array<nat>
    const height: nat

    var lineSize: nat
    var startX: nat
    var startY: nat
    var maxX: nat
    var maxY: nat
    var curX: nat
    var curY: nat
    var step: nat
    var parse: nat

    ghost var frame: Frame
    ghost var under: seq<Pixel>
    ghost var emitted: seq<byte>
    ghost var rank: nat
    ghost var col: nat
    ghost var row: nat
    ghost var spacing: nat

    constructor (colorTable: seq<Pixel>, out: array<Pixel>, history: array<nat>, height: nat)
      requires |colorTable| == 256
      ensures this.colorTable == colorTable && this.out == out && this.history == history && this.height == height
    {
      this.colorTable := colorTable;
      this.out := out;
      this.history := history;
      this.height := height;
      lineSize, startX, startY, maxX, maxY, curX, curY, step, parse := 0, 0, 0, 0, 0, 0, 0, 0, 0;
      frame, under, emitted := Frame(0, 0, 0, 0, 0, false), [], [];
      rank, col, row, spacing := 0, 0, 0, 0;
    }

    /** The limits describe the frame, and the frame lies on the canvas. */
    ghost predicate Framed()
      reads `lineSize, `startX, `startY, `maxX, `maxY, `frame, `under
    {
      && lineSize == frame.width * 4
      && startX == 4 * frame.x && maxX == 4 * (frame.x + frame.w)
      && startY == LineOffset(frame, frame.y) && maxY == LineOffset(frame, frame.y + frame.h)
      && frame.x + frame.w <= frame.width && frame.y + frame.h <= height
      && |colorTable| == 256
      && out.Length == history.Length == |under| == frame.width * height
    }

    /** The walk stands at the place of the next index, or past the frame. */
    ghost predicate Placed()
      reads `curX, `curY, `step, `parse, `maxY, `frame, `emitted, `rank, `col, `row, `spacing
    {
      if frame.w == 0 || frame.h == 0 then curY >= maxY
      else
        && WalkAt(frame, curX, curY, step, parse, rank, col, row, spacing)
        && (if row < frame.h then |emitted| == rank * frame.w + col else |emitted| >= frame.w * frame.h)
    }

    /** The canvas is the one underneath, painted with the indices emitted so far. */
    ghost predicate Painted()
      reads `emitted, `frame, `under, out, history
    {
      && out.Length == history.Length == |under| && |colorTable| == 256
      && PaintedAs(Painting(frame, emitted), colorTable, under, out[..], history[..])
    }

    ghost predicate Ready()
      reads this, out, history
    {
      Framed() && Placed() && Painted()
    }

    /** The part of `stbi__out_gif_code` that draws one index. */
    method PutPixel(suffix: byte)
      requires Framed() && Placed() && Painted() && row < frame.h && frame.w > 0
      modifies out, history, `emitted
      ensures emitted == old(emitted) + [suffix] && Painted()
    {
      hide WalkAt, Painting, Address, LineOffset, PaintedAs;
      ghost var n := |emitted|;
      TargetPixel(frame, curX, curY, step, parse, rank, col, row, spacing, height);
      NotYetPainted(frame, emitted);
      PaintingNext(frame, emitted, suffix);
      var idx := curX + curY;
      Paint(idx / 4, suffix, Painting(frame, emitted));
      emitted := emitted + [suffix];
    }

    /**
      The part of `stbi__out_gif_code` that moves on: to the next column, or to the next
      row of the pass, or through passes without rows to the next one that has some.
     */
    method Advance()
      requires Framed() && frame.w > 0 && row < frame.h
      requires WalkAt(frame, curX, curY, step, parse, rank, col, row, spacing)
      requires |emitted| == rank * frame.w + col + 1
      modifies `curX, `curY, `step, `parse, `rank, `col, `row, `spacing
      ensures Placed()
    {
      hide RowState, RowAt, LineOffset;
      curX := curX + 4;
      col := col + 1;
      if curX >= maxX {
        hide Raster.Placed;
        NextRow();
      }
    }

    /** From behind the last column to the first of the next row. */
    method NextRow()
      requires Framed() && frame.w > 0 && row < frame.h && col == frame.w
      requires RowState(rank, row, spacing, parse, frame.h, frame.interlaced)
      requires curY == LineOffset(frame, frame.y + row) && step == LineOffset(frame, spacing)
      requires |emitted| == rank * frame.w + frame.w
      modifies `curX, `curY, `step, `parse, `rank, `col, `row, `spacing
      ensures Placed()
    {
      hide RowState, RowAt, LineOffset;
      RowStateIsOrder(rank, row, spacing, parse, frame.h, frame.interlaced);
      LineOffsetAdd(frame, frame.y + row, spacing);
      curX := startX;
      curY := curY + step;
      assert (rank + 1) * frame.w == rank * frame.w + frame.w;
      rank, row, col := rank + 1, row + spacing, 0;
      hide Raster.Placed;
      NextPasses();
    }

    method NextPasses()
      requires Framed() && frame.w > 0
      requires RowState(rank, row, spacing, parse, frame.h, frame.interlaced)
      requires curY == LineOffset(frame, frame.y + row) && step == LineOffset(frame, spacing)
      requires curX == 4 * frame.x && col == 0 && |emitted| == rank * frame.w
      modifies `curY, `step, `parse, `row, `spacing
      ensures Placed()
    {
      hide RowState, LineOffset, RowAt;
      LineOffsetOrder(frame, frame.y + row, frame.y + frame.h);
      while curY >= maxY && parse > 0
        invariant RowState(rank, row, spacing, parse, frame.h, frame.interlaced)
        invariant curY == LineOffset(frame, frame.y + row) && step == LineOffset(frame, spacing)
        invariant curY >= maxY <==> row >= frame.h
        decreases parse
      {
        NextPass();
        LineOffsetOrder(frame, frame.y + row, frame.y + frame.h);
      }
      if row >= frame.h {
        RowStateEnd(rank, row, spacing, parse, frame.h, frame.interlaced);
      }
    }

    method NextPass()
      requires Framed() && frame.w > 0 && parse > 0 && row >= frame.h
      requires RowState(rank, row, spacing, parse, frame.h, frame.interlaced)
      modifies `curY, `step, `parse, `row, `spacing
      ensures parse == old(parse) - 1 && RowState(rank, row, spacing, parse, frame.h, frame.interlaced)
      ensures curY == LineOffset(frame, frame.y + row) && step == LineOffset(frame, spacing)
    {
      hide RowState;
      RowStateNextPass(rank, row, spacing, parse, frame.h, frame.interlaced);
      PassOffsets(frame, parse);
      hide LineOffset, Pow2;
      step := Pow2(parse) * lineSize;
      curY := startY + step / 2;
      row, spacing := Pow2(parse) / 2, Pow2(parse);
      parse := parse - 1;
    }

    /** The rest of `stbi__out_gif_code` once the prefix has been written. */
    method EmitIndex(suffix: byte)
      requires Ready()
      modifies out, history, `emitted, `curX, `curY, `step, `parse, `rank, `col, `row, `spacing
      ensures Ready() && emitted == old(emitted) + [suffix]
    {
      hide WalkAt, Painting, PaintedAs, LineOffset;
      if curY >= maxY {
        PastFrame();
        PaintingNext(frame, emitted, suffix);
        emitted := emitted + [suffix];
        return;
      }
      InsideFrame();
      PutPixel(suffix);
      Advance();
    }

    lemma PastFrame()
      requires Ready() && curY >= maxY
      ensures |emitted| >= frame.w * frame.h
      ensures frame.w > 0 && frame.h > 0 ==> row >= frame.h
    {
      hide RowState, LineOffset;
      if frame.w > 0 && frame.h > 0 {
        LineOffsetOrder(frame, frame.y + row, frame.y + frame.h);
      }
    }

    lemma InsideFrame()
      requires Ready() && curY < maxY
      ensures frame.w > 0 && row < frame.h
    {
      hide RowState, LineOffset;
      if frame.w > 0 && frame.h > 0 {
        LineOffsetOrder(frame, frame.y + row, frame.y + frame.h);
      }
    }

    /** The frame set-up in `stbi__gif_load_next`, on a canvas with a cleared history. */
    method StartFrame(f: Frame)
      requires f.x + f.w <= f.width && f.y + f.h <= height && |colorTable| == 256
      requires out.Length == history.Length == f.width * height
      requires forall a :: 0 <= a < history.Length ==> history[a] == 0
      modifies this
      ensures Ready() && frame == f && emitted == [] && under == out[..]
    {
      hide LineOffset, Painting, PaintedAs, WalkAt;
      NothingPainted(f, colorTable, out[..], history[..]);
      SetLimits(f);
      StartWalk(f);
    }

    method StartWalk(f: Frame)
      requires Framed() && frame == f
      modifies `curX, `curY, `step, `parse, `emitted, `rank, `col, `row, `spacing
      ensures Placed() && emitted == []
    {
      hide LineOffset, WalkAt;
      WalkStart(f);
      curX := startX;
      curY := startY;
      if f.w == 0 {
        curY := maxY;
      }
      if f.interlaced {
        step, parse := 8 * lineSize, 3;
      } else {
        step, parse := lineSize, 0;
      }
      emitted := [];
      rank, col, row, spacing := 0, 0, 0, if f.interlaced then 8 else 1;
    }

    method SetLimits(f: Frame)
      requires f.x + f.w <= f.width && f.y + f.h <= height && |colorTable| == 256
      requires out.Length == history.Length == f.width * height
      modifies `lineSize, `startX, `startY, `maxX, `maxY, `frame, `under
      ensures Framed() && frame == f && under == out[..]
    {
      FrameOffsets(f);
      hide LineOffset;
      lineSize := f.width * 4;
      startX := f.x * 4;
      startY := f.y * lineSize;
      maxX := startX + f.w * 4;
      maxY := startY + f.h * lineSize;
      frame, under := f, out[..];
    }

    method Paint(p: nat, suffix: byte, ghost m: map<nat, byte>)
      requires p < out.Length == history.Length == |under| && |colorTable| == 256 && p !in m
      requires PaintedAs(m, colorTable, under, out[..], history[..])
      modifies out, history
      ensures PaintedAs(m[p := suffix], colorTable, under, out[..], history[..])
    {
      assert out[p] == out[..][p];
      history[p] := 1;
      var c := colorTable[suffix];
      if c.c3 > 128 {
        out[p] := Pixel(c.c2, c.c1, c.c0, c.c3);
      }
    }
  }

  lemma NothingPainted(f: Frame, colors: seq<Pixel>, out: seq<Pixel>, history: seq<nat>)
    requires |colors| == 256 && |out| == |history|
    requires forall a :: 0 <= a < |history| ==> history[a] == 0
    ensures PaintedAs(Painting(f, []), colors, out, out, history)
  {
  }

  lemma WalkStart(f: Frame)
    ensures var spacing := if f.interlaced then 8 else 1;
            f.w > 0 && f.h > 0 ==>
            WalkAt(f, 4 * f.x, LineOffset(f, f.y), spacing * (f.width * 4), if f.interlaced then 3 else 0,
                   0, 0, 0, spacing)
    ensures f.w == 0 || f.h > 0 || LineOffset(f, f.y) == LineOffset(f, f.y + f.h)
  {
    FrameOffsets(f);
    RowStateStart(f.h, f.interlaced);
  }

  lemma PassOffsets(f: Frame, parse: nat)
    requires parse > 0
    ensures Pow2(parse) * (f.width * 4) == LineOffset(f, Pow2(parse))
    ensures LineOffset(f, f.y) + LineOffset(f, Pow2(parse)) / 2 == LineOffset(f, f.y + Pow2(parse) / 2)
  {
    var half, line := Pow2(parse - 1), f.width * 4;
    assert (2 * half) * line == 2 * (half * line);
    LineOffsetAdd(f, f.y, half);
  }

  lemma FrameOffsets(f: Frame)
    ensures f.y * (f.width * 4) == LineOffset(f, f.y)
    ensures f.y * (f.width * 4) + f.h * (f.width * 4) == LineOffset(f, f.y + f.h)
    ensures 8 * (f.width * 4) == LineOffset(f, 8) && f.width * 4 == LineOffset(f, 1)
  {
    LineOffsetAdd(f, f.y, f.h);
  }

  lemma TargetPixel(f: Frame, curX: nat, curY: nat, step: nat, parse: nat, k: nat, col: nat, row: nat, spacing: nat,
                    height: nat)
    requires WalkAt(f, curX, curY, step, parse, k, col, row, spacing) && row < f.h
    requires f.x + f.w <= f.width && f.y + f.h <= height
    ensures k * f.w + col < f.w * f.h
    ensures (curX + curY) / 4 == Address(f, k * f.w + col) < f.width * height
  {
    hide RowState, RowAt, Quo, Rem, PixelAt, LineOffset;
    var n := k * f.w + col;
    RowStateIsOrder(k, row, spacing, parse, f.h, f.interlaced);
    QuoRemUnique(n, k, col, f.w);
    QuoBelow(n, f.w, f.h);
    ByteIndex(f, col, row);
    AddressOnCanvas(f, col, row, height);
  }

  lemma PaintingNext(f: Frame, s: seq<byte>, b: byte)
    ensures Painting(f, s + [b]) == if |s| < f.w * f.h then Painting(f, s)[Address(f, |s|) := b] else Painting(f, s)
  {
    assert (s + [b])[..|s|] == s;
  }

  ghost predicate PaintedAs(m: map<nat, byte>, colors: seq<Pixel>, under: seq<Pixel>, out: seq<Pixel>,
                            history: seq<nat>)
    requires |colors| == 256 && |out| == |history| == |under|
  {
    forall a :: 0 <= a < |out| ==>
      if a in m then history[a] == 1 && out[a] == Render(colors[m[a]], under[a])
      else history[a] == 0 && out[a] == under[a]
  }
}
