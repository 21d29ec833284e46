/** `stbir__vertical_gather_loop`: a ring of decoded scanlines, and rows gathered from it eight lines at a time. */
module RingGather {
  import opened Words
  import opened GatherSpec

  const MAX_INPUTS: nat := 8

  lemma NoMultipleBetween(q: int, n: nat)
    ensures q * n <= 0 || n <= q * n
  {
    if q > 0 {
      assert (q - 1) * n >= 0;
    }
  }

  /** Indices less than a ring apart never wrap to the same slot. */
  lemma WrapDistinct(a: nat, b: nat, n: nat)
    requires n > 0 && a < b < a + n
    ensures Rem(a, n) != Rem(b, n)
  {
    hide Quo, Rem;
    QuoRem(a, n);
    QuoRem(b, n);
    if Rem(a, n) == Rem(b, n) {
      NoMultipleBetween(Quo(b, n) - Quo(a, n), n);
    }
  }

  /** coeffs[0] * inputs[0][x] + ... over the first n inputs. */
  function Blend(coeffs: seq<real>, inputs: seq<scanline>, n: nat, x: nat): real
    requires n <= |coeffs| && n <= |inputs| && forall i :: 0 <= i < n ==> x < |inputs[i]|
  {
    if n == 0 then 0.0 else Blend(coeffs, inputs, n - 1, x) + coeffs[n - 1] * inputs[n - 1][x]
  }

  /** Blending the next n rows continues the weighted sum of the first k. */
  lemma {:induction false} BlendContinues(src: Source, coeffs: seq<real>, n0: int, k: nat, inputs: seq<scanline>,
                                          n: nat, x: nat)
    requires k + n <= |coeffs| && n <= |inputs| && x < src.width
    requires forall s :: n0 <= s < n0 + k + n ==> GoodLine(src, s)
    requires forall i :: 0 <= i < n ==> inputs[i] == src.line(n0 + k + i)
    requires forall i :: 0 <= i < n ==> |inputs[i]| == src.width
    ensures Weighted(src, coeffs, n0, k + n, x) == Weighted(src, coeffs, n0, k, x) + Blend(coeffs[k..], inputs, n, x)
  {
    if n == 0 {
    } else {
      BlendContinues(src, coeffs, n0, k, inputs, n - 1, x);
      assert coeffs[k..][n - 1] == coeffs[k + n - 1];
    }
  }

  /** `stbir__vertical_gathers[n-1]` and, when it adds to what is there, `stbir__vertical_gathers_continues[n-1]`. */
  method VerticalGathers(output: array<real>, coeffs: seq<real>, inputs: seq<scanline>, continuing: bool)
    requires 0 < |inputs| <= |coeffs| && |inputs| <= MAX_INPUTS
    requires forall i :: 0 <= i < |inputs| ==> |inputs[i]| == output.Length
    modifies output
    ensures forall x :: 0 <= x < output.Length ==>
              output[x] == (if continuing then old(output[x]) else 0.0) + Blend(coeffs, inputs, |inputs|, x)
  {
    for x := 0 to output.Length
      invariant forall j :: x <= j < output.Length ==> output[j] == old(output[j])
      invariant forall j :: 0 <= j < x ==>
                  output[j] == (if continuing then old(output[j]) else 0.0) + Blend(coeffs, inputs, |inputs|, j)
    {
      var sum := BlendColumn(coeffs, inputs, x);
      output[x] := if continuing then output[x] + sum else sum;
    }
  }

  method BlendColumn(coeffs: seq<real>, inputs: seq<scanline>, x: nat) returns (sum: real)
    requires |inputs| <= |coeffs|
    requires forall i :: 0 <= i < |inputs| ==> x < |inputs[i]|
    ensures sum == Blend(coeffs, inputs, |inputs|, x)
  {
    sum := 0.0;
    for i := 0 to |inputs|
      invariant sum == Blend(coeffs, inputs, i, x)
    {
      sum := sum + coeffs[i] * inputs[i][x];
    }
  }

  /** C's remainder, which has the sign of the dividend. */
  function CRem(x: int, n: nat): int
    requires n > 0
  {
    if x >= 0 then Rem(x, n) else 0 - Rem(-x, n)
  }

  /** The line at index i of the ring, or what the memory before it holds there. */
  function LineAt(ring: seq<scanline>, memory: int -> scanline, i: int): scanline {
    if 0 <= i < |ring| then ring[i] else memory(i)
  }

  class Split {
    const src: Source
    const memory: int -> scanline
    const ring: array<scanline>

    var beginIndex: nat
    var first: int
    var last: int

    /** A ring that is not yet filled holds what is in the memory. */
    constructor (src: Source, entries: nat, memory: int -> scanline)
      ensures this.src == src && this.memory == memory && ring.Length == entries && fresh(ring)
      ensures forall i :: 0 <= i < entries ==> ring[i] == memory(i)
    {
      this.src, this.memory := src, memory;
      ring := new scanline[entries](i => memory(i));
      beginIndex, first, last := 0, 0, -1;
    }

    /** `stbir__get_ring_buffer_scanline`: the slot of source row s. */
    function Slot(s: int): nat
      requires ring.Length > 0 && first <= s
      reads this`beginIndex, this`first
    {
      Rem(beginIndex + (s - first), ring.Length)
    }

    /** All lines are as wide as the source. */
    ghost predicate Even()
      reads ring
    {
      && (forall i :: 0 <= i < ring.Length ==> |ring[i]| == src.width)
      && (forall i :: |memory(i)| == src.width) && (forall s :: GoodLine(src, s))
    }

    /** Every row from first to last is in its slot. */
    ghost predicate Holds()
      reads this, ring
    {
      && ring.Length > 0
      && first - 1 <= last < first + ring.Length
      && forall s :: first <= s <= last ==> ring[Slot(s)] == src.line(s)
    }

    /** The image that the ring shows: row s is taken from the slot that is computed for it, whatever it holds. */
    ghost function Seen(): Source
      requires ring.Length > 0
      reads this, ring
    {
      var lines, begin, start, m := ring[..], beginIndex, first, memory;
      Source(src.width, s => LineAt(lines, m, CRem(begin + (s - start), |lines|)))
    }

    /** The oldest row leaves the ring: the others keep their slots. */
    method Evict()
      requires Holds() && last - first + 1 == ring.Length
      modifies this`beginIndex, this`first
      ensures Holds() && first == old(first) + 1
    {
      first := first + 1;
      beginIndex := beginIndex + 1;
      forall s | first <= s <= last ensures ring[Slot(s)] == src.line(s) {
        assert beginIndex + (s - first) == old(beginIndex + (s - first));
        assert old(ring[Slot(s)]) == src.line(s);
      }
    }

    /** The next row is decoded into the slot after the last one. */
    method Append()
      requires Holds() && Even() && last - first + 1 < ring.Length
      modifies this`last, ring
      ensures Holds() && Even() && last == old(last) + 1
    {
      hide Rem;
      last := last + 1;
      var slot := Slot(last);
      forall s | first <= s < last ensures Slot(s) != slot && ring[Slot(s)] == src.line(s) {
        WrapDistinct(beginIndex + (s - first), beginIndex + (last - first), ring.Length);
        assert old(ring[Slot(s)]) == src.line(s);
      }
      ring[slot] := src.line(last);
      assert GoodLine(src, last);
    }

    /** Load the next source row, evicting the oldest if the ring is full. */
    method LoadNext()
      requires Holds() && Even()
      modifies this`beginIndex, this`first, this`last, ring
      ensures Holds() && Even() && last == old(last) + 1
      ensures first == if old(last - first) + 1 == ring.Length then old(first) + 1 else old(first)
    {
      if last - first + 1 == ring.Length {
        Evict();
      }
      Append();
    }

    /** The n rows from row s, out of the ring. */
    method GetScanlines(s: int, n: nat) returns (inputs: seq<scanline>)
      requires ring.Length > 0
      ensures |inputs| == n && forall i :: 0 <= i < n ==> inputs[i] == Seen().line(s + i)
    {
      inputs := [];
      for i := 0 to n
        invariant |inputs| == i && forall j :: 0 <= j < i ==> inputs[j] == Seen().line(s + j)
      {
        inputs := inputs + [LineAt(ring[..], memory, CRem(beginIndex + (s + i - first), ring.Length))];
      }
    }

    lemma SeenEven()
      requires ring.Length > 0 && Even()
      ensures Seen().width == src.width && forall s :: GoodLine(Seen(), s)
    {
      forall s ensures GoodLine(Seen(), s) {
        var i := CRem(beginIndex + (s - first), ring.Length);
        assert Seen().line(s) == LineAt(ring[..], memory, i);
        assert |memory(i)| == src.width;
      }
    }

    /** The rows that are held are shown. */
    lemma HeldIsSeen()
      requires Holds()
      ensures forall s :: first <= s <= last ==> Seen().line(s) == src.line(s)
    {
      hide Rem;
      forall s | first <= s <= last ensures Seen().line(s) == src.line(s) {
        assert Seen().line(s) == LineAt(ring[..], memory, CRem(beginIndex + (s - first), ring.Length));
        assert ring[Slot(s)] == src.line(s);
      }
    }

    /** `stbir__resample_vertical_gather`: the rows c.n0 to c.n1, as the ring shows them, are blended at most eight at a
        time. */
    method ResampleVerticalGather(coeffs: seq<real>, c: Contributors, output: array<real>)
      requires ring.Length > 0 && output.Length == src.width == Seen().width
      requires c.n0 <= c.n1 && c.n1 - c.n0 < |coeffs| && forall s :: GoodLine(Seen(), s)
      modifies output
      ensures output[..] == OutputRow(Seen(), coeffs, c)
    {
      hide Split.Seen;
      var k, total := 0, c.n1 - c.n0 + 1;
      while total > 0
        invariant k >= 0 && total >= 0 && k + total == c.n1 - c.n0 + 1
        invariant k > 0 ==> forall x :: 0 <= x < output.Length ==> output[x] == Weighted(Seen(), coeffs, c.n0, k, x)
        invariant total == c.n1 - c.n0 + 1 || k > 0
      {
        var cnt := if total > MAX_INPUTS then MAX_INPUTS else total;
        GatherChunk(coeffs, c.n0, k, cnt, output);
        k, total := k + cnt, total - cnt;
      }
    }

    /** One round of it: rows n0 + k to n0 + k + cnt - 1 join the sum of the k before them. */
    method GatherChunk(coeffs: seq<real>, n0: int, k: nat, cnt: nat, output: array<real>)
      requires ring.Length > 0 && output.Length == src.width == Seen().width
      requires 0 < cnt <= MAX_INPUTS && k + cnt <= |coeffs| && forall s :: GoodLine(Seen(), s)
      requires k > 0 ==> forall x :: 0 <= x < output.Length ==> output[x] == Weighted(Seen(), coeffs, n0, k, x)
      modifies output
      ensures forall x :: 0 <= x < output.Length ==> output[x] == Weighted(Seen(), coeffs, n0, k + cnt, x)
    {
      hide Split.Seen;
      ghost var seen := Seen();
      var inputs := GetScanlines(k + n0, cnt);
      forall i | 0 <= i < cnt ensures |inputs[i]| == src.width {
        assert GoodLine(seen, n0 + k + i);
      }
      forall x | 0 <= x < output.Length
        ensures Weighted(seen, coeffs, n0, k + cnt, x)
             == Weighted(seen, coeffs, n0, k, x) + Blend(coeffs[k..], inputs, cnt, x)
      {
        BlendContinues(seen, coeffs, n0, k, inputs, cnt, x);
      }
      VerticalGathers(output, coeffs[k..], inputs, k != 0);
    }

    /** What output row y is computed from: an image that agrees with the source on the rows held. */
    ghost predicate ShownAt(shown: Source, contribs: seq<Contributors>, y: nat)
      requires y < |contribs|
    {
      && shown.width == src.width && (forall s :: GoodLine(shown, s))
      && forall s :: FirstHeld(contribs, y, ring.Length) <= s <= LastLoaded(contribs, y) ==>
           shown.line(s) == src.line(s)
    }

    /**
      `stbir__vertical_gather_loop`: every output row is the weighted sum of its contributors as the ring shows them at
      its turn, and so of the source's rows if its window fits the ring, whatever the other windows do.
     */
    method VerticalGatherLoop(contribs: seq<Contributors>, coeffs: seq<seq<real>>, output: seq<array<real>>)
      returns (ghost shown: seq<Source>)
      requires ring.Length > 0 && Even() && |contribs| == |coeffs| == |output| > 0
      requires forall y :: 0 <= y < |contribs| ==>
                 contribs[y].n0 <= contribs[y].n1 && contribs[y].n1 - contribs[y].n0 < |coeffs[y]|
      requires forall y :: 0 <= y < |output| ==> output[y].Length == src.width
      requires forall y, z :: 0 <= y < z < |output| ==> output[y] != output[z]
      modifies this`beginIndex, this`first, this`last, ring, set y | 0 <= y < |output| :: output[y]
      ensures |shown| == |output| && forall y :: 0 <= y < |output| ==>
                ShownAt(shown[y], contribs, y) && output[y][..] == OutputRow(shown[y], coeffs[y], contribs[y])
      ensures forall y :: 0 <= y < |output| && WindowsFit(contribs, y, ring.Length) ==>
                output[y][..] == OutputRow(src, coeffs[y], contribs[y])
    {
      beginIndex, first := 0, contribs[0].n0;
      last := first - 1;
      assert Holds();
      hide LastLoaded, FirstHeld, WindowsFit, Split.Holds, Split.Even, Split.ShownAt, OutputRow;
      shown := [];
      for y := 0 to |contribs|
        invariant Holds() && Even() && |shown| == y
        invariant y == 0 ==> last == contribs[0].n0 - 1 && first == contribs[0].n0
        invariant y > 0 ==> last == LastLoaded(contribs, y - 1) && first == FirstHeld(contribs, y - 1, ring.Length)
        invariant forall j :: 0 <= j < y ==>
                    ShownAt(shown[j], contribs, j) && output[j][..] == OutputRow(shown[j], coeffs[j], contribs[j])
      {
        ghost var seen := NextRow(contribs, y, coeffs[y], output[y]);
        shown := shown + [seen];
      }
      forall y | 0 <= y < |output| && WindowsFit(contribs, y, ring.Length)
        ensures output[y][..] == OutputRow(src, coeffs[y], contribs[y])
      {
        FittingRow(shown[y], contribs, coeffs[y], y);
      }
    }

    /** A row whose window fits is computed from the source's rows. */
    lemma FittingRow(shown: Source, contribs: seq<Contributors>, coeffs: seq<real>, y: nat)
      requires ring.Length > 0 && Even() && y < |contribs| && ShownAt(shown, contribs, y)
      requires contribs[y].n0 <= contribs[y].n1 && contribs[y].n1 - contribs[y].n0 < |coeffs|
      requires WindowsFit(contribs, y, ring.Length)
      ensures OutputRow(shown, coeffs, contribs[y]) == OutputRow(src, coeffs, contribs[y])
    {
      HeldIffFits(contribs, y, ring.Length);
      hide LastLoaded, FirstHeld, WindowsFit, OutputRow;
      SameRow(shown, src, coeffs, contribs[y]);
    }

    /** One round of it: load what row y needs, and gather it. */
    method NextRow(contribs: seq<Contributors>, y: nat, coeffs: seq<real>, output: array<real>)
      returns (ghost shown: Source)
      requires y < |contribs| && Holds() && Even() && output.Length == src.width
      requires y == 0 ==> last == contribs[0].n0 - 1 && first == contribs[0].n0
      requires y > 0 ==> last == LastLoaded(contribs, y - 1) && first == FirstHeld(contribs, y - 1, ring.Length)
      requires contribs[y].n0 <= contribs[y].n1 && contribs[y].n1 - contribs[y].n0 < |coeffs|
      modifies this`beginIndex, this`first, this`last, ring, output
      ensures Holds() && Even() && last == LastLoaded(contribs, y) && first == FirstHeld(contribs, y, ring.Length)
      ensures ShownAt(shown, contribs, y) && output[..] == OutputRow(shown, coeffs, contribs[y])
    {
      hide LastLoaded, FirstHeld, Split.Seen, OutputRow;
      LoadRows(contribs, y);
      SeenEven();
      HeldIsSeen();
      hide Split.Holds, Split.Even;
      shown := Seen();
      ResampleVerticalGather(coeffs, contribs[y], output);
    }

    /** The loading loop of one output row. */
    method LoadRows(contribs: seq<Contributors>, y: nat)
      requires y < |contribs| && Holds() && Even()
      requires y == 0 ==> last == contribs[0].n0 - 1 && first == contribs[0].n0
      requires y > 0 ==> last == LastLoaded(contribs, y - 1) && first == FirstHeld(contribs, y - 1, ring.Length)
      modifies this`beginIndex, this`first, this`last, ring
      ensures Holds() && Even() && last == LastLoaded(contribs, y) && first == FirstHeld(contribs, y, ring.Length)
    {
      ghost var n, base := ring.Length, contribs[0].n0;
      LastLoadedIsMax(contribs, y);
      while contribs[y].n1 > last
        invariant Holds() && Even()
        invariant first == if last - n + 1 > base then last - n + 1 else base
        invariant last == old(last) || last <= contribs[y].n1
      {
        hide Split.Holds, Split.Even;
        LoadNext();
      }
    }
  }
}
