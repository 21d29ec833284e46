/** The inflate decoder of stb_image: `stbi__zbuf` and the functions that work on it. */
module Inflate {
  import opened Words
  import opened BitReversal
  import opened BitStream
  import opened Canonical
  import opened ZHuffmanTable
  import opened DeflateSpec
  import opened InflateSpec
  import opened Growth

  /**
    The reservoir holds the numBits stream bits from position pos on.  Until the
    input is used up they end where the unread bytes start; after that they may run
    past the end, by at least 16 bits once the decoder has inserted its padding.
   */
  ghost predicate Reservoir(input: seq<byte>, pos: nat, cursor: nat, numBits: nat, codeBuffer: nat, hit: bool) {
    && cursor <= |input|
    && numBits <= 32
    && codeBuffer == Lsb(input, pos, numBits)
    && (pos + numBits) % 8 == 0
    && (cursor < |input| ==> pos + numBits == 8 * cursor)
    && 8 * cursor <= pos + numBits
    && (hit ==> cursor == |input| && 8 * |input| + 16 <= pos + numBits)
  }

  lemma ReservoirFitsWord(input: seq<byte>, pos: nat, cursor: nat, numBits: nat, codeBuffer: nat, hit: bool)
    requires Reservoir(input, pos, cursor, numBits, codeBuffer, hit)
    ensures codeBuffer < Pow2(numBits) <= 0x1_0000_0000
  {
    hide Lsb;
    LsbBound(input, pos, numBits);
    Pow2Mono(numBits, 32);
    Pow2Of32();
  }

  lemma TakeBits(input: seq<byte>, pos: nat, cursor: nat, numBits: nat, codeBuffer: nat, hit: bool, n: nat)
    requires Reservoir(input, pos, cursor, numBits, codeBuffer, hit) && n <= numBits
    ensures BitAnd(codeBuffer, Pow2(n) - 1) == Lsb(input, pos, n)
    ensures Reservoir(input, pos + n, cursor, numBits - n, Shr(codeBuffer, n), hit)
  {
    MaskIsLow(codeBuffer, n);
    LsbSplit(input, pos, numBits, n);
  }

  /** Joining the next byte, or a zero byte past the end. */
  lemma AddByte(input: seq<byte>, pos: nat, cursor: nat, numBits: nat, codeBuffer: nat, hit: bool, b: nat)
    requires Reservoir(input, pos, cursor, numBits, codeBuffer, hit) && numBits <= 24
    requires b == if cursor < |input| then input[cursor] else 0
    ensures Reservoir(input, pos, if cursor < |input| then cursor + 1 else cursor, numBits + 8,
                      BitOr(codeBuffer, b * Pow2(numBits)), hit)
  {
    hide Lsb, BitOr, Pow2;
    LsbBound(input, pos, numBits);
    JoinIsSum(codeBuffer, b, numBits);
    LsbConcat(input, pos, numBits, 8);
    if cursor < |input| {
      LsbByte(input, cursor);
    } else {
      LsbPastEnd(input, pos + numBits, 8);
    }
  }

  /** The 16 padding bits inserted at the end of input are stream bits too. */
  lemma AddPadding(input: seq<byte>, pos: nat, cursor: nat, numBits: nat, codeBuffer: nat)
    requires Reservoir(input, pos, cursor, numBits, codeBuffer, false) && numBits < 16 && cursor == |input|
    ensures Reservoir(input, pos, cursor, numBits + 16, codeBuffer, true)
  {
    hide Lsb, Pow2;
    LsbConcat(input, pos, numBits, 16);
    LsbPastEnd(input, pos + numBits, 16);
  }

  /** Once fewer than 16 bits are left after padding, the position is past the input. */
  lemma PaddingUsed(input: seq<byte>, pos: nat, cursor: nat, numBits: nat, codeBuffer: nat)
    requires Reservoir(input, pos, cursor, numBits, codeBuffer, true) && numBits < 16
    ensures 8 * |input| < pos
  {
  }

  // ----- table lookups -----

  /** The 9-bit window of the reservoir, read as a number with the first bit leading. */
  lemma FastWindow(input: seq<byte>, pos: nat, numBits: nat, codeBuffer: nat)
    requires codeBuffer == Lsb(input, pos, numBits) && 16 <= numBits
    ensures var j := BitAnd(codeBuffer, 511); j < FAST_SIZE && Rev(j, FAST_BITS) == Msb(input, pos, FAST_BITS)
  {
    assert Pow2(9) == 512;
    hide Lsb, Msb, Rev, BitAnd, Pow2;
    MaskIsLow(codeBuffer, 9);
    LsbSplit(input, pos, numBits, 9);
    LsbBound(input, pos, 9);
    RevOfLsb(input, pos, 9, 9);
  }

  /** A nonzero fast entry holds the symbol at pos and the length of its code. */
  lemma FastHitMeans(L: lengths, input: seq<byte>, pos: nat, j: nat, v: nat)
    requires |L| <= NUM_SYMS && Rev(j, FAST_BITS) == Msb(input, pos, FAST_BITS)
    requires FastEntry(L, |L|, j, v) && v != 0
    requires Bounded(L, MAX_BITS)
    ensures var i := BitAnd(v, 511); i < |L| && L[i] == Shr(v, 9) <= FAST_BITS && Symbol(L, input, pos) == i
  {
    hide Msb, Rev, BitAnd, Pow2, Shr, FastHit, FastValue, Symbol, Bounded;
    var i: nat :| i < |L| && FastHit(L, i, j) && v == FastValue(L[i], i);
    FastValueParts(L[i], i);
    FastHitIsSymbol(L, input, pos, j, i);
  }

  lemma FastHitIsSymbol(L: lengths, input: seq<byte>, pos: nat, j: nat, i: nat)
    requires Rev(j, FAST_BITS) == Msb(input, pos, FAST_BITS) && FastHit(L, i, j) && Bounded(L, MAX_BITS)
    ensures i < |L| && L[i] <= FAST_BITS && Symbol(L, input, pos) == i
  {
    hide Msb, Rev, Shr, CodeOf, Symbol, Bounded;
    MsbPrefix(input, pos, FAST_BITS, L[i]);
    SymbolUnique(L, input, pos, i, MAX_BITS);
  }

  lemma FastValueParts(s: nat, i: nat)
    requires i < 512
    ensures BitAnd(FastValue(s, i), 511) == i && Shr(FastValue(s, i), 9) == s
  {
    assert Pow2(9) == 512;
    hide BitAnd, Pow2, Shr;
    SplitUnique(FastValue(s, i), 9, s, i);
    MaskIsLow(FastValue(s, i), 9);
  }

  /** A zero fast entry means the 16-bit window is at or above the 9-bit limit. */
  lemma FastMissMeans(L: lengths, input: seq<byte>, pos: nat, j: nat)
    requires Rev(j, FAST_BITS) == Msb(input, pos, FAST_BITS)
    requires FastEntry(L, |L|, j, 0)
    ensures Limit(L, FAST_BITS, 16) <= Msb(input, pos, 16)
  {
    hide Msb, Rev, CodeOf, Shr;
    var k := Msb(input, pos, 16);
    MatchIffBelow(L, k, FAST_BITS, 16);
    forall i: nat | i < |L| && L[i] <= FAST_BITS ensures !Matches(L, i, k, 16) {
      assert !FastHit(L, i, j);
      MsbPrefix(input, pos, 16, L[i]);
      MsbPrefix(input, pos, FAST_BITS, L[i]);
    }
  }

  /** Between two limits lies the code of one symbol, and its slot is where the slow path looks. */
  lemma SlowHitMeans(L: lengths, input: seq<byte>, pos: nat, s: nat) returns (i: nat)
    requires 1 <= s <= MAX_BITS && Bounded(L, MAX_BITS)
    requires Limit(L, s - 1, 16) <= Msb(input, pos, 16) < Limit(L, s, 16)
    ensures i < |L| && L[i] == s && Symbol(L, input, pos) == i
    ensures Shr(Msb(input, pos, 16), 16 - s) - FirstCode(L, s) + FirstSlot(L, s) == Slot(L, i)
  {
    hide Msb, Limit, CountTo, FirstSlot, FirstCode, Shr;
    i := RangeMatch(L, s, Msb(input, pos, 16), 16);
    MsbPrefix(input, pos, 16, s);
    SymbolUnique(L, input, pos, i, MAX_BITS);
  }

  lemma SlowMissMeans(L: lengths, input: seq<byte>, pos: nat)
    requires Bounded(L, MAX_BITS) && Limit(L, MAX_BITS, 16) <= Msb(input, pos, 16)
    ensures Symbol(L, input, pos) == -1
  {
    hide Msb, Limit;
    var z := Symbol(L, input, pos);
    if z >= 0 {
      SymbolAtIsMatch(L, input, pos, z, 16);
      MatchIffBelow(L, Msb(input, pos, 16), MAX_BITS, 16);
    }
  }

  lemma SlowWindow(input: seq<byte>, pos: nat, numBits: nat, codeBuffer: nat)
    requires codeBuffer == Lsb(input, pos, numBits) && 16 <= numBits
    ensures BitReverse(codeBuffer, 16) == Msb(input, pos, 16) < 0x1_0000
  {
    BitReverse16IsRev(codeBuffer);
    hide BitReverse16, Rev, Lsb, Msb;
    RevOfLsb(input, pos, numBits, 16);
    MsbBound(input, pos, 16);
    Pow2Of16();
  }

  class ZBuf {
    const input: seq<byte>
    const expandable: bool
    const allocLimit: nat
    const zLength: ZHuffman
    const zDistance: ZHuffman

    var cursor: nat
    var numBits: nat
    var codeBuffer: nat
    var hitZeofOnce: bool

    var buf: array<byte>
    var zout: nat

    ghost var pos: nat

    /** The set-up in `stbi__do_zlib` and its callers. */
    constructor (input: seq<byte>, obuf: array<byte>, expandable: bool, allocLimit: nat)
      ensures this.input == input && this.expandable == expandable && this.allocLimit == allocLimit
      ensures cursor == 0 && buf == obuf && zout == 0
      ensures zLength.Shape() && zDistance.Shape() && zLength.Repr() !! zDistance.Repr()
      ensures fresh(zLength.Repr()) && fresh(zDistance.Repr())
    {
      this.input := input;
      this.expandable := expandable;
      this.allocLimit := allocLimit;
      cursor, numBits, codeBuffer, hitZeofOnce, pos := 0, 0, 0, false, 0;
      buf, zout := obuf, 0;
      zLength := new ZHuffman();
      zDistance := new ZHuffman();
    }

    ghost predicate InStep()
      reads `cursor, `numBits, `codeBuffer, `hitZeofOnce, `pos
    {
      Reservoir(input, pos, cursor, numBits, codeBuffer, hitZeofOnce)
    }

    function Zeof(): bool
      reads `cursor
    {
      cursor >= |input|
    }

    method Zget8() returns (b: byte)
      modifies `cursor
      ensures b == if old(cursor) < |input| then input[old(cursor)] else 0
      ensures cursor == if old(cursor) < |input| then old(cursor) + 1 else old(cursor)
    {
      if Zeof() {
        b := 0;
      } else {
        b := input[cursor];
        cursor := cursor + 1;
      }
    }

    /** `stbi__fill_bits`; its bail-out for an overfull reservoir cannot be taken. */
    method FillBits()
      requires InStep() && numBits <= 24
      modifies `cursor, `numBits, `codeBuffer
      ensures InStep() && 24 < numBits
      ensures old(cursor) == |input| ==> cursor == |input|
    {
      FillByte();
      while numBits <= 24
        invariant InStep()
        invariant old(cursor) == |input| ==> cursor == |input|
        decreases 32 - numBits
      {
        FillByte();
      }
    }

    method FillByte()
      requires InStep() && numBits <= 24
      modifies `cursor, `numBits, `codeBuffer
      ensures InStep() && numBits == old(numBits) + 8
      ensures old(cursor) == |input| ==> cursor == |input|
    {
      hide BitOr, Pow2, Lsb;
      assert codeBuffer < Pow2(numBits) by {
        ReservoirFitsWord(input, pos, cursor, numBits, codeBuffer, hitZeofOnce);
      }
      AddByte(input, pos, cursor, numBits, codeBuffer, hitZeofOnce, if cursor < |input| then input[cursor] else 0);
      var b := Zget8();
      codeBuffer := BitOr(codeBuffer, b * Pow2(numBits));
      numBits := numBits + 8;
    }

    /** `stbi__zreceive`: the next n bits of the zero-padded input. */
    method Zreceive(n: nat) returns (k: nat)
      requires InStep() && n <= 16
      modifies `cursor, `numBits, `codeBuffer, `pos
      ensures InStep() && pos == old(pos) + n && numBits + n <= 32
      ensures n <= old(numBits) ==> numBits == old(numBits) - n
      ensures k == Lsb(input, old(pos), n)
    {
      hide Lsb, Shr, BitAnd;
      if numBits < n {
        FillBits();
      }
      TakeBits(input, pos, cursor, numBits, codeBuffer, hitZeofOnce, n);
      k := BitAnd(codeBuffer, Pow2(n) - 1);
      codeBuffer := Shr(codeBuffer, n);
      numBits := numBits - n;
      pos := pos + n;
    }

    /**
      `stbi__zhuffman_decode_slowpath`.  Its rejections of an index out of range or of
      an entry of another length cannot be taken: the asserts stand in their place.
     */
    method ZHuffmanDecodeSlowpath(z: ZHuffman, ghost L: lengths) returns (r: int)
      requires InStep() && 16 <= numBits && z.Represents(L)
      requires Limit(L, FAST_BITS, 16) <= Msb(input, pos, 16)
      modifies `numBits, `codeBuffer, `pos
      ensures InStep() && r == Symbol(L, input, old(pos))
      ensures pos == old(pos) + if r >= 0 then L[r] else 0
    {
      hide BitReverse, Msb, Lsb, Slot, FirstSlot, CountTo, Limit, Fits, Shr;
      SlowWindow(input, pos, numBits, codeBuffer);
      var k := BitReverse(codeBuffer, 16);
      var s := FAST_BITS + 1;
      while k >= z.maxcode[s]
        invariant FAST_BITS < s <= 16
        invariant Limit(L, s - 1, 16) <= k
        decreases 16 - s
      {
        assert LengthRow(L, s, z.firstcode[s], z.firstsymbol[s], z.maxcode[s]);
        s := s + 1;
      }
      if s >= 16 {
        SlowMissMeans(L, input, pos);
        return -1;
      }
      assert LengthRow(L, s, z.firstcode[s], z.firstsymbol[s], z.maxcode[s]);
      ghost var i := SlowHitMeans(L, input, pos, s);
      var b := Shr(k, 16 - s) - z.firstcode[s] + z.firstsymbol[s];
      assert b == Slot(L, i) && SlotInRange(L, i);
      assert b < NUM_SYMS && z.size[b] == s;
      TakeBits(input, pos, cursor, numBits, codeBuffer, hitZeofOnce, s);
      codeBuffer := Shr(codeBuffer, s);
      numBits := numBits - s;
      pos := pos + s;
      r := z.value[b];
    }

    /**
      `stbi__zhuffman_decode`: the symbol at pos by bit-by-bit matching, or -1 when no
      code matches there or the position is already past the end of the input.
     */
    method ZHuffmanDecode(z: ZHuffman, ghost L: lengths) returns (r: int)
      requires InStep() && z.Represents(L)
      modifies `cursor, `numBits, `codeBuffer, `hitZeofOnce, `pos
      ensures InStep()
      ensures r >= 0 ==> r == Symbol(L, input, old(pos)) && pos == old(pos) + L[r]
      ensures r < 0 ==> r == -1 && pos == old(pos)
      ensures r < 0 && pos <= 8 * |input| ==> Symbol(L, input, pos) == -1
    {
      hide Reservoir;
      var ok := EnsureWindow();
      if !ok {
        return -1;
      }
      r := DecodeWindow(z, L);
    }

    /** At least 16 bits in the reservoir, once with padding; false when the padding has been used before. */
    method EnsureWindow() returns (ok: bool)
      requires InStep()
      modifies `cursor, `numBits, `codeBuffer, `hitZeofOnce
      ensures InStep() && (ok ==> 16 <= numBits) && (!ok ==> 8 * |input| < pos)
    {
      hide Lsb;
      ok := true;
      if numBits < 16 {
        if Zeof() {
          if !hitZeofOnce {
            AddPadding(input, pos, cursor, numBits, codeBuffer);
            hitZeofOnce := true;
            numBits := numBits + 16;
          } else {
            PaddingUsed(input, pos, cursor, numBits, codeBuffer);
            ok := false;
          }
        } else {
          FillBits();
        }
      }
    }

    /** The lookup in the fast table, and the slow path when it misses. */
    method DecodeWindow(z: ZHuffman, ghost L: lengths) returns (r: int)
      requires InStep() && 16 <= numBits && z.Represents(L)
      modifies `numBits, `codeBuffer, `pos
      ensures InStep() && r == Symbol(L, input, old(pos))
      ensures pos == old(pos) + if r >= 0 then L[r] else 0
    {
      hide BitAnd, Msb, Lsb, Slot, FirstSlot, CountTo, Limit, Fits, Shr, FastEntry, Rev;
      FastWindow(input, pos, numBits, codeBuffer);
      ghost var j := BitAnd(codeBuffer, 511);
      var b := z.fast[BitAnd(codeBuffer, 511)];
      assert FastEntry(L, |L|, j, b);
      if b != 0 {
        FastHitMeans(L, input, pos, j, b);
        var s := Shr(b, 9);
        TakeBits(input, pos, cursor, numBits, codeBuffer, hitZeofOnce, s);
        codeBuffer := Shr(codeBuffer, s);
        numBits := numBits - s;
        pos := pos + s;
        return BitAnd(b, 511);
      }
      FastMissMeans(L, input, pos, j);
      r := ZHuffmanDecodeSlowpath(z, L);
    }

    // ----- output -----

    /** The stream position and everything written so far. */
    ghost function Here(): State
      requires zout <= buf.Length
      reads `pos, `zout, `buf, buf
    {
      State(pos, buf[..zout])
    }

    /** Buffer sizes are unsigned ints. */
    ghost predicate Sized()
      reads `buf, `zout
    {
      zout <= buf.Length <= UINT_MAX
    }

    /** The buffer has the size it had, or has grown from it. */
    ghost predicate Grew(cap: nat)
      reads `buf
    {
      Grows(expandable, allocLimit, cap, buf.Length)
    }

    /** The tables are not the output buffer. */
    ghost predicate Separate()
      reads `buf
    {
      && zLength.Shape() && zDistance.Shape() && zLength.Repr() !! zDistance.Repr()
      && buf as object !in zLength.Repr() + zDistance.Repr()
    }

    /**
      `stbi__zexpand`: room for n more bytes at `at`, by doubling.  The loop ends if the
      limit starts above zero; from zero it would not, and `ok` is false for that too.
     */
    method Zexpand(at: nat, n: nat) returns (ok: bool)
      requires Sized() && Separate() && at <= buf.Length < at + n
      modifies `zout, `buf
      ensures Sized() && Separate() && zout == at
      ensures ok ==> expandable && fresh(buf) && at + n <= buf.Length
      ensures Grew(old(buf.Length))
      ensures ok <==> CanHold(expandable, allocLimit, old(buf.Length), at + n)
      ensures ok ==> buf[..at] == old(buf[..at])
      ensures !ok ==> buf == old(buf)
    {
      zout := at;
      if !expandable {
        return false;
      }
      var cur, limit := zout, buf.Length;
      if UINT_MAX - cur < n {
        return false;
      }
      if limit == 0 {
        return false; // the doubling would never end
      }
      GrownAgain(limit, cur + n);
      ok, limit := DoubledLimit(cur + n);
      ok := ok && limit <= allocLimit;
      if ok {
        Realloc(cur, limit);
      }
    }

    /** The doubling loop: the size that has room for `total`, unless 32 bits cannot express it. */
    method DoubledLimit(total: nat) returns (ok: bool, limit: nat)
      requires 0 < buf.Length <= UINT_MAX
      ensures ok <==> Grown(buf.Length, total) <= UINT_MAX
      ensures ok ==> limit == Grown(buf.Length, total)
    {
      limit := buf.Length;
      while total > limit
        invariant 0 < buf.Length <= limit <= UINT_MAX
        invariant Grown(buf.Length, total) == Grown(limit, total)
        decreases total - limit
      {
        if limit > UINT_MAX / 2 {
          return false, limit;
        }
        limit := limit * 2;
      }
      ok := true;
    }

    /** `realloc`: a larger buffer with the same contents. */
    method Realloc(ghost cur: nat, size: nat)
      requires cur <= buf.Length <= size
      modifies `buf
      ensures fresh(buf) && buf.Length == size && buf[..cur] == old(buf[..cur])
    {
      var q := new byte[size](_ => 0);
      for i := 0 to buf.Length
        invariant buf == old(buf) && q[..i] == buf[..i]
      {
        q[i] := buf[i];
      }
      assert q[..buf.Length][..cur] == buf[..cur];
      buf := q;
    }

    /** Append one byte, growing the buffer if it is full. */
    method PutByte(at: nat, b: byte) returns (ok: bool)
      requires Sized() && Separate() && at <= buf.Length
      modifies `zout, `buf, buf
      ensures Sized() && Separate() && (ok ==> at < buf.Length)
      ensures Grew(old(buf.Length)) && (buf == old(buf) || (expandable && fresh(buf)))
      ensures ok ==> buf[..at + 1] == old(buf[..at]) + [b]
      ensures !ok ==> !CanHold(expandable, allocLimit, old(buf.Length), at + 1)
    {
      ok := true;
      if at >= buf.Length {
        ok := Zexpand(at, 1);
      }
      if ok {
        buf[at] := b;
      }
    }

    /** The copy loops of `stbi__parse_huffman_block`, with the shortcut for runs of one byte. */
    method CopyBytes(at: nat, len: nat, dist: nat)
      requires 1 <= dist <= at && at + len <= buf.Length
      modifies buf
      ensures buf[..at + len] == CopyMatch(old(buf[..at]), len, dist)
    {
      hide CopyMatch;
      NoMatch(buf[..at], dist);
      var w, p, n := at, at - dist, len;
      ghost var out := buf[..at];
      if dist == 1 {
        var v := buf[p];
        while n > 0
          invariant 0 <= n && n + w == at + len && at <= w && v == buf[w - 1]
          invariant buf[..w] == CopyMatch(out, w - at, dist)
        {
          CopyMatchSnoc(out, w - at, dist);
          buf[w] := v;
          w, n := w + 1, n - 1;
        }
      } else {
        while n > 0
          invariant 0 <= n && n + w == at + len && at <= w && p == w - dist
          invariant buf[..w] == CopyMatch(out, w - at, dist)
        {
          CopyMatchSnoc(out, w - at, dist);
          buf[w] := buf[p];
          w, p, n := w + 1, p + 1, n - 1;
        }
      }
    }

    /** Append a match, growing the buffer if it does not fit. */
    method PutMatch(at: nat, len: nat, dist: nat) returns (ok: bool)
      requires Sized() && Separate() && 1 <= dist <= at <= buf.Length
      modifies `zout, `buf, buf
      ensures Sized() && Separate() && (ok ==> at + len <= buf.Length)
      ensures Grew(old(buf.Length)) && (buf == old(buf) || (expandable && fresh(buf)))
      ensures ok ==> buf[..at + len] == CopyMatch(old(buf[..at]), len, dist)
      ensures !ok ==> !CanHold(expandable, allocLimit, old(buf.Length), at + len)
    {
      ok := true;
      if len > buf.Length - at {
        ok := Zexpand(at, len);
      }
      if ok {
        CopyBytes(at, len, dist);
      }
    }

    // ----- blocks -----

    /** A base value plus its extra bits, if it has any. */
    method AddExtra(base: nat, n: nat) returns (r: nat)
      requires InStep() && n <= 16
      modifies `cursor, `numBits, `codeBuffer, `pos
      ensures InStep() && pos == old(pos) + n && r == base + Lsb(input, old(pos), n)
    {
      r := base;
      if n > 0 {
        var e := Zreceive(n);
        r := r + e;
      }
    }

    /** Length and distance of a match, after its length symbol. */
    method DecodeMatch(ghost D: lengths, z: nat) returns (ok: bool, len: nat, dist: nat)
      requires InStep() && zDistance.Represents(D) && z < 29
      modifies `cursor, `numBits, `codeBuffer, `hitZeofOnce, `pos
      ensures InStep()
      ensures var m := ReadMatch(D, input, old(pos), z);
              if ok then m == Some(Match(len, dist, pos)) else m.None? || 8 * |input| < m.value.end
    {
      hide Lsb, Reservoir, ZHuffman.Represents, LengthBase, LengthExtra, DistBase, DistExtra;
      assert this as object !in zDistance.Repr();
      len := AddExtra(LengthBase(z), LengthExtra(z));
      dist := 0;
      var d := ZHuffmanDecode(zDistance, D);
      ok := 0 <= d < 30;
      if ok {
        dist := AddExtra(DistBase(d), DistExtra(d));
      }
    }

    /** The part of `stbi__parse_huffman_block` after a length symbol. */
    method ParseMatch(ghost D: lengths, at: nat, z: nat) returns (st: Status, end: nat)
      requires InStep() && Sized() && Separate() && at <= buf.Length && z < 29
      requires zDistance.Represents(D)
      modifies this, buf
      ensures InStep() && Sized() && Separate() && (buf == old(buf) || (expandable && fresh(buf)))
      ensures Grew(old(buf.Length))
      ensures st == Ok ==> at < end <= buf.Length
      ensures var next := NextMatch(D, input, State(old(pos), old(buf[..at])), z);
              match st
              case Ok => next == Go(State(pos, buf[..end]))
              case Corrupt => next.Bad? || 8 * |input| < next.s.pos
              case _ => next.Go? && Refusal(st, expandable, allocLimit, old(buf.Length), |next.s.out|)
    {
      hide ReadMatch, Reservoir, ZHuffman.Represents;
      var ok, len, dist := DecodeMatch(D, z);
      if !ok || at < dist {
        return Corrupt, at;
      }
      ok := PutMatch(at, len, dist);
      st, end := if ok then Ok else Refused(expandable, buf.Length), at + len;
    }

    /** One round of the loop of `stbi__parse_huffman_block`; `more` is false at the end of the block. */
    method ParseToken(ghost L: lengths, ghost D: lengths, at: nat) returns (st: Status, end: nat, more: bool)
      requires InStep() && Sized() && Separate() && at <= buf.Length
      requires zLength.Represents(L) && zDistance.Represents(D)
      modifies this, buf
      ensures InStep() && Sized() && Separate() && (buf == old(buf) || (expandable && fresh(buf)))
      ensures Grew(old(buf.Length))
      ensures st == Ok ==> end <= buf.Length && (more ==> at < end) && (!more ==> zout == end)
      ensures var next := NextToken(L, D, input, State(old(pos), old(buf[..at])));
              match st
              case Ok => next == if more then Go(State(pos, buf[..end])) else Stop(State(pos, buf[..end]))
              case Corrupt => next.Bad? || 8 * |input| < next.s.pos
              case _ => next.Go? && Refusal(st, expandable, allocLimit, old(buf.Length), |next.s.out|)
    {
      hide NextMatch, ReadMatch, Reservoir, ZHuffman.Represents;
      st, end, more := Ok, at, true;
      TokenExtends(L, D, input, State(pos, buf[..at]));
      assert this as object !in zLength.Repr() + zDistance.Repr();
      var z := ZHuffmanDecode(zLength, L);
      if z < 0 || z >= 286 {
        st := Corrupt;
      } else if z < 256 {
        var ok := PutByte(at, z);
        st, end := if ok then Ok else Refused(expandable, buf.Length), at + 1;
      } else if z == 256 {
        zout, more := at, false;
        if hitZeofOnce && numBits < 16 {
          PaddingUsed(input, pos, cursor, numBits, codeBuffer);
          st := Corrupt;
        }
      } else {
        st, end := ParseMatch(D, at, z - 257);
      }
    }

    /**
      `stbi__parse_huffman_block`.  On success the decoder stands where the block ends,
      with exactly its bytes appended.  It fails only where the block has no end, or
      ends beyond the input, or cannot be held.
     */
    method ParseHuffmanBlock(ghost L: lengths, ghost D: lengths) returns (st: Status)
      requires InStep() && Sized() && Separate()
      requires zLength.Represents(L) && zDistance.Represents(D)
      modifies this, buf
      ensures InStep() && Sized() && Separate() && (buf == old(buf) || (expandable && fresh(buf)))
      ensures Grew(old(buf.Length))
      ensures st == Ok ==> BlockEnd(L, D, input, old(Here())) == Some(Here())
      ensures st != Ok ==> Fails(st, input, expandable, allocLimit, old(buf.Length), BlockEnd(L, D, input, old(Here())))
    {
      hide BlockEnd, NextToken, Reservoir, ZHuffman.Represents, Grows, Refusal, Fails;
      NotYetGrown(expandable, allocLimit, buf.Length);
      assert this as object !in zLength.Repr() + zDistance.Repr();
      ghost var start := Here();
      var at, more := zout, true;
      while more
        invariant InStep() && Sized() && Separate() && (buf == old(buf) || (expandable && fresh(buf)))
        invariant Grew(old(buf.Length)) && at <= buf.Length
        invariant zLength.Represents(L) && zDistance.Represents(D)
        invariant more ==> BlockEnd(L, D, input, start) == BlockEnd(L, D, input, State(pos, buf[..at]))
        invariant !more ==> at == zout && BlockEnd(L, D, input, start) == Some(State(pos, buf[..at]))
        decreases more, UINT_MAX - at
      {
        ghost var here := State(pos, buf[..at]);
        BlockUnfold(L, D, input, here);
        ghost var cap := buf.Length;
        st, at, more := ParseToken(L, D, at);
        GrowsOn(expandable, allocLimit, old(buf.Length), cap, buf.Length);
        if st != Ok {
          TokenFails(L, D, input, here, st, expandable, allocLimit, old(buf.Length), cap);
          return;
        }
      }
      st := Ok;
    }

    /** The code lengths of the code-length code, in their scrambled order. */
    method ReadCodeLengthSizes(hclen: nat) returns (sizes: array<nat>)
      requires InStep() && hclen <= 19
      modifies `cursor, `numBits, `codeBuffer, `pos
      ensures fresh(sizes) && InStep() && pos == old(pos) + 3 * hclen
      ensures sizes[..] == CodeLengthCode(input, old(pos), hclen)
    {
      hide Reservoir, Lsb;
      sizes := new nat[19](_ => 0);
      assert sizes[..] == Repeat(0, 19);
      for i := 0 to hclen
        invariant InStep() && pos == old(pos) + 3 * i
        invariant sizes[..] == CodeLengthCode(input, old(pos), i)
      {
        var s := Zreceive(3);
        sizes[Dezigzag(i)] := s;
      }
    }

    /** One item of the run-length coded lengths, appended at n. */
    method ReadItem(z: ZHuffman, ghost cl: lengths, lencodes: array<nat>, n: nat, ntot: nat) returns (ok: bool,
                    end: nat)
      requires InStep() && |cl| == 19 && z.Represents(cl)
      requires n < ntot <= lencodes.Length && lencodes !in z.Repr()
      modifies `cursor, `numBits, `codeBuffer, `hitZeofOnce, `pos, lencodes
      ensures InStep()
      ensures ok ==> n < end <= ntot
      ensures var item := NextLengths(cl, input, old(pos), old(lencodes[..n]));
              if ok then item == Some(Lens(lencodes[n..end], pos)) && lencodes[..n] == old(lencodes[..n])
              else item.None? || ntot - n < |item.value.L| || 8 * |input| < item.value.pos
    {
      hide Reservoir, Lsb, ZHuffman.Represents;
      ok, end := false, n;
      var c := ZHuffmanDecode(z, cl);
      if c < 0 {
        return;
      }
      assert c < 19;
      if c < 16 {
        lencodes[n] := c;
        assert lencodes[n..n + 1] == [c];
        return true, n + 1;
      }
      var fill := 0;
      var count;
      if c == 16 {
        count := Zreceive(2);
        count := count + 3;
        if n == 0 {
          return;
        }
        fill := lencodes[n - 1];
      } else if c == 17 {
        count := Zreceive(3);
        count := count + 3;
      } else {
        count := Zreceive(7);
        count := count + 11;
      }
      if ntot - n < count {
        return;
      }
      Memset(lencodes, n, fill, count);
      return true, n + count;
    }

    /** The code-length loop of `stbi__compute_huffman_codes`. */
    method ReadLencodes(z: ZHuffman, ghost cl: lengths, lencodes: array<nat>, ntot: nat) returns (ok: bool)
      requires InStep() && |cl| == 19 && z.Represents(cl)
      requires ntot <= lencodes.Length && lencodes !in z.Repr()
      modifies `cursor, `numBits, `codeBuffer, `hitZeofOnce, `pos, lencodes
      ensures InStep()
      ensures var lens := ReadLengths(cl, input, old(pos), [], ntot);
              if ok then lens == Some(Lens(lencodes[..ntot], pos)) else lens.None? || 8 * |input| < lens.value.pos
    {
      hide Reservoir, ZHuffman.Represents, NextLengths;
      assert this as object !in z.Repr();
      var n := 0;
      assert lencodes[..0] == [];
      while n < ntot
        invariant InStep() && n <= ntot && z.Represents(cl)
        invariant ReadLengths(cl, input, old(pos), [], ntot) == ReadLengths(cl, input, pos, lencodes[..n], ntot)
        decreases ntot - n
      {
        ghost var acc := lencodes[..n];
        var end;
        ok, end := ReadItem(z, cl, lencodes, n, ntot);
        if !ok {
          return;
        }
        assert lencodes[..end] == acc + lencodes[n..end];
        n := end;
      }
      ok := true;
    }

    method ReadCounts() returns (hlit: nat, hdist: nat, hclen: nat)
      requires InStep()
      modifies `cursor, `numBits, `codeBuffer, `pos
      ensures InStep() && pos == old(pos) + 14
      ensures hlit == Lsb(input, old(pos), 5) + 257 <= 288
      ensures hdist == Lsb(input, old(pos) + 5, 5) + 1 <= 32
      ensures hclen == Lsb(input, old(pos) + 10, 4) + 4 <= 19
    {
      hide Reservoir, Lsb;
      HeaderCounts(input, pos);
      hlit := Zreceive(5);
      hlit := hlit + 257;
      hdist := Zreceive(5);
      hdist := hdist + 1;
      hclen := Zreceive(4);
      hclen := hclen + 4;
    }

    /** The first half of `stbi__compute_huffman_codes`: all code lengths of the block. */
    method ReadHeaderLengths() returns (ok: bool, lencodes: array<nat>, hlit: nat, ntot: nat)
      requires InStep()
      modifies `cursor, `numBits, `codeBuffer, `hitZeofOnce, `pos
      ensures fresh(lencodes) && InStep()
      ensures ok ==> hlit <= ntot <= lencodes.Length
      ensures var h := HeaderLengths(input, old(pos));
              if ok then h == Some(HeaderLens(hlit, lencodes[..ntot], pos)) else h.None? || 8 * |input| < h.value.pos
    {
      hide Reservoir, Lsb, ZHuffman.Represents, CodeLengthCode, ReadLengths, Fits, HeaderLengths;
      HeaderParts(input, pos);
      var hdist, hclen, z;
      hlit, hdist, hclen := ReadCounts();
      ntot := hlit + hdist;
      lencodes := new nat[286 + 32 + 137];
      ghost var cl;
      ok, z, cl := ReadCodeLengthTable(hclen);
      if ok {
        ok := ReadLencodes(z, cl, lencodes, ntot);
      }
    }

    method ReadCodeLengthTable(hclen: nat) returns (ok: bool, z: ZHuffman, ghost cl: lengths)
      requires InStep() && hclen <= 19
      modifies `cursor, `numBits, `codeBuffer, `pos
      ensures InStep() && pos == old(pos) + 3 * hclen && fresh(z.Repr())
      ensures cl == CodeLengthCode(input, old(pos), hclen) && |cl| == 19
      ensures ok <==> Fits(cl, MAX_BITS)
      ensures ok ==> z.Represents(cl)
    {
      hide Reservoir, Lsb, ZHuffman.Represents, CodeLengthCode, Fits, KraftSum, Pow2;
      var sizes := ReadCodeLengthSizes(hclen);
      cl := sizes[..];
      z := new ZHuffman();
      ok := z.Build(sizes[..]);
    }

    /**
      `stbi__compute_huffman_codes`: the header of a dynamic block.  The tables it
      leaves represent the two codes the header describes.
     */
    method ComputeHuffmanCodes() returns (ok: bool, ghost L: lengths, ghost D: lengths)
      requires InStep() && zLength.Shape() && zDistance.Shape() && zLength.Repr() !! zDistance.Repr()
      modifies `cursor, `numBits, `codeBuffer, `hitZeofOnce, `pos, zLength.Repr(), zDistance.Repr()
      ensures InStep()
      ensures ok ==> zLength.Represents(L) && zDistance.Represents(D)
      ensures var h := DynamicHeader(input, old(pos));
              if ok then h == Some(Codes(L, D, pos)) else h.None? || 8 * |input| < h.value.pos
    {
      hide Reservoir, HeaderLengths, Fits;
      L, D := [], [];
      var lencodes, hlit, ntot;
      ok, lencodes, hlit, ntot := ReadHeaderLengths();
      if !ok {
        return;
      }
      var lit, dist := lencodes[..hlit], lencodes[hlit..ntot];
      assert lencodes[..ntot][..hlit] == lit && lencodes[..ntot][hlit..] == dist;
      ok := BuildBoth(lit, dist);
      L, D := lit, dist;
    }

    method BuildBoth(lit: lengths, dist: lengths) returns (ok: bool)
      requires zLength.Shape() && zDistance.Shape() && zLength.Repr() !! zDistance.Repr()
      requires |lit| <= NUM_SYMS && |dist| <= NUM_SYMS && Bounded(lit, MAX_BITS) && Bounded(dist, MAX_BITS)
      modifies zLength.Repr(), zDistance.Repr()
      ensures ok <==> Fits(lit, MAX_BITS) && Fits(dist, MAX_BITS)
      ensures ok ==> zLength.Represents(lit) && zDistance.Represents(dist)
    {
      hide ZHuffman.Represents, Fits, KraftSum, Pow2;
      ok := zLength.Build(lit);
      if ok {
        ok := zDistance.Build(dist);
      }
    }

    /**
      The four length bytes of a stored block: first whatever whole bytes the reservoir
      still holds (at most three), then bytes of the input.
     */
    method ReadStoredHeader() returns (header: array<nat>)
      requires InStep() && numBits <= 24 && numBits % 8 == 0
      modifies `cursor, `numBits, `codeBuffer, `pos
      ensures fresh(header) && header.Length == 4 && InStep() && numBits == 0 && pos == old(pos) + 32
      ensures forall i :: 0 <= i < 4 ==> header[i] == Lsb(input, old(pos) + 8 * i, 8)
    {
      hide Lsb, Reservoir, BitAnd;
      assert Pow2(8) == 256;
      header := new nat[4];
      var k := 0;
      while numBits > 0
        invariant InStep() && numBits % 8 == 0 && pos == old(pos) + 8 * k && 8 * k + numBits <= 24
        invariant forall i :: 0 <= i < k ==> header[i] == Lsb(input, old(pos) + 8 * i, 8)
        decreases numBits
      {
        TakeBits(input, pos, cursor, numBits, codeBuffer, hitZeofOnce, 8);
        header[k] := BitAnd(codeBuffer, 255);
        codeBuffer := Shr(codeBuffer, 8);
        numBits := numBits - 8;
        pos := pos + 8;
        k := k + 1;
      }
      while k < 4
        invariant k <= 4 && InStep() && numBits == 0 && pos == old(pos) + 8 * k
        invariant forall i :: 0 <= i < k ==> header[i] == Lsb(input, old(pos) + 8 * i, 8)
      {
        ByteBehind(input, pos, cursor, codeBuffer, hitZeofOnce);
        var b := Zget8();
        header[k] := b;
        pos := pos + 8;
        k := k + 1;
      }
    }

    /** `memcpy` of the stored bytes. */
    method CopyInput(len: nat)
      requires InStep() && numBits == 0 && cursor + len <= |input| && zout + len <= buf.Length
      modifies `cursor, `zout, `pos, buf
      ensures InStep() && pos == old(pos) + 8 * len && zout == old(zout) + len
      ensures buf[..zout] == old(buf[..zout]) + Bytes(input, old(pos), len)
    {
      hide Lsb;
      StoredBytes(input, pos, cursor, codeBuffer, hitZeofOnce, len);
      for i := 0 to len
        invariant InStep() && cursor == old(cursor) && zout == old(zout) && pos == old(pos)
        invariant buf[..zout + i] == old(buf[..zout]) + input[cursor..cursor + i]
      {
        buf[zout + i] := input[cursor + i];
      }
      cursor := cursor + len;
      zout := zout + len;
      pos := pos + 8 * len;
    }

    /** Skip to the byte boundary and read both length fields. */
    method ReadStoredLengths() returns (len: nat, nlen: nat)
      requires InStep() && numBits <= 30
      modifies `cursor, `numBits, `codeBuffer, `pos
      ensures InStep() && numBits == 0 && len <= 0xFFFF
      ensures var q := old(pos) + PadTo8(old(pos));
              pos == q + 32 && len == Lsb(input, q, 16) && nlen == Lsb(input, q + 16, 16)
    {
      hide Lsb, Reservoir, PadTo8;
      AlignedBy(input, pos, cursor, numBits, codeBuffer, hitZeofOnce);
      if numBits % 8 != 0 {
        var skipped := Zreceive(numBits % 8);
      }
      StoredLengths(input, pos);
      ghost var q := pos;
      var header := ReadStoredHeader();
      assert header[0] == Lsb(input, q + 8 * 0, 8) && header[2] == Lsb(input, q + 8 * 2, 8);
      len := header[1] * 256 + header[0];
      nlen := header[3] * 256 + header[2];
    }

    /**
      `stbi__parse_uncompressed_block`: continue at the next byte boundary, check the
      lengths, and copy straight from the input.
     */
    method ParseUncompressedBlock() returns (st: Status)
      requires InStep() && Sized() && Separate() && numBits <= 30
      modifies this, buf
      ensures InStep() && Sized() && Separate() && (buf == old(buf) || (expandable && fresh(buf)))
      ensures Grew(old(buf.Length))
      ensures st == Ok ==> StoredBlock(input, old(Here())) == Some(Here())
      ensures st != Ok ==> Fails(st, input, expandable, allocLimit, old(buf.Length), StoredBlock(input, old(Here())))
    {
      hide Lsb, Bytes, PadTo8;
      var len, nlen := ReadStoredLengths();
      if nlen != 0xFFFF - len {
        return Corrupt;
      }
      if cursor + len > |input| {
        return Corrupt;
      }
      if zout + len > buf.Length {
        var ok := Zexpand(zout, len);
        if !ok {
          return Refused(expandable, buf.Length);
        }
      }
      CopyInput(len);
      st := Ok;
    }

    /** A block with the fixed code. */
    method ParseFixedBlock() returns (st: Status)
      requires InStep() && Sized() && Separate()
      modifies this, buf, zLength.Repr(), zDistance.Repr()
      ensures InStep() && Sized() && Separate() && (buf == old(buf) || (expandable && fresh(buf)))
      ensures Grew(old(buf.Length))
      ensures var want := BlockEnd(FixedLit(), FixedDist(), input, old(Here()));
              if st == Ok then want == Some(Here()) else Fails(st, input, expandable, allocLimit, old(buf.Length), want)
    {
      hide Reservoir, BlockEnd, ZHuffman.Represents, FixedLit, FixedDist, Fits;
      FixedFits();
      var ok := BuildBoth(FixedLit(), FixedDist());
      st := ParseHuffmanBlock(FixedLit(), FixedDist());
    }

    method ParseDynamicBlock() returns (st: Status)
      requires InStep() && Sized() && Separate()
      modifies this, buf, zLength.Repr(), zDistance.Repr()
      ensures InStep() && Sized() && Separate() && (buf == old(buf) || (expandable && fresh(buf)))
      ensures Grew(old(buf.Length))
      ensures var want := DynamicBlock(input, old(Here()));
              if st == Ok then want == Some(Here()) else Fails(st, input, expandable, allocLimit, old(buf.Length), want)
    {
      hide Reservoir, BlockEnd, ZHuffman.Represents, DynamicHeader;
      ghost var h := DynamicHeader(input, pos);
      if h.Some? {
        BlockExtends(h.value.lit, h.value.dist, input, State(h.value.pos, buf[..zout]));
      }
      var ok, L, D := ComputeHuffmanCodes();
      if !ok {
        return Corrupt;
      }
      st := ParseHuffmanBlock(L, D);
    }

    /** The body of one block, by its type. */
    method ParseBlock(kind: nat) returns (st: Status)
      requires InStep() && Sized() && Separate() && numBits <= 30 && kind < 4
      modifies this, buf, zLength.Repr(), zDistance.Repr()
      ensures InStep() && Sized() && Separate() && (buf == old(buf) || (expandable && fresh(buf)))
      ensures Grew(old(buf.Length))
      ensures var want := BlockOf(input, old(Here()), kind);
              if st == Ok then want == Some(Here()) else Fails(st, input, expandable, allocLimit, old(buf.Length), want)
    {
      hide Reservoir, BlockEnd, StoredBlock, DynamicBlock, FixedLit, FixedDist;
      if kind == 0 {
        st := ParseUncompressedBlock();
      } else if kind == 3 {
        st := Corrupt;
      } else if kind == 1 {
        st := ParseFixedBlock();
      } else {
        st := ParseDynamicBlock();
      }
    }

    /** `stbi__parse_zlib_header` */
    method ParseZlibHeader() returns (ok: bool)
      requires cursor == 0
      modifies `cursor
      ensures ok <==> ZlibHeader(input)
      ensures ok ==> cursor == 2
    {
      var cmf: nat := Zget8();
      var cm := cmf % 16;
      var flg: nat := Zget8();
      if Zeof() {
        return false;
      }
      ok := (cmf * 256 + flg) % 31 == 0 && Bit(flg, 5) == 0 && cm == 8;
    }

    /** One block of the loop of `stbi__parse_zlib`. */
    method NextBlock() returns (st: Status, final: bool)
      requires InStep() && Sized() && Separate()
      modifies this, buf, zLength.Repr(), zDistance.Repr()
      ensures InStep() && Sized() && Separate() && (buf == old(buf) || (expandable && fresh(buf)))
      ensures Grew(old(buf.Length))
      ensures final <==> Lsb(input, old(pos), 1) == 1
      ensures var want := ReadBlock(input, old(Here()));
              if st == Ok then want == Some(Here()) else Fails(st, input, expandable, allocLimit, old(buf.Length), want)
    {
      hide Reservoir, BlockOf, Lsb;
      BlockTypes(input, pos);
      var f := Zreceive(1);
      var kind := Zreceive(2);
      st := ParseBlock(kind);
      final := f == 1;
    }

    /**
      `stbi__parse_zlib`: a refinement of Inflate in both directions.  Success means the
      output is what the zero-padded input stands for; and whatever the input stands for
      within its real bits is produced, unless there is no room for it.  The loop ends
      because every block but the last consumes bits of the real input.
     */
    method ParseZlib(parseHeader: bool) returns (st: Status)
      requires cursor == 0 && zout == 0 && Sized() && Separate()
      modifies this, buf, zLength.Repr(), zDistance.Repr()
      ensures Sized() && Separate() && (buf == old(buf) || (expandable && fresh(buf)))
      ensures Grew(old(buf.Length))
      ensures st == Ok ==> Inflate(input, parseHeader) == Some(Here())
      ensures st != Ok ==> Fails(st, input, expandable, allocLimit, old(buf.Length), Inflate(input, parseHeader))
    {
      if parseHeader {
        var ok := ParseZlibHeader();
        if !ok {
          return Corrupt;
        }
      }
      numBits, codeBuffer, hitZeofOnce, pos := 0, 0, false, 8 * cursor;
      assert InStep();
      assert Here() == State(if parseHeader then 16 else 0, []);
      st := ParseBlocks();
    }

    method ParseBlocks() returns (st: Status)
      requires InStep() && Sized() && Separate()
      modifies this, buf, zLength.Repr(), zDistance.Repr()
      ensures Sized() && Separate() && (buf == old(buf) || (expandable && fresh(buf)))
      ensures Grew(old(buf.Length))
      ensures var want := StreamEnd(input, old(Here()));
              if st == Ok then want == Some(Here()) else Fails(st, input, expandable, allocLimit, old(buf.Length), want)
    {
      hide Reservoir, ReadBlock, Lsb;
      ghost var start := Here();
      var final := false;
      while !final
        invariant InStep() && Sized() && Separate() && (buf == old(buf) || (expandable && fresh(buf)))
        invariant Grew(old(buf.Length))
        invariant StreamEnd(input, start) == if final then Some(Here()) else StreamEnd(input, Here())
        decreases !final, 8 * |input| - pos
      {
        ghost var here := Here();
        ghost var next := ReadBlock(input, here);
        if 8 * |input| <= pos {
          NoBlockPastEnd(input, here);
        }
        if next.Some? {
          ReadBlockExtends(input, here);
          StreamExtends(input, next.value);
        }
        ghost var cap := buf.Length;
        st, final := NextBlock();
        GrowsOn(expandable, allocLimit, old(buf.Length), cap, buf.Length);
        if st != Ok {
          FailsEarlier(st, input, expandable, allocLimit, old(buf.Length), cap, next, StreamEnd(input, here));
          return;
        }
      }
      st := Ok;
    }
  }

  // ----- entry points -----

  /**
    `stbi_zlib_decode_malloc_guesssize_headerflag`: decode into a growing buffer.
    `allocLimit` is the largest block the allocator grants.  What a complete input stands
    for comes out exactly if it can be held; `hangs` stands for a call that never returns.
   */
  method DecodeMalloc(input: seq<byte>, initialSize: nat, parseHeader: bool, allocLimit: nat)
    returns (r: Option<seq<byte>>, hangs: bool)
    requires initialSize <= UINT_MAX
    ensures r.Some? ==> Inflate(input, parseHeader).Some? && r.value == Inflate(input, parseHeader).value.out
    ensures hangs ==> initialSize == 0 && r.None?
    ensures var want := Inflate(input, parseHeader);
            want.Some? && want.value.pos <= 8 * |input| && initialSize <= allocLimit ==>
              && (r == Some(want.value.out) <==> CanHold(true, allocLimit, initialSize, |want.value.out|))
              && (hangs <==> initialSize == 0 && want.value.out != [])
  {
    if initialSize > allocLimit {
      return None, false;
    }
    var p := new byte[initialSize](_ => 0);
    var a := new ZBuf(input, p, true, allocLimit);
    var st := a.ParseZlib(parseHeader);
    if st == Ok {
      HeldIsHoldable(true, allocLimit, initialSize, a.buf.Length, a.zout);
    }
    r, hangs := if st == Ok then Some(a.buf[..a.zout]) else None, st == Stuck;
  }

  /** `stbi_zlib_decode_buffer` and its headerless twin: decode into a buffer of fixed size. */
  method DecodeBuffer(obuffer: array<byte>, input: seq<byte>, parseHeader: bool) returns (n: int)
    requires obuffer.Length <= UINT_MAX
    modifies obuffer
    ensures -1 <= n <= obuffer.Length
    ensures n >= 0 ==> Inflate(input, parseHeader).Some? && obuffer[..n] == Inflate(input, parseHeader).value.out
    ensures var want := Inflate(input, parseHeader);
            want.Some? && want.value.pos <= 8 * |input| ==>
              n == if |want.value.out| <= obuffer.Length then |want.value.out| else -1
  {
    var a := new ZBuf(input, obuffer, false, 0);
    var st := a.ParseZlib(parseHeader);
    n := if st == Ok then a.zout else -1;
  }

  lemma BlockTypes(input: seq<byte>, p: nat)
    ensures Lsb(input, p, 1) < 2 && Lsb(input, p + 1, 2) < 4
  {
    assert Pow2(1) == 2 && Pow2(2) == 4;
    LsbBound(input, p, 1);
    LsbBound(input, p + 1, 2);
  }

  lemma AlignedBy(input: seq<byte>, pos: nat, cursor: nat, numBits: nat, codeBuffer: nat, hit: bool)
    requires Reservoir(input, pos, cursor, numBits, codeBuffer, hit)
    ensures PadTo8(pos) == numBits % 8
  {
    hide Lsb;
    var a, b := pos % 8, numBits % 8;
    assert (a + b) % 8 == 0;
    assert a + b == 0 || a + b == 8;
  }

  /** With an empty reservoir the next input byte, or zero, is the next stream byte. */
  lemma ByteBehind(input: seq<byte>, pos: nat, cursor: nat, codeBuffer: nat, hit: bool)
    requires Reservoir(input, pos, cursor, 0, codeBuffer, hit)
    ensures Lsb(input, pos, 8) == if cursor < |input| then input[cursor] else 0
    ensures Reservoir(input, pos + 8, if cursor < |input| then cursor + 1 else cursor, 0, codeBuffer, hit)
  {
    if cursor < |input| {
      LsbByte(input, cursor);
    } else {
      LsbPastEnd(input, pos, 8);
    }
  }

  lemma FirstByte(s: seq<byte>, from: nat, len: nat)
    requires 0 < len && from + len <= |s|
    ensures s[from..from + len] == [s[from]] + s[from + 1..from + 1 + (len - 1)]
  {
  }

  lemma {:induction false} StoredBytes(input: seq<byte>, pos: nat, cursor: nat, codeBuffer: nat, hit: bool, len: nat)
    requires Reservoir(input, pos, cursor, 0, codeBuffer, hit) && cursor + len <= |input|
    ensures Bytes(input, pos, len) == input[cursor..cursor + len]
    ensures Reservoir(input, pos + 8 * len, cursor + len, 0, codeBuffer, hit)
    decreases len
  {
    hide Lsb, Reservoir;
    if len == 0 {
    } else {
      FirstByte(input, cursor, len);
      assert Bytes(input, pos, len) == [Lsb(input, pos, 8)] + Bytes(input, pos + 8, len - 1);
      hide Bytes;
      ByteBehind(input, pos, cursor, codeBuffer, hit);
      assert pos + 8 + 8 * (len - 1) == pos + 8 * len && cursor + 1 + (len - 1) == cursor + len;
      StoredBytes(input, pos + 8, cursor + 1, codeBuffer, hit, len - 1);
    }
  }

  lemma StoredLengths(input: seq<byte>, q: nat)
    ensures Lsb(input, q, 16) == Lsb(input, q + 8, 8) * 256 + Lsb(input, q, 8)
    ensures Lsb(input, q + 16, 16) == Lsb(input, q + 24, 8) * 256 + Lsb(input, q + 16, 8)
    ensures Lsb(input, q, 16) <= 0xFFFF
  {
    assert Pow2(8) == 256;
    hide Lsb;
    LsbConcat(input, q, 8, 8);
    LsbConcat(input, q + 16, 8, 8);
    LsbBound(input, q, 16);
    Pow2Of16();
  }

  method Memset(a: array<nat>, at: nat, v: nat, n: nat)
    requires at + n <= a.Length
    modifies a
    ensures a[..at] == old(a[..at]) && a[at..at + n] == Repeat(v, n)
  {
    for i := 0 to n
      invariant a[..at] == old(a[..at])
      invariant forall k :: at <= k < at + i ==> a[k] == v
    {
      a[at + i] := v;
    }
  }

  /** Stuck stands for a call that never returns. */
  datatype Status = Ok | Corrupt | NoRoom | Stuck

  /** What comes of a growable buffer that is full: doubling an empty one never ends. */
  function Refused(expandable: bool, cap: nat): Status {
    if expandable && cap == 0 then Stuck else NoRoom
  }

  /** The first size was `cap`, and `total` bytes cannot be held. */
  predicate Refusal(st: Status, expandable: bool, allocLimit: nat, cap: nat, total: nat) {
    st == Refused(expandable, cap) && !CanHold(expandable, allocLimit, cap, total)
  }

  /** When a failure is justified by what the input stands for. */
  ghost predicate Fails(st: Status, input: seq<byte>, expandable: bool, allocLimit: nat, capacity: nat,
                        want: Option<State>) {
    match st
    case Ok => false
    case Corrupt => want.None? || 8 * |input| < want.value.pos
    case _ =>
      if want.Some? then Refusal(st, expandable, allocLimit, capacity, |want.value.out|)
      else st == Refused(expandable, capacity)
  }

  /** What cannot be held now could not have been from the start, nor can anything longer. */
  lemma RefusalFails(st: Status, input: seq<byte>, expandable: bool, allocLimit: nat, cap: nat, now: nat, total: nat,
                     want: Option<State>)
    requires Grows(expandable, allocLimit, cap, now) && Refusal(st, expandable, allocLimit, now, total)
    requires want.Some? ==> total <= |want.value.out|
    ensures Fails(st, input, expandable, allocLimit, cap, want)
  {
    CanHoldStays(expandable, allocLimit, cap, now, total);
    if want.Some? && CanHold(expandable, allocLimit, cap, |want.value.out|) {
      CanHoldLess(expandable, allocLimit, cap, total, |want.value.out|);
    }
  }

  /** A token that cannot be read or held is one the block cannot do without. */
  lemma TokenFails(L: lengths, D: lengths, input: seq<byte>, s: State, st: Status, expandable: bool, allocLimit: nat,
                   cap: nat, now: nat)
    requires st != Ok && Grows(expandable, allocLimit, cap, now)
    requires var next := NextToken(L, D, input, s);
             if st == Corrupt then next.Bad? || 8 * |input| < next.s.pos
             else next.Go? && Refusal(st, expandable, allocLimit, now, |next.s.out|)
    ensures Fails(st, input, expandable, allocLimit, cap, BlockEnd(L, D, input, s))
  {
    hide BlockEnd, NextToken, Grows, Refusal;
    var next := NextToken(L, D, input, s);
    BlockUnfold(L, D, input, s);
    if next.Go? {
      BlockExtends(L, D, input, next.s);
    }
    if st != Corrupt {
      RefusalFails(st, input, expandable, allocLimit, cap, now, |next.s.out|, BlockEnd(L, D, input, next.s));
    }
  }

  /** A failure at a part of the input, with the buffer as it is now, is one of the whole. */
  lemma FailsEarlier(st: Status, input: seq<byte>, expandable: bool, allocLimit: nat, cap: nat, now: nat,
                     part: Option<State>, want: Option<State>)
    requires Grows(expandable, allocLimit, cap, now) && Fails(st, input, expandable, allocLimit, now, part)
    requires want.Some? ==>
               part.Some? && part.value.pos <= want.value.pos && |part.value.out| <= |want.value.out|
    ensures Fails(st, input, expandable, allocLimit, cap, want)
  {
    if st != Corrupt && part.Some? {
      RefusalFails(st, input, expandable, allocLimit, cap, now, |part.value.out|, want);
    }
  }
}
