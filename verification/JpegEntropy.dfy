/** Reading a JPEG scan in stb_image: the bit buffer of a `stbi__jpeg` and the functions that work on it. */
module JpegEntropy {
  import opened Words
  import opened Canonical
  import opened Input
  import opened JpegSpec
  import opened JpegStream
  import opened Jpeg

  /** What is left of the data after m bytes; beyond their end nothing is. */
  function Rest(data: seq<byte>, m: nat): seq<byte> {
    if m <= |data| then data[m..] else []
  }

  // ----- what the tables make of the data -----

  /** The last code is at bit p, and hidden. */
  ghost predicate HiddenAt(L: lengths, data: seq<byte>, p: nat) {
    LastCodeHidden(L) && CodeAt(L, data, p) == 255
  }

  /** The code that is taken at bit p of the data, or -1. */
  ghost function TakenAt(L: lengths, data: seq<byte>, p: nat): (i: int)
    ensures -1 <= i < |L|
  {
    if HiddenAt(L, data, p) then
      WindowBound(data, p + L[255], 10 - L[255]);
      var i := HiddenIndex(L, Window(data, p + L[255], 10 - L[255]));
      if i < 0 then -1 else i
    else CodeAt(L, data, p)
  }

  /** Its bits. */
  ghost function TakenLen(L: lengths, data: seq<byte>, p: nat): (len: nat)
    ensures len <= 16
  {
    if HiddenAt(L, data, p) then 10
    else if CodeAt(L, data, p) < 0 then 0
    else L[CodeAt(L, data, p)]
  }

  /** The AC coefficients that are read with these codes. */
  ghost function AcTaken(L: lengths, values: seq<byte>, data: seq<byte>, p: nat, k: nat, coeffs: seq<int>): Coefficients
    requires |L| <= |values| && |coeffs| == 64
    decreases 64 - k
  {
    if k >= 64 then Coefficients(coeffs, p)
    else
      var i := TakenAt(L, data, p);
      if i < 0 then Broken
      else
        var q, rs: nat := p + TakenLen(L, data, p), values[i];
        var run, size := rs / 16, rs % 16;
        if size == 0 then
          if rs == 0xF0 then AcTaken(L, values, data, q, k + 16, coeffs) else Coefficients(coeffs, q)
        else
          AcTaken(L, values, data, q + size, k + run + 1,
                  coeffs[Dezigzag(k + run) := Extend(Window(data, q, size), size)])
  }

  /** Unless the last code is hidden, they are the coefficients of the data. */
  lemma {:induction false} AcTakenIsCanonical(L: lengths, values: seq<byte>, data: seq<byte>, p: nat, k: nat,
                                              coeffs: seq<int>)
    requires |L| <= |values| && |coeffs| == 64 && !LastCodeHidden(L)
    ensures AcTaken(L, values, data, p, k, coeffs) == AcFrom(L, values, data, p, k, coeffs)
    decreases 64 - k
  {
    hide Window, Extend, Dezigzag, CodeAt;
    var i := CodeAt(L, data, p);
    if k >= 64 || i < 0 {
    } else {
      var q, rs: nat := p + L[i], values[i];
      var run, size := rs / 16, rs % 16;
      if size == 0 {
        if rs == 0xF0 {
          AcTakenIsCanonical(L, values, data, q, k + 16, coeffs);
        }
      } else {
        AcTakenIsCanonical(L, values, data, q + size, k + run + 1,
                           coeffs[Dezigzag(k + run) := Extend(Window(data, q, size), size)]);
      }
    }
  }

  lemma {:induction false} AcForward(L: lengths, values: seq<byte>, data: seq<byte>, p: nat, k: nat, coeffs: seq<int>)
    requires |L| <= |values| && |coeffs| == 64
    ensures var c := AcTaken(L, values, data, p, k, coeffs); c.Coefficients? ==> p <= c.end && |c.values| == 64
    decreases 64 - k
  {
    hide Window, Extend, Dezigzag, TakenAt, TakenLen;
    var i := TakenAt(L, data, p);
    if k >= 64 || i < 0 {
    } else {
      var q, rs: nat := p + TakenLen(L, data, p), values[i];
      var run, size := rs / 16, rs % 16;
      if size == 0 {
        if rs == 0xF0 {
          AcForward(L, values, data, q, k + 16, coeffs);
        }
      } else {
        AcForward(L, values, data, q + size, k + run + 1,
                  coeffs[Dezigzag(k + run) := Extend(Window(data, q, size), size)]);
      }
    }
  }

  /** How one round of the coefficient loop ends. */
  datatype Round = Go | Done | Fail

  /** The block ends after the data, or not at all. */
  ghost predicate Past(c: Coefficients, data: seq<byte>) {
    c.Coefficients? ==> 8 * |data| < c.end
  }

  class EntropyBuffer {
    const input: seq<byte>

    var cursor: nat
    var codeBuffer: nat
    var codeBits: int
    var marker: byte
    var nomore: bool

    ghost var data: seq<byte>
    ghost var pos: nat

    /** `stbi__jpeg_reset` at the start of a scan or after a restart marker. */
    constructor (input: seq<byte>, cursor: nat)
      ensures this.input == input && this.cursor == cursor && InStep()
      ensures data == Data(input, cursor) && pos == 0 && codeBits == 0 && !nomore
    {
      this.input := input;
      this.cursor := cursor;
      codeBuffer, codeBits, marker, nomore := 0, 0, 0xFF, false;
      data, pos := Data(input, cursor), 0;
      new;
      WindowBound(data, 0, 0);
    }

    /** The buffer holds the codeBits data bits from pos on, at the top, and the bytes behind them come next. */
    ghost predicate InStep()
      reads this
    {
      && 0 <= codeBits <= 32 && (pos + codeBits) % 8 == 0
      && codeBuffer == Word(data, pos, codeBits)
      && Behind((pos + codeBits) / 8)
    }

    method Get() returns (b: byte)
      modifies this`cursor
      ensures b == Get8(input, old(cursor)) && cursor == Next(input, old(cursor))
    {
      b := if cursor < |input| then input[cursor] else 0;
      if cursor < |input| {
        cursor := cursor + 1;
      }
    }

    /** `stbi__grow_buffer_unsafe`: more than 24 bits, unless a marker ends the data first. */
    method GrowBuffer()
      requires InStep() && codeBits <= 24
      modifies this`cursor, this`codeBuffer, this`codeBits, this`marker, this`nomore
      ensures InStep() && old(codeBits) <= codeBits
      ensures 24 < codeBits || 8 * |data| <= pos + codeBits
    {
      var more := GrowByte();
      while more && codeBits <= 24
        invariant InStep() && old(codeBits) <= codeBits
        invariant !more ==> 8 * |data| <= pos + codeBits
        decreases 32 - codeBits, more
      {
        more := GrowByte();
      }
    }

    /** One round of it; `more` is false at a marker. */
    method GrowByte() returns (more: bool)
      requires InStep() && codeBits <= 24
      modifies this`cursor, this`codeBuffer, this`codeBits, this`marker, this`nomore
      ensures InStep() && (if more then codeBits == old(codeBits) + 8 else codeBits == old(codeBits))
      ensures !more ==> nomore && 8 * |data| <= pos + codeBits
    {
      hide Word, BitOr, Pow2;
      ghost var m := (pos + codeBits) / 8;
      var b: byte;
      b, more := NextDataByte(m);
      if more {
        ByteJoined(data, pos, codeBits, b);
        codeBuffer := BitOr(codeBuffer, b * Pow2(24 - codeBits));
        codeBits := codeBits + 8;
      }
    }

    /** The unread input continues the data after m bytes, or they have ended. */
    ghost predicate Behind(m: nat)
      reads this`cursor, this`nomore, this`data
    {
      if nomore then |data| <= m else Data(input, cursor) == Rest(data, m)
    }

    /** The next data byte, which may be a stuffed one, or 0 after the data; `more` is false at a marker. */
    method NextDataByte(ghost m: nat) returns (b: byte, more: bool)
      requires Behind(m)
      modifies this`cursor, this`marker, this`nomore
      ensures if more then Behind(m + 1) && b == (if m < |data| then data[m] else 0)
              else nomore && |data| <= m
    {
      b, more := 0, true;
      if !nomore {
        NextByte(input, cursor, data, m);
        b := Get();
        if b == 0xFF {
          ghost var after := AfterFill(input, cursor);
          var c := Get();
          while c == 0xFF
            invariant if c == 0xFF then AfterFill(input, cursor) == after
                      else c == Get8(input, after) && cursor == Next(input, after)
            invariant !nomore && marker == old(marker)
            decreases |input| - cursor, c
          {
            c := Get();
          }
          if c != 0 {
            marker, nomore, more := c, true, false;
          }
        }
      }
    }

    // ----- symbols -----

    function Top(): Buffer
      reads this
    {
      Buffer(codeBuffer, codeBits)
    }

    /** `stbi__jpeg_huff_decode` once the buffer is filled: canonical decoding, unless the last code is hidden. */
    method DecodeTop(h: JHuffman, ghost L: lengths) returns (r: int)
      requires codeBuffer < Pow2(32) && h.Shape() && Represents(h.View(), L)
      modifies this`codeBuffer, this`codeBits
      ensures codeBuffer < Pow2(32)
      ensures forall c :: 0 <= c < FAST_SIZE ==> h.View().fast[c] < 256
      ensures Read(r, Top()) == HuffDecode(h.View(), old(Top()))
      ensures !(LastCodeHidden(L) && CodeAtTop(L, old(codeBuffer)) == 255) ==>
                Read(r, Top()) == DecodeSymbol(L, h.values[..], old(Top()))
    {
      hide DecodeSymbol, Represents, Low, Pow2, Shr, BitAnd;
      ghost var t := h.View();
      ghost var b := Top();
      GoodOf(t, L);
      FastBound(t, L);
      TopBits(codeBuffer, FAST_BITS);
      if !(LastCodeHidden(L) && CodeAtTop(L, codeBuffer) == 255) {
        DecodeIsCanonical(t, L, b);
      }
      var k := h.fast[Shr(codeBuffer, 23)];
      if k < 255 {
        var s := h.size[k];
        if s > codeBits {
          return -1;
        }
        ShlBound(codeBuffer, s);
        codeBuffer := Shl32(codeBuffer, s);
        codeBits := codeBits - s;
        return h.values[k];
      }
      r := SlowPath(h);
    }

    /** The first length whose limit lies above `temp`. */
    method ScanLimits(h: JHuffman, temp: nat) returns (k: nat)
      requires h.Shape()
      ensures FAST_BITS < k <= 17 && k == Scan(h.View().maxcode, temp, FAST_BITS + 1)
    {
      k := FAST_BITS + 1;
      while k < 17 && temp >= h.maxcode[k]
        invariant FAST_BITS < k <= 17
        invariant Scan(h.maxcode[..], temp, FAST_BITS + 1) == Scan(h.maxcode[..], temp, k)
      {
        k := k + 1;
      }
    }

    method SlowPath(h: JHuffman) returns (r: int)
      requires codeBuffer < Pow2(32) && h.Shape() && Shaped(h.View())
      modifies this`codeBuffer, this`codeBits
      ensures codeBuffer < Pow2(32)
      ensures h.View() == old(h.View()) && Read(r, Top()) == SlowDecode(h.View(), old(Top()))
    {
      hide Low, Pow2, Shr, BitAnd, Shl32, Scan;
      var k := ScanLimits(h, Shr(codeBuffer, 16));
      if k == 17 {
        codeBits := codeBits - 16;
        return -1;
      }
      if k > codeBits {
        return -1;
      }
      var c := BitAnd(Shr(codeBuffer, 32 - k), Pow2(k) - 1) + h.delta[k];
      if c < 0 || c >= 256 {
        return -1;
      }
      ShlBound(codeBuffer, k);
      codeBits := codeBits - k;
      codeBuffer := Shl32(codeBuffer, k);
      r := h.values[c];
    }

    /** `stbi__extend_receive` once the buffer is filled. */
    method ReceiveTop(n: nat) returns (r: int)
      requires 1 <= n < 16 && codeBuffer < Pow2(32) && n <= codeBits
      modifies this`codeBuffer, this`codeBits
      ensures Read(r, Top()) == ReceiveExtend(old(Top()), n)
    {
      hide ReceiveExtend, Low, Pow2, Shr, Jbias, Rotate, ClearLow;
      ExtendReceiveIs(Top(), n);
      var sgn := Shr(codeBuffer, 31);
      var k := Rotate(codeBuffer, n);
      codeBuffer := ClearLow(k, n);
      k := Low(k, n);
      codeBits := codeBits - n;
      r := k + if sgn == 0 then Jbias(n) else 0;
    }

    /** The buffer holds at least n bits, or all that are left of the data. */
    ghost predicate Filled(n: nat)
      reads this
    {
      n <= codeBits || 8 * |data| <= pos + codeBits
    }

    /**
      `stbi__jpeg_huff_decode`: the value of the code that is taken at pos, which is the one that is there unless it is
      hidden.  It is -1 where none is, and where the data end within it (`short`).
     */
    method JpegHuffDecode(h: JHuffman, ghost L: lengths) returns (r: int, ghost short: bool)
      requires InStep() && h.Shape() && Represents(h.View(), L)
      modifies this`cursor, this`codeBuffer, this`codeBits, this`marker, this`nomore, this`pos
      ensures |L| <= 256
      ensures var i, len := TakenAt(L, data, old(pos)), TakenLen(L, data, old(pos));
              if r >= 0 then !short && i >= 0 && r == h.values[i] && pos == old(pos) + len && InStep()
              else r == -1 && pos == old(pos) && if short then i >= 0 && 8 * |data| < pos + len else i < 0
    {
      hide Word, Window, DecodeSymbol, Represents, HuffDecode, Shr, Shl32, Pow2, TakenAt, TakenLen;
      if codeBits < 16 {
        GrowBuffer();
      }
      WordBound(data, pos, codeBits);
      GoodOf(h.View(), L);
      ghost var i, len := TakenAt(L, data, pos), TakenLen(L, data, pos);
      ghost var bits := codeBits;
      TablesTake(h.View(), L, data, pos, codeBits);
      r := DecodeTop(h, L);
      short := r < 0 && i >= 0;
      if r >= 0 {
        ShiftedOut(data, pos, bits, len);
        pos := pos + len;
      }
    }

    /** `stbi__extend_receive`: the next n bits as a signed coefficient; 0, consuming nothing, if they are not there. */
    method ExtendReceived(n: nat) returns (r: int, ghost short: bool)
      requires InStep() && 1 <= n < 16
      modifies this`cursor, this`codeBuffer, this`codeBits, this`marker, this`nomore, this`pos
      ensures InStep()
      ensures if short then r == 0 && pos == old(pos) && 8 * |data| < pos + n
              else r == Extend(Window(data, old(pos), n), n) && pos == old(pos) + n
    {
      hide Word, Window, Shr, Shl32, Pow2, Extend;
      if codeBits < n {
        GrowBuffer();
      }
      if codeBits < n {
        return 0, true;
      }
      WordBound(data, pos, codeBits);
      TopIsWindow(data, pos, codeBits, n);
      ShiftedOut(data, pos, codeBits, n);
      r := ReceiveTop(n);
      pos := pos + n;
      short := false;
    }

    // ----- coefficients -----

    /** The tables belong to one code, and the coefficients are an array of their own. */
    ghost predicate AcReady(h: JHuffman, fac: array<int>, L: lengths, coeffs: array<int>)
      reads h.fast, h.values, h.size, h.maxcode, h.delta, fac
    {
      && h.Shape() && Represents(h.View(), L)
      && fac.Length == FAST_SIZE && coeffs.Length == 64 && coeffs != fac && coeffs != h.delta
      && forall i :: 0 <= i < FAST_SIZE ==> h.View().fast[i] < 256 && fac[i] == FastAcEntry(h.View(), i)
    }

    /** What the coefficients from place k on are, given those before. */
    ghost function AcAhead(h: JHuffman, L: lengths, k: nat, coeffs: array<int>): Coefficients
      requires |L| <= h.values.Length && coeffs.Length == 64
      reads this`data, this`pos, h.values, coeffs
    {
      AcTaken(L, h.values[..], data, pos, k, coeffs[..])
    }

    /** A nonzero entry of the fused table: run, coefficient and bits at once. */
    method TakeFused(h: JHuffman, fac: array<int>, ghost L: lengths)
      returns (run: nat, value: int, lacking: bool)
      requires InStep() && Filled(16) && h.Shape() && Represents(h.View(), L)
      requires Shr(codeBuffer, 23) < FAST_SIZE == fac.Length && fac[Shr(codeBuffer, 23)] != 0
      requires h.View().fast[Shr(codeBuffer, 23)] < 256
      requires fac[Shr(codeBuffer, 23)] == FastAcEntry(h.View(), Shr(codeBuffer, 23))
      modifies this`codeBuffer, this`codeBits, this`pos
      ensures var i := TakenAt(L, data, old(pos));
              && 0 <= i < |L| <= 256
              && var q, rs: nat := old(pos) + TakenLen(L, data, old(pos)), h.values[i];
              && 0 < rs % 16 && run == rs / 16
              && if lacking then 8 * |data| < q + rs % 16
                 else value == Extend(Window(data, q, rs % 16), rs % 16) && pos == q + rs % 16 && InStep()
    {
      hide Word, Window, Represents, FastAcEntry, Shr, Shl32, Extend;
      GoodOf(h.View(), L);
      FusedAt(h.View(), L, data, pos, codeBits);
      FusedNotHidden(h.View(), L, data, pos, codeBits);
      var r := fac[Shr(codeBuffer, 23)];
      run, value := r / 16 % 16, r / 256;
      var s: nat := r % 16;
      lacking := s > codeBits;
      if lacking {
        return;
      }
      Skip(s);
    }

    method Skip(s: nat)
      requires InStep() && s <= codeBits
      modifies this`codeBuffer, this`codeBits, this`pos
      ensures InStep() && pos == old(pos) + s
    {
      hide Word, Shl32;
      ShiftedOut(data, pos, codeBits, s);
      codeBuffer := Shl32(codeBuffer, s);
      codeBits := codeBits - s;
      pos := pos + s;
    }

    method FusedRound(h: JHuffman, fac: array<int>, ghost L: lengths, coeffs: array<int>, k: nat)
      returns (round: Round, k': nat, ghost short: bool)
      requires InStep() && Filled(16) && AcReady(h, fac, L, coeffs) && k < 64
      requires Shr(codeBuffer, 23) < FAST_SIZE && fac[Shr(codeBuffer, 23)] != 0
      modifies this`codeBuffer, this`codeBits, this`pos, coeffs
      ensures |L| <= h.values.Length
      ensures short ==> round == Fail && Past(old(AcAhead(h, L, k, coeffs)), data)
      ensures !short ==> round == Go && InStep() && k < k'
      ensures !short ==> old(AcAhead(h, L, k, coeffs)) == AcAhead(h, L, k', coeffs)
    {
      hide EntropyBuffer.InStep, EntropyBuffer.Filled, AcTaken, Window, Represents, FastAcEntry, Shr, Extend, Dezigzag;
      hide TakenAt, TakenLen;
      ghost var p, before := pos, coeffs[..];
      var run, value, lacking := TakeFused(h, fac, L);
      AcFusedStep(L, h.values[..], data, p, k, before);
      short := lacking;
      if lacking {
        return Fail, k, short;
      }
      coeffs[Dezigzag(k + run)] := value;
      round, k' := Go, k + run + 1;
    }

    /** The two-step path. */
    method TwoStepRound(h: JHuffman, fac: array<int>, ghost L: lengths, coeffs: array<int>, k: nat)
      returns (round: Round, k': nat, ghost short: bool)
      requires InStep() && AcReady(h, fac, L, coeffs) && k < 64
      modifies this`cursor, this`codeBuffer, this`codeBits, this`marker, this`nomore, this`pos, coeffs
      ensures |L| <= h.values.Length
      ensures round == Go ==> InStep() && k < k'
      ensures round == Done ==> InStep()
      ensures short ==> Past(old(AcAhead(h, L, k, coeffs)), data)
      ensures !short ==>
                match round
                case Go => old(AcAhead(h, L, k, coeffs)) == AcAhead(h, L, k', coeffs)
                case Done => old(AcAhead(h, L, k, coeffs)) == Coefficients(coeffs[..], pos)
                case Fail => old(AcAhead(h, L, k, coeffs)).Broken?
    {
      hide EntropyBuffer.InStep, AcTaken, Window, Represents, FastAcEntry, Extend, Dezigzag, TakenAt, TakenLen;
      GoodOf(h.View(), L);
      ghost var i := TakenAt(L, data, pos);
      AcStep(L, h.values[..], data, pos, k, coeffs[..]);
      var rs;
      rs, short := JpegHuffDecode(h, L);
      if rs < 0 {
        return Fail, k, short;
      }
      var n, run := rs % 16, rs / 16;
      if n == 0 {
        round, k' := if rs != 0xF0 then Done else Go, k + 16;
      } else {
        k' := k + run;
        var v;
        v, short := ExtendReceived(n);
        coeffs[Dezigzag(k')] := v;
        round, k' := Go, k' + 1;
      }
    }

    /** One round of the coefficient loop of `stbi__jpeg_decode_block`: the fused table if it has an entry. */
    method AcRound(h: JHuffman, fac: array<int>, ghost L: lengths, coeffs: array<int>, k: nat)
      returns (round: Round, k': nat, ghost short: bool)
      requires InStep() && AcReady(h, fac, L, coeffs) && k < 64
      modifies this`cursor, this`codeBuffer, this`codeBits, this`marker, this`nomore, this`pos, coeffs
      ensures |L| <= h.values.Length
      ensures round == Go ==> InStep() && k < k'
      ensures round == Done ==> InStep()
      ensures short ==> Past(old(AcAhead(h, L, k, coeffs)), data)
      ensures !short ==>
                match round
                case Go => old(AcAhead(h, L, k, coeffs)) == AcAhead(h, L, k', coeffs)
                case Done => old(AcAhead(h, L, k, coeffs)) == Coefficients(coeffs[..], pos)
                case Fail => old(AcAhead(h, L, k, coeffs)).Broken?
    {
      hide AcTaken, Word, Represents, FastAcEntry, Shr, Behind;
      if codeBits < 16 {
        GrowBuffer();
      }
      WordBound(data, pos, codeBits);
      TopBits(codeBuffer, FAST_BITS);
      if fac[Shr(codeBuffer, 23)] != 0 {
        round, k', short := FusedRound(h, fac, L, coeffs, k);
      } else {
        round, k', short := TwoStepRound(h, fac, L, coeffs, k);
      }
    }

    /**
      The coefficient loop of `stbi__jpeg_decode_block`.  Unless the data run short, it succeeds exactly if the block
      has an end, and then leaves its coefficients, as read with the codes that are taken, which are those of the data
      unless the last is hidden; they run short only if the block ends after them or not at all.
     */
    method DecodeAc(h: JHuffman, fac: array<int>, ghost L: lengths, coeffs: array<int>)
      returns (ok: bool, ghost short: bool)
      requires InStep() && AcReady(h, fac, L, coeffs)
      modifies this`cursor, this`codeBuffer, this`codeBits, this`marker, this`nomore, this`pos, coeffs
      ensures |L| <= h.values.Length
      ensures ok ==> InStep()
      ensures short ==> Past(old(AcAhead(h, L, 1, coeffs)), data)
      ensures !short ==> old(AcAhead(h, L, 1, coeffs)) == if ok then Coefficients(coeffs[..], pos) else Broken
      ensures !LastCodeHidden(L) ==>
                old(AcAhead(h, L, 1, coeffs)) == old(AcFrom(L, h.values[..], data, pos, 1, coeffs[..]))
    {
      hide EntropyBuffer.InStep, AcTaken, Represents, FastAcEntry, Past;
      GoodOf(h.View(), L);
      ghost var want := AcAhead(h, L, 1, coeffs);
      if !LastCodeHidden(L) {
        AcTakenIsCanonical(L, h.values[..], data, pos, 1, coeffs[..]);
      }
      var k := 1;
      short := false;
      var round := Go;
      while round == Go && k < 64
        invariant AcReady(h, fac, L, coeffs) && (round != Fail ==> InStep())
        invariant short ==> Past(want, data)
        invariant !short ==>
                    match round
                    case Go => want == AcAhead(h, L, k, coeffs)
                    case Done => want == Coefficients(coeffs[..], pos)
                    case Fail => want.Broken?
        decreases round == Go, 64 - k
      {
        ghost var lacked;
        round, k, lacked := AcRound(h, fac, L, coeffs, k);
        short := short || lacked;
      }
      if round == Go {
        AcStops(L, h.values[..], data, pos, k, coeffs[..]);
      }
      ok := round != Fail;
    }
  }

  /** What canonical decoding makes of a buffer whose first code is i. */
  lemma SymbolMeans(L: lengths, values: seq<byte>, b: Buffer, i: int)
    requires |L| <= |values| && i == CodeAtTop(L, b.word)
    ensures DecodeSymbol(L, values, b) ==
            if i < 0 then Read(-1, b.(bits := b.bits - 16))
            else if L[i] > b.bits then Read(-1, b)
            else Read(values[i], Buffer(Shl32(b.word, L[i]), b.bits - L[i]))
  {
  }

  /** What the tables make of a buffer that shows the data. */
  lemma TablesTake(t: Tables, L: lengths, data: seq<byte>, p: nat, bits: nat)
    requires Represents(t, L) && bits <= 32 && (16 <= bits || 8 * |data| <= p + bits)
    ensures |L| <= |t.values| && Shaped(t) && Word(data, p, bits) < Pow2(32)
    ensures forall c :: 0 <= c < FAST_SIZE ==> t.fast[c] < 256
    ensures var i, len := TakenAt(L, data, p), TakenLen(L, data, p);
            var b := Buffer(Word(data, p, bits), bits);
            if 0 <= i && len <= bits then HuffDecode(t, b) == Read(t.values[i], Consume(b, len))
            else HuffDecode(t, b).value == -1
  {
    hide Word, Window, Represents, HuffDecode, Shr, Consume, Pow2, TakenAt, TakenLen, CodeAtTop;
    WordBound(data, p, bits);
    GoodOf(t, L);
    FastBound(t, L);
    if HiddenAt(L, data, p) {
      HiddenTaken(t, L, data, p, bits);
    } else {
      CodeTaken(t, L, data, p, bits);
    }
  }

  lemma CodeTaken(t: Tables, L: lengths, data: seq<byte>, p: nat, bits: nat)
    requires Represents(t, L) && |L| <= |t.values| && bits <= 32 && (16 <= bits || 8 * |data| <= p + bits)
    requires Shaped(t) && Word(data, p, bits) < Pow2(32) && forall c :: 0 <= c < FAST_SIZE ==> t.fast[c] < 256
    requires !HiddenAt(L, data, p)
    ensures var i, len := TakenAt(L, data, p), TakenLen(L, data, p);
            var b := Buffer(Word(data, p, bits), bits);
            if 0 <= i && len <= bits then HuffDecode(t, b) == Read(t.values[i], Consume(b, len))
            else HuffDecode(t, b).value == -1
  {
    var b := Buffer(Word(data, p, bits), bits);
    TopIsWindow(data, p, bits, 16);
    assert CodeAt(L, data, p) == CodeAtTop(L, b.word);
    hide Word, Window, Represents, HuffDecode, Shr, Shl32, Pow2, LastCodeHidden, CodeAt, CodeAtTop, DecodeSymbol;
    DecodeIsCanonical(t, L, b);
    SymbolMeans(L, t.values, b, CodeAt(L, data, p));
  }

  lemma HiddenTaken(t: Tables, L: lengths, data: seq<byte>, p: nat, bits: nat)
    requires Represents(t, L) && |L| <= |t.values| && bits <= 32 && (16 <= bits || 8 * |data| <= p + bits)
    requires Shaped(t) && Word(data, p, bits) < Pow2(32) && forall c :: 0 <= c < FAST_SIZE ==> t.fast[c] < 256
    requires HiddenAt(L, data, p)
    ensures var i, len := TakenAt(L, data, p), TakenLen(L, data, p);
            var b := Buffer(Word(data, p, bits), bits);
            if 0 <= i && len <= bits then HuffDecode(t, b) == Read(t.values[i], Consume(b, len))
            else HuffDecode(t, b).value == -1
  {
    TopIsWindow(data, p, bits, 16);
    HiddenWindow(L, data, p, bits);
    hide Word, Window, Represents, HuffDecode, Shr, Low, Consume, Pow2, HiddenIndex;
    HiddenDecode(t, L, Buffer(Word(data, p, bits), bits));
  }

  /** The bits behind a hidden code, up to ten in all. */
  lemma HiddenWindow(L: lengths, data: seq<byte>, p: nat, bits: nat)
    requires LastCodeHidden(L) && bits <= 32 && (16 <= bits || 8 * |data| <= p + bits)
    ensures Low(Shr(Word(data, p, bits), 22), 10 - L[255]) == Window(data, p + L[255], 10 - L[255])
  {
    hide Word, Window, Shr, Low, Pow2;
    var m, n := L[255], 10 - L[255];
    TopIsWindow(data, p, bits, 10);
    WindowConcat(data, p, m, n);
    WindowBound(data, p + m, n);
    SplitUnique(Window(data, p, 10), n, Window(data, p, m), Window(data, p + m, n));
  }

  /** The byte that comes next, or the end of the data. */
  lemma NextByte(input: seq<byte>, c: nat, data: seq<byte>, m: nat)
    requires Data(input, c) == Rest(data, m)
    ensures c >= |input| ==> |data| <= m && Rest(data, m + 1) == []
    ensures c < |input| && input[c] != 0xFF ==>
              m < |data| && data[m] == input[c] && Data(input, c + 1) == Rest(data, m + 1)
    ensures c < |input| && input[c] == 0xFF ==>
              var e := AfterFill(input, c + 1);
              if Get8(input, e) != 0 then |data| <= m
              else m < |data| && data[m] == 0xFF && Data(input, Next(input, e)) == Rest(data, m + 1)
  {
    hide Rest;
    if c >= |input| {
      NoneLeft(data, m);
    } else if input[c] != 0xFF {
      OneLess(input[c], Data(input, c + 1), data, m);
    } else {
      var e := AfterFill(input, c + 1);
      hide AfterFill;
      if Get8(input, e) != 0 {
        NoneLeft(data, m);
      } else {
        OneLess(0xFF, Data(input, Next(input, e)), data, m);
      }
    }
  }

  lemma NoneLeft(data: seq<byte>, m: nat)
    requires Rest(data, m) == []
    ensures |data| <= m && Rest(data, m + 1) == []
  {
  }

  lemma OneLess(b: byte, more: seq<byte>, data: seq<byte>, m: nat)
    requires Rest(data, m) == [b] + more
    ensures m < |data| && data[m] == b && more == Rest(data, m + 1)
  {
    assert Rest(data, m)[0] == b;
    assert Rest(data, m)[1..] == more;
  }

  /** What a nonzero entry of the fused table says about the data. */
  lemma FusedAt(t: Tables, L: lengths, data: seq<byte>, p: nat, bits: nat)
    requires Represents(t, L) && bits <= 32 && (16 <= bits || 8 * |data| <= p + bits)
    requires Shr(Word(data, p, bits), 23) < FAST_SIZE && t.fast[Shr(Word(data, p, bits), 23)] < 256
    ensures var r, i := FastAcEntry(t, Shr(Word(data, p, bits), 23)), CodeAt(L, data, p);
            r != 0 ==>
              && 0 <= i < |L|
              && var rs: nat := t.values[i];
              && 0 < rs % 16 && r % 16 == L[i] + rs % 16 && r / 16 % 16 == rs / 16
              && (r % 16 <= bits ==> r / 256 == Extend(Window(data, p + L[i], rs % 16), rs % 16))
  {
    hide Word, Window, Represents, FastAcEntry, Shr, Shl32, Pow2, Extend;
    GoodOf(t, L);
    WordBound(data, p, bits);
    TopIsWindow(data, p, bits, 16);
    FusedMeans(t, L, Buffer(Word(data, p, bits), bits));
    var r, i := FastAcEntry(t, Shr(Word(data, p, bits), 23)), CodeAt(L, data, p);
    if r != 0 && r % 16 <= bits {
      MagnitudeInWord(data, p, bits, L[i], r % 16 - L[i]);
    }
  }

  /** The bits of a magnitude behind a code, in the word that holds both. */
  lemma MagnitudeInWord(data: seq<byte>, p: nat, bits: nat, len: nat, n: nat)
    requires len + n <= bits <= 32
    ensures Shr(Shl32(Word(data, p, bits), len), 32 - n) == Window(data, p + len, n)
  {
    hide Word, Window, Shr, Shl32;
    ShiftedOut(data, p, bits, len);
    TopIsWindow(data, p + len, bits - len, n);
  }

  /** A nonzero entry of the fused table is never that of a hidden code. */
  lemma FusedNotHidden(t: Tables, L: lengths, data: seq<byte>, p: nat, bits: nat)
    requires Represents(t, L) && bits <= 32 && (16 <= bits || 8 * |data| <= p + bits)
    requires Shr(Word(data, p, bits), 23) < FAST_SIZE && t.fast[Shr(Word(data, p, bits), 23)] < 256
    requires FastAcEntry(t, Shr(Word(data, p, bits), 23)) != 0
    ensures TakenAt(L, data, p) == CodeAt(L, data, p)
    ensures CodeAt(L, data, p) >= 0 ==> TakenLen(L, data, p) == L[CodeAt(L, data, p)]
  {
    hide Word, Window, Represents, Shr, Pow2;
    WordBound(data, p, bits);
    TopIsWindow(data, p, bits, 16);
    if HiddenAt(L, data, p) {
      HiddenMisses(t, L, Word(data, p, bits));
    }
  }

  lemma AcStops(L: lengths, values: seq<byte>, data: seq<byte>, p: nat, k: nat, coeffs: seq<int>)
    requires |L| <= |values| && |coeffs| == 64 && 64 <= k
    ensures AcTaken(L, values, data, p, k, coeffs) == Coefficients(coeffs, p)
  {
  }

  /** One symbol of a block, and that what follows lies behind it. */
  lemma AcStep(L: lengths, values: seq<byte>, data: seq<byte>, p: nat, k: nat, coeffs: seq<int>)
    requires |L| <= |values| && |coeffs| == 64 && k < 64
    ensures var i := TakenAt(L, data, p);
            var c := AcTaken(L, values, data, p, k, coeffs);
            && (i < 0 ==> c.Broken?)
            && (i >= 0 ==>
                  var q, rs: nat := p + TakenLen(L, data, p), values[i];
                  var run, n := rs / 16, rs % 16;
                  && (8 * |data| < q ==> Past(c, data))
                  && (n == 0 ==> c == if rs == 0xF0 then AcTaken(L, values, data, q, k + 16, coeffs)
                                      else Coefficients(coeffs, q))
                  && (n > 0 && 8 * |data| < q + n ==> Past(c, data))
                  && (n > 0 ==> c == AcTaken(L, values, data, q + n, k + run + 1,
                                            coeffs[Dezigzag(k + run) := Extend(Window(data, q, n), n)])))
  {
    hide Window, Extend, Dezigzag, TakenAt, TakenLen;
    var i := TakenAt(L, data, p);
    if i >= 0 {
      var q, rs: nat := p + TakenLen(L, data, p), values[i];
      var run, n := rs / 16, rs % 16;
      if n > 0 {
        AcForward(L, values, data, q + n, k + run + 1, coeffs[Dezigzag(k + run) := Extend(Window(data, q, n), n)]);
      } else if rs == 0xF0 {
        AcForward(L, values, data, q, k + 16, coeffs);
      }
    }
  }

  lemma AcFusedStep(L: lengths, values: seq<byte>, data: seq<byte>, p: nat, k: nat, coeffs: seq<int>)
    requires |L| <= |values| && |coeffs| == 64 && k < 64
    requires TakenAt(L, data, p) >= 0 && values[TakenAt(L, data, p)] as nat % 16 > 0
    ensures var i := TakenAt(L, data, p);
            var c := AcTaken(L, values, data, p, k, coeffs);
            var q, rs: nat := p + TakenLen(L, data, p), values[i];
            var run, n := rs / 16, rs % 16;
            && (8 * |data| < q + n ==> Past(c, data))
            && c == AcTaken(L, values, data, q + n, k + run + 1,
                           coeffs[Dezigzag(k + run) := Extend(Window(data, q, n), n)])
  {
    hide AcTaken, Window, Extend, Dezigzag, TakenAt, TakenLen;
    AcStep(L, values, data, p, k, coeffs);
  }
}
