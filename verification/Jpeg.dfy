/** JPEG entropy tables in stb_image: `stbi__build_huffman`, `stbi__build_fast_ac` and the decoders that use them. */
module Jpeg {
  import opened Words
  import opened Canonical
  import opened JpegSpec

  const FAST_BITS: nat := 9
  const FAST_SIZE: nat := 512

  /** The contents of a `stbi__huffman`. */
  datatype Tables = Tables(fast: seq<nat>, values: seq<byte>, size: seq<nat>, maxcode: seq<nat>, delta: seq<int>)

  predicate Shaped(t: Tables) {
    |t.fast| == FAST_SIZE && |t.values| == 256 && |t.size| == 257 && |t.maxcode| == 18 && |t.delta| == 17
  }

  ghost predicate GoodSizes(L: lengths) {
    |L| <= 256 && Ascending(L) && Positive(L) && Bounded(L, 16) && Fits(L, 16)
  }

  /** Entry v of window c: the index of the code the window starts with, or 255. */
  ghost predicate FastEntry(L: lengths, n: nat, c: nat, v: nat) {
    && (forall i: nat :: i < n && Matches(L, i, c, FAST_BITS) ==> v == i)
    && (v != 255 ==> v < n && Matches(L, v, c, FAST_BITS))
  }

  ghost predicate LengthRow(L: lengths, s: nat, maxcode: nat, delta: int)
    requires 1 <= s <= 16
  {
    maxcode == Limit(L, s, 16) && delta == FirstSlot(L, s) - FirstCode(L, s)
  }

  ghost predicate Represents(t: Tables, L: lengths) {
    && Shaped(t) && GoodSizes(L)
    && (forall i :: 0 <= i < |L| ==> t.size[i] == L[i])
    && (forall s :: 1 <= s <= 16 ==> LengthRow(L, s, t.maxcode[s], t.delta[s]))
    && t.maxcode[17] == 0xFFFF_FFFF
    && (forall c :: 0 <= c < FAST_SIZE ==> FastEntry(L, |L|, c, t.fast[c]))
  }

  // ----- stbi__jpeg_huff_decode -----

  /** The slow path's scan: the first length from k on whose preshifted limit is above temp. */
  function Scan(maxcode: seq<nat>, temp: nat, k: nat): (s: nat)
    requires |maxcode| == 18 && 10 <= k <= 17
    ensures k <= s <= 17 && (s < 17 ==> temp < maxcode[s])
    ensures forall j :: k <= j < s ==> maxcode[j] <= temp
    decreases 17 - k
  {
    if k == 17 || temp < maxcode[k] then k else Scan(maxcode, temp, k + 1)
  }

  function SlowDecode(t: Tables, b: Buffer): Read
    requires Shaped(t)
  {
    var k := Scan(t.maxcode, Shr(b.word, 16), FAST_BITS + 1);
    if k == 17 then Read(-1, b.(bits := b.bits - 16))
    else if k > b.bits then Read(-1, b)
    else
      var c := BitAnd(Shr(b.word, 32 - k), Pow2(k) - 1) + t.delta[k];
      if c < 0 || c >= 256 then Read(-1, b) else Read(t.values[c], Consume(b, k))
  }

  /** `stbi__jpeg_huff_decode` after its refill. */
  function HuffDecode(t: Tables, b: Buffer): Read
    requires Shaped(t) && b.word < Pow2(32) && forall c :: 0 <= c < FAST_SIZE ==> t.fast[c] < 256
  {
    TopBits(b.word, FAST_BITS);
    var k := t.fast[Shr(b.word, 23)];
    if k < 255 then
      var s := t.size[k];
      if s > b.bits then Read(-1, b) else Read(t.values[k], Consume(b, s))
    else SlowDecode(t, b)
  }

  lemma TopBits(word: nat, n: nat)
    requires n <= 32 && word < Pow2(32)
    ensures Shr(word, 32 - n) < Pow2(n)
    ensures n == FAST_BITS ==> Shr(word, 23) < FAST_SIZE
  {
    SmallPowers();
    Pow2Add(n, 32 - n);
    ShrLess(word, 32 - n, Pow2(n));
  }

  /** A code of at most n bits matches the top n bits iff it matches the top 16. */
  lemma ShorterWindow(L: lengths, i: nat, word: nat, n: nat)
    requires n <= 16 && i < |L| && L[i] <= n
    ensures Matches(L, i, Shr(word, 32 - n), n) <==> Matches(L, i, Shr(word, 16), 16)
  {
    if L[i] > 0 {
      ShrShr(word, 32 - n, n - L[i]);
      ShrShr(word, 16, 16 - L[i]);
    }
  }

  /** The one table that misdecodes: 256 codes whose last is short enough for the fast table. */
  predicate LastCodeHidden(L: lengths) {
    |L| == 256 && L[255] <= FAST_BITS
  }

  lemma FastBound(t: Tables, L: lengths)
    requires Represents(t, L)
    ensures forall c :: 0 <= c < FAST_SIZE ==> t.fast[c] < 256
  {
    forall c | 0 <= c < FAST_SIZE ensures t.fast[c] < 256 {
      assert FastEntry(L, |L|, c, t.fast[c]);
    }
  }

  /** When the fast table has no entry, the code at the top is longer than nine bits, or hidden. */
  lemma FastMiss(t: Tables, L: lengths, word: nat)
    requires Represents(t, L) && word < Pow2(32) && CodeAtTop(L, word) != 255
    requires Shr(word, 23) < FAST_SIZE && t.fast[Shr(word, 23)] == 255
    ensures Limit(L, FAST_BITS, 16) <= Shr(word, 16)
  {
    hide Fits, Shr, Limit;
    var c, k := Shr(word, 23), Shr(word, 16);
    MatchIffBelow(L, k, FAST_BITS, 16);
    assert FastEntry(L, |L|, c, t.fast[c]);
    forall i: nat | i < |L| && L[i] <= FAST_BITS ensures !Matches(L, i, k, 16) {
      ShorterWindow(L, i, word, FAST_BITS);
      if Matches(L, i, k, 16) {
        CodeAtTopIs(L, word, i);
      }
    }
  }

  /** The slow path decodes canonically from the nine-bit limit on. */
  lemma SlowIsCanonical(t: Tables, L: lengths, b: Buffer)
    requires Represents(t, L) && b.word < Pow2(32)
    requires Limit(L, FAST_BITS, 16) <= Shr(b.word, 16)
    ensures SlowDecode(t, b) == DecodeSymbol(L, t.values, b)
  {
    hide Fits, Shr, Limit, FastEntry, Matches, Slot, FirstSlot, FirstCode, CountTo, BitAnd, Pow2, Shl32;
    var temp := Shr(b.word, 16);
    var s := Scan(t.maxcode, temp, FAST_BITS + 1);
    BelowScan(t, L, temp, s);
    if s < 17 {
      assert LengthRow(L, s, t.maxcode[s], t.delta[s]);
      var i := RangeMatch(L, s, temp, 16);
      CodeAtTopIs(L, b.word, i);
      SlotIsIndex(L, i);
      SlowIndex(L, b.word, s, i);
    } else {
      MatchIffBelow(L, temp, 16, 16);
      var i := CodeAtTop(L, b.word);
      if i >= 0 {
        MatchLength(L, i, temp, 16);
      }
    }
  }

  lemma BelowScan(t: Tables, L: lengths, temp: nat, s: nat)
    requires Represents(t, L) && Limit(L, FAST_BITS, 16) <= temp
    requires FAST_BITS < s <= 17 && forall j :: FAST_BITS < j < s ==> t.maxcode[j] <= temp
    ensures Limit(L, s - 1, 16) <= temp
  {
    if s - 1 > FAST_BITS {
      assert LengthRow(L, s - 1, t.maxcode[s - 1], t.delta[s - 1]);
    }
  }

  lemma SlowIndex(L: lengths, word: nat, s: nat, i: nat)
    requires word < Pow2(32) && 1 <= s <= 16 && i < |L| && L[i] == s
    requires Shr(Shr(word, 16), 16 - s) == FirstCode(L, s) + CountTo(L, i, s)
    ensures BitAnd(Shr(word, 32 - s), Pow2(s) - 1) + FirstSlot(L, s) - FirstCode(L, s) == Slot(L, i)
  {
    hide BitAnd, Shr, FirstCode, CountTo, FirstSlot;
    var x := Shr(word, 32 - s);
    MaskIsLow(x, s);
    TopBits(word, s);
    SplitUnique(x, s, 0, x);
    ShrShr(word, 16, 16 - s);
  }

  /** Except for a hidden last code, decoding by tables is canonical decoding. */
  lemma DecodeIsCanonical(t: Tables, L: lengths, b: Buffer)
    requires Represents(t, L) && b.word < Pow2(32)
    requires !(LastCodeHidden(L) && CodeAtTop(L, b.word) == 255)
    ensures (forall c :: 0 <= c < FAST_SIZE ==> t.fast[c] < 256) && HuffDecode(t, b) == DecodeSymbol(L, t.values, b)
  {
    hide Fits, Shr, Limit, Matches, Shl32, SlowDecode;
    FastBound(t, L);
    TopBits(b.word, FAST_BITS);
    var c := Shr(b.word, 23);
    assert FastEntry(L, |L|, c, t.fast[c]);
    var k := t.fast[c];
    if k < 255 {
      MatchLength(L, k, c, FAST_BITS);
      ShorterWindow(L, k, b.word, FAST_BITS);
      CodeAtTopIs(L, b.word, k);
    } else {
      var i := CodeAtTop(L, b.word);
      if i == 255 {
        MatchLength(L, i, Shr(b.word, 16), 16);
        LongLastCode(L, b.word);
      } else {
        FastMiss(t, L, b.word);
      }
      SlowIsCanonical(t, L, b);
    }
  }

  lemma MatchLength(L: lengths, i: nat, k: nat, w: nat)
    requires Matches(L, i, k, w)
    ensures i < |L| && 0 < L[i] <= w
  {
  }

  lemma LongLastCode(L: lengths, word: nat)
    requires Matches(L, 255, Shr(word, 16), 16) && L[255] > FAST_BITS
    ensures Limit(L, FAST_BITS, 16) <= Shr(word, 16)
  {
    hide Shr, Limit;
    MatchRange(L, 255, Shr(word, 16), 16);
    LimitMono(L, FAST_BITS, L[255] - 1, 16);
  }

  /** A hidden last code is never decoded as it should be. */
  lemma HiddenCodeMisread(t: Tables, L: lengths, b: Buffer)
    requires Represents(t, L) && LastCodeHidden(L) && b.word < Pow2(32)
    requires CodeAtTop(L, b.word) == 255 && L[255] <= b.bits
    ensures (forall c :: 0 <= c < FAST_SIZE ==> t.fast[c] < 256) && HuffDecode(t, b) != DecodeSymbol(L, t.values, b)
  {
    hide Fits, Shr, Limit, Matches, Shl32;
    FastBound(t, L);
    TopBits(b.word, FAST_BITS);
    var c := Shr(b.word, 23);
    assert FastEntry(L, |L|, c, t.fast[c]);
    ShorterWindow(L, 255, b.word, FAST_BITS);
  }

  /** The index that is taken for a hidden last code: ten bits are read, and the x behind the code count from so many
      before the end. */
  function HiddenIndex(L: lengths, x: nat): int
    requires LastCodeHidden(L)
  {
    256 - Pow2(10 - L[255]) + x
  }

  /** What becomes of a hidden last code. */
  lemma HiddenDecode(t: Tables, L: lengths, b: Buffer)
    requires Represents(t, L) && LastCodeHidden(L) && b.word < Pow2(32) && CodeAtTop(L, b.word) == 255
    ensures forall c :: 0 <= c < FAST_SIZE ==> t.fast[c] < 256
    ensures var c := HiddenIndex(L, Low(Shr(b.word, 22), 10 - L[255]));
            && c < 256
            && HuffDecode(t, b) == if b.bits < 10 || c < 0 then Read(-1, b) else Read(t.values[c], Consume(b, 10))
  {
    hide Represents, GoodSizes, HiddenIndex, Shr, Low, Pow2, Consume, SlowDecode, CodeAtTop;
    FastBound(t, L);
    GoodOf(t, L);
    HiddenMisses(t, L, b.word);
    HiddenScan(t, L, b.word);
    HiddenIndexIs(t, L, b.word);
    SlowAtTen(t, b, HiddenIndex(L, Low(Shr(b.word, 22), 10 - L[255])));
  }

  lemma SlowAtTen(t: Tables, b: Buffer, c: int)
    requires Shaped(t) && Scan(t.maxcode, Shr(b.word, 16), FAST_BITS + 1) == 10 && c < 256
    requires BitAnd(Shr(b.word, 22), Pow2(10) - 1) + t.delta[10] == c
    ensures SlowDecode(t, b) == if b.bits < 10 || c < 0 then Read(-1, b) else Read(t.values[c], Consume(b, 10))
  {
    hide Shr, Pow2, Consume, BitAnd, Scan;
  }

  lemma HiddenIndexIs(t: Tables, L: lengths, word: nat)
    requires Represents(t, L) && LastCodeHidden(L) && word < Pow2(32) && CodeAtTop(L, word) == 255
    ensures var c := HiddenIndex(L, Low(Shr(word, 22), 10 - L[255]));
            c < 256 && BitAnd(Shr(word, 22), Pow2(10) - 1) + t.delta[10] == c
  {
    hide BitAnd, Shr, Low, CodeOf, FirstCode, FirstSlot, Limit, FastEntry, CodeAtTop, Pow2;
    HiddenDelta(L);
    HiddenTop(L, word);
    assert LengthRow(L, 10, t.maxcode[10], t.delta[10]);
    OneMoreOf(CodeOf(L, 255), Pow2(10 - L[255]));
  }

  lemma OneMoreOf(a: nat, p: nat)
    ensures (a + 1) * p == a * p + p
  {
  }

  lemma HiddenMisses(t: Tables, L: lengths, word: nat)
    requires Represents(t, L) && LastCodeHidden(L) && word < Pow2(32) && CodeAtTop(L, word) == 255
    ensures Shr(word, 23) < FAST_SIZE && t.fast[Shr(word, 23)] == 255
  {
    hide Shr, Matches;
    TopBits(word, FAST_BITS);
    var c := Shr(word, 23);
    assert FastEntry(L, |L|, c, t.fast[c]);
    ShorterWindow(L, 255, word, FAST_BITS);
  }

  lemma HiddenScan(t: Tables, L: lengths, word: nat)
    requires Represents(t, L) && LastCodeHidden(L) && word < Pow2(32) && CodeAtTop(L, word) == 255
    ensures Scan(t.maxcode, Shr(word, 16), FAST_BITS + 1) == 10
  {
    hide Shr, Limit, FastEntry;
    MatchRange(L, 255, Shr(word, 16), 16);
    LimitMono(L, L[255], 10, 16);
    assert LengthRow(L, 10, t.maxcode[10], t.delta[10]);
  }

  lemma {:induction false} NoneLonger(L: lengths, n: nat, s: nat)
    requires n <= |L| && forall j :: 0 <= j < n ==> L[j] < s
    ensures CountTo(L, n, s) == 0
    decreases n
  {
    if n == 0 {
    } else {
      NoneLonger(L, n - 1, s);
    }
  }

  /** Behind the longest codes the next free code is only shifted. */
  lemma {:induction false} EndShifted(L: lengths, m: nat, s: nat)
    requires m <= s && Bounded(L, m)
    ensures EndCode(L, s) == EndCode(L, m) * Pow2(s - m)
    decreases s
  {
    if s <= m {
    } else {
      NoneLonger(L, |L|, s);
      EndShifted(L, m, s - 1);
      Twice(EndCode(L, m), s - m);
    }
  }

  lemma HiddenDelta(L: lengths)
    requires GoodSizes(L) && LastCodeHidden(L)
    ensures FirstSlot(L, 10) == 256 && FirstCode(L, 10) == (CodeOf(L, 255) + 1) * Pow2(10 - L[255])
  {
    var m := L[255];
    assert forall j :: 0 <= j < 256 ==> L[j] <= m;
    AllShorter(L, 256, 10);
    EndShifted(L, m, 9);
    Twice(EndCode(L, m), 10 - m);
    assert CodeOf(L, 255) + 1 == EndCode(L, m);
  }

  /** The ten bits at the top. */
  lemma HiddenTop(L: lengths, word: nat)
    requires LastCodeHidden(L) && word < Pow2(32) && CodeAtTop(L, word) == 255
    ensures var n := 10 - L[255];
            && BitAnd(Shr(word, 22), Pow2(10) - 1) == CodeOf(L, 255) * Pow2(n) + Low(Shr(word, 22), n)
            && Low(Shr(word, 22), n) < Pow2(n)
  {
    hide BitAnd, Shr, Low, Pow2, CodeOf;
    var x, n := Shr(word, 22), 10 - L[255];
    TopBits(word, 10);
    MaskIsLow(x, 10);
    SplitUnique(x, 10, 0, x);
    Split(x, n);
    ShrShr(word, 22, n);
    ShrShr(word, 16, 16 - L[255]);
  }

  /** The buffer whose top is the code of the last symbol. */
  lemma LastCodeWord(L: lengths) returns (word: nat)
    requires GoodSizes(L) && |L| == 256
    ensures word < Pow2(32) && CodeAtTop(L, word) == 255
  {
    hide CodeOf;
    CodeRange(L, 255);
    FitsBelow(L, L[255], 16);
    word := CodeOf(L, 255) * Pow2(32 - L[255]);
    WordOfCode(CodeOf(L, 255), L[255]);
    ShrShr(word, 16, 16 - L[255]);
    CodeAtTopIs(L, word, 255);
  }

  lemma WordOfCode(code: nat, s: nat)
    requires s <= 32 && code < Pow2(s)
    ensures code * Pow2(32 - s) < Pow2(32) && Shr(code * Pow2(32 - s), 32 - s) == code
  {
    hide Pow2, Shr;
    var word := code * Pow2(32 - s);
    Pow2Add(s, 32 - s);
    SplitUnique(word, 32 - s, code, 0);
    ShrLess(word, 32 - s, Pow2(s));
  }

  /**
    Exactly when tables decode canonically on every buffer: unless there are 256 codes and
    the last has at most nine bits, whose index 255 is the mark for "not accelerated".
   */
  lemma CanonicalIffNotHidden(t: Tables, L: lengths)
    requires Represents(t, L)
    ensures (forall c :: 0 <= c < FAST_SIZE ==> t.fast[c] < 256)
    ensures !LastCodeHidden(L) <==>
            forall b: Buffer :: b.word < Pow2(32) ==> HuffDecode(t, b) == DecodeSymbol(L, t.values, b)
  {
    hide Represents, HuffDecode, DecodeSymbol;
    FastBound(t, L);
    GoodOf(t, L);
    if LastCodeHidden(L) {
      var word := LastCodeWord(L);
      HiddenCodeMisread(t, L, Buffer(word, 32));
    } else {
      forall b: Buffer | b.word < Pow2(32) ensures HuffDecode(t, b) == DecodeSymbol(L, t.values, b) {
        DecodeIsCanonical(t, L, b);
      }
    }
  }

  /** Such a table: all 256 values with eight bits each. */
  lemma EightBitCodesAreHidden()
    ensures var L := Sizes([0, 0, 0, 0, 0, 0, 0, 256, 0, 0, 0, 0, 0, 0, 0, 0], 16);
            GoodSizes(L) && LastCodeHidden(L)
  {
    EightBitSizes();
    hide Sizes, KraftSum, EndCode, Pow2;
    KraftOfEqual(8, 256, 256, 16);
    KraftIsEnd(Repeat(8, 256), 16);
    SmallPowers();
    Pow2Of16();
  }

  lemma EightBitSizes()
    ensures Sizes([0, 0, 0, 0, 0, 0, 0, 256, 0, 0, 0, 0, 0, 0, 0, 0], 16) == Repeat(8, 256)
  {
    var count := [0, 0, 0, 0, 0, 0, 0, 256, 0, 0, 0, 0, 0, 0, 0, 0];
    NoSizes(count, 7);
    OneSize(count, 8, 16);
    assert Sizes(count, 8) == Sizes(count, 7) + Repeat(8, 256);
  }

  lemma {:induction false} NoSizes(count: seq<nat>, n: nat)
    requires n <= |count| && forall i :: 0 <= i < n ==> count[i] == 0
    ensures Sizes(count, n) == []
  {
    if n == 0 {
    } else {
      NoSizes(count, n - 1);
    }
  }

  lemma {:induction false} OneSize(count: seq<nat>, m: nat, n: nat)
    requires m <= n <= |count| && forall i :: m <= i < n ==> count[i] == 0
    ensures Sizes(count, n) == Sizes(count, m)
    decreases n
  {
    if n <= m {
    } else {
      OneSize(count, m, n - 1);
    }
  }

  lemma {:induction false} KraftOfEqual(v: nat, total: nat, n: nat, s: nat)
    requires 0 < v <= s && n <= total
    ensures KraftSum(Repeat(v, total), n, s) == n * Pow2(s - v)
    decreases n
  {
    if n == 0 {
    } else {
      KraftOfEqual(v, total, n - 1, s);
    }
  }

  lemma GoodOf(t: Tables, L: lengths)
    requires Represents(t, L)
    ensures Shaped(t) && GoodSizes(L)
  {
  }

  // ----- stbi__extend_receive -----

  /** `stbi_lrot` */
  function Rotate(word: nat, n: nat): nat
    requires n <= 32
  {
    BitOr(Shr(word, 32 - n), Shl32(word, n))
  }

  const JBIAS: seq<int> := [0, -1, -3, -7, -15, -31, -63, -127, -255, -511, -1023, -2047, -4095, -8191, -16383, -32767]

  function Jbias(n: nat): int
    requires n < 16
  {
    JBIAS[n]
  }

  /** `k & ~mask`, for the mask of n ones. */
  function ClearLow(k: nat, n: nat): nat {
    Shr(k, n) * Pow2(n)
  }

  /** `stbi__extend_receive` after its refill: rotate, split off the low bits, and bias by the sign bit. */
  function ExtendReceive(b: Buffer, n: nat): Read
    requires n < 16
  {
    if b.bits < n then Read(0, b)
    else
      var sgn := Shr(b.word, 31);
      var k := Rotate(b.word, n);
      Read(Low(k, n) + (if sgn == 0 then Jbias(n) else 0), Buffer(ClearLow(k, n), b.bits - n))
  }

  lemma ShiftedWord(word: nat, n: nat)
    requires n <= 32
    ensures Shl32(word, n) == Low(word, 32 - n) * Pow2(n)
  {
    LowOfShl(word, n, 32 - n);
  }

  lemma BiasIs(n: nat)
    requires 1 <= n < 16
    ensures Jbias(n) == 1 - Pow2(n)
  {
    SmallPowers();
    assert Pow2(12) == 0x1000 && Pow2(10) == 0x400 && Pow2(11) == 0x800;
    assert Pow2(13) == 2 * Pow2(12) && Pow2(14) == 2 * Pow2(13) && Pow2(15) == 2 * Pow2(14);
  }

  /** The sign test reads the leading bit of the magnitude. */
  lemma SignBit(word: nat, n: nat)
    requires 1 <= n <= 32 && word < Pow2(32)
    ensures Shr(word, 31) == 0 <==> Shr(word, 32 - n) < Pow2(n - 1)
  {
    ShrShr(word, 32 - n, n - 1);
    ShrLess(Shr(word, 32 - n), n - 1, 1);
  }

  /** Rotation and bias are RECEIVE and EXTEND. */
  lemma ExtendReceiveIs(b: Buffer, n: nat)
    requires 1 <= n < 16 && b.word < Pow2(32) && n <= b.bits
    ensures ExtendReceive(b, n) == ReceiveExtend(b, n)
  {
    hide Shr, Low, BitOr, Pow2, Shl32, Jbias;
    var v := Shr(b.word, 32 - n);
    ShiftedWord(b.word, n);
    TopBits(b.word, n);
    JoinIsSum(v, Low(b.word, 32 - n), n);
    SplitUnique(Rotate(b.word, n), n, Low(b.word, 32 - n), v);
    BiasIs(n);
    SignBit(b.word, n);
  }

  // ----- the fused table -----

  /** One entry of `stbi__build_fast_ac`: run, value and combined length of window i, or 0. */
  function FastAcEntry(t: Tables, i: nat): int
    requires Shaped(t) && i < FAST_SIZE && t.fast[i] < 256
  {
    var fast := t.fast[i];
    if fast == 255 then 0
    else
      var rs: nat := t.values[fast];
      var run, magbits, len := rs / 16, rs % 16, t.size[fast];
      if magbits == 0 || len + magbits > FAST_BITS then 0
      else
        var k0 := Shr(Low(i * Pow2(len), FAST_BITS), FAST_BITS - magbits);
        var m := Pow2(magbits - 1);
        var k := if k0 < m then k0 - Pow2(magbits) + 1 else k0;
        if -128 <= k <= 127 then k * 256 + run * 16 + (len + magbits) else 0
  }

  lemma ConsumeTwice(b: Buffer, m: nat, n: nat)
    requires m + n <= 32
    ensures Consume(Consume(b, m), n) == Consume(b, m + n)
  {
    hide Shl32, Pow2, Low;
    var w := Low(b.word, 32 - m);
    ShiftedWord(b.word, m);
    ShiftedWord(b.word, m + n);
    ShiftedWord(w * Pow2(m), n);
    LowOfShl(w, m, 32 - m - n);
    LowLow(b.word, 32 - m, 32 - m - n);
    Pow2Add(m, n);
    var x := Low(b.word, 32 - m - n);
    assert x * Pow2(m) * Pow2(n) == x * Pow2(m + n);
  }

  /** The magnitude bits in the nine-bit window are those in the buffer once the code is gone. */
  lemma SameMagnitude(word: nat, len: nat, n: nat)
    requires len + n <= FAST_BITS
    ensures Shr(Low(Shr(word, 23) * Pow2(len), FAST_BITS), FAST_BITS - n) == Shr(Shl32(word, len), 32 - n)
  {
    hide Low, Shr, Shl32, Pow2;
    var i := Shr(word, 23);
    LowOfShl(i, len, FAST_BITS - len);
    ShrOfShl(Low(i, FAST_BITS - len), len, FAST_BITS - n - len);
    LowOfShr(word, 23, FAST_BITS - len);
    ShrShr(Low(word, 32 - len), 23, FAST_BITS - n - len);
    ShiftedWord(word, len);
    ShrOfShl(Low(word, 32 - len), len, 32 - n - len);
  }

  /** A packed entry gives back its three parts. */
  lemma Unpack(k: int, run: nat, s: nat)
    requires run < 16 && 0 < s < 16
    ensures var r := k * 256 + run * 16 + s; r / 256 == k && r / 16 % 16 == run && r % 16 == s && r != 0
  {
  }

  /** The two-step path: a symbol, then as many magnitude bits as its low half says. */
  function TwoStep(t: Tables, b: Buffer): (int, Read)
    requires Shaped(t) && b.word < Pow2(32) && forall c :: 0 <= c < FAST_SIZE ==> t.fast[c] < 256
  {
    var rs := HuffDecode(t, b);
    if rs.value < 0 then (-1, rs) else (rs.value / 16, ExtendReceive(rs.rest, rs.value % 16))
  }

  /**
    Every nonzero entry of the fused table gives the run, the coefficient and the bits
    consumed of the two-step path, as soon as the buffer holds the combined length.
   */
  lemma FusedIsTwoStep(t: Tables, b: Buffer)
    requires Shaped(t) && b.word < Pow2(32)
    requires forall c :: 0 <= c < FAST_SIZE ==> t.fast[c] < 256
    requires Shr(b.word, 23) < FAST_SIZE
    ensures var r := FastAcEntry(t, Shr(b.word, 23));
            r != 0 && r % 16 <= b.bits ==>
            TwoStep(t, b) == (r / 16 % 16, Read(r / 256, Consume(b, r % 16)))
  {
    hide Low, Shr, Shl32, Pow2, SlowDecode, ExtendReceive, Consume;
    var i := Shr(b.word, 23);
    var r := FastAcEntry(t, i);
    if r != 0 && r % 16 <= b.bits {
      var fast := t.fast[i];
      var rs: nat := t.values[fast];
      var n, len := rs % 16, t.size[fast];
      SameMagnitude(b.word, len, n);
      var v := Shr(Shl32(b.word, len), 32 - n);
      Unpack(Extend(v, n), rs / 16, len + n);
      SecondStep(b, len, n);
    }
  }

  /** What a nonzero entry says of the code at the top: its run, the magnitude behind it, and their length. */
  lemma FusedMeans(t: Tables, L: lengths, b: Buffer)
    requires Represents(t, L) && b.word < Pow2(32) && Shr(b.word, 23) < FAST_SIZE
    requires t.fast[Shr(b.word, 23)] < 256
    ensures var r, i := FastAcEntry(t, Shr(b.word, 23)), CodeAtTop(L, b.word);
            r != 0 ==>
              && 0 <= i < |L|
              && var rs: nat := t.values[i];
              && 0 < rs % 16 && L[i] + rs % 16 <= FAST_BITS && r % 16 == L[i] + rs % 16 && r / 16 % 16 == rs / 16
              && r / 256 == Extend(Shr(Shl32(b.word, L[i]), 32 - rs % 16), rs % 16)
  {
    hide Shr, Low, Shl32, Pow2, Extend, Matches, Limit, Fits, CodeAtTop;
    var c := Shr(b.word, 23);
    var r := FastAcEntry(t, c);
    assert FastEntry(L, |L|, c, t.fast[c]);
    if r != 0 {
      var i := t.fast[c];
      MatchLength(L, i, c, FAST_BITS);
      ShorterWindow(L, i, b.word, FAST_BITS);
      CodeAtTopIs(L, b.word, i);
      FusedParts(t, b.word, i, L[i]);
    }
  }

  lemma FusedParts(t: Tables, word: nat, i: nat, len: nat)
    requires Shaped(t) && Shr(word, 23) < FAST_SIZE && t.fast[Shr(word, 23)] == i < 255 && t.size[i] == len > 0
    ensures var r := FastAcEntry(t, Shr(word, 23));
            var rs: nat := t.values[i];
            r != 0 ==>
              && 0 < rs % 16 && len + rs % 16 <= FAST_BITS && r % 16 == len + rs % 16 && r / 16 % 16 == rs / 16
              && r / 256 == Extend(Shr(Shl32(word, len), 32 - rs % 16), rs % 16)
  {
    hide Shr, Low, Shl32, Pow2;
    var r := FastAcEntry(t, Shr(word, 23));
    if r != 0 {
      var rs: nat := t.values[i];
      var n := rs % 16;
      SameMagnitude(word, len, n);
      Unpack(Extend(Shr(Shl32(word, len), 32 - n), n), rs / 16, len + n);
    }
  }

  lemma SecondStep(b: Buffer, len: nat, n: nat)
    requires b.word < Pow2(32) && 1 <= n && len + n <= FAST_BITS && len + n <= b.bits
    ensures ExtendReceive(Consume(b, len), n)
         == Read(Extend(Shr(Shl32(b.word, len), 32 - n), n), Consume(b, len + n))
  {
    hide ExtendReceive, Shr, Low, Pow2, Shl32;
    ShlBound(b.word, len);
    ExtendReceiveIs(Consume(b, len), n);
    ConsumeTwice(b, len, n);
  }

  lemma ShlBound(word: nat, n: nat)
    ensures Shl32(word, n) < Pow2(32)
  {
    Split(word * Pow2(n), 32);
  }

  // ----- building the tables -----

  class JHuffman {
    const fast: array<nat>
    const code: array<nat>
    const values: array<byte>
    const size: array<nat>
    const maxcode: array<nat>
    const delta: array<int>

    constructor ()
      ensures Shape() && fresh(fast) && fresh(code) && fresh(values) && fresh(size) && fresh(maxcode) && fresh(delta)
    {
      fast := new nat[FAST_SIZE](_ => 0);
      code := new nat[256](_ => 0);
      values := new byte[256](_ => 0);
      size := new nat[257](_ => 0);
      maxcode := new nat[18](_ => 0);
      delta := new int[17](_ => 0);
    }

    ghost predicate Shape() {
      && fast.Length == FAST_SIZE && code.Length == 256 && values.Length == 256 && size.Length == 257
      && maxcode.Length == 18 && delta.Length == 17
      && fast != code && fast != size && fast != maxcode && code != size && code != maxcode && size != maxcode
      && delta as object != fast && delta as object != code && delta as object != size && delta as object != maxcode
    }

    /** The tables as values. */
    function View(): Tables
      reads fast, values, size, maxcode, delta
    {
      Tables(fast[..], values[..], size[..], maxcode[..], delta[..])
    }

    /** The first loop of `stbi__build_huffman`: the size list, which must have at most 256 codes. */
    method BuildSizes(count: seq<nat>) returns (ok: bool, k: nat)
      requires Shape() && |count| == 16
      modifies size
      ensures ok <==> |Sizes(count, 16)| <= 256
      ensures ok ==> k == |Sizes(count, 16)| && size[..k] == Sizes(count, 16) && size[k] == 0
    {
      k := 0;
      for i := 0 to 16
        invariant k == |Sizes(count, i)| <= 256 && size[..k] == Sizes(count, i)
      {
        ok, k := AppendRun(i + 1, count[i], k);
        if !ok {
          LongerSizes(count, i + 1, 16);
          return;
        }
      }
      size[k] := 0;
      ok := true;
    }

    method AppendRun(v: nat, n: nat, k: nat) returns (ok: bool, end: nat)
      requires Shape() && k <= 256
      modifies size
      ensures ok <==> k + n <= 256
      ensures ok ==> end == k + n && size[..end] == old(size[..k]) + Repeat(v, n)
    {
      end := k;
      for j := 0 to n
        invariant end == k + j <= 256 && size[..k] == old(size[..k])
        invariant forall i :: k <= i < end ==> size[i] == v
      {
        size[end] := v;
        end := end + 1;
        if end >= 257 {
          return false, end;
        }
      }
      ok := true;
    }

    /** The second loop: consecutive codes of each length, their preshifted limit, and the index offset. */
    method AssignCodes(L: lengths) returns (ok: bool)
      requires Shape() && |L| <= 256 && Ascending(L) && Positive(L) && Bounded(L, 16)
      requires size[..|L|] == L && size[|L|] == 0
      modifies code, maxcode, delta
      ensures ok <==> Fits(L, 16)
      ensures ok ==> forall i :: 0 <= i < |L| ==> code[i] == CodeWord(L, i)
      ensures ok ==> forall s :: 1 <= s <= 16 ==> LengthRow(L, s, maxcode[s], delta[s])
      ensures ok ==> maxcode[17] == 0xFFFF_FFFF
    {
      hide Fits, Limit, FirstCode, FirstSlot, CodeOf, Ascending, Positive, Bounded;
      var next, k: nat := 0, 0;
      StartOfLengths(L);
      for j := 1 to 17
        invariant next == FirstCode(L, j) && k == FirstSlot(L, j) <= |L| && Fits(L, j - 1)
        invariant forall i :: 0 <= i < k ==> code[i] == CodeWord(L, i)
        invariant forall s :: 1 <= s < j ==> LengthRow(L, s, maxcode[s], delta[s])
      {
        NextLength(L, j);
        delta[j] := k - next;
        if size[k] == j {
          next, k := AssignRun(L, j, next, k);
          if next - 1 >= Pow2(j) {
            NotFits(L, j);
            return false;
          }
        } else {
          NoneOfLength(L, j, size[..]);
        }
        maxcode[j] := next * Pow2(16 - j);
        next := next * 2;
      }
      maxcode[17] := 0xFFFF_FFFF;
      AllCodes(L);
      ok := true;
    }

    /** The inner loop: all codes of j bits. */
    method AssignRun(L: lengths, j: nat, next: nat, k: nat) returns (next': nat, k': nat)
      requires Shape() && |L| <= 256 && Ascending(L) && Positive(L) && 1 <= j <= 16
      requires size[..|L|] == L && size[|L|] == 0
      requires next == FirstCode(L, j) && k == FirstSlot(L, j) <= |L|
      requires forall i :: 0 <= i < k ==> code[i] == CodeWord(L, i)
      modifies code
      ensures next' == EndCode(L, j) && k' == FirstSlot(L, j + 1) <= |L|
      ensures forall i :: 0 <= i < k' ==> code[i] == CodeWord(L, i)
    {
      hide FirstCode, FirstSlot, Ascending, Positive, CodeOf, EndCode;
      next', k' := next, k;
      RunStart(L, j);
      while size[k'] == j
        invariant k <= k' <= |L| && next' - next == k' - k
        invariant k' <= FirstSlot(L, j + 1)
        invariant forall i :: 0 <= i < k' ==> code[i] == CodeWord(L, i)
        decreases |L| - k'
      {
        RunStep(L, j, k');
        assert size[..|L|][k'] == L[k'];
        code[k'] := next' % 0x1_0000;
        k' := k' + 1;
        next' := next' + 1;
      }
      if k' < |L| {
        assert size[..|L|][k'] == L[k'];
      }
      RunEnd(L, j, k');
    }

    /** The third loop: every nine-bit window of each short code. */
    method FillFast(L: lengths)
      requires Shape() && GoodSizes(L) && size[..|L|] == L
      requires forall i :: 0 <= i < |L| ==> code[i] == CodeWord(L, i)
      modifies fast
      ensures forall c :: 0 <= c < FAST_SIZE ==> FastEntry(L, |L|, c, fast[c])
    {
      hide FastEntry, Matches, CodeOf, Fits, Ascending, Positive, Bounded;
      for c := 0 to FAST_SIZE
        invariant forall w :: 0 <= w < c ==> FastEntry(L, 0, w, fast[w])
      {
        fast[c] := 255;
        EmptyEntry(L, c);
      }
      for i := 0 to |L|
        invariant forall c :: 0 <= c < FAST_SIZE ==> FastEntry(L, i, c, fast[c])
      {
        assert size[..|L|][i] == L[i];
        var s := size[i];
        if s <= FAST_BITS {
          FillWindows(L, i, s, code[i]);
        } else {
          forall c | 0 <= c < FAST_SIZE ensures FastEntry(L, i + 1, c, fast[c]) {
            SkipEntry(L, i, c, fast[c]);
          }
        }
      }
    }

    method FillWindows(L: lengths, i: nat, s: nat, word: nat)
      requires Shape() && GoodSizes(L) && i < |L| && L[i] == s <= FAST_BITS && word == CodeWord(L, i)
      requires forall c :: 0 <= c < FAST_SIZE ==> FastEntry(L, i, c, fast[c])
      modifies fast
      ensures forall c :: 0 <= c < FAST_SIZE ==> FastEntry(L, i + 1, c, fast[c])
    {
      hide FastEntry, Matches, CodeOf, Fits, Ascending, Positive, Bounded, Pow2;
      WindowRange(L, i);
      var c := word * Pow2(FAST_BITS - s);
      var m := Pow2(FAST_BITS - s);
      for j := 0 to m
        invariant forall w :: 0 <= w < FAST_SIZE ==>
          if c <= w < c + j then FastEntry(L, i + 1, w, fast[w]) else fast[w] == old(fast[w])
      {
        StoreEntry(L, i, c + j, old(fast[c + j]));
        fast[c + j] := i;
      }
      forall w | 0 <= w < FAST_SIZE && !(c <= w < c + m) ensures FastEntry(L, i + 1, w, fast[w]) {
        OutsideWindow(L, i, w, fast[w]);
      }
    }

    /**
      `stbi__build_huffman`.  It succeeds exactly when there are at most 256 codes and
      they do not run out, and then the tables represent the canonical code.
     */
    method Build(count: seq<nat>) returns (ok: bool)
      requires Shape() && |count| == 16
      modifies fast, code, size, maxcode, delta
      ensures ok <==> |Sizes(count, 16)| <= 256 && Fits(Sizes(count, 16), 16)
      ensures ok ==> Represents(View(), Sizes(count, 16))
      ensures ok ==> forall i :: 0 <= i < |Sizes(count, 16)| ==> code[i] == CodeWord(Sizes(count, 16), i)
    {
      hide Sizes, FastEntry, Fits, Ascending, Positive, Bounded, CodeOf, LengthRow;
      ghost var L := Sizes(count, 16);
      SizesAscend(count, 16);
      var k;
      ok, k := BuildSizes(count);
      if ok {
        ok := AssignCodes(size[..k]);
        if ok {
          FillFast(size[..k]);
          forall i | 0 <= i < |L| ensures size[i] == L[i] {
            assert size[..k][i] == L[i];
          }
        }
      }
    }
  }

  /** A code, as stored in 16 bits. */
  ghost function CodeWord(L: lengths, i: nat): nat
    requires i < |L|
  {
    if L[i] > 0 then CodeOf(L, i) % 0x1_0000 else 0
  }

  lemma StartOfLengths(L: lengths)
    ensures FirstCode(L, 1) == 0 && FirstSlot(L, 1) == 0 && Fits(L, 0)
  {
  }

  lemma NextLength(L: lengths, j: nat)
    requires 1 <= j <= 16
    ensures FirstCode(L, j) + Count(L, j) == EndCode(L, j) && FirstCode(L, j + 1) == EndCode(L, j) * 2
    ensures FirstSlot(L, j + 1) == FirstSlot(L, j) + Count(L, j) <= |L|
    ensures EndCode(L, j) * Pow2(16 - j) == Limit(L, j, 16)
    ensures Fits(L, j) <==> EndCode(L, j) <= Pow2(j)
    ensures Fits(L, j - 1) && Count(L, j) == 0 ==> Fits(L, j)
  {
    hide Count, ShorterTo;
    ShorterCount(L, j);
    ShorterBound(L, |L|, j + 1);
  }

  lemma ShorterCount(L: lengths, j: nat)
    requires 1 <= j
    ensures FirstSlot(L, j + 1) == FirstSlot(L, j) + Count(L, j)
  {
  }

  lemma NotFits(L: lengths, j: nat)
    requires j <= 16 && EndCode(L, j) > Pow2(j)
    ensures !Fits(L, 16)
  {
    if Fits(L, 16) {
      FitsBelow(L, j, 16);
    }
  }

  lemma AllCodes(L: lengths)
    requires Positive(L) && Bounded(L, 16)
    ensures FirstSlot(L, 17) == |L|
  {
    AllShorter(L, |L|, 17);
  }

  /** Where an ascending list has length j: exactly between the first slots of j and j+1. */
  lemma RunStep(L: lengths, j: nat, k: nat)
    requires Ascending(L) && Positive(L) && k < |L|
    ensures L[k] == j <==> FirstSlot(L, j) <= k < FirstSlot(L, j + 1)
    ensures L[k] == j ==> CodeOf(L, k) == FirstCode(L, j) + (k - FirstSlot(L, j))
  {
    hide FirstSlot, FirstCode, Ascending;
    SlotIsIndex(L, k);
    SlotRange(L, k);
    var s := L[k];
    if s < j {
      FirstSlotMono(L, s + 1, j);
    } else if j < s && j > 0 {
      FirstSlotMono(L, j + 1, s);
    } else if j == 0 {
      NoZeroSlots(L);
    }
  }

  lemma NoZeroSlots(L: lengths)
    ensures FirstSlot(L, 1) == 0
  {
  }

  lemma RunStart(L: lengths, j: nat)
    requires 1 <= j <= 16
    ensures FirstSlot(L, j) <= FirstSlot(L, j + 1) <= |L|
  {
    hide FirstSlot;
    NextLength(L, j);
  }

  lemma RunEnd(L: lengths, j: nat, k: nat)
    requires Ascending(L) && Positive(L) && 1 <= j <= 16
    requires FirstSlot(L, j) <= k <= FirstSlot(L, j + 1) <= |L| && (k < |L| ==> L[k] != j)
    ensures k == FirstSlot(L, j + 1) && FirstCode(L, j) + (k - FirstSlot(L, j)) == EndCode(L, j)
  {
    hide FirstSlot, FirstCode, EndCode, Ascending, Positive;
    NextLength(L, j);
    if k < |L| {
      RunStep(L, j, k);
    }
  }

  lemma NoneOfLength(L: lengths, j: nat, size: seq<nat>)
    requires Ascending(L) && Positive(L) && 1 <= j <= 16 && |L| < |size| && size[..|L|] == L
    requires FirstSlot(L, j) <= |L| && size[FirstSlot(L, j)] != j
    ensures Count(L, j) == 0
  {
    hide FirstSlot, FirstCode, EndCode, Ascending, Positive;
    var k := FirstSlot(L, j);
    NextLength(L, j);
    if k < |L| {
      assert size[..|L|][k] == L[k];
      RunStep(L, j, k);
    }
  }

  // ----- fast entries -----

  lemma EmptyEntry(L: lengths, c: nat)
    ensures FastEntry(L, 0, c, 255)
  {
  }

  lemma SkipEntry(L: lengths, i: nat, c: nat, v: nat)
    requires i < |L| && L[i] > FAST_BITS && FastEntry(L, i, c, v)
    ensures FastEntry(L, i + 1, c, v)
  {
  }

  /** The windows that start with a short code are consecutive. */
  lemma WindowRange(L: lengths, i: nat)
    requires GoodSizes(L) && i < |L| && L[i] <= FAST_BITS
    ensures CodeWord(L, i) == CodeOf(L, i)
    ensures CodeOf(L, i) * Pow2(FAST_BITS - L[i]) + Pow2(FAST_BITS - L[i]) <= FAST_SIZE
    ensures forall w: nat :: (Matches(L, i, w, FAST_BITS) <==>
              CodeOf(L, i) * Pow2(FAST_BITS - L[i]) <= w
              < CodeOf(L, i) * Pow2(FAST_BITS - L[i]) + Pow2(FAST_BITS - L[i]))
  {
    hide CodeOf, Shr, Pow2, Ascending, Bounded;
    var s := L[i];
    var code, m := CodeOf(L, i), Pow2(FAST_BITS - s);
    CodeRange(L, i);
    FitsBelow(L, s, 16);
    SmallPowers();
    Pow2Add(s, FAST_BITS - s);
    Pow2Mono(s, 9);
    MulMono(code + 1, Pow2(s), m);
    assert (code + 1) * m == code * m + m;
    forall w: nat
      ensures Matches(L, i, w, FAST_BITS) <==> code * m <= w < code * m + m
    {
      ShrLess(w, FAST_BITS - s, code);
      ShrLess(w, FAST_BITS - s, code + 1);
    }
  }

  lemma StoreEntry(L: lengths, i: nat, c: nat, v: nat)
    requires i < |L| && FastEntry(L, i, c, v) && Matches(L, i, c, FAST_BITS)
    ensures FastEntry(L, i + 1, c, i)
  {
    hide Shr, CodeOf;
    forall j: nat | j < i + 1 && Matches(L, j, c, FAST_BITS) ensures i == j {
      MatchUnique(L, i, j, c, FAST_BITS);
    }
  }

  lemma OutsideWindow(L: lengths, i: nat, c: nat, v: nat)
    requires i < |L| && FastEntry(L, i, c, v) && !Matches(L, i, c, FAST_BITS)
    ensures FastEntry(L, i + 1, c, v)
  {
  }

  lemma {:induction false} LongerSizes(count: seq<nat>, m: nat, n: nat)
    requires m <= n <= |count|
    ensures |Sizes(count, m)| <= |Sizes(count, n)|
    decreases n
  {
    if n <= m {
    } else {
      LongerSizes(count, m, n - 1);
    }
  }

  /** `stbi__build_fast_ac` */
  method BuildFastAc(fastAc: array<int>, h: JHuffman)
    requires h.Shape() && fastAc.Length == FAST_SIZE && fastAc != h.delta
    requires forall i :: 0 <= i < FAST_SIZE ==> h.fast[i] < 256
    modifies fastAc
    ensures h.View() == old(h.View())
    ensures forall i :: 0 <= i < FAST_SIZE ==> h.View().fast[i] < 256 && fastAc[i] == FastAcEntry(h.View(), i)
  {
    hide Pow2, Low, Shr;
    ghost var t := h.View();
    for i := 0 to FAST_SIZE
      invariant h.View() == t
      invariant forall k :: 0 <= k < i ==> fastAc[k] == FastAcEntry(t, k)
    {
      var fast := h.fast[i];
      fastAc[i] := 0;
      if fast < 255 {
        var rs: nat := h.values[fast];
        var run := rs / 16;
        var magbits := rs % 16;
        var len := h.size[fast];
        if magbits != 0 && len + magbits <= FAST_BITS {
          var k: int := Shr(Low(i * Pow2(len), FAST_BITS), FAST_BITS - magbits);
          var m := Pow2(magbits - 1);
          if k < m {
            k := k - Pow2(magbits) + 1;
          }
          if k >= -128 && k <= 127 {
            fastAc[i] := k * 256 + run * 16 + (len + magbits);
          }
        }
      }
      assert fastAc[i] == FastAcEntry(t, i);
    }
  }
}
