/** Blocks, dynamic headers and whole streams (sections 3.2.3 to 3.2.7 of RFC 1951, and RFC 1950). */
module InflateSpec {
  import opened Words
  import opened BitStream
  import opened Canonical
  import opened DeflateSpec

  const MAX_LEN: nat := 15

  // ----- code lengths of a dynamic block -----

  const LENGTH_DEZIGZAG: seq<nat> := [16, 17, 18, 0, 8, 7, 9, 6, 10, 5, 11, 4, 12, 3, 13, 2, 14, 1, 15]

  function Dezigzag(i: nat): (s: nat)
    requires i < 19
    ensures s < 19
  {
    LENGTH_DEZIGZAG[i]
  }

  /** When the length of symbol s is sent: the repetitions first, then 0, then from 8 outwards. */
  function Place(s: nat): (j: nat)
    requires s < 19
    ensures j < 19
  {
    if s >= 16 then s - 16
    else if s == 0 then 3
    else if s >= 8 then 4 + 2 * (s - 8)
    else 5 + 2 * (7 - s)
  }

  /** The scrambled order of section 3.2.7 of RFC 1951, both ways. */
  lemma DezigzagOrder(s: nat)
    requires s < 19
    ensures Dezigzag(Place(s)) == s && Place(Dezigzag(s)) == s
  {
  }

  /** The code-length code after n of its lengths have been read. */
  ghost function CodeLengthCode(input: seq<byte>, p: nat, n: nat): (L: lengths)
    requires n <= 19
    ensures |L| == 19 && Bounded(L, 7)
  {
    if n == 0 then Repeat(0, 19)
    else
      assert Lsb(input, p + 3 * (n - 1), 3) < 8 by {
        LsbBound(input, p + 3 * (n - 1), 3);
        assert Pow2(3) == 8;
      }
      CodeLengthCode(input, p, n - 1)[Dezigzag(n - 1) := Lsb(input, p + 3 * (n - 1), 3)]
  }

  datatype Lens = Lens(L: lengths, pos: nat)

  /** One item of the run-length coded list: the lengths it appends and where it ends. */
  ghost function NextLengths(cl: lengths, input: seq<byte>, p: nat, acc: lengths): (r: Option<Lens>)
    requires |cl| == 19
    ensures r.Some? ==> |r.value.L| > 0 && p < r.value.pos
    ensures r.Some? && Bounded(acc, MAX_LEN) ==> Bounded(r.value.L, MAX_LEN)
  {
    var c := Symbol(cl, input, p);
    if c < 0 then None
    else
      var q := p + cl[c];
      if c < 16 then Some(Lens([c], q))
      else if c == 16 then
        if |acc| == 0 then None
        else Some(Lens(Repeat(acc[|acc| - 1], Lsb(input, q, 2) + 3), q + 2))
      else if c == 17 then Some(Lens(Repeat(0, Lsb(input, q, 3) + 3), q + 3))
      else Some(Lens(Repeat(0, Lsb(input, q, 7) + 11), q + 7))
  }

  /** The list of `total` code lengths that starts with acc and continues at p. */
  ghost function ReadLengths(cl: lengths, input: seq<byte>, p: nat, acc: lengths, total: nat): (r: Option<Lens>)
    requires |cl| == 19 && |acc| <= total
    ensures r.Some? ==> p <= r.value.pos && |r.value.L| == total
    ensures r.Some? && Bounded(acc, MAX_LEN) ==> Bounded(r.value.L, MAX_LEN)
    decreases total - |acc|
  {
    if |acc| == total then Some(Lens(acc, p))
    else
      var item := NextLengths(cl, input, p, acc);
      if item.None? || total - |acc| < |item.value.L| then None
      else ReadLengths(cl, input, item.value.pos, acc + item.value.L, total)
  }

  datatype HeaderLens = HeaderLens(hlit: nat, L: lengths, pos: nat)

  /** The lengths of both codes of a dynamic block, the first hlit for the literal/length code. */
  ghost function HeaderLengths(input: seq<byte>, p: nat): (r: Option<HeaderLens>)
    ensures r.Some? ==> p < r.value.pos && Bounded(r.value.L, MAX_LEN)
    ensures r.Some? ==> 257 <= r.value.hlit <= 288 && 1 <= |r.value.L| - r.value.hlit <= 32
  {
    HeaderCounts(input, p);
    var hlit, hdist, hclen := Lsb(input, p, 5) + 257, Lsb(input, p + 5, 5) + 1, Lsb(input, p + 10, 4) + 4;
    var cl := CodeLengthCode(input, p + 14, hclen);
    if !Fits(cl, MAX_LEN) then None
    else
      var lens := ReadLengths(cl, input, p + 14 + 3 * hclen, [], hlit + hdist);
      if lens.None? then None else Some(HeaderLens(hlit, lens.value.L, lens.value.pos))
  }

  lemma HeaderParts(input: seq<byte>, p: nat)
    ensures Lsb(input, p, 5) < 32 && Lsb(input, p + 5, 5) < 32 && Lsb(input, p + 10, 4) < 16
    ensures var hlit, hdist, hclen := Lsb(input, p, 5) + 257, Lsb(input, p + 5, 5) + 1, Lsb(input, p + 10, 4) + 4;
            var cl := CodeLengthCode(input, p + 14, hclen);
            var lens := ReadLengths(cl, input, p + 14 + 3 * hclen, [], hlit + hdist);
            HeaderLengths(input, p) ==
              if !Fits(cl, MAX_LEN) || lens.None? then None else Some(HeaderLens(hlit, lens.value.L, lens.value.pos))
  {
    hide Lsb, CodeLengthCode, ReadLengths, Fits;
    HeaderCounts(input, p);
  }

  lemma HeaderCounts(input: seq<byte>, p: nat)
    ensures Lsb(input, p, 5) < 32 && Lsb(input, p + 5, 5) < 32 && Lsb(input, p + 10, 4) < 16
  {
    assert Pow2(4) == 16 && Pow2(5) == 32;
    hide Lsb;
    LsbBound(input, p, 5);
    LsbBound(input, p + 5, 5);
    LsbBound(input, p + 10, 4);
  }

  datatype Codes = Codes(lit: lengths, dist: lengths, pos: nat)

  /** The header of a dynamic block. */
  ghost function DynamicHeader(input: seq<byte>, p: nat): (r: Option<Codes>)
    ensures r.Some? ==> p < r.value.pos
  {
    var h := HeaderLengths(input, p);
    if h.None? then None
    else
      var lit, dist := h.value.L[..h.value.hlit], h.value.L[h.value.hlit..];
      if Fits(lit, MAX_LEN) && Fits(dist, MAX_LEN) then Some(Codes(lit, dist, h.value.pos)) else None
  }

  // ----- the fixed code -----

  function FixedLit(): (L: lengths)
    ensures |L| == 288 && Bounded(L, MAX_LEN)
  {
    Repeat(8, 144) + Repeat(9, 112) + Repeat(7, 24) + Repeat(8, 8)
  }

  function FixedDist(): (L: lengths)
    ensures |L| == 32 && Bounded(L, MAX_LEN)
  {
    Repeat(5, 32)
  }

  lemma {:induction false} CountRun(L: lengths, a: nat, n: nat, v: nat, s: nat)
    requires a + n <= |L| && forall i :: a <= i < a + n ==> L[i] == v
    ensures CountTo(L, a + n, s) == CountTo(L, a, s) + if v == s then n else 0
    decreases n
  {
    if n == 0 {
    } else {
      CountRun(L, a, n - 1, v, s);
    }
  }

  lemma FixedCount(s: nat)
    ensures Count(FixedLit(), s) == if s == 7 then 24 else if s == 8 then 152 else if s == 9 then 112 else 0
    ensures Count(FixedDist(), s) == if s == 5 then 32 else 0
  {
    var L := FixedLit();
    CountRun(L, 0, 144, 8, s);
    CountRun(L, 144, 112, 9, s);
    CountRun(L, 256, 24, 7, s);
    CountRun(L, 280, 8, 8, s);
    CountRun(FixedDist(), 0, 32, 5, s);
  }

  /** The fixed codes are complete. */
  lemma {:induction false} FixedEnd(s: nat)
    requires s <= MAX_LEN
    ensures EndCode(FixedLit(), s) == if s < 7 then 0 else if s == 7 then 24 else if s == 8 then 200 else Pow2(s)
    ensures EndCode(FixedDist(), s) == if s < 5 then 0 else Pow2(s)
  {
    hide FixedLit, FixedDist, Count;
    if s == 0 {
    } else {
      FixedEnd(s - 1);
      FixedCount(s);
      FixedPowers(s);
    }
  }

  lemma FixedPowers(s: nat)
    ensures s == 5 ==> Pow2(s) == 32
    ensures s == 9 ==> Pow2(s) == 512
  {
    assert Pow2(9) == 512 && Pow2(5) == 32;
  }

  lemma FixedFits()
    ensures Fits(FixedLit(), MAX_LEN) && Fits(FixedDist(), MAX_LEN)
  {
    FixedEnd(MAX_LEN);
  }

  lemma FixedCounts(i: nat)
    requires i <= 288
    ensures CountTo(FixedLit(), i, 7) == if i <= 256 then 0 else if i <= 280 then i - 256 else 24
    ensures CountTo(FixedLit(), i, 8) == if i <= 144 then i else if i <= 280 then 144 else i - 136
    ensures CountTo(FixedLit(), i, 9) == if i <= 144 then 0 else if i <= 256 then i - 144 else 112
  {
    RunCounts(i, 7);
    RunCounts(i, 8);
    RunCounts(i, 9);
  }

  lemma RunCounts(i: nat, s: nat)
    requires i <= 288
    ensures CountTo(FixedLit(), i, s)
         == (if s == 8 then (if i <= 144 then i else 144) else 0)
          + (if s == 9 && i > 144 then (if i <= 256 then i - 144 else 112) else 0)
          + (if s == 7 && i > 256 then (if i <= 280 then i - 256 else 24) else 0)
          + (if s == 8 && i > 280 then i - 280 else 0)
  {
    hide CountTo;
    var L := FixedLit();
    NoneCounted(L, s);
    var a, b, c := if i <= 144 then i else 144, if i <= 256 then i else 256, if i <= 280 then i else 280;
    CountRun(L, 0, a, 8, s);
    CountRun(L, a, if i <= 144 then 0 else b - 144, 9, s);
    CountRun(L, b, if i <= 256 then 0 else c - 256, 7, s);
    CountRun(L, c, if i <= 280 then 0 else i - 280, 8, s);
  }

  lemma NoneCounted(L: lengths, s: nat)
    ensures CountTo(L, 0, s) == 0
  {
  }

  /** The fixed codes are those of the table in section 3.2.6 of RFC 1951. */
  lemma FixedCodes(i: nat)
    requires i < 288
    ensures FixedLit()[i] > 0
    ensures CodeOf(FixedLit(), i) == if i < 144 then 0x30 + i
                                     else if i < 256 then 0x190 + (i - 144)
                                     else if i < 280 then i - 256
                                     else 0xC0 + (i - 280)
    ensures FixedLit()[i] == if i < 144 then 8 else if i < 256 then 9 else if i < 280 then 7 else 8
  {
    hide CountTo, EndCode;
    FixedCounts(i);
    FixedEnd(FixedLit()[i] - 1);
  }

  lemma FixedDistances(d: nat)
    requires d < 32
    ensures FixedDist()[d] == 5 && CodeOf(FixedDist(), d) == d
  {
    hide CountTo, EndCode;
    NoneCounted(FixedDist(), 5);
    CountRun(FixedDist(), 0, d, 5, 5);
    FixedEnd(4);
  }

  // ----- blocks -----

  /** n bytes read from p. */
  ghost function Bytes(input: seq<byte>, p: nat, n: nat): (r: seq<byte>)
    ensures |r| == n
    decreases n
  {
    if n == 0 then []
    else
      assert Lsb(input, p, 8) < 256 by {
        LsbBound(input, p, 8);
        assert Pow2(8) == 256;
      }
      [Lsb(input, p, 8)] + Bytes(input, p + 8, n - 1)
  }

  /** A stored block, after its type bits. */
  ghost function StoredBlock(input: seq<byte>, st: State): Option<State> {
    var p := st.pos + PadTo8(st.pos);
    var len, nlen := Lsb(input, p, 16), Lsb(input, p + 16, 16);
    if nlen != 0xFFFF - len then None
    else Some(State(p + 32 + 8 * len, st.out + Bytes(input, p + 32, len)))
  }

  ghost function DynamicBlock(input: seq<byte>, st: State): Option<State> {
    var h := DynamicHeader(input, st.pos);
    if h.None? then None
    else BlockEnd(h.value.lit, h.value.dist, input, State(h.value.pos, st.out))
  }

  ghost function BlockOf(input: seq<byte>, st: State, kind: nat): Option<State> {
    if kind == 0 then StoredBlock(input, st)
    else if kind == 1 then BlockEnd(FixedLit(), FixedDist(), input, st)
    else if kind == 2 then DynamicBlock(input, st)
    else None
  }

  /** The block whose three header bits are at st. */
  ghost function ReadBlock(input: seq<byte>, st: State): Option<State> {
    BlockOf(input, State(st.pos + 3, st.out), Lsb(input, st.pos + 1, 2))
  }

  lemma BlockOfExtends(input: seq<byte>, st: State, kind: nat)
    ensures var r := BlockOf(input, st, kind); r.Some? ==> st.pos < r.value.pos && st.out <= r.value.out
  {
    if kind == 1 {
      BlockExtends(FixedLit(), FixedDist(), input, st);
    } else if kind == 2 {
      var h := DynamicHeader(input, st.pos);
      if h.Some? {
        BlockExtends(h.value.lit, h.value.dist, input, State(h.value.pos, st.out));
      }
    }
  }

  lemma ReadBlockExtends(input: seq<byte>, st: State)
    ensures var r := ReadBlock(input, st); r.Some? ==> Extends(st, r.value)
  {
    hide BlockOf;
    var kind := Lsb(input, st.pos + 1, 2);
    BlockOfExtends(input, State(st.pos + 3, st.out), kind);
  }

  lemma StoredPastEnd(input: seq<byte>, st: State)
    requires 8 * |input| <= st.pos
    ensures BlockOf(input, st, 0).None?
  {
    hide BlockEnd, DynamicBlock, Bytes, Lsb, PadTo8;
    var p := st.pos + PadTo8(st.pos);
    LsbPastEnd(input, p, 16);
    LsbPastEnd(input, p + 16, 16);
  }

  /** Past the end every header reads as a stored block whose length check fails. */
  lemma NoBlockPastEnd(input: seq<byte>, st: State)
    requires 8 * |input| <= st.pos
    ensures Lsb(input, st.pos, 1) == 0 && Lsb(input, st.pos + 1, 2) == 0 && ReadBlock(input, st).None?
  {
    hide BlockOf;
    LsbPastEnd(input, st.pos, 1);
    LsbPastEnd(input, st.pos + 1, 2);
    StoredPastEnd(input, State(st.pos + 3, st.out));
  }

  // ----- streams -----

  /** Where the stream of blocks at st ends, if it does; the last block has its first bit set. */
  ghost function StreamEnd(input: seq<byte>, st: State): Option<State>
    decreases 8 * |input| - st.pos
  {
    var r := ReadBlock(input, st);
    if r.None? || 8 * |input| <= st.pos then None
    else if Lsb(input, st.pos, 1) == 1 then r
    else
      assert st.pos < r.value.pos by { ReadBlockExtends(input, st); }
      StreamEnd(input, r.value)
  }

  lemma {:induction false} StreamExtends(input: seq<byte>, st: State)
    ensures var r := StreamEnd(input, st); r.Some? ==> Extends(st, r.value)
    decreases 8 * |input| - st.pos
  {
    var r := ReadBlock(input, st);
    if r.Some? && st.pos < 8 * |input| {
      ReadBlockExtends(input, st);
      if Lsb(input, st.pos, 1) != 1 {
        StreamExtends(input, r.value);
      }
    }
  }

  /** The two header bytes of RFC 1950: a deflate stream without preset dictionary, and something follows. */
  predicate ZlibHeader(input: seq<byte>) {
    && |input| > 2
    && var cmf: nat, flg: nat := input[0], input[1];
    && (cmf * 256 + flg) % 31 == 0
    && Bit(flg, 5) == 0
    && cmf % 16 == 8
  }

  /**
    The fields of RFC 1950, section 2.2: window code w, method m, level l, and the five
    check bits, below the bit that asks for a dictionary.
   */
  lemma ZlibHeaderFields(w: nat, m: nat, l: nat, dict: bool, check: nat, more: byte)
    requires w < 16 && m < 16 && l < 4 && check < 32
    ensures ZlibHeader([16 * w + m, 64 * l + (if dict then 32 else 0) + check, more])
        <==> m == 8 && !dict && (4 * w + 2 * l + check) % 31 == 29
  {
    hide Bit;
    DictionaryBit(l, dict, check);
    CheckedModulo(w, l, check);
    DivMod(16 * w + m, 16, w, m);
  }

  lemma DictionaryBit(l: nat, dict: bool, check: nat)
    requires check < 32
    ensures Bit(64 * l + (if dict then 32 else 0) + check, 5) == if dict then 1 else 0
  {
    var high := 2 * l + if dict then 1 else 0;
    assert Pow2(5) == 32;
    assert Bit(high, 0) == if dict then 1 else 0;
    hide Bit, Pow2;
    BitOfConcat(check, high, 5, 5);
  }

  lemma CheckedModulo(w: nat, l: nat, check: nat)
    ensures ((16 * w + 8) * 256 + (64 * l + check)) % 31 == 0 <==> (4 * w + 2 * l + check) % 31 == 29
  {
    var rest := 4 * w + 2 * l + check;
    assert (16 * w + 8) * 256 + (64 * l + check) == 31 * (132 * w + 66 + 2 * l) + rest + 2;
  }

  /** What the whole input stands for, with or without a zlib header. */
  ghost function Inflate(input: seq<byte>, header: bool): Option<State> {
    if header && !ZlibHeader(input) then None
    else StreamEnd(input, State(if header then 16 else 0, []))
  }
}
