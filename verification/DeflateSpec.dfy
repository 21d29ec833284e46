/**
  What a DEFLATE stream means (RFC 1951), read one symbol at a time from the
  zero-padded bit stream.  Nothing here knows about reservoirs, tables or buffers.
 */
module DeflateSpec {
  import opened Words
  import opened BitStream
  import opened Canonical

  datatype Option<T> = None | Some(value: T)

  // ----- symbols -----

  /** The bits at p start with the code of symbol i. */
  ghost predicate SymbolAt(L: lengths, input: seq<byte>, p: nat, i: nat) {
    i < |L| && L[i] > 0 && Msb(input, p, L[i]) == CodeOf(L, i)
  }

  /** The symbol at p, or -1 if no code matches. */
  ghost function Symbol(L: lengths, input: seq<byte>, p: nat): (z: int)
    ensures z >= 0 ==> SymbolAt(L, input, p, z)
    ensures z < 0 ==> z == -1 && forall i: nat :: !SymbolAt(L, input, p, i)
  {
    if exists i: nat :: SymbolAt(L, input, p, i) then
      var i: nat :| SymbolAt(L, input, p, i);
      i
    else -1
  }

  lemma SymbolAtIsMatch(L: lengths, input: seq<byte>, p: nat, i: nat, w: nat)
    requires Bounded(L, w)
    ensures SymbolAt(L, input, p, i) <==> Matches(L, i, Msb(input, p, w), w)
  {
    if i < |L| && L[i] <= w {
      MsbPrefix(input, p, w, L[i]);
    }
  }

  lemma SymbolUnique(L: lengths, input: seq<byte>, p: nat, i: nat, w: nat)
    requires Bounded(L, w) && SymbolAt(L, input, p, i)
    ensures Symbol(L, input, p) == i
  {
    var z := Symbol(L, input, p);
    SymbolAtIsMatch(L, input, p, i, w);
    SymbolAtIsMatch(L, input, p, z, w);
    MatchUnique(L, i, z, Msb(input, p, w), w);
  }

  // ----- length and distance symbols -----

  const LENGTH_BASE: seq<nat> := [3, 4, 5, 6, 7, 8, 9, 10, 11, 13, 15, 17, 19, 23, 27, 31, 35, 43, 51, 59,
                                  67, 83, 99, 115, 131, 163, 195, 227, 258, 0, 0]
  const LENGTH_EXTRA: seq<nat> := [0, 0, 0, 0, 0, 0, 0, 0, 1, 1, 1, 1, 2, 2, 2, 2, 3, 3, 3, 3, 4, 4, 4, 4,
                                   5, 5, 5, 5, 0, 0, 0]
  const DIST_BASE: seq<nat> := [1, 2, 3, 4, 5, 7, 9, 13, 17, 25, 33, 49, 65, 97, 129, 193, 257, 385, 513, 769,
                                1025, 1537, 2049, 3073, 4097, 6145, 8193, 12289, 16385, 24577, 0, 0]
  const DIST_EXTRA: seq<nat> := [0, 0, 0, 0, 1, 1, 2, 2, 3, 3, 4, 4, 5, 5, 6, 6, 7, 7, 8, 8, 9, 9, 10, 10,
                                 11, 11, 12, 12, 13, 13]

  function LengthBase(z: nat): (r: nat)
    requires z < 29
    ensures 3 <= r <= 258
  {
    LENGTH_BASE[z]
  }

  function LengthExtra(z: nat): (r: nat)
    requires z < 29
    ensures r <= 5
  {
    LENGTH_EXTRA[z]
  }

  function DistBase(d: nat): (r: nat)
    requires d < 30
    ensures 1 <= r <= 24577
  {
    DIST_BASE[d]
  }

  function DistExtra(d: nat): (r: nat)
    requires d < 30
    ensures r <= 13
  {
    DIST_EXTRA[d]
  }

  /** The extra bits of section 3.2.5: four length symbols to each number of bits from 0 to 5, after the first four. */
  lemma LengthExtraLaw(z: nat)
    requires z < 29
    ensures LengthExtra(z) == if z < 8 || z == 28 then 0 else z / 4 - 1
  {
  }

  /** A length symbol begins where the one before it ends. */
  lemma LengthBaseLaw(z: nat)
    requires z < 27
    ensures LengthBase(z + 1) == LengthBase(z) + Pow2(LengthExtra(z))
  {
    SmallPowers();
  }

  /** They begin with 3, and the last one stands for 258 alone. */
  lemma LengthEnds()
    ensures LengthBase(0) == 3 && LengthBase(28) == 258
  {
  }

  /** Distance symbols likewise, two to each number of bits from 0 to 13 after the first two, and from 1 on. */
  lemma DistLaw(d: nat)
    requires d < 30
    ensures DistExtra(d) == if d < 4 then 0 else d / 2 - 1
    ensures d < 29 ==> DistBase(d + 1) == DistBase(d) + Pow2(DistExtra(d))
    ensures DistBase(0) == 1
  {
    SmallPowers();
    assert Pow2(10) == 1024 && Pow2(13) == 8192;
  }

  /** The lengths of the symbols with e extra bits in closed form. */
  lemma {:induction false} LengthGroup(e: nat, t: nat)
    requires e <= 5 && t < 4
    ensures LengthExtra(4 * (e + 1) + t) == e
    ensures LengthBase(4 * (e + 1) + t) == 3 + (4 + t) * Pow2(e)
    decreases e, t
  {
    hide LengthBase, LengthExtra;
    var z := 4 * (e + 1) + t;
    LengthExtraLaw(z);
    LengthExtraLaw(z - 1);
    LengthBaseLaw(z - 1);
    if t > 0 {
      LengthGroup(e, t - 1);
      AndOneMore(3 + t, Pow2(e));
    } else if e > 0 {
      LengthGroup(e - 1, 3);
      AndOneMore(7, Pow2(e - 1));
    } else {
      FirstLengths(3);
    }
  }

  lemma {:induction false} FirstLengths(z: nat)
    requires z < 4
    ensures LengthExtra(z) == 0 && LengthBase(z) == 3 + z
  {
    hide LengthBase, LengthExtra;
    LengthExtraLaw(z);
    if z == 0 {
      LengthEnds();
    } else {
      FirstLengths(z - 1);
      LengthBaseLaw(z - 1);
    }
  }

  lemma FirstDists(d: nat)
    requires d < 2
    ensures DistExtra(d) == 0 && DistBase(d) == 1 + d
  {
    hide DistBase, DistExtra;
    DistLaw(0);
    DistLaw(1);
  }

  lemma {:induction false} DistGroup(e: nat, t: nat)
    requires e <= 13 && t < 2
    ensures DistExtra(2 * (e + 1) + t) == e
    ensures DistBase(2 * (e + 1) + t) == 1 + (2 + t) * Pow2(e)
    decreases e, t
  {
    hide DistBase, DistExtra;
    var d := 2 * (e + 1) + t;
    DistLaw(d);
    DistLaw(d - 1);
    if t > 0 {
      DistGroup(e, 0);
      AndOneMore(2, Pow2(e));
    } else if e > 0 {
      DistGroup(e - 1, 1);
      AndOneMore(3, Pow2(e - 1));
    } else {
      DistLaw(0);
    }
  }

  // ----- LZ77 -----

  /** Append len bytes, each a copy of the byte dist places before it. */
  function CopyMatch(out: seq<byte>, len: nat, dist: nat): (r: seq<byte>)
    requires 1 <= dist <= |out|
    ensures |r| == |out| + len && out <= r
    decreases len
  {
    if len == 0 then out else CopyMatch(out + [out[|out| - dist]], len - 1, dist)
  }

  /** The defining property of a match, overlapping or not. */
  lemma {:induction false} CopyMatchLaw(out: seq<byte>, len: nat, dist: nat, n: nat)
    requires 1 <= dist <= |out| <= n < |out| + len
    ensures CopyMatch(out, len, dist)[n] == CopyMatch(out, len, dist)[n - dist]
    decreases len
  {
    var out' := out + [out[|out| - dist]];
    if n == |out| {
      var r := CopyMatch(out', len - 1, dist);
      assert out' <= r && r[n] == out'[n] && r[n - dist] == out'[n - dist];
    } else {
      CopyMatchLaw(out', len - 1, dist, n);
    }
  }

  lemma NoMatch(out: seq<byte>, dist: nat)
    requires 1 <= dist <= |out|
    ensures CopyMatch(out, 0, dist) == out
  {
  }

  lemma CopyMatchUnfold(out: seq<byte>, len: nat, dist: nat)
    requires 1 <= dist <= |out| && len > 0
    ensures CopyMatch(out, len, dist) == CopyMatch(out + [out[|out| - dist]], len - 1, dist)
  {
  }

  lemma {:induction false} CopyMatchSnoc(out: seq<byte>, len: nat, dist: nat)
    requires 1 <= dist <= |out|
    ensures var r := CopyMatch(out, len, dist);
            CopyMatch(out, len + 1, dist) == r + [r[|r| - dist]]
    decreases len
  {
    var out' := out + [out[|out| - dist]];
    if len == 0 {
    } else {
      hide CopyMatch;
      CopyMatchUnfold(out, len, dist);
      CopyMatchUnfold(out, len + 1, dist);
      CopyMatchSnoc(out', len - 1, dist);
    }
  }

  // ----- one block of symbols -----

  datatype State = State(pos: nat, out: seq<byte>)
  datatype Step = Bad | Stop(s: State) | Go(s: State)

  ghost function NextToken(lit: lengths, dist: lengths, input: seq<byte>, st: State): Step {
    var z := Symbol(lit, input, st.pos);
    if z < 0 then Bad
    else if z < 256 then Go(State(st.pos + lit[z], st.out + [z]))
    else if z == 256 then Stop(State(st.pos + lit[z], st.out))
    else if z >= 286 then Bad
    else NextMatch(dist, input, State(st.pos + lit[z], st.out), z - 257)
  }

  datatype Match = Match(len: nat, back: nat, end: nat)

  /** The length and distance whose length symbol is 257 + z and whose extra bits start at p. */
  ghost function ReadMatch(dist: lengths, input: seq<byte>, p: nat, z: nat): (r: Option<Match>)
    requires z < 29
    ensures r.Some? ==> r.value.len > 0 && r.value.back > 0 && p < r.value.end
  {
    var q := p + LengthExtra(z);
    var d := Symbol(dist, input, q);
    if d < 0 || d >= 30 then None
    else Some(Match(LengthBase(z) + Lsb(input, p, LengthExtra(z)),
                    DistBase(d) + Lsb(input, q + dist[d], DistExtra(d)),
                    q + dist[d] + DistExtra(d)))
  }

  ghost function NextMatch(dist: lengths, input: seq<byte>, st: State, z: nat): Step
    requires z < 29
  {
    var m := ReadMatch(dist, input, st.pos, z);
    if m.None? || m.value.back > |st.out| then Bad
    else Go(State(m.value.end, CopyMatch(st.out, m.value.len, m.value.back)))
  }

  /** Reading n more symbols from st and then the end-of-block symbol leads to end. */
  ghost predicate Halts(lit: lengths, dist: lengths, input: seq<byte>, st: State, n: nat, end: State)
    decreases n
  {
    var step := NextToken(lit, dist, input, st);
    if n == 0 then step == Stop(end) else step.Go? && Halts(lit, dist, input, step.s, n - 1, end)
  }

  /** Where the block at st ends, if it does. */
  ghost function BlockEnd(lit: lengths, dist: lengths, input: seq<byte>, st: State): (r: Option<State>)
    ensures r.Some? ==> exists n: nat :: Halts(lit, dist, input, st, n, r.value)
    ensures r.None? ==> forall n: nat, end :: !Halts(lit, dist, input, st, n, end)
  {
    if exists n: nat, end :: Halts(lit, dist, input, st, n, end) then
      var n: nat, end :| Halts(lit, dist, input, st, n, end);
      Some(end)
    else None
  }

  lemma {:induction false} HaltsUnique(lit: lengths, dist: lengths, input: seq<byte>, st: State,
                                       n: nat, end: State, n': nat, end': State)
    requires Halts(lit, dist, input, st, n, end) && Halts(lit, dist, input, st, n', end')
    ensures end == end'
    decreases n
  {
    if n == 0 {
    } else {
      HaltsUnique(lit, dist, input, NextToken(lit, dist, input, st).s, n - 1, end, n' - 1, end');
    }
  }

  lemma HaltsIsEnd(lit: lengths, dist: lengths, input: seq<byte>, st: State, n: nat, end: State)
    requires Halts(lit, dist, input, st, n, end)
    ensures BlockEnd(lit, dist, input, st) == Some(end)
  {
    var r := BlockEnd(lit, dist, input, st);
    var n': nat :| Halts(lit, dist, input, st, n', r.value);
    HaltsUnique(lit, dist, input, st, n, end, n', r.value);
  }

  /** A block is read by reading its first symbol and then the rest. */
  lemma BlockUnfold(lit: lengths, dist: lengths, input: seq<byte>, st: State)
    ensures BlockEnd(lit, dist, input, st) ==
            match NextToken(lit, dist, input, st)
            case Bad => None
            case Stop(end) => Some(end)
            case Go(next) => BlockEnd(lit, dist, input, next)
  {
    var step := NextToken(lit, dist, input, st);
    var r := BlockEnd(lit, dist, input, st);
    if r.Some? {
      var n: nat :| Halts(lit, dist, input, st, n, r.value);
      if step.Go? {
        HaltsIsEnd(lit, dist, input, step.s, n - 1, r.value);
      }
    } else if step.Stop? {
      HaltsIsEnd(lit, dist, input, st, 0, step.s);
    } else if step.Go? && BlockEnd(lit, dist, input, step.s).Some? {
      var end := BlockEnd(lit, dist, input, step.s).value;
      var n: nat :| Halts(lit, dist, input, step.s, n, end);
      HaltsIsEnd(lit, dist, input, st, n + 1, end);
    }
  }

  /** Symbols only move forward and only append. */
  ghost predicate Extends(st: State, st': State) {
    st.pos < st'.pos && st.out <= st'.out
  }

  lemma TokenExtends(lit: lengths, dist: lengths, input: seq<byte>, st: State)
    ensures var step := NextToken(lit, dist, input, st);
            !step.Bad? ==> Extends(st, step.s) && (step.Go? ==> |st.out| < |step.s.out|)
  {
  }

  lemma {:induction false} HaltsExtends(lit: lengths, dist: lengths, input: seq<byte>, st: State, n: nat, end: State)
    requires Halts(lit, dist, input, st, n, end)
    ensures Extends(st, end)
    decreases n
  {
    TokenExtends(lit, dist, input, st);
    if n == 0 {
    } else {
      HaltsExtends(lit, dist, input, NextToken(lit, dist, input, st).s, n - 1, end);
    }
  }

  lemma BlockExtends(lit: lengths, dist: lengths, input: seq<byte>, st: State)
    ensures var r := BlockEnd(lit, dist, input, st); r.Some? ==> Extends(st, r.value)
  {
    var r := BlockEnd(lit, dist, input, st);
    if r.Some? {
      var n: nat :| Halts(lit, dist, input, st, n, r.value);
      HaltsExtends(lit, dist, input, st, n, r.value);
    }
  }
}
