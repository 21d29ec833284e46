/**
  GIF89a's own limit: a table of at most 4096 strings that stays in use when it is full
  (deferred clear).  The decoder's larger table makes no difference but for its own limit.
 */
module GifCapped {
  import opened Words
  import opened BitStream
  import opened GifSpec

  const TABLE_LIMIT: nat := 4096

  /** One code, with a table that stops growing when all 12-bit codes are taken. */
  function CappedStep(cs: nat, s: Lzw, code: nat): Outcome
    requires -1 <= s.last < |s.table|
  {
    if code == Pow2(cs) then Continue(Fresh(cs, true), [])
    else if code == Pow2(cs) + 1 then Finished
    else if code > |s.table| || !s.started then Failed
    else if s.last >= 0 && |s.table| < TABLE_LIMIT then
      var prev := s.table[s.last];
      var current := if code == |s.table| then prev else s.table[code];
      var table := s.table + [prev + [First(current)]];
      Continue(Widen(s.(table := table, last := code)), table[code])
    else if code == |s.table| then Failed
    else if s.last >= 0 then Continue(s.(last := code), s.table[code])
    else Continue(Widen(s.(last := code)), s.table[code])
  }

  function CappedDecode(cs: nat, data: seq<byte>, p: nat, s: Lzw, out: seq<byte>): Decoded
    requires -1 <= s.last < |s.table| && s.width > 0
    decreases 8 * |data| - p
  {
    if 8 * |data| < p + s.width then Decoded(true, out)
    else
      match CappedStep(cs, s, Lsb(data, p, s.width))
      case Continue(s', emitted) => CappedDecode(cs, data, p + s.width, s', out + emitted)
      case Finished => Decoded(true, out)
      case Failed => Decoded(false, out)
  }

  /** The code would add an entry to a table that has 8192. */
  predicate AddsTooMany(cs: nat, s: Lzw, code: nat) {
    && code != Pow2(cs) && code != Pow2(cs) + 1 && code <= |s.table|
    && s.started && s.last >= 0 && |s.table| >= MAX_ENTRIES
  }

  /** The run from s on gets to such a code, with no clear before it that would prevent it. */
  predicate Overflows(cs: nat, data: seq<byte>, p: nat, s: Lzw)
    requires -1 <= s.last < |s.table| && s.width > 0
    decreases 8 * |data| - p
  {
    && p + s.width <= 8 * |data|
    && var code := Lsb(data, p, s.width);
    && (AddsTooMany(cs, s, code)
        || match Step(cs, s, code)
           case Continue(s', _) => Overflows(cs, data, p + s.width, s')
           case _ => false)
  }

  /** t is s with its table cut at 4096 strings; codes are never wider than 12 bits. */
  predicate CutTo(s: Lzw, t: Lzw) {
    && 0 < s.width <= 12 && -1 <= s.last < |t.table| && s.last < TABLE_LIMIT && 2 <= |s.table|
    && t == s.(table := if |s.table| <= TABLE_LIMIT then s.table else s.table[..TABLE_LIMIT])
  }

  lemma FreshCut(cs: nat, started: bool)
    requires cs <= 11
    ensures CutTo(Fresh(cs, started), Fresh(cs, started))
  {
    SmallPowers();
    assert Pow2(11) == 2048;
    Pow2Mono(cs, 11);
  }

  /** The width stops at 12 bits. */
  lemma WidenStops(s: Lzw)
    requires 0 < s.width <= 12 && 2 <= |s.table|
    ensures 0 < Widen(s).width <= 12 && Widen(s).table == s.table && Widen(s).last == s.last
    ensures |s.table| >= TABLE_LIMIT ==> Widen(s) == s
  {
    if s.width == 12 {
      NoMultiple(|s.table|);
    }
  }

  lemma NoMultiple(n: nat)
    requires 0 < n
    ensures Low(n, 12) == 0 ==> n >= TABLE_LIMIT
  {
    assert Pow2(12) == 4096 by {
      SmallPowers();
    }
    hide Low, Shr, Pow2;
    Split(n, 12);
    if Shr(n, 12) > 0 {
      MulMono(1, Shr(n, 12), Pow2(12));
    }
  }

  /** One code does the same to both tables, unless the larger one overflows. */
  lemma StepAgrees(cs: nat, s: Lzw, t: Lzw, code: nat)
    requires cs <= 11 && CutTo(s, t) && code < TABLE_LIMIT
    ensures match CappedStep(cs, t, code)
            case Failed => Step(cs, s, code).Failed? && !AddsTooMany(cs, s, code)
            case Finished => Step(cs, s, code).Finished? && !AddsTooMany(cs, s, code)
            case Continue(t', emitted) =>
              if AddsTooMany(cs, s, code) then Step(cs, s, code).Failed?
              else Step(cs, s, code).Continue? && Step(cs, s, code).emitted == emitted && CutTo(Step(cs, s, code).s, t')
  {
    hide Widen, Fresh, First;
    FreshCut(cs, true);
    if code != Pow2(cs) && code != Pow2(cs) + 1 && s.started && code <= |s.table| {
      if |s.table| < TABLE_LIMIT || s.last < 0 {
        SameTable(cs, s, t, code);
      } else {
        FullTable(cs, s, t, code);
      }
    }
  }

  /** While there is room, or right after a clear, both do the same. */
  lemma SameTable(cs: nat, s: Lzw, t: Lzw, code: nat)
    requires CutTo(s, t) && code < TABLE_LIMIT && code != Pow2(cs) && code != Pow2(cs) + 1
    requires s.started && code <= |s.table| && (|s.table| < TABLE_LIMIT || s.last < 0)
    ensures !AddsTooMany(cs, s, code)
    ensures match CappedStep(cs, t, code)
            case Failed => Step(cs, s, code).Failed?
            case Finished => false
            case Continue(t', emitted) =>
              Step(cs, s, code).Continue? && Step(cs, s, code).emitted == emitted && CutTo(Step(cs, s, code).s, t')
  {
    hide Widen, Fresh, First, Pow2;
    if s.last >= 0 {
      var prev := s.table[s.last];
      var table := s.table + [prev + [First(if code == |s.table| then prev else s.table[code])]];
      WidenStops(s.(table := table, last := code));
    } else {
      var s', t' := s.(last := code), t.(last := code);
      WidenStops(s');
      WidenStops(t');
      assert if |s.table| <= TABLE_LIMIT then t' == s' else Widen(s') == s' && Widen(t') == t';
    }
  }

  /** Beyond 4096 entries no code refers to what is added. */
  lemma FullTable(cs: nat, s: Lzw, t: Lzw, code: nat)
    requires CutTo(s, t) && code < TABLE_LIMIT && code != Pow2(cs) && code != Pow2(cs) + 1
    requires s.started && |s.table| >= TABLE_LIMIT && s.last >= 0
    ensures CappedStep(cs, t, code) == Continue(t.(last := code), s.table[code])
    ensures if AddsTooMany(cs, s, code) then Step(cs, s, code).Failed?
            else Step(cs, s, code).Continue? && Step(cs, s, code).emitted == s.table[code]
                 && CutTo(Step(cs, s, code).s, t.(last := code))
  {
    hide Widen, Fresh, First, Pow2;
    var table := s.table + [s.table[s.last] + [First(s.table[code])]];
    WidenStops(s.(table := table, last := code));
    assert table[..TABLE_LIMIT] == s.table[..TABLE_LIMIT];
  }

  /** All codes but the two for control have a string. */
  predicate Spelled(cs: nat, s: Lzw) {
    forall c :: 0 <= c < |s.table| && c != Pow2(cs) && c != Pow2(cs) + 1 ==> s.table[c] != []
  }

  lemma FreshSpelled(cs: nat, started: bool)
    ensures Spelled(cs, Fresh(cs, started))
  {
  }

  lemma StepKeepsSpelled(cs: nat, s: Lzw, code: nat)
    requires -1 <= s.last < |s.table| && Spelled(cs, s)
    ensures var o := Step(cs, s, code); o.Continue? ==> Spelled(cs, o.s)
  {
    hide Fresh, First, Pow2;
    FreshSpelled(cs, true);
  }

  /** The code on which the larger table fails has a string in the smaller one. */
  lemma FailsBehind(cs: nat, data: seq<byte>, p: nat, s: Lzw, t: Lzw, out: seq<byte>)
    requires CutTo(s, t) && Spelled(cs, s) && p + s.width <= 8 * |data|
    requires var code := Lsb(data, p, s.width); code < TABLE_LIMIT && AddsTooMany(cs, s, code)
    ensures out < CappedDecode(cs, data, p, t, out).indices
  {
    hide Spelled, Lsb, Pow2;
    var code := Lsb(data, p, s.width);
    FullTable(cs, s, t, code);
    Spells(cs, s, code);
    CappedKeeps(cs, t, code);
    CappedExtends(cs, data, p + t.width, t.(last := code), out + s.table[code]);
  }

  lemma Spells(cs: nat, s: Lzw, code: nat)
    requires Spelled(cs, s) && code < |s.table| && code != Pow2(cs) && code != Pow2(cs) + 1
    ensures s.table[code] != []
  {
  }

  /** A run that does not overflow decodes as one with the smaller table; one that does is cut short by a failure. */
  lemma {:induction false} DecodeAgrees(cs: nat, data: seq<byte>, p: nat, s: Lzw, t: Lzw, out: seq<byte>)
    requires cs <= 11 && CutTo(s, t) && Spelled(cs, s)
    ensures var d, c := Decode(cs, data, p, s, out), CappedDecode(cs, data, p, t, out);
            && out <= c.indices
            && if Overflows(cs, data, p, s) then !d.ok && d.indices < c.indices else d == c
    decreases 8 * |data| - p
  {
    hide Step, CappedStep, AddsTooMany, Lsb, Pow2, Spelled;
    if p + s.width <= 8 * |data| {
      var code := Lsb(data, p, s.width);
      CodeBelowLimit(data, p, s.width);
      StepAgrees(cs, s, t, code);
      match CappedStep(cs, t, code) {
        case Continue(t', emitted) =>
          if AddsTooMany(cs, s, code) {
            FailsBehind(cs, data, p, s, t, out);
          } else {
            StepKeepsSpelled(cs, s, code);
            DecodeAgrees(cs, data, p + s.width, Step(cs, s, code).s, t', out + emitted);
          }
        case _ =>
      }
    }
  }

  lemma CodeBelowLimit(data: seq<byte>, p: nat, width: nat)
    requires width <= 12
    ensures Lsb(data, p, width) < TABLE_LIMIT
  {
    LsbBound(data, p, width);
    Pow2Mono(width, 12);
    assert Pow2(12) == 4096;
  }

  lemma CappedKeeps(cs: nat, t: Lzw, code: nat)
    requires -1 <= t.last < |t.table| && t.width > 0
    ensures var o := CappedStep(cs, t, code); o.Continue? ==> -1 <= o.s.last < |o.s.table| && o.s.width > 0
  {
  }

  lemma {:induction false} CappedExtends(cs: nat, data: seq<byte>, p: nat, t: Lzw, out: seq<byte>)
    requires -1 <= t.last < |t.table| && t.width > 0
    ensures out <= CappedDecode(cs, data, p, t, out).indices
    decreases 8 * |data| - p
  {
    hide CappedStep;
    if p + t.width <= 8 * |data| {
      var o := CappedStep(cs, t, Lsb(data, p, t.width));
      if o.Continue? {
        CappedKeeps(cs, t, Lsb(data, p, t.width));
        CappedExtends(cs, data, p + t.width, o.s, out + o.emitted);
      }
    }
  }

  /** The whole raster: the two decoders differ exactly if it overflows, and then one fails where the other goes on. */
  lemma RasterAgrees(cs: nat, data: seq<byte>)
    requires cs <= 11
    ensures var s := Fresh(cs, false);
            var d, c := Decode(cs, data, 0, s, []), CappedDecode(cs, data, 0, s, []);
            && (d != c <==> Overflows(cs, data, 0, s))
            && (d != c ==> !d.ok && d.indices < c.indices)
  {
    FreshCut(cs, false);
    FreshSpelled(cs, false);
    DecodeAgrees(cs, data, 0, Fresh(cs, false), Fresh(cs, false), []);
  }

  // ----- a raster that overflows -----

  ghost predicate ZerosFrom(data: seq<byte>, p: nat) {
    forall q: nat :: p <= q ==> BitAt(data, q) == 0
  }

  lemma {:induction false} LsbOfZeros(data: seq<byte>, p: nat, n: nat)
    requires ZerosFrom(data, p)
    ensures Lsb(data, p, n) == 0
    decreases n
  {
    if n == 0 {
    } else {
      LsbOfZeros(data, p + 1, n - 1);
    }
  }

  /** Zero codes add an entry each, until there are too many. */
  lemma {:induction false} ZerosOverflow(cs: nat, data: seq<byte>, p: nat, s: Lzw)
    requires s.started && 0 <= s.last < |s.table| && 2 <= |s.table| <= MAX_ENTRIES && 0 < s.width <= 12
    requires ZerosFrom(data, p) && p + 12 * (MAX_ENTRIES + 1 - |s.table|) <= 8 * |data|
    ensures Overflows(cs, data, p, s)
    decreases MAX_ENTRIES - |s.table|
  {
    hide Widen, ZerosFrom, Lsb, Pow2;
    LsbOfZeros(data, p, s.width);
    Nonzero(cs);
    if |s.table| == MAX_ENTRIES {
      assert AddsTooMany(cs, s, 0);
    } else {
      var table := s.table + [s.table[s.last] + [First(s.table[0])]];
      var wider := Widen(s.(table := table, last := 0));
      WidenStops(s.(table := table, last := 0));
      WidenKeeps(s.(table := table, last := 0));
      StillZeros(data, p, p + s.width);
      assert Step(cs, s, 0) == Continue(wider, table[0]);
      ZerosOverflow(cs, data, p + s.width, wider);
    }
  }

  lemma Nonzero(n: nat)
    ensures Pow2(n) > 0
  {
  }

  lemma WidenKeeps(s: Lzw)
    ensures Widen(s).started == s.started
  {
  }

  lemma StillZeros(data: seq<byte>, p: nat, q: nat)
    requires ZerosFrom(data, p) && p <= q
    ensures ZerosFrom(data, q)
  {
  }

  /** A clear followed by nothing but zero codes runs past the table: such a raster fails. */
  lemma ClearAndZeros(cs: nat, data: seq<byte>)
    requires cs <= 7 && |data| >= 12300 && data[0] == Pow2(cs) && forall i :: 0 < i < |data| ==> data[i] == 0
    ensures Overflows(cs, data, 0, Fresh(cs, false)) && !Decode(cs, data, 0, Fresh(cs, false), []).ok
  {
    ClearFirst(cs, data);
    SmallTable(cs);
    AfterClear(cs, data, cs + 1, Fresh(cs, true));
    FreshCut(cs, false);
    hide Lsb, AddsTooMany, Fresh;
    ControlCodes(cs, Fresh(cs, false));
    assert Overflows(cs, data, 0, Fresh(cs, false));
    RasterAgrees(cs, data);
  }

  /** The first zero code after a clear adds no entry. */
  lemma AfterClear(cs: nat, data: seq<byte>, p: nat, t: Lzw)
    requires t.started && t.last == -1 && 3 <= |t.table| <= 130 && 0 < t.width <= 8
    requires ZerosFrom(data, p) && p <= 8 && |data| >= 12300
    ensures Overflows(cs, data, p, t)
  {
    hide Widen, ZerosFrom, Lsb, Pow2, Step, Overflows;
    var first := t.(last := 0);
    StillZeros(data, p, p + t.width);
    LsbOfZeros(data, p, t.width);
    FirstZero(cs, t);
    WidenStops(first);
    WidenKeeps(first);
    ZerosOverflow(cs, data, p + t.width, Widen(first));
    OverflowsLater(cs, data, p, t);
  }

  lemma OverflowsLater(cs: nat, data: seq<byte>, p: nat, s: Lzw)
    requires -1 <= s.last < |s.table| && s.width > 0 && p + s.width <= 8 * |data|
    requires var o := Step(cs, s, Lsb(data, p, s.width));
             o.Continue? && -1 <= o.s.last < |o.s.table| && o.s.width > 0
             && Overflows(cs, data, p + s.width, o.s)
    ensures Overflows(cs, data, p, s)
  {
    hide Step, Lsb, AddsTooMany;
  }

  lemma FirstZero(cs: nat, t: Lzw)
    requires t.started && t.last == -1 && t.table != []
    ensures Step(cs, t, 0) == Continue(Widen(t.(last := 0)), t.table[0])
  {
    Nonzero(cs);
    hide Widen, Pow2;
  }

  lemma SmallTable(cs: nat)
    requires cs <= 7
    ensures 3 <= |Fresh(cs, true).table| <= 130
  {
    SmallPowers();
    Pow2Mono(cs, 7);
  }

  /** The first code is the clear, and nothing follows. */
  lemma ClearFirst(cs: nat, data: seq<byte>)
    requires cs <= 7 && |data| > 0 && data[0] == Pow2(cs) && forall i :: 0 < i < |data| ==> data[i] == 0
    ensures Lsb(data, 0, cs + 1) == Pow2(cs) && ZerosFrom(data, cs + 1)
  {
    hide Lsb, Low, Shr;
    LsbByte(data, 0);
    LsbSplit(data, 0, 8, cs + 1);
    assert Pow2(cs) < Pow2(cs + 1);
    SplitUnique(Pow2(cs), cs + 1, 0, Pow2(cs));
    forall q: nat | cs + 1 <= q ensures BitAt(data, q) == 0 {
      if q < 8 {
        BitOfPower(cs, q);
      } else if q / 8 < |data| {
        assert data[q / 8] == 0;
        BitZero(q % 8);
      }
    }
  }

  lemma {:induction false} BitOfPower(n: nat, q: nat)
    requires n < q
    ensures Bit(Pow2(n), q) == 0
    decreases n
  {
    if n == 0 {
      BitZero(q - 1);
    } else {
      BitOfPower(n - 1, q - 1);
      assert 2 * Pow2(n - 1) / 2 == Pow2(n - 1);
    }
  }
}
