/** The LZW half of `stbi__process_gif_raster`: a linked dictionary mutated while it decodes. */
module GifLzw {
  import opened Words
  import opened BitStream
  import opened GifSpec
  import opened Input
  import opened Gif

  datatype Entry = Entry(prefix: int, first: byte, suffix: byte)

  predicate IsControl(cs: nat, c: nat) {
    c == Pow2(cs) || c == Pow2(cs) + 1
  }

  /** Entry c spells string c of the table: its prefix comes earlier and is not a control code. */
  ghost predicate Spells(cs: nat, e: Entry, table: seq<seq<byte>>, c: nat)
    requires c < |table|
  {
    && table[c] != []
    && e.first == table[c][0]
    && (if e.prefix < 0 then table[c] == [e.suffix]
        else e.prefix < c && !IsControl(cs, e.prefix) && table[c] == table[e.prefix] + [e.suffix])
  }

  /** The linked entries represent the table of strings. */
  ghost predicate Linked(cs: nat, codes: seq<Entry>, table: seq<seq<byte>>) {
    && |table| <= |codes|
    && Pow2(cs) + 2 <= |table|
    && forall c: nat :: c < |table| && !IsControl(cs, c) ==> Spells(cs, codes[c], table, c)
  }

  /** The decoder's registers hold the abstract state. */
  ghost predicate Registers(cs: nat, s: Lzw, avail: nat, oldcode: int, codesize: nat, codemask: nat, first: bool) {
    && avail == |s.table| && oldcode == s.last && codesize == s.width > 0
    && codemask == Pow2(codesize) - 1 && first == !s.started
    && -1 <= oldcode < avail
    && (oldcode >= 0 ==> !IsControl(cs, oldcode))
    && Roots(cs) <= s.table
  }

  /** A table that extends the roots links the roots: a clear code needs no rebuilding. */
  lemma LinkedRoots(cs: nat, codes: seq<Entry>, table: seq<seq<byte>>)
    requires Linked(cs, codes, table) && Roots(cs) <= table
    ensures Linked(cs, codes, Roots(cs))
  {
    var r := Roots(cs);
    forall c: nat | c < |r| && !IsControl(cs, c) ensures Spells(cs, codes[c], r, c) {
      assert Spells(cs, codes[c], table, c);
      assert r[c] == table[c];
    }
  }

  class Decoder {
    const input: seq<byte>
    const codes: array<Entry>
    const raster: Raster
    var cursor: nat

    constructor (input: seq<byte>, cursor: nat, raster: Raster)
      ensures this.input == input && this.cursor == cursor && this.raster == raster
      ensures fresh(codes) && codes.Length == MAX_ENTRIES
    {
      this.input := input;
      this.cursor := cursor;
      this.raster := raster;
      codes := new Entry[MAX_ENTRIES](_ => Entry(-1, 0, 0));
    }

    method Get() returns (b: byte)
      modifies `cursor
      ensures b == Get8(input, old(cursor)) && cursor == Next(input, old(cursor))
    {
      b := Get8(input, cursor);
      cursor := Next(input, cursor);
    }

    /** `stbi__out_gif_code`: prefixes first; the recursion ends because they come earlier. */
    method OutGifCode(cs: nat, code: nat, ghost table: seq<seq<byte>>)
      requires raster.Ready()
      requires Linked(cs, codes[..], table) && code < |table| && !IsControl(cs, code)
      modifies raster, raster.out, raster.history
      ensures raster.Ready() && raster.emitted == old(raster.emitted) + table[code]
      ensures raster.frame == old(raster.frame) && raster.under == old(raster.under)
      decreases code
    {
      hide Raster.Ready;
      assert Spells(cs, codes[..][code], table, code);
      var e := codes[code];
      if e.prefix >= 0 {
        OutGifCode(cs, e.prefix, table);
      }
      raster.EmitIndex(e.suffix);
    }

    /**
      Add the entry for the code just read: `p = &codes[avail++]` and its three fields.
      By then `avail` has moved on, so the test `code == avail` never holds; a code equal
      to the old `avail` reads the first index just stored in its own entry.
     */
    method AddEntry(cs: nat, avail: nat, oldcode: nat, code: nat,
                    ghost table: seq<seq<byte>>) returns (ghost table': seq<seq<byte>>)
      requires codes.Length == MAX_ENTRIES && Linked(cs, codes[..], table)
      requires avail == |table| < MAX_ENTRIES && oldcode < avail && code <= avail
      requires !IsControl(cs, oldcode) && !IsControl(cs, code)
      modifies codes
      ensures Linked(cs, codes[..], table')
      ensures var current := if code == avail then table[oldcode] else table[code];
              table' == table + [table[oldcode] + [First(current)]]
    {
      ghost var current := if code == avail then table[oldcode] else table[code];
      table' := table + [table[oldcode] + [First(current)]];
      assert Spells(cs, codes[..][oldcode], table, oldcode);
      assert code < avail ==> Spells(cs, codes[..][code], table, code);
      var f := codes[oldcode].first;
      codes[avail] := Entry(oldcode, f, 0);
      assert code != avail + 1;
      codes[avail] := codes[avail].(suffix := codes[code].first);
      forall c: nat | c < |table'| && !IsControl(cs, c) ensures Spells(cs, codes[..][c], table', c) {
        if c < avail {
          assert Spells(cs, old(codes[..])[c], table, c);
        }
      }
    }

    /** A code that is not a control code. */
    method HandleCode(cs: nat, avail: nat, oldcode: int, codesize: nat, codemask: nat, first: bool, code: nat,
                      ghost s: Lzw)
      returns (ok: bool, avail': nat, codesize': nat, codemask': nat, ghost s': Lzw)
      requires raster.Ready() && codes.Length == MAX_ENTRIES
      requires Registers(cs, s, avail, oldcode, codesize, codemask, first) && Linked(cs, codes[..], s.table)
      requires !IsControl(cs, code)
      modifies codes, raster, raster.out, raster.history
      ensures raster.Ready() && raster.frame == old(raster.frame) && raster.under == old(raster.under)
      ensures var o := Step(cs, s, code);
              if ok then
                && o.Continue? && s' == o.s && raster.emitted == old(raster.emitted) + o.emitted
                && Registers(cs, s', avail', code, codesize', codemask', first) && Linked(cs, codes[..], s'.table)
              else o == Failed && raster.emitted == old(raster.emitted)
    {
      hide Raster.Ready, Linked;
      ok, avail', codesize', codemask', s' := false, avail, codesize, codemask, s;
      if code > avail || first {
        return;
      }
      ghost var table := s.table;
      if oldcode >= 0 {
        if avail' + 1 > MAX_ENTRIES {
          return;
        }
        table := AddEntry(cs, avail, oldcode, code, s.table);
        avail' := avail + 1;
      } else if code == avail {
        return;
      }
      OutGifCode(cs, code, table);
      s' := Widen(s.(table := table, last := code));
      MaskIsLow(avail', codesize);
      if BitAnd(avail', codemask) == 0 && avail' <= 0x0FFF {
        codesize' := codesize + 1;
        codemask' := Pow2(codesize') - 1;
      }
      ok := true;
    }

    method InitRoots(cs: nat)
      requires cs <= 12 && codes.Length == MAX_ENTRIES
      modifies codes
      ensures Linked(cs, codes[..], Roots(cs))
    {
      RootsFit(cs);
      hide Pow2;
      var clear := Pow2(cs);
      for c := 0 to clear
        invariant forall i :: 0 <= i < c ==> codes[i] == Entry(-1, i % 256, i % 256)
      {
        codes[c] := Entry(-1, c % 256, c % 256);
      }
    }

    /** Skip the rest of the image data: `stbi__skip(s, len)` and all further sub-blocks. */
    method SkipBlocks(len: nat)
      modifies `cursor
      ensures SamePlace(input, cursor, AfterPending(input, old(cursor), len))
    {
      ghost var want := AfterPending(input, cursor, len);
      AfterSkip(input, cursor, len);
      cursor := cursor + len;
      var n: nat := Get();
      while n > 0
        invariant SamePlace(input, want, if n == 0 then cursor else AfterPending(input, cursor, n))
        decreases if cursor < |input| then |input| - cursor else 0, n
      {
        AfterSkip(input, cursor, n);
        cursor := cursor + n;
        n := Get();
      }
    }

    /**
      `stbi__process_gif_raster`: every index the abstract decoder emits reaches the
      raster, in order, and the call fails exactly when the abstract decoder does.
     */
    method ProcessGifRaster() returns (ok: bool)
      requires raster.Ready() && codes.Length == MAX_ENTRIES
      modifies this, codes, raster, raster.out, raster.history
      ensures raster.Ready() && raster.frame == old(raster.frame) && raster.under == old(raster.under)
      ensures ok ==> Get8(input, old(cursor)) <= 12
      ensures var cs := Get8(input, old(cursor));
              cs <= 12 ==>
                var d := Decode(cs, Pending(input, Next(input, old(cursor)), 0), 0, Fresh(cs, false), []);
                ok == d.ok && raster.emitted == old(raster.emitted) + d.indices
      ensures ok ==> SamePlace(input, cursor, AfterPending(input, Next(input, old(cursor)), 0))
    {
      hide Raster.Ready, Linked, Decode, Step, Pending, AfterPending, Lsb;
      var lzwCs: nat := Get();
      if lzwCs > 12 {
        return false;
      }
      InitRoots(lzwCs);
      ok := DecodeCodes(lzwCs);
    }

    method DecodeCodes(cs: nat) returns (ok: bool)
      requires raster.Ready() && codes.Length == MAX_ENTRIES && Linked(cs, codes[..], Roots(cs))
      modifies this, codes, raster, raster.out, raster.history
      ensures raster.Ready() && raster.frame == old(raster.frame) && raster.under == old(raster.under)
      ensures var d := Decode(cs, Pending(input, old(cursor), 0), 0, Fresh(cs, false), []);
              ok == d.ok && raster.emitted == old(raster.emitted) + d.indices
      ensures ok ==> SamePlace(input, cursor, AfterPending(input, old(cursor), 0))
    {
      hide Raster.Ready, Linked, Pending, AfterPending, Lsb, Widen, Reading, BitAnd, BitOr, Shr, Step;
      ghost var data := Pending(input, cursor, 0);
      ghost var before := raster.emitted;
      ghost var p: nat, k: nat, s, out := 0, 0, Fresh(cs, false), [];
      var clear := Pow2(cs);
      var first := true;
      var codesize: nat := cs + 1;
      var codemask: nat := Pow2(codesize) - 1;
      var bits: nat, validBits: nat, len: nat := 0, 0, 0;
      var avail: nat := clear + 2;
      var oldcode: int := -1;
      NothingRead(input, cursor);
      while true
        invariant raster.Ready() && raster.frame == old(raster.frame) && raster.under == old(raster.under)
        invariant Registers(cs, s, avail, oldcode, codesize, codemask, first) && Linked(cs, codes[..], s.table)
        invariant Reading(input, data, cursor, len, k, p, bits, validBits)
        invariant AfterPending(input, cursor, len) == AfterPending(input, old(cursor), 0)
        invariant raster.emitted == before + out
        invariant Decode(cs, data, 0, Fresh(cs, false), []) == Decode(cs, data, p, s, out)
        decreases 8 * |data| - p, |data| - k
      {
        if validBits < codesize {
          if len == 0 {
            NextBlock(input, data, cursor, k, p, bits, validBits);
            len := Get();
            if len == 0 {
              return true;
            }
          }
          ReadByte(input, data, cursor, len, k, p, bits, validBits);
          len := len - 1;
          var b := Get();
          bits := BitOr(bits, b * Pow2(validBits));
          validBits := validBits + 8;
          k := k + 1;
        } else {
          UseBits(input, data, cursor, len, k, p, bits, validBits, codesize);
          var code := BitAnd(bits, codemask);
          bits := Shr(bits, codesize);
          validBits := validBits - codesize;
          p := p + codesize;
          ControlCodes(cs, s);
          if code == clear {
            LinkedRoots(cs, codes[..], s.table);
            assert out + [] == out;
            codesize := cs + 1;
            codemask := Pow2(codesize) - 1;
            avail := clear + 2;
            oldcode := -1;
            first := false;
            s := Fresh(cs, true);
          } else if code == clear + 1 {
            SkipBlocks(len);
            return true;
          } else {
            ghost var o := Step(cs, s, code);
            ok, avail, codesize, codemask, s := HandleCode(cs, avail, oldcode, codesize, codemask, first, code, s);
            if !ok {
              return;
            }
            oldcode := code;
            out := out + o.emitted;
          }
        }
      }
    }
  }

  /** Positions past the end all read zeros. */
  ghost predicate SamePlace(input: seq<byte>, a: nat, b: nat) {
    a == b || (|input| <= a && |input| <= b)
  }

  lemma {:induction false} AfterSkip(input: seq<byte>, c: nat, len: nat)
    ensures SamePlace(input, AfterPending(input, c, len), AfterPending(input, c + len, 0))
    decreases len
  {
    if len == 0 {
    } else {
      AfterSkip(input, Next(input, c), len - 1);
    }
  }

  /** k data bytes have been read, p bits of them used; the register holds the bits between. */
  ghost predicate Reading(input: seq<byte>, data: seq<byte>, cursor: nat, len: nat, k: nat, p: nat, bits: nat,
                          validBits: nat) {
    && k <= |data| && Pending(input, cursor, len) == data[k..]
    && p + validBits == 8 * k && bits == Lsb(data, p, validBits)
  }

  lemma NothingRead(input: seq<byte>, cursor: nat)
    ensures Reading(input, Pending(input, cursor, 0), cursor, 0, 0, 0, 0, 0)
  {
  }

  lemma NextBlock(input: seq<byte>, data: seq<byte>, cursor: nat, k: nat, p: nat, bits: nat, validBits: nat)
    requires Reading(input, data, cursor, 0, k, p, bits, validBits)
    ensures Get8(input, cursor) == 0 ==> 8 * |data| == p + validBits
    ensures AfterPending(input, cursor, 0)
         == if Get8(input, cursor) == 0 then Next(input, cursor)
            else AfterPending(input, Next(input, cursor), Get8(input, cursor))
    ensures Get8(input, cursor) > 0 ==>
      Reading(input, data, Next(input, cursor), Get8(input, cursor), k, p, bits, validBits)
  {
    hide Lsb;
  }

  lemma ReadByte(input: seq<byte>, data: seq<byte>, cursor: nat, len: nat, k: nat, p: nat, bits: nat, validBits: nat)
    requires Reading(input, data, cursor, len, k, p, bits, validBits) && len > 0
    ensures k < |data| && AfterPending(input, cursor, len) == AfterPending(input, Next(input, cursor), len - 1)
    ensures Reading(input, data, Next(input, cursor), len - 1, k + 1, p,
                    BitOr(bits, Get8(input, cursor) * Pow2(validBits)), validBits + 8)
  {
    hide Lsb, BitOr, Pow2;
    LsbBound(data, p, validBits);
    JoinIsSum(bits, Get8(input, cursor), validBits);
    assert data[k..][0] == Get8(input, cursor) && data[k..][1..] == data[k + 1..];
    LsbByte(data, k);
    LsbConcat(data, p, validBits, 8);
  }

  lemma UseBits(input: seq<byte>, data: seq<byte>, cursor: nat, len: nat, k: nat, p: nat, bits: nat, validBits: nat,
                n: nat)
    requires Reading(input, data, cursor, len, k, p, bits, validBits) && n <= validBits
    ensures BitAnd(bits, Pow2(n) - 1) == Lsb(data, p, n) && p + n <= 8 * |data|
    ensures Reading(input, data, cursor, len, k, p + n, Shr(bits, n), validBits - n)
  {
    hide Lsb, BitAnd, Pow2, Shr;
    MaskIsLow(bits, n);
    LsbSplit(data, p, validBits, n);
  }

  lemma RootsFit(cs: nat)
    requires cs <= 12
    ensures Pow2(cs) + 2 <= MAX_ENTRIES
  {
    Pow2Mono(cs, 12);
    assert Pow2(12) == 0x1000;
  }
}
