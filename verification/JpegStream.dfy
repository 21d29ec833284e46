/**
  The entropy-coded data of a JPEG scan (section F.1.2.3 of ITU-T T.81): bytes with a zero stuffed after each 0xFF, up
  to a marker, read most significant bit first and continued with zeros.
 */
module JpegStream {
  import opened Words
  import opened Canonical
  import opened Input
  import opened JpegSpec

  // ----- bytes -----

  /** Where a run of 0xFF bytes ends. */
  function AfterFill(input: seq<byte>, c: nat): (r: nat)
    ensures c <= r && (c <= |input| ==> r <= |input|) && Get8(input, r) != 0xFF
    ensures forall i :: c <= i < r ==> Get8(input, i) == 0xFF
    decreases |input| - c
  {
    if Get8(input, c) == 0xFF then AfterFill(input, c + 1) else c
  }

  /** The data bytes from c up to a marker or the end of the input. */
  function Data(input: seq<byte>, c: nat): seq<byte>
    decreases |input| - c
  {
    if c >= |input| then []
    else if input[c] != 0xFF then [input[c]] + Data(input, c + 1)
    else
      var e := AfterFill(input, c + 1);
      if Get8(input, e) != 0 then [] else [0xFF] + Data(input, if e < |input| then e + 1 else e)
  }

  // ----- bits -----

  function BitAt(data: seq<byte>, p: nat): (b: nat)
    ensures b <= 1
  {
    if p / 8 < |data| then Bit(data[p / 8], 7 - p % 8) else 0
  }

  /** The next n bits from p as a number. */
  function Window(data: seq<byte>, p: nat, n: nat): nat
    decreases n
  {
    if n == 0 then 0 else 2 * Window(data, p, n - 1) + BitAt(data, p + n - 1)
  }

  lemma WindowNext(data: seq<byte>, p: nat, n: nat)
    requires n > 0
    ensures Window(data, p, n) == 2 * Window(data, p, n - 1) + BitAt(data, p + n - 1)
  {
  }

  lemma {:induction false} WindowBound(data: seq<byte>, p: nat, n: nat)
    ensures Window(data, p, n) < Pow2(n)
    decreases n
  {
    hide BitAt;
    if n == 0 {
    } else {
      WindowBound(data, p, n - 1);
    }
  }

  lemma {:induction false} WindowConcat(data: seq<byte>, p: nat, m: nat, n: nat)
    ensures Window(data, p, m + n) == Window(data, p, m) * Pow2(n) + Window(data, p + m, n)
    decreases n
  {
    hide BitAt;
    if n == 0 {
    } else {
      hide Window, Pow2;
      WindowConcat(data, p, m, n - 1);
      WindowNext(data, p, m + n);
      WindowNext(data, p + m, n);
      Twice(Window(data, p, m), n);
    }
  }

  lemma {:induction false} WindowPastEnd(data: seq<byte>, p: nat, n: nat)
    requires 8 * |data| <= p
    ensures Window(data, p, n) == 0
    decreases n
  {
    if n == 0 {
    } else {
      WindowPastEnd(data, p, n - 1);
    }
  }

  /** A whole byte read at a byte boundary. */
  lemma WindowByte(data: seq<byte>, c: nat)
    ensures Window(data, 8 * c, 8) == if c < |data| then data[c] else 0
  {
    if c < |data| {
      WindowInByte(data, c, 8);
      hide Window, BitAt;
    } else {
      WindowPastEnd(data, 8 * c, 8);
    }
  }

  lemma BitInByte(data: seq<byte>, c: nat, i: nat)
    requires c < |data| && i < 8
    ensures BitAt(data, 8 * c + i) == Bit(data[c], 7 - i)
  {
    DivMod(8 * c + i, 8, c, i);
  }

  lemma Halved(v: nat)
    ensures v == 2 * Shr(v, 1) + Bit(v, 0)
  {
  }

  lemma {:induction false} WindowInByte(data: seq<byte>, c: nat, n: nat)
    requires c < |data| && n <= 8
    ensures Window(data, 8 * c, n) == Shr(data[c], 8 - n)
    decreases n
  {
    if n == 0 {
      SmallPowers();
      SplitUnique(data[c], 8, 0, data[c]);
    } else {
      WindowInByte(data, c, n - 1);
      WindowNext(data, 8 * c, n);
      BitInByte(data, c, n - 1);
      Halved(Shr(data[c], 8 - n));
      hide Window, BitAt, Shr, Bit;
      BitOfShr(data[c], 8 - n, 0);
      ShrShr(data[c], 8 - n, 1);
    }
  }

  // ----- a 32-bit buffer of bits -----

  /** The next n bits at the top of a word, zeros below. */
  function Word(data: seq<byte>, p: nat, n: nat): nat
    requires n <= 32
  {
    Window(data, p, n) * Pow2(32 - n)
  }

  /** The n bits at the top of a word that holds m bits, split after the first n. */
  lemma WordSplit(data: seq<byte>, p: nat, m: nat, n: nat)
    requires n <= m <= 32
    ensures Word(data, p, m) == Window(data, p, n) * Pow2(32 - n) + Window(data, p + n, m - n) * Pow2(32 - m)
    ensures Window(data, p + n, m - n) * Pow2(32 - m) < Pow2(32 - n)
  {
    hide Window, Pow2;
    WindowConcat(data, p, n, m - n);
    Pow2Add(m - n, 32 - m);
    WindowBound(data, p + n, m - n);
    Regroup(Window(data, p, n), Pow2(m - n), Pow2(32 - m), Window(data, p + n, m - n));
  }

  lemma Regroup(a: nat, b: nat, c: nat, d: nat)
    requires d < b && c > 0
    ensures (a * b + d) * c == a * (b * c) + d * c && d * c < b * c
  {
    MulMono(d + 1, b, c);
  }

  lemma WordBound(data: seq<byte>, p: nat, n: nat)
    requires n <= 32
    ensures Word(data, p, n) < Pow2(32)
  {
    hide Window, Pow2;
    WordSplit(data, p, n, 0);
    assert Window(data, p, 0) == 0 by {
      WindowBound(data, p, 0);
      assert Pow2(0) == 1 by {
        PowZero();
      }
    }
  }

  lemma PowZero()
    ensures Pow2(0) == 1
  {
  }

  /** Past the data a word holds any number of bits. */
  lemma WordPastEnd(data: seq<byte>, p: nat, m: nat, n: nat)
    requires m <= n <= 32 && 8 * |data| <= p + m
    ensures Word(data, p, n) == Word(data, p, m)
  {
    hide Window, Pow2;
    WordSplit(data, p, n, m);
    WindowPastEnd(data, p + m, n - m);
  }

  /** The top n bits of a word are the next n bits, if it holds them or the data end before. */
  lemma TopIsWindow(data: seq<byte>, p: nat, m: nat, n: nat)
    requires m <= 32 && n <= 32 && (n <= m || 8 * |data| <= p + m)
    ensures Shr(Word(data, p, m), 32 - n) == Window(data, p, n)
  {
    hide Window, Pow2, Word, Shr;
    if m < n {
      WordPastEnd(data, p, m, n);
      WordSplit(data, p, n, n);
      SplitUnique(Word(data, p, n), 32 - n, Window(data, p, n), Window(data, p + n, 0) * Pow2(32 - n));
    } else {
      WordSplit(data, p, m, n);
      SplitUnique(Word(data, p, m), 32 - n, Window(data, p, n), Window(data, p + n, m - n) * Pow2(32 - m));
    }
  }

  lemma WordIs(data: seq<byte>, p: nat, n: nat)
    requires n <= 32
    ensures Word(data, p, n) == Window(data, p, n) * Pow2(32 - n)
  {
  }

  lemma Products(a: nat, b: nat, c: nat)
    ensures a * b * c == a * (b * c)
  {
  }

  /** Shifting a word left drops the bits at its top. */
  lemma ShiftedOut(data: seq<byte>, p: nat, m: nat, n: nat)
    requires n <= m <= 32
    ensures Shl32(Word(data, p, m), n) == Word(data, p + n, m - n)
  {
    hide Window, Pow2, Shr, Low;
    var word, rest := Word(data, p, m), Window(data, p + n, m - n);
    WordSplit(data, p, m, n);
    hide Word;
    SplitUnique(word, 32 - n, Window(data, p, n), rest * Pow2(32 - m));
    LowOfShl(word, n, 32 - n);
    Pow2Add(32 - m, n);
    Products(rest, Pow2(32 - m), Pow2(n));
    WordIs(data, p + n, m - n);
  }

  /** Joining a byte below the bits that are held. */
  lemma ByteJoined(data: seq<byte>, p: nat, m: nat, b: nat)
    requires m <= 24 && (p + m) % 8 == 0
    requires b == if (p + m) / 8 < |data| then data[(p + m) / 8] else 0
    ensures BitOr(Word(data, p, m), b * Pow2(24 - m)) == Word(data, p, m + 8)
  {
    hide Window, Pow2, BitOr;
    var c := (p + m) / 8;
    assert 8 * c == p + m;
    WindowByte(data, c);
    WindowConcat(data, p, m, 8);
    SmallPowers();
    Pow2Add(8, 24 - m);
    Regroup(Window(data, p, m), 256, Pow2(24 - m), b);
    JoinIsSum(b * Pow2(24 - m), Window(data, p, m), 32 - m);
    OrCommutes(Word(data, p, m), b * Pow2(24 - m));
  }

  lemma {:induction false} OrCommutes(a: nat, b: nat)
    ensures BitOr(a, b) == BitOr(b, a)
    decreases a + b
  {
    if a + b == 0 {
    } else {
      OrCommutes(a / 2, b / 2);
    }
  }

  // ----- coefficients -----

  /** The code at bit p of the data, or -1. */
  ghost function CodeAt(L: lengths, data: seq<byte>, p: nat): (i: int)
    ensures i >= 0 ==> i < |L| && 0 < L[i] <= 16
    ensures i < 0 ==> i == -1
  {
    Matching(L, Window(data, p, 16))
  }

  type place = z: nat | z < 64

  /** The order of the coefficients, eight to a line; further places all stand for the last one. */
  const DEZIGZAG: seq<seq<place>> := [
    [0, 1, 8, 16, 9, 2, 3, 10],
    [17, 24, 32, 25, 18, 11, 4, 5],
    [12, 19, 26, 33, 40, 48, 41, 34],
    [27, 20, 13, 6, 7, 14, 21, 28],
    [35, 42, 49, 56, 57, 50, 43, 36],
    [29, 22, 15, 23, 30, 37, 44, 51],
    [58, 59, 52, 45, 38, 31, 39, 46],
    [53, 60, 61, 54, 47, 55, 62, 63],
    [63, 63, 63, 63, 63, 63, 63, 63],
    [63, 63, 63, 63, 63, 63, 63]]

  function Dezigzag(k: nat): place
    requires k < 79
  {
    DEZIGZAG[k / 8][k % 8]
  }

  /** Figure A.6 of ITU-T T.81: diagonals of a block, up and down by turns; here in the upper left half. */
  function RankTop(r: nat, c: nat): nat {
    (r + c) * (r + c + 1) / 2 + if (r + c) % 2 == 0 then c else r
  }

  /** When the coefficient in row r and column c comes; the lower right half mirrors the other. */
  function Rank(r: nat, c: nat): (k: nat)
    requires r < 8 && c < 8
    ensures k < 64
  {
    if r + c < 8 then RankTop(r, c) else 63 - RankTop(7 - r, 7 - c)
  }

  lemma FirstRanks(k: nat)
    requires 0 <= k < 16
    ensures Rank(Dezigzag(k) / 8, Dezigzag(k) % 8) == k
  {
  }

  lemma SecondRanks(k: nat)
    requires 16 <= k < 32
    ensures Rank(Dezigzag(k) / 8, Dezigzag(k) % 8) == k
  {
  }

  lemma ThirdRanks(k: nat)
    requires 32 <= k < 48
    ensures Rank(Dezigzag(k) / 8, Dezigzag(k) % 8) == k
  {
  }

  lemma FourthRanks(k: nat)
    requires 48 <= k < 64
    ensures Rank(Dezigzag(k) / 8, Dezigzag(k) % 8) == k
  {
  }

  /** The table is that order, and stays at the last place after the block. */
  lemma DezigzagIsRank(k: nat)
    requires k < 79
    ensures k < 64 ==> Rank(Dezigzag(k) / 8, Dezigzag(k) % 8) == k
    ensures k >= 64 ==> Dezigzag(k) == 63
  {
    hide Rank;
    if k < 16 {
      FirstRanks(k);
    } else if k < 32 {
      SecondRanks(k);
    } else if k < 48 {
      ThirdRanks(k);
    } else if k < 64 {
      FourthRanks(k);
    }
  }

  /** The places before diagonal s. */
  function Diagonal(s: nat): nat {
    s * (s + 1) / 2
  }

  lemma Diagonals(s: nat, t: nat)
    requires s <= t
    ensures Diagonal(s + 1) == Diagonal(s) + s + 1 && Diagonal(s) <= Diagonal(t)
    decreases t
  {
    NextDiagonal(s);
    if s < t {
      NextDiagonal(t - 1);
      Diagonals(s, t - 1);
    }
  }

  lemma NextDiagonal(s: nat)
    ensures Diagonal(s + 1) == Diagonal(s) + s + 1
  {
    assert (s + 1) * (s + 2) == s * (s + 1) + 2 * (s + 1);
  }

  lemma TopInjective(r: nat, c: nat, r': nat, c': nat)
    requires RankTop(r, c) == RankTop(r', c')
    ensures r == r' && c == c'
  {
    var s, t := r + c, r' + c';
    assert Diagonal(s) <= RankTop(r, c) && Diagonal(t) <= RankTop(r', c');
    hide Diagonal;
    if s < t {
      Diagonals(s + 1, t);
      NextDiagonal(s);
    } else if t < s {
      Diagonals(t + 1, s);
      NextDiagonal(t);
    }
  }

  lemma TopBelow(r: nat, c: nat)
    ensures r + c <= 7 ==> RankTop(r, c) < 36
    ensures r + c <= 6 ==> RankTop(r, c) < 28
  {
    var s := r + c;
    NextDiagonal(s);
    assert RankTop(r, c) < Diagonal(s + 1);
    if s <= 6 {
      Diagonals(s + 1, 7);
    } else if s == 7 {
      assert Diagonal(8) == 36;
    }
  }

  /** No two places have the same rank. */
  lemma RankInjective(r: nat, c: nat, r': nat, c': nat)
    requires r < 8 && c < 8 && r' < 8 && c' < 8 && Rank(r, c) == Rank(r', c')
    ensures r == r' && c == c'
  {
    hide RankTop;
    TopBelow(r, c);
    TopBelow(r', c');
    TopBelow(7 - r, 7 - c);
    TopBelow(7 - r', 7 - c');
    if r + c < 8 {
      TopInjective(r, c, r', c');
    } else {
      TopInjective(7 - r, 7 - c, 7 - r', 7 - c');
    }
  }

  datatype Coefficients = Coefficients(values: seq<int>, end: nat) | Broken

  /**
    The AC coefficients from place k on (figure F.13): a symbol gives a run of zeros and the size of the next
    coefficient, whose bits follow; size 0 ends the block, or skips 16 places after a run of 15.
   */
  ghost function AcFrom(L: lengths, values: seq<byte>, data: seq<byte>, p: nat, k: nat, coeffs: seq<int>): Coefficients
    requires |L| <= |values| && |coeffs| == 64
    decreases 64 - k
  {
    if k >= 64 then Coefficients(coeffs, p)
    else
      var i := CodeAt(L, data, p);
      if i < 0 then Broken
      else
        var q, rs: nat := p + L[i], values[i];
        var run, size := rs / 16, rs % 16;
        if size == 0 then
          if rs == 0xF0 then AcFrom(L, values, data, q, k + 16, coeffs) else Coefficients(coeffs, q)
        else
          AcFrom(L, values, data, q + size, k + run + 1,
                 coeffs[Dezigzag(k + run) := Extend(Window(data, q, size), size)])
  }
}
