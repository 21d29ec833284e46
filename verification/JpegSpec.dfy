/** Huffman decoding of JPEG coefficients (Annex C and section F.2.2 of ITU-T T.81). */
module JpegSpec {
  import opened Words
  import opened Canonical

  /** The size list of a table: count[i] codes of i+1 bits each, shortest first. */
  function Sizes(count: seq<nat>, n: nat): lengths
    requires n <= |count|
  {
    if n == 0 then [] else Sizes(count, n - 1) + Repeat(n, count[n - 1])
  }

  predicate Ascending(L: lengths) {
    forall i, j :: 0 <= i <= j < |L| ==> L[i] <= L[j]
  }

  predicate Positive(L: lengths) {
    forall i :: 0 <= i < |L| ==> L[i] > 0
  }

  lemma {:induction false} SizesAscend(count: seq<nat>, n: nat)
    requires n <= |count|
    ensures Ascending(Sizes(count, n)) && Positive(Sizes(count, n)) && Bounded(Sizes(count, n), n)
    decreases n
  {
    if n == 0 {
    } else {
      SizesAscend(count, n - 1);
    }
  }

  /** There are as many codes of each size as the table says. */
  lemma {:induction false} SizesCount(count: seq<nat>, n: nat, s: nat)
    requires n <= |count| && 0 < s
    ensures Count(Sizes(count, n), s) == if s <= n then count[s - 1] else 0
    decreases n
  {
    if n == 0 {
    } else {
      SizesCount(count, n - 1, s);
      AppendedCount(Sizes(count, n - 1), n, count[n - 1], s);
    }
  }

  lemma {:induction false} AppendedCount(L: lengths, v: nat, n: nat, s: nat)
    ensures Count(L + Repeat(v, n), s) == Count(L, s) + if v == s then n else 0
    decreases n
  {
    if n == 0 {
      assert L + Repeat(v, 0) == L;
    } else {
      AppendedCount(L, v, n - 1, s);
      var longer := L + Repeat(v, n);
      PrefixCount(L + Repeat(v, n - 1), longer, |longer| - 1, s);
    }
  }

  lemma {:induction false} PrefixCount(L: lengths, M: lengths, n: nat, s: nat)
    requires n <= |L| && n <= |M| && L[..n] == M[..n]
    ensures CountTo(L, n, s) == CountTo(M, n, s)
    decreases n
  {
    if n == 0 {
    } else {
      assert L[..n][n - 1] == M[..n][n - 1];
      assert L[..n - 1] == L[..n][..n - 1] && M[..n - 1] == M[..n][..n - 1];
      PrefixCount(L, M, n - 1, s);
    }
  }

  /** In an ascending list the symbols are already in code order. */
  lemma SlotIsIndex(L: lengths, i: nat)
    requires Ascending(L) && Positive(L) && i < |L|
    ensures Slot(L, i) == i
  {
    AllShorter(L, i, L[i] + 1);
    ShorterStops(L, i, |L|, L[i]);
  }

  /** If the first n codes are all below s bits, they are all counted. */
  lemma {:induction false} AllShorter(L: lengths, n: nat, s: nat)
    requires n <= |L| && Positive(L) && forall j :: 0 <= j < n ==> L[j] < s
    ensures ShorterTo(L, n, s) == n
    decreases n
  {
    if n > 0 {
      ShorterStep(L, n - 1, s);
      AllShorter(L, n - 1, s);
    } else {
      ShorterNone(L, s);
    }
  }

  lemma {:induction false} ShorterStops(L: lengths, i: nat, n: nat, s: nat)
    requires i <= n <= |L| && forall j :: i <= j < n ==> L[j] >= s
    ensures ShorterTo(L, n, s) == ShorterTo(L, i, s)
    decreases n
  {
    if n <= i {
    } else {
      ShorterStep(L, n - 1, s);
      ShorterStops(L, i, n - 1, s);
    }
  }

  // ----- one symbol -----

  /** A 32-bit buffer with the next bits at the top, and how many are valid. */
  datatype Buffer = Buffer(word: nat, bits: int)

  /** `word << n`, in 32 bits. */
  function Shl32(word: nat, n: nat): nat {
    Low(word * Pow2(n), 32)
  }

  function Consume(b: Buffer, n: nat): Buffer {
    Buffer(Shl32(b.word, n), b.bits - n)
  }

  datatype Read = Read(value: int, rest: Buffer)

  /** The code that the 16-bit word k starts with, or -1. */
  ghost function Matching(L: lengths, k: nat): (i: int)
    ensures i >= 0 ==> Matches(L, i, k, 16)
    ensures i < 0 ==> i == -1 && forall j: nat :: !Matches(L, j, k, 16)
  {
    if exists j: nat :: Matches(L, j, k, 16) then
      var j: nat :| Matches(L, j, k, 16);
      j
    else -1
  }

  /** The code at the top of the buffer, or -1. */
  ghost function CodeAtTop(L: lengths, word: nat): (i: int)
    ensures i >= 0 ==> Matches(L, i, Shr(word, 16), 16)
    ensures i < 0 ==> i == -1 && forall j: nat :: !Matches(L, j, Shr(word, 16), 16)
  {
    Matching(L, Shr(word, 16))
  }

  lemma CodeAtTopIs(L: lengths, word: nat, i: nat)
    requires Matches(L, i, Shr(word, 16), 16)
    ensures CodeAtTop(L, word) == i
  {
    MatchUnique(L, i, CodeAtTop(L, word), Shr(word, 16), 16);
  }

  /**
    Canonical decoding: the value whose code is at the top of the buffer.  Without a
    match 16 bits are given up; a code longer than the valid bits is not consumed.
   */
  ghost function DecodeSymbol(L: lengths, values: seq<byte>, b: Buffer): Read
    requires |L| <= |values|
  {
    var i := CodeAtTop(L, b.word);
    if i < 0 then Read(-1, b.(bits := b.bits - 16))
    else if L[i] > b.bits then Read(-1, b)
    else Read(values[i], Consume(b, L[i]))
  }

  /** EXTEND of figure F.12: an n-bit magnitude with its sign restored. */
  function Extend(v: nat, n: nat): int
    requires n > 0
  {
    if v < Pow2(n - 1) then v - Pow2(n) + 1 else v
  }

  /** RECEIVE and EXTEND: the next n bits as a signed coefficient. */
  function ReceiveExtend(b: Buffer, n: nat): Read
    requires 0 < n <= 16
  {
    Read(Extend(Shr(b.word, 32 - n), n), Consume(b, n))
  }
}
