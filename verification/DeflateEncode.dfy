/**
  An encoder for DEFLATE streams, as a specification: any mix of stored, fixed and
  dynamic blocks, any choice of codes, and any run-length coding of their lengths.
  Reading back what it writes gives what was written.
 */
module DeflateEncode {
  import opened Words
  import opened BitStream
  import opened Canonical
  import opened DeflateSpec
  import opened InflateSpec

  // ----- symbols -----

  /** The symbol has a code. */
  predicate Codable(L: lengths, i: nat) {
    i < |L| && L[i] > 0
  }

  /** The code of symbol i, most significant bit first. */
  function CodeBits(L: lengths, i: nat): (s: bits)
    requires Codable(L, i)
    ensures |s| == L[i]
  {
    MsbBits(CodeOf(L, i), L[i])
  }

  predicate GoodCode(L: lengths) {
    Bounded(L, MAX_LEN) && Fits(L, MAX_LEN)
  }

  lemma ReadCode(L: lengths, input: seq<byte>, p: nat, i: nat)
    requires GoodCode(L) && Codable(L, i) && Carries(input, p, CodeBits(L, i))
    ensures Symbol(L, input, p) == i
  {
    hide Carries, Msb, MsbBits, CodeOf, FirstCode;
    CodeRange(L, i);
    FitsBelow(L, L[i], MAX_LEN);
    ReadMsb(input, p, CodeOf(L, i), L[i]);
    SymbolUnique(L, input, p, i, MAX_LEN);
  }

  // ----- lengths and distances -----

  /** How many digits of n remain after its k + 1 leading ones: section 3.2.5 sends those as extra bits. */
  function Spare(n: nat, k: nat): nat {
    if Digits(n) <= k + 1 then 0 else Digits(n) - k - 1
  }

  /** The symbol whose number is made of how many digits are spare and what the leading ones are. */
  function Bucket(n: nat, k: nat): nat {
    hide Pow2, Spare, Shr;
    Spare(n, k) * Pow2(k) + Shr(n, Spare(n, k))
  }

  lemma BucketShape(n: nat, k: nat)
    ensures n < Pow2(k) ==> Spare(n, k) == 0 && Bucket(n, k) == n
    ensures Pow2(k) <= n ==> Pow2(k) <= Shr(n, Spare(n, k)) < 2 * Pow2(k)
  {
    var e := Spare(n, k);
    if n < Pow2(k) {
      DigitsAtMost(n, k);
    } else if e == 0 {
      Pow2Mono(Digits(n), k + 1);
    } else {
      hide Shr, Digits;
      Pow2Add(k, e);
      Pow2Add(k + 1, e);
      ShrLess(n, e, Pow2(k));
      ShrLess(n, e, 2 * Pow2(k));
    }
  }

  /** The symbol of a match length, and the value of its extra bits. */
  function LenSymbol(len: nat): nat
    requires 3 <= len <= 258
  {
    if len == 258 then 28 else Bucket(len - 3, 2)
  }

  function LenRest(len: nat): nat
    requires 3 <= len <= 258
  {
    if len == 258 then 0 else Low(len - 3, Spare(len - 3, 2))
  }

  function DistSymbol(dist: nat): nat
    requires 1 <= dist <= 32768
  {
    Bucket(dist - 1, 1)
  }

  function DistRest(dist: nat): nat
    requires 1 <= dist <= 32768
  {
    Low(dist - 1, Spare(dist - 1, 1))
  }

  lemma LenOfBucket(n: nat)
    requires n < 255
    ensures var z, e := Bucket(n, 2), Spare(n, 2);
            z < 28 && LengthExtra(z) == e && LengthBase(z) + Low(n, e) == 3 + n
  {
    SmallPowers();
    hide LengthBase, LengthExtra, Shr, Low, Digits, Pow2;
    var e := Spare(n, 2);
    DigitsAtMost(n, 8);
    BucketShape(n, 2);
    Split(n, e);
    var s := Shr(n, e);
    assert e <= 5 && Bucket(n, 2) == 4 * e + s;
    hide Spare, Bucket;
    if n < 4 {
      NoneSpare(n);
      FirstLengths(n);
    } else {
      LengthGroup(e, s - 4);
    }
  }

  lemma DistBuckets()
    ensures Pow2(1) == 2 && Pow2(15) == 32768
  {
    SmallPowers();
    Pow2Add(7, 8);
  }

  lemma DistOfBucket(n: nat)
    requires n < 32768
    ensures var d, e := Bucket(n, 1), Spare(n, 1);
            d < 30 && DistExtra(d) == e && DistBase(d) + Low(n, e) == 1 + n
  {
    DistBuckets();
    hide DistBase, DistExtra, Shr, Low, Digits, Pow2;
    var e := Spare(n, 1);
    DigitsAtMost(n, 15);
    BucketShape(n, 1);
    Split(n, e);
    var s := Shr(n, e);
    assert e <= 13 && Bucket(n, 1) == 2 * e + s;
    hide Spare, Bucket;
    if n < 2 {
      NoneSpare(n);
      FirstDists(n);
    } else {
      DistGroup(e, s - 2);
    }
  }

  lemma NoneSpare(n: nat)
    ensures Low(n, 0) == 0 && Pow2(0) == 1
  {
  }

  /** Every match length has a symbol whose base and extra bits give it. */
  lemma LenOfSymbol(len: nat)
    requires 3 <= len <= 258
    ensures var z := LenSymbol(len);
            z < 29 && LengthBase(z) + LenRest(len) == len && LenRest(len) < Pow2(LengthExtra(z))
  {
    hide LengthBase, LengthExtra, Low, Bucket, Spare;
    LengthEnds();
    LengthExtraLaw(28);
    if len < 258 {
      LenOfBucket(len - 3);
      Split(len - 3, Spare(len - 3, 2));
    }
  }

  /** So has every distance. */
  lemma DistOfSymbol(dist: nat)
    requires 1 <= dist <= 32768
    ensures var d := DistSymbol(dist);
            d < 30 && DistBase(d) + DistRest(dist) == dist && DistRest(dist) < Pow2(DistExtra(d))
  {
    hide DistBase, DistExtra, Low, Bucket, Spare;
    DistOfBucket(dist - 1);
    Split(dist - 1, Spare(dist - 1, 1));
  }

  // ----- tokens -----

  /** A byte, or a copy of `len` bytes from `dist` back. */
  datatype Token =
    | Literal(b: byte)
    | Copy(len: nat, dist: nat)

  predicate GoodToken(lit: lengths, dist: lengths, t: Token) {
    match t
    case Literal(b) => Codable(lit, b)
    case Copy(len, back) =>
      && 3 <= len <= 258 && Codable(lit, 257 + LenSymbol(len))
      && 1 <= back <= 32768 && Codable(dist, DistSymbol(back))
  }

  /** The bits of a match after its length symbol. */
  function MatchBits(dist: lengths, len: nat, back: nat): bits
    requires 3 <= len <= 258 && 1 <= back <= 32768 && Codable(dist, DistSymbol(back))
  {
    LenOfSymbol(len);
    DistOfSymbol(back);
    LsbBits(LenRest(len), LengthExtra(LenSymbol(len)))
      + (CodeBits(dist, DistSymbol(back)) + LsbBits(DistRest(back), DistExtra(DistSymbol(back))))
  }

  function TokenBits(lit: lengths, dist: lengths, t: Token): bits
    requires GoodToken(lit, dist, t)
  {
    match t
    case Literal(b) => CodeBits(lit, b)
    case Copy(len, back) => CodeBits(lit, 257 + LenSymbol(len)) + MatchBits(dist, len, back)
  }

  predicate GoodTokens(lit: lengths, dist: lengths, ts: seq<Token>) {
    forall t :: t in ts ==> GoodToken(lit, dist, t)
  }

  /** The tokens of a block and its end-of-block symbol. */
  function BlockBits(lit: lengths, dist: lengths, ts: seq<Token>): bits
    requires GoodTokens(lit, dist, ts) && Codable(lit, 256)
  {
    if ts == [] then CodeBits(lit, 256) else TokenBits(lit, dist, ts[0]) + BlockBits(lit, dist, ts[1..])
  }

  /** A match copies from what is there. */
  predicate InReach(t: Token, out: seq<byte>) {
    t.Copy? ==> 1 <= t.dist <= |out|
  }

  /** What one token appends. */
  function Apply(out: seq<byte>, t: Token): seq<byte>
    requires InReach(t, out)
  {
    match t
    case Literal(b) => out + [b]
    case Copy(len, back) => CopyMatch(out, len, back)
  }

  predicate AllInReach(out: seq<byte>, ts: seq<Token>)
    decreases |ts|
  {
    ts == [] || (InReach(ts[0], out) && AllInReach(Apply(out, ts[0]), ts[1..]))
  }

  function Expand(out: seq<byte>, ts: seq<Token>): seq<byte>
    requires AllInReach(out, ts)
    decreases |ts|
  {
    if ts == [] then out else Expand(Apply(out, ts[0]), ts[1..])
  }

  /** The symbols and extra bits of a match give its length and distance back. */
  lemma ReadMatchBits(dist: lengths, input: seq<byte>, p: nat, len: nat, back: nat)
    requires GoodCode(dist) && 3 <= len <= 258 && 1 <= back <= 32768 && Codable(dist, DistSymbol(back))
    requires Carries(input, p, MatchBits(dist, len, back))
    ensures LenSymbol(len) < 29
    ensures ReadMatch(dist, input, p, LenSymbol(len)) == Some(Match(len, back, p + |MatchBits(dist, len, back)|))
  {
    hide GoodCode, Carries, LsbBits, Lsb, LengthBase, DistBase, LengthExtra, DistExtra, CodeBits;
    hide LenSymbol, DistSymbol, LenRest, DistRest;
    LenOfSymbol(len);
    DistOfSymbol(back);
    var z, d := LenSymbol(len), DistSymbol(back);
    var c1, c2, c3 := LsbBits(LenRest(len), LengthExtra(z)), CodeBits(dist, d), LsbBits(DistRest(back), DistExtra(d));
    CarriesParts(input, p, c1, c2 + c3);
    CarriesParts(input, p + |c1|, c2, c3);
    ReadLsb(input, p, LenRest(len), LengthExtra(z));
    ReadCode(dist, input, p + |c1|, d);
    ReadLsb(input, p + |c1| + |c2|, DistRest(back), DistExtra(d));
  }

  lemma ReadToken(lit: lengths, dist: lengths, input: seq<byte>, p: nat, out: seq<byte>, t: Token)
    requires GoodCode(lit) && GoodCode(dist) && GoodToken(lit, dist, t) && InReach(t, out)
    requires Carries(input, p, TokenBits(lit, dist, t))
    ensures NextToken(lit, dist, input, State(p, out)) == Go(State(p + |TokenBits(lit, dist, t)|, Apply(out, t)))
  {
    hide GoodCode, Carries, CodeBits, MatchBits, CopyMatch, NextMatch, Pow2, Symbol;
    hide LenSymbol, DistSymbol;
    match t {
      case Literal(b) =>
        ReadCode(lit, input, p, b);
      case Copy(len, back) =>
        ReadCopy(lit, dist, input, p, out, len, back);
    }
  }

  lemma ReadCopy(lit: lengths, dist: lengths, input: seq<byte>, p: nat, out: seq<byte>, len: nat, back: nat)
    requires GoodCode(lit) && GoodCode(dist) && GoodToken(lit, dist, Copy(len, back)) && back <= |out|
    requires Carries(input, p, CodeBits(lit, 257 + LenSymbol(len)) + MatchBits(dist, len, back))
    ensures var z := LenSymbol(len);
            && z < 29 && Symbol(lit, input, p) == 257 + z
            && NextMatch(dist, input, State(p + lit[257 + z], out), z)
               == Go(State(p + |CodeBits(lit, 257 + z)| + |MatchBits(dist, len, back)|, CopyMatch(out, len, back)))
  {
    hide GoodCode, Carries, MatchBits, CodeBits, CopyMatch, ReadMatch, Pow2, Symbol, LenSymbol, DistSymbol;
    var c0 := CodeBits(lit, 257 + LenSymbol(len));
    CarriesParts(input, p, c0, MatchBits(dist, len, back));
    ReadCode(lit, input, p, 257 + LenSymbol(len));
    ReadMatchBits(dist, input, p + |c0|, len, back);
  }

  lemma ReadEnd(lit: lengths, dist: lengths, input: seq<byte>, p: nat, out: seq<byte>)
    requires GoodCode(lit) && Codable(lit, 256) && Carries(input, p, CodeBits(lit, 256))
    ensures NextToken(lit, dist, input, State(p, out)) == Stop(State(p + |CodeBits(lit, 256)|, out))
  {
    hide GoodCode, Carries, NextMatch;
    ReadCode(lit, input, p, 256);
  }

  lemma {:induction false} ReadTokens(lit: lengths, dist: lengths, input: seq<byte>, p: nat, out: seq<byte>,
                                      ts: seq<Token>)
    requires GoodCode(lit) && GoodCode(dist) && GoodTokens(lit, dist, ts) && Codable(lit, 256) && AllInReach(out, ts)
    requires Carries(input, p, BlockBits(lit, dist, ts))
    ensures BlockEnd(lit, dist, input, State(p, out)) == Some(State(p + |BlockBits(lit, dist, ts)|, Expand(out, ts)))
    decreases |ts|
  {
    hide GoodCode, Carries, BlockEnd, TokenBits, CodeBits, Apply, NextToken, GoodToken, InReach;
    BlockUnfold(lit, dist, input, State(p, out));
    if ts == [] {
      ReadEnd(lit, dist, input, p, out);
    } else {
      var b := TokenBits(lit, dist, ts[0]);
      CarriesParts(input, p, b, BlockBits(lit, dist, ts[1..]));
      ReadToken(lit, dist, input, p, out, ts[0]);
      ReadTokens(lit, dist, input, p + |b|, Apply(out, ts[0]), ts[1..]);
    }
  }
}
