/**
  The bit stream of RFC 1951, section 3.1.1: bits are packed into bytes starting
  at the least significant bit.  Past the last byte the stream reads as zeros.
 */
module BitStream {
  import opened Words

  function BitAt(input: seq<byte>, p: nat): (b: nat)
    ensures b <= 1
  {
    if p / 8 < |input| then Bit(input[p / 8], p % 8) else 0
  }

  /** The next n bits from p as a number, first bit least significant. */
  function Lsb(input: seq<byte>, p: nat, n: nat): nat
    decreases n
  {
    if n == 0 then 0 else BitAt(input, p) + 2 * Lsb(input, p + 1, n - 1)
  }

  /** The next n bits from p as a number, first bit most significant. */
  function Msb(input: seq<byte>, p: nat, n: nat): nat
    decreases n
  {
    if n == 0 then 0 else 2 * Msb(input, p, n - 1) + BitAt(input, p + n - 1)
  }

  lemma {:induction false} LsbBound(input: seq<byte>, p: nat, n: nat)
    ensures Lsb(input, p, n) < Pow2(n)
    decreases n
  {
    if n == 0 {
    } else {
      LsbBound(input, p + 1, n - 1);
    }
  }

  lemma {:induction false} LsbConcat(input: seq<byte>, p: nat, m: nat, n: nat)
    ensures Lsb(input, p, m + n) == Lsb(input, p, m) + Lsb(input, p + m, n) * Pow2(m)
    decreases m
  {
    if m == 0 {
    } else {
      LsbConcat(input, p + 1, m - 1, n);
      var rest := Lsb(input, p + m, n);
      assert Lsb(input, p + 1, m + n - 1) == Lsb(input, p + 1, m - 1) + rest * Pow2(m - 1);
      Twice(rest, m);
    }
  }

  /** Consuming m bits of a reservoir. */
  lemma LsbSplit(input: seq<byte>, p: nat, n: nat, m: nat)
    requires m <= n
    ensures Low(Lsb(input, p, n), m) == Lsb(input, p, m)
    ensures Shr(Lsb(input, p, n), m) == Lsb(input, p + m, n - m)
  {
    LsbConcat(input, p, m, n - m);
    LsbBound(input, p, m);
    SplitUnique(Lsb(input, p, n), m, Lsb(input, p + m, n - m), Lsb(input, p, m));
  }

  lemma {:induction false} LsbPastEnd(input: seq<byte>, p: nat, n: nat)
    requires 8 * |input| <= p
    ensures Lsb(input, p, n) == 0
    decreases n
  {
    if n == 0 {
    } else {
      LsbPastEnd(input, p + 1, n - 1);
    }
  }

  /** A whole byte read at a byte boundary. */
  lemma LsbByte(input: seq<byte>, c: nat)
    requires c < |input|
    ensures Lsb(input, 8 * c, 8) == input[c]
  {
    assert Pow2(8) == 256;
    LsbWithinByte(input, c, 8);
    SplitUnique(input[c], 8, 0, input[c]);
  }

  lemma {:induction false} LsbWithinByte(input: seq<byte>, c: nat, n: nat)
    requires c < |input| && n <= 8
    ensures Lsb(input, 8 * c + 8 - n, n) == Low(Shr(input[c], 8 - n), n)
    decreases n
  {
    if n == 0 {
    } else {
      var p := 8 * c + 8 - n;
      assert p / 8 == c && p % 8 == 8 - n;
      BitOfShr(input[c], 8 - n, 0);
      ShrShr(input[c], 8 - n, 1);
      LsbWithinByte(input, c, n - 1);
    }
  }

  /** The first bit of an MSB-first number is its leading digit. */
  lemma {:induction false} MsbFirst(input: seq<byte>, p: nat, n: nat)
    requires n > 0
    ensures Msb(input, p, n) == BitAt(input, p) * Pow2(n - 1) + Msb(input, p + 1, n - 1)
    decreases n
  {
    if n <= 1 {
    } else {
      MsbFirst(input, p, n - 1);
    }
  }

  /** Reversing the reservoir's low digits gives the MSB-first reading. */
  lemma {:induction false} RevOfLsb(input: seq<byte>, p: nat, n: nat, m: nat)
    requires m <= n
    ensures Rev(Lsb(input, p, n), m) == Msb(input, p, m)
    decreases m
  {
    if m == 0 {
    } else {
      RevOfLsb(input, p + 1, n - 1, m - 1);
      MsbFirst(input, p, m);
    }
  }

  lemma {:induction false} MsbBound(input: seq<byte>, p: nat, n: nat)
    ensures Msb(input, p, n) < Pow2(n)
    decreases n
  {
    hide BitAt;
    if n == 0 {
    } else {
      MsbBound(input, p, n - 1);
    }
  }

  /** A prefix of an MSB-first window is the window shifted down. */
  lemma {:induction false} MsbPrefix(input: seq<byte>, p: nat, n: nat, m: nat)
    requires m <= n
    ensures Msb(input, p, m) == Shr(Msb(input, p, n), n - m)
    decreases n - m
  {
    if n <= m {
    } else {
      MsbPrefix(input, p, n, m + 1);
      ShrShr(Msb(input, p, n), n - m - 1, 1);
    }
  }

  // ----- writing -----

  type bits = seq<bool>

  function Digit(b: bool): nat {
    if b then 1 else 0
  }

  /** The stream carries the bits s from position p on. */
  ghost predicate Carries(input: seq<byte>, p: nat, s: bits) {
    forall i :: 0 <= i < |s| ==> BitAt(input, p + i) == Digit(s[i])
  }

  /** v in n bits, least significant first. */
  function LsbBits(v: nat, n: nat): (s: bits)
    ensures |s| == n
    decreases n
  {
    if n == 0 then [] else [v % 2 == 1] + LsbBits(v / 2, n - 1)
  }

  /** v in n bits, most significant first. */
  function MsbBits(v: nat, n: nat): (s: bits)
    ensures |s| == n
    decreases n
  {
    if n == 0 then [] else MsbBits(v / 2, n - 1) + [v % 2 == 1]
  }

  lemma CarriesParts(input: seq<byte>, p: nat, s: bits, t: bits)
    requires Carries(input, p, s + t)
    ensures Carries(input, p, s) && Carries(input, p + |s|, t)
  {
    forall i | 0 <= i < |s| ensures BitAt(input, p + i) == Digit(s[i]) {
      assert (s + t)[i] == s[i];
    }
    forall i | 0 <= i < |t| ensures BitAt(input, p + |s| + i) == Digit(t[i]) {
      assert (s + t)[|s| + i] == t[i];
      assert BitAt(input, p + (|s| + i)) == Digit((s + t)[|s| + i]);
    }
  }

  lemma {:induction false} ReadLsb(input: seq<byte>, p: nat, v: nat, n: nat)
    requires v < Pow2(n) && Carries(input, p, LsbBits(v, n))
    ensures Lsb(input, p, n) == v
    decreases n
  {
    if n == 0 {
    } else {
      CarriesParts(input, p, [v % 2 == 1], LsbBits(v / 2, n - 1));
      assert BitAt(input, p + 0) == Digit([v % 2 == 1][0]);
      ReadLsb(input, p + 1, v / 2, n - 1);
    }
  }

  lemma {:induction false} ReadMsb(input: seq<byte>, p: nat, v: nat, n: nat)
    requires v < Pow2(n) && Carries(input, p, MsbBits(v, n))
    ensures Msb(input, p, n) == v
    decreases n
  {
    if n == 0 {
    } else {
      CarriesParts(input, p, MsbBits(v / 2, n - 1), [v % 2 == 1]);
      assert BitAt(input, p + (n - 1) + 0) == Digit([v % 2 == 1][0]);
      ReadMsb(input, p, v / 2, n - 1);
    }
  }

  /** The number of padding bits up to the next byte boundary. */
  function PadTo8(p: nat): (k: nat)
    ensures k < 8 && (p + k) % 8 == 0
  {
    (8 - p % 8) % 8
  }

  /** The bits as bytes, the last byte padded with zeros. */
  function Pack(s: bits): (r: seq<byte>)
    ensures |r| == (|s| + 7) / 8
    decreases |s|
  {
    if s == [] then []
    else if |s| < 8 then [FromBits(s)]
    else [FromBits(s[..8])] + Pack(s[8..])
  }

  function FromBits(s: bits): (v: nat)
    ensures v < Pow2(|s|)
    ensures |s| <= 8 ==> v < 256
  {
    if s == [] then 0 else
      var v := Digit(s[0]) + 2 * FromBits(s[1..]);
      assert |s| <= 8 ==> Pow2(|s|) <= 256 by {
        if |s| <= 8 {
          Pow2Mono(|s|, 8);
          assert Pow2(8) == 256;
        }
      }
      v
  }

  lemma {:induction false} BitOfFromBits(s: bits, i: nat)
    requires i < |s|
    ensures Bit(FromBits(s), i) == Digit(s[i])
    decreases |s|
  {
    if i == 0 {
    } else {
      BitOfFromBits(s[1..], i - 1);
    }
  }

  /** Packing and reading back gives the same bits. */
  lemma {:induction false} PackCarries(s: bits)
    ensures Carries(Pack(s), 0, s)
    decreases |s|
  {
    forall i | 0 <= i < |s| ensures BitAt(Pack(s), 0 + i) == Digit(s[i]) {
      PackedBit(s, i);
    }
  }

  lemma {:induction false} PackedBit(s: bits, i: nat)
    requires i < |s|
    ensures BitAt(Pack(s), i) == Digit(s[i])
    decreases |s|
  {
    if |s| < 8 {
      BitOfFromBits(s, i);
    } else if i < 8 {
      BitOfFromBits(s[..8], i);
    } else {
      PackedBit(s[8..], i - 8);
      assert (i - 8) / 8 == i / 8 - 1 && (i - 8) % 8 == i % 8;
    }
  }
}
