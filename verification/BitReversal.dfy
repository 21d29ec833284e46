/** The word reversal of stb_image's inflate: exchange neighbours, pairs, nibbles, bytes. */
module BitReversal {
  import opened Words

  /** One round: exchange the digits under `high` with those under `low`, `sh` places below. */
  function SwapRound(n: nat, high: nat, low: nat, sh: nat): nat {
    BitOr(Shr(BitAnd(n, high), sh), BitAnd(n, low) * Pow2(sh))
  }

  function BitReverse16(n: nat): nat {
    var n1 := SwapRound(n, 0xAAAA, 0x5555, 1);
    var n2 := SwapRound(n1, 0xCCCC, 0x3333, 2);
    var n4 := SwapRound(n2, 0xF0F0, 0x0F0F, 4);
    SwapRound(n4, 0xFF00, 0x00FF, 8)
  }

  function BitReverse(v: nat, bits: nat): nat
    requires bits <= 16
  {
    Shr(BitReverse16(v), 16 - bits)
  }

  lemma SwapRoundBit(n: nat, high: nat, low: nat, sh: nat, i: nat)
    ensures Bit(SwapRound(n, high, low, sh), i)
         == if (Bit(high, i + sh) == 1 && Bit(n, i + sh) == 1)
             || (sh <= i && Bit(low, i - sh) == 1 && Bit(n, i - sh) == 1) then 1 else 0
  {
    hide Bit, BitOr, BitAnd, Shr, Pow2;
    BitOfOr(Shr(BitAnd(n, high), sh), BitAnd(n, low) * Pow2(sh), i);
    BitOfShr(BitAnd(n, high), sh, i);
    BitOfAnd(n, high, i + sh);
    BitOfShl(BitAnd(n, low), sh, i);
    if sh <= i {
      BitOfAnd(n, low, i - sh);
    }
  }

  // ----- the four mask pairs -----

  lemma NibbleDigits(n3: nat, n2: nat, n1: nat, n0: nat, i: nat)
    requires n3 < 16 && n2 < 16 && n1 < 16 && n0 < 16
    ensures Bit(n0 + 16 * (n1 + 16 * (n2 + 16 * n3)), i)
         == if i < 4 then Bit(n0, i) else if i < 8 then Bit(n1, i - 4)
            else if i < 12 then Bit(n2, i - 8) else Bit(n3, i - 12)
  {
    hide Bit, Pow2;
    SmallPowers();
    BitOfConcat(n0, n1 + 16 * (n2 + 16 * n3), 4, i);
    if 4 <= i {
      BitOfConcat(n1, n2 + 16 * n3, 4, i - 4);
      if 8 <= i {
        BitOfConcat(n2, n3, 4, i - 8);
      }
    }
  }

  /** A mask repeating one nibble. */
  lemma RepeatedNibble(n: nat, i: nat)
    requires n < 16
    ensures Bit(n * 0x1111, i) == if i < 16 then Bit(n, i % 4) else 0
  {
    hide Bit, Pow2;
    SmallPowers();
    NibbleDigits(n, n, n, n, i);
    assert n + 16 * (n + 16 * (n + 16 * n)) == n * 0x1111;
    if 16 <= i {
      BitAbove(n, 4, i - 12);
    } else {
      assert i % 4 == if i < 4 then i else if i < 8 then i - 4 else if i < 12 then i - 8 else i - 12;
    }
  }

  lemma SmallDigits(j: nat)
    requires j < 4
    ensures Bit(10, j) == j % 2 && Bit(5, j) == 1 - j % 2
    ensures Bit(12, j) == j / 2 && Bit(3, j) == 1 - j / 2
    ensures Bit(15, j) == 1 && Bit(0, j) == 0
  {
    assert j == 0 || j == 1 || j == 2 || j == 3;
    assert Bit(10, 2) == 0 && Bit(10, 3) == 1 && Bit(5, 2) == 1 && Bit(5, 3) == 0;
    assert Bit(12, 2) == 1 && Bit(12, 3) == 1 && Bit(3, 2) == 0 && Bit(3, 3) == 0;
    assert Bit(15, 2) == 1 && Bit(15, 3) == 1 && Bit(0, 2) == 0 && Bit(0, 3) == 0;
  }

  lemma Mask1(i: nat)
    ensures Bit(0xAAAA, i) == if i < 16 && 1 <= i % 2 then 1 else 0
    ensures Bit(0x5555, i) == if i < 16 && i % 2 < 1 then 1 else 0
  {
    hide Bit;
    RepeatedNibble(10, i);
    RepeatedNibble(5, i);
    SmallDigits(i % 4);
  }

  lemma Mask2(i: nat)
    ensures Bit(0xCCCC, i) == if i < 16 && 2 <= i % 4 then 1 else 0
    ensures Bit(0x3333, i) == if i < 16 && i % 4 < 2 then 1 else 0
  {
    hide Bit;
    RepeatedNibble(12, i);
    RepeatedNibble(3, i);
    SmallDigits(i % 4);
  }

  lemma Mask4(i: nat)
    ensures Bit(0xF0F0, i) == if i < 16 && 4 <= i % 8 then 1 else 0
    ensures Bit(0x0F0F, i) == if i < 16 && i % 8 < 4 then 1 else 0
  {
    hide Bit;
    NibbleDigits(15, 0, 15, 0, i);
    NibbleDigits(0, 15, 0, 15, i);
    NibbleEdges(i);
  }

  lemma Mask8(i: nat)
    ensures Bit(0xFF00, i) == if 8 <= i < 16 then 1 else 0
    ensures Bit(0x00FF, i) == if i < 8 then 1 else 0
  {
    hide Bit;
    NibbleDigits(15, 15, 0, 0, i);
    NibbleDigits(0, 0, 15, 15, i);
    NibbleEdges(i);
  }

  lemma NibbleEdges(i: nat)
    ensures i < 16 ==> Bit(15, i % 4) == 1
    ensures 12 <= i ==> Bit(15, i - 12) == if i < 16 then 1 else 0
    ensures forall j: nat :: Bit(0, j) == 0
  {
    hide Bit, Pow2;
    SmallPowers();
    forall j: nat ensures Bit(0, j) == 0 {
      BitZero(j);
    }
    SmallDigits(i % 4);
    if 12 <= i < 16 {
      assert i - 12 == i % 4;
    } else if 16 <= i {
      BitAbove(15, 4, i - 12);
    }
  }

  lemma Round1(n: nat, i: nat)
    ensures Bit(SwapRound(n, 0xAAAA, 0x5555, 1), i)
         == if 16 <= i then 0 else if i % 2 < 1 then Bit(n, i + 1) else Bit(n, i - 1)
  {
    hide Bit, SwapRound;
    SwapRoundBit(n, 0xAAAA, 0x5555, 1, i);
    Mask1(i + 1);
    if 1 <= i {
      Mask1(i - 1);
    }
  }

  lemma Round2(n: nat, i: nat)
    ensures Bit(SwapRound(n, 0xCCCC, 0x3333, 2), i)
         == if 16 <= i then 0 else if i < 2 || i % 4 < 2 then Bit(n, i + 2) else Bit(n, i - 2)
  {
    hide Bit, SwapRound;
    SwapRoundBit(n, 0xCCCC, 0x3333, 2, i);
    Mask2(i + 2);
    if 2 <= i {
      Mask2(i - 2);
    }
  }

  lemma Round4(n: nat, i: nat)
    ensures Bit(SwapRound(n, 0xF0F0, 0x0F0F, 4), i)
         == if 16 <= i then 0 else if i < 4 || i % 8 < 4 then Bit(n, i + 4) else Bit(n, i - 4)
  {
    hide Bit, SwapRound;
    SwapRoundBit(n, 0xF0F0, 0x0F0F, 4, i);
    Mask4(i + 4);
    if 4 <= i {
      Mask4(i - 4);
    }
  }

  lemma Round8(n: nat, i: nat)
    ensures Bit(SwapRound(n, 0xFF00, 0x00FF, 8), i)
         == if 16 <= i then 0 else if i < 8 then Bit(n, i + 8) else Bit(n, i - 8)
  {
    hide Bit, SwapRound;
    SwapRoundBit(n, 0xFF00, 0x00FF, 8, i);
    Mask8(i + 8);
    if 8 <= i {
      Mask8(i - 8);
    }
  }

  // ----- the whole reversal -----

  lemma {:induction false} BoundByBits(a: nat, n: nat)
    requires forall i: nat :: n <= i ==> Bit(a, i) == 0
    ensures a < Pow2(n)
    decreases n, a
  {
    if a == 0 {
    } else {
      assert n == 0 ==> Bit(a, 0) == 0;
      var n' := if n == 0 then 0 else n - 1;
      forall i: nat | n' <= i ensures Bit(a / 2, i) == 0 {
        assert Bit(a, i + 1) == 0;
      }
      BoundByBits(a / 2, n');
    }
  }

  /** The four rounds reverse the low 16 digits and drop the others. */
  lemma BitReverse16IsRev(n: nat)
    ensures BitReverse16(n) == Rev(n, 16)
  {
    hide Bit, Rev, SwapRound;
    var n8 := BitReverse16(n);
    forall i | 0 <= i < 16 ensures Bit(n8, i) == Bit(Rev(n, 16), i) {
      ReversedDigit(n, i);
      BitOfRev(n, 16, i);
    }
    forall i: nat | 16 <= i ensures Bit(n8, i) == 0 {
      Round8(SwapRound(SwapRound(SwapRound(n, 0xAAAA, 0x5555, 1), 0xCCCC, 0x3333, 2), 0xF0F0, 0x0F0F, 4), i);
    }
    BoundByBits(n8, 16);
    RevBound(n, 16);
    SameBits(n8, Rev(n, 16), 16);
  }

  lemma ReversedDigit(n: nat, i: nat)
    requires i < 16
    ensures Bit(BitReverse16(n), i) == Bit(n, 15 - i)
  {
    hide Bit, SwapRound;
    var n1 := SwapRound(n, 0xAAAA, 0x5555, 1);
    var n2 := SwapRound(n1, 0xCCCC, 0x3333, 2);
    var n4 := SwapRound(n2, 0xF0F0, 0x0F0F, 4);
    var i4 := if i < 8 then i + 8 else i - 8;
    var i2 := if i4 % 8 < 4 then i4 + 4 else i4 - 4;
    var i1 := if i2 % 4 < 2 then i2 + 2 else i2 - 2;
    assert Bit(BitReverse16(n), i) == Bit(n4, i4) by { Round8(n4, i); }
    assert Bit(n4, i4) == Bit(n2, i2) by { Round4(n2, i4); }
    assert Bit(n2, i2) == Bit(n1, i1) by { Round2(n1, i2); }
    Round1(n, i1);
    RoundTrip(i, i4, i2, i1);
  }

  lemma RoundTrip(i: nat, i4: nat, i2: nat, i1: nat)
    requires i < 16
    requires i4 == if i < 8 then i + 8 else i - 8
    requires i2 == if i4 % 8 < 4 then i4 + 4 else i4 - 4
    requires i1 == if i2 % 4 < 2 then i2 + 2 else i2 - 2
    ensures i4 < 16 && i2 < 16 && i1 < 16
    ensures 15 - i == if i1 % 2 < 1 then i1 + 1 else i1 - 1
  {
  }

  /** Reversing 16 digits and shifting reverses the low `bits` digits of a short word. */
  lemma BitReverseIsRev(v: nat, bits: nat)
    requires bits <= 16 && v < Pow2(bits)
    ensures BitReverse(v, bits) == Rev(v, bits)
  {
    BitReverse16IsRev(v);
    RevExtend(v, bits, 16 - bits);
    SplitUnique(Rev(v, 16), 16 - bits, Rev(v, bits), 0);
  }

  lemma {:induction false} RevExtend(v: nat, s: nat, n: nat)
    requires v < Pow2(s)
    ensures Rev(v, s + n) == Rev(v, s) * Pow2(n)
    decreases s
  {
    if s == 0 {
      RevZero(n);
    } else {
      RevExtend(v / 2, s - 1, n);
      Pow2Add(s - 1, n);
      if v % 2 == 1 {
        Distribute(Pow2(s - 1), Rev(v / 2, s - 1), Pow2(n));
      }
    }
  }

  lemma Distribute(a: nat, b: nat, c: nat)
    ensures (a + b) * c == a * c + b * c
  {
  }
}
