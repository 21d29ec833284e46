/**
  Unsigned machine words as natural numbers.

  The C code works on words with `&`, `|`, `<<` and `>>`.  These operators are
  defined here digit by digit, and the lemmas say when they coincide with
  arithmetic and what they do to each digit.
 */
module Words {
  type byte = b: int | 0 <= b < 256

  function Pow2(n: nat): (p: nat)
    ensures p > 0
  {
    if n == 0 then 1 else 2 * Pow2(n - 1)
  }

  /** `a >> n` */
  function Shr(a: nat, n: nat): nat
    decreases n
  {
    if n == 0 then a else Shr(a / 2, n - 1)
  }

  /** The low n digits of a. */
  function Low(a: nat, n: nat): nat
    decreases n
  {
    if n == 0 then 0 else a % 2 + 2 * Low(a / 2, n - 1)
  }

  /** The i-th binary digit of a. */
  function Bit(a: nat, i: nat): (b: nat)
    ensures b <= 1
  {
    if i == 0 then a % 2 else Bit(a / 2, i - 1)
  }

  /** `a & b` */
  function BitAnd(a: nat, b: nat): nat
    decreases a
  {
    if a == 0 then 0 else (if a % 2 + b % 2 == 2 then 1 else 0) + 2 * BitAnd(a / 2, b / 2)
  }

  /** `a | b` */
  function BitOr(a: nat, b: nat): nat
    decreases a + b
  {
    if a + b == 0 then 0 else (if a % 2 + b % 2 > 0 then 1 else 0) + 2 * BitOr(a / 2, b / 2)
  }

  /** The low n digits of v in reverse order. */
  function Rev(v: nat, n: nat): nat
    decreases n
  {
    if n == 0 then 0 else (v % 2) * Pow2(n - 1) + Rev(v / 2, n - 1)
  }

  /** How many digits a has, without leading zeros. */
  function Digits(a: nat): (n: nat)
    ensures a < Pow2(n)
    ensures n > 0 ==> Pow2(n - 1) <= a
  {
    if a == 0 then 0 else 1 + Digits(a / 2)
  }

  // ----- arithmetic -----

  lemma Pow2Add(m: nat, n: nat)
    ensures Pow2(m + n) == Pow2(m) * Pow2(n)
  {
    if m != 0 {
      Pow2Add(m - 1, n);
    }
  }

  lemma SmallPowers()
    ensures Pow2(1) == 2 && Pow2(2) == 4 && Pow2(3) == 8 && Pow2(4) == 16 && Pow2(5) == 32
    ensures Pow2(6) == 64 && Pow2(7) == 128 && Pow2(8) == 256 && Pow2(9) == 512
  {
    assert Pow2(4) == 16;
    Pow2Add(4, 4);
  }

  lemma Pow2Of16()
    ensures Pow2(16) == 0x1_0000
  {
    assert Pow2(8) == 0x100;
    Pow2Add(8, 8);
  }

  lemma Pow2Of32()
    ensures Pow2(32) == 0x1_0000_0000
  {
    Pow2Of16();
    Pow2Add(16, 16);
  }

  lemma Pow2Mono(m: nat, n: nat)
    requires m <= n
    ensures Pow2(m) <= Pow2(n)
  {
    if m < n {
      Pow2Mono(m, n - 1);
    }
  }

  lemma DigitsAtMost(a: nat, n: nat)
    requires a < Pow2(n)
    ensures Digits(a) <= n
  {
    if Digits(a) > 0 {
      Pow2Less(Digits(a) - 1, n);
    }
  }

  lemma Pow2Less(m: nat, n: nat)
    requires Pow2(m) < Pow2(n)
    ensures m < n
  {
    if n <= m {
      Pow2Mono(n, m);
    }
  }

  lemma MulMono(a: int, b: int, c: int)
    requires a <= b && 0 <= c
    ensures a * c <= b * c
  {
  }

  lemma AndOneMore(a: nat, b: nat)
    ensures (a + 1) * b == a * b + b
  {
  }

  /** Shifting left once more doubles. */
  lemma Twice(a: nat, n: nat)
    requires n > 0
    ensures a * Pow2(n) == 2 * (a * Pow2(n - 1))
  {
  }

  /** A two-dimensional index determines its row and column. */
  lemma SameDigits(k: nat, c: nat, l: nat, d: nat, w: nat)
    requires c < w && d < w && k * w + c == l * w + d
    ensures k == l && c == d
  {
    if k < l {
      MulMono(k + 1, l, w);
    } else if l < k {
      MulMono(l + 1, k, w);
    }
  }

  // ----- quotients and remainders -----

  function Quo(n: nat, w: nat): nat
    requires w > 0
  {
    n / w
  }

  function Rem(n: nat, w: nat): (r: nat)
    requires w > 0
    ensures r < w
  {
    n % w
  }

  lemma QuoRem(n: nat, w: nat)
    requires w > 0
    ensures n == Quo(n, w) * w + Rem(n, w)
  {
  }

  lemma QuoRemUnique(n: nat, k: nat, c: nat, w: nat)
    requires c < w && n == k * w + c
    ensures Quo(n, w) == k && Rem(n, w) == c
  {
    hide Quo, Rem;
    QuoRem(n, w);
    SameDigits(Quo(n, w), Rem(n, w), k, c, w);
  }

  lemma QuoAtMost(n: nat, w: nat)
    requires w > 0
    ensures Quo(n, w) <= n
  {
    hide Quo, Rem;
    QuoRem(n, w);
    MulMono(1, w, Quo(n, w));
  }

  lemma DivMod(n: nat, d: nat, q: nat, r: nat)
    requires r < d && n == q * d + r
    ensures n / d == q && n % d == r
  {
    assert n == n / d * d + n % d;
    SameDigits(n / d, n % d, q, r, d);
  }

  /** Halves and quarters of n from its eighths. */
  lemma Eighths(n: nat)
    ensures n / 4 == 2 * (n / 8) + n % 8 / 4 && n % 4 == n % 8 % 4
    ensures n / 2 == 4 * (n / 8) + n % 8 / 2 && n % 2 == n % 8 % 2
  {
    var q, r := n / 8, n % 8;
    DivMod(n, 4, 2 * q + r / 4, r % 4);
    DivMod(n, 2, 4 * q + r / 2, r % 2);
  }

  /** Grids of every eighth, fourth and second place add up. */
  lemma GridsAddUp(n: nat)
    ensures (n + 7) / 8 + (n + 3) / 8 == (n + 3) / 4
    ensures (n + 3) / 4 + (n + 1) / 4 == (n + 1) / 2
    ensures (n + 1) / 2 + n / 2 == n
  {
    HalvesAddUp((n + 3) / 4);
    HalvesAddUp((n + 1) / 2);
    HalvesAddUp(n);
    HalfAgain(n + 3, 4);
    HalfAgain(n + 7, 4);
    HalfAgain(n + 1, 2);
    HalfAgain(n + 3, 2);
    DivMod(n + 7, 4, (n + 3) / 4 + 1, (n + 3) % 4);
    DivMod(n + 3, 2, (n + 1) / 2 + 1, (n + 1) % 2);
  }

  lemma HalvesAddUp(m: nat)
    ensures (m + 1) / 2 + m / 2 == m
  {
  }

  lemma HalfAgain(n: nat, d: nat)
    requires d == 2 || d == 4
    ensures n / (2 * d) == n / d / 2
  {
    var q, r := n / d, n % d;
    DivMod(n, 2 * d, q / 2, q % 2 * d + r);
  }

  // ----- shifts and low digits -----

  lemma {:induction false} Split(a: nat, n: nat)
    ensures a == Shr(a, n) * Pow2(n) + Low(a, n)
    ensures Low(a, n) < Pow2(n)
  {
    if n == 0 {
    } else {
      Split(a / 2, n - 1);
      Twice(Shr(a, n), n);
    }
  }

  lemma {:induction false} SplitUnique(a: nat, n: nat, q: nat, r: nat)
    requires r < Pow2(n) && a == q * Pow2(n) + r
    ensures Shr(a, n) == q && Low(a, n) == r
  {
    if n == 0 {
    } else {
      Twice(q, n);
      SplitUnique(a / 2, n - 1, q, r / 2);
    }
  }

  /** Comparing against a preshifted bound is comparing the shifted-down word. */
  lemma ShrLess(k: nat, n: nat, c: nat)
    ensures Shr(k, n) < c <==> k < c * Pow2(n)
  {
    Split(k, n);
    if Shr(k, n) < c {
      MulMono(Shr(k, n) + 1, c, Pow2(n));
      assert (Shr(k, n) + 1) * Pow2(n) == Shr(k, n) * Pow2(n) + Pow2(n);
    } else {
      MulMono(c, Shr(k, n), Pow2(n));
    }
  }

  lemma {:induction false} ShrShr(a: nat, m: nat, n: nat)
    ensures Shr(Shr(a, m), n) == Shr(a, m + n)
    decreases m
  {
    if m == 0 {
    } else {
      ShrShr(a / 2, m - 1, n);
    }
  }

  lemma {:induction false} LowLow(a: nat, m: nat, n: nat)
    requires n <= m
    ensures Low(Low(a, m), n) == Low(a, n)
    decreases n
  {
    if n == 0 {
    } else {
      LowLow(a / 2, m - 1, n - 1);
    }
  }

  lemma {:induction false} LowOfShr(a: nat, m: nat, n: nat)
    ensures Low(Shr(a, m), n) == Shr(Low(a, m + n), m)
    decreases m
  {
    if m == 0 {
    } else {
      LowOfShr(a / 2, m - 1, n);
    }
  }

  lemma {:induction false} LowOfShl(a: nat, m: nat, n: nat)
    ensures Low(a * Pow2(m), m + n) == Low(a, n) * Pow2(m)
    decreases m
  {
    if m == 0 {
    } else {
      hide Low, Pow2;
      Twice(a, m);
      LowTwice(a * Pow2(m - 1), m + n);
      LowOfShl(a, m - 1, n);
      Twice(Low(a, n), m);
    }
  }

  lemma LowTwice(x: nat, n: nat)
    requires n > 0
    ensures Low(2 * x, n) == 2 * Low(x, n - 1)
  {
    assert 2 * x % 2 == 0 && 2 * x / 2 == x;
  }

  lemma {:induction false} ShrOfShl(a: nat, m: nat, k: nat)
    ensures Shr(a * Pow2(m), m + k) == Shr(a, k)
    decreases m
  {
    if m == 0 {
    } else {
      hide Pow2;
      Twice(a, m);
      ShrTwice(a * Pow2(m - 1), m + k);
      ShrOfShl(a, m - 1, k);
    }
  }

  lemma ShrTwice(x: nat, n: nat)
    requires n > 0
    ensures Shr(2 * x, n) == Shr(x, n - 1)
  {
    assert 2 * x / 2 == x;
  }

  // ----- digits -----

  lemma {:induction false} BitZero(i: nat)
    ensures Bit(0, i) == 0
  {
    if i == 0 {
    } else {
      BitZero(i - 1);
    }
  }

  lemma {:induction false} BitOfAnd(a: nat, b: nat, i: nat)
    ensures Bit(BitAnd(a, b), i) == if Bit(a, i) + Bit(b, i) == 2 then 1 else 0
    decreases i
  {
    if a == 0 {
      BitZero(i);
    } else if i > 0 {
      BitOfAnd(a / 2, b / 2, i - 1);
    }
  }

  lemma {:induction false} BitOfOr(a: nat, b: nat, i: nat)
    ensures Bit(BitOr(a, b), i) == if Bit(a, i) + Bit(b, i) > 0 then 1 else 0
    decreases i
  {
    if a + b == 0 {
      BitZero(i);
    } else if i > 0 {
      BitOfOr(a / 2, b / 2, i - 1);
    }
  }

  lemma {:induction false} BitOfShr(a: nat, k: nat, i: nat)
    ensures Bit(Shr(a, k), i) == Bit(a, i + k)
    decreases k
  {
    if k == 0 {
    } else {
      BitOfShr(a / 2, k - 1, i);
    }
  }

  lemma {:induction false} BitOfLow(a: nat, n: nat, i: nat)
    requires i < n
    ensures Bit(Low(a, n), i) == Bit(a, i)
    decreases i
  {
    if i == 0 {
    } else {
      BitOfLow(a / 2, n - 1, i - 1);
    }
  }

  lemma {:induction false} BitOfShl(a: nat, k: nat, i: nat)
    ensures Bit(a * Pow2(k), i) == if i < k then 0 else Bit(a, i - k)
    decreases k
  {
    if k == 0 {
    } else {
      Twice(a, k);
      if i > 0 {
        BitOfShl(a, k - 1, i - 1);
      }
    }
  }

  lemma {:induction false} BitAbove(a: nat, n: nat, i: nat)
    requires a < Pow2(n) && n <= i
    ensures Bit(a, i) == 0
  {
    if n == 0 {
      BitZero(i);
    } else {
      BitAbove(a / 2, n - 1, i - 1);
    }
  }

  /** Words below 2^n with the same n digits are equal. */
  lemma {:induction false} SameBits(a: nat, b: nat, n: nat)
    requires a < Pow2(n) && b < Pow2(n)
    requires forall i :: 0 <= i < n ==> Bit(a, i) == Bit(b, i)
    ensures a == b
  {
    if n == 0 {
    } else {
      assert Bit(a, 0) == Bit(b, 0);
      forall i | 0 <= i < n - 1 ensures Bit(a / 2, i) == Bit(b / 2, i) {
        assert Bit(a, i + 1) == Bit(b, i + 1);
      }
      SameBits(a / 2, b / 2, n - 1);
    }
  }

  // ----- masks and joins -----

  /** `a & ((1 << n) - 1)` keeps the low n digits. */
  lemma {:induction false} MaskIsLow(a: nat, n: nat)
    ensures BitAnd(a, Pow2(n) - 1) == Low(a, n)
  {
    if n == 0 {
      AndZero(a);
    } else if a == 0 {
      LowZero(n);
    } else {
      MaskIsLow(a / 2, n - 1);
    }
  }

  lemma {:induction false} AndZero(a: nat)
    ensures BitAnd(a, 0) == 0
  {
    if a == 0 {
    } else {
      AndZero(a / 2);
    }
  }

  lemma {:induction false} LowZero(n: nat)
    ensures Low(0, n) == 0
  {
    if n == 0 {
    } else {
      LowZero(n - 1);
    }
  }

  /** `a | (b << n)` is a sum when a has at most n digits. */
  lemma {:induction false} JoinIsSum(a: nat, b: nat, n: nat)
    requires a < Pow2(n)
    ensures BitOr(a, b * Pow2(n)) == a + b * Pow2(n)
  {
    if n == 0 {
      OrZero(b);
    } else {
      Twice(b, n);
      OrTwice(a, b * Pow2(n - 1));
      JoinIsSum(a / 2, b, n - 1);
    }
  }

  lemma OrTwice(a: nat, x: nat)
    ensures BitOr(a, 2 * x) == a % 2 + 2 * BitOr(a / 2, x)
  {
    assert 2 * x / 2 == x && 2 * x % 2 == 0;
  }

  lemma {:induction false} OrZero(b: nat)
    ensures BitOr(0, b) == b
  {
    if b == 0 {
    } else {
      OrZero(b / 2);
    }
  }

  // ----- reversal -----

  lemma {:induction false} RevBound(v: nat, n: nat)
    ensures Rev(v, n) < Pow2(n)
  {
    if n == 0 {
    } else {
      RevBound(v / 2, n - 1);
      MulMono(v % 2, 1, Pow2(n - 1));
    }
  }

  lemma {:induction false} RevZero(n: nat)
    ensures Rev(0, n) == 0
  {
    if n == 0 {
    } else {
      RevZero(n - 1);
    }
  }

  lemma {:induction false} BitOfRev(v: nat, n: nat, i: nat)
    requires i < n
    ensures Bit(Rev(v, n), i) == Bit(v, n - 1 - i)
  {
    RevBound(v / 2, n - 1);
    BitOfConcat(Rev(v / 2, n - 1), v % 2, n - 1, i);
    if n - 1 <= i {
    } else {
      BitOfRev(v / 2, n - 1, i);
    }
  }

  /** The digits of `(b << n) | a` for an a of n digits. */
  lemma {:induction false} BitOfConcat(a: nat, b: nat, n: nat, i: nat)
    requires a < Pow2(n)
    ensures Bit(b * Pow2(n) + a, i) == if i < n then Bit(a, i) else Bit(b, i - n)
    decreases n
  {
    if n == 0 {
    } else {
      Twice(b, n);
      BitTwice(b * Pow2(n - 1), a, i);
      if i > 0 {
        BitOfConcat(a / 2, b, n - 1, i - 1);
      }
    }
  }

  lemma BitTwice(x: nat, a: nat, i: nat)
    ensures Bit(2 * x + a, i) == if i == 0 then a % 2 else Bit(x + a / 2, i - 1)
  {
    assert (2 * x + a) / 2 == x + a / 2;
  }

  /** Reversing n digits twice gives them back. */
  lemma {:induction false} RevRev(v: nat, n: nat)
    requires v < Pow2(n)
    ensures Rev(Rev(v, n), n) == v
  {
    RevBound(v, n);
    RevBound(Rev(v, n), n);
    forall i | 0 <= i < n ensures Bit(Rev(Rev(v, n), n), i) == Bit(v, i) {
      BitOfRev(Rev(v, n), n, i);
      BitOfRev(v, n, n - 1 - i);
    }
    SameBits(Rev(Rev(v, n), n), v, n);
  }
}
