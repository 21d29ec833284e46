/** The decoding tables of stb_image's inflate: `stbi__zhuffman` and `stbi__zbuild_huffman`. */
module ZHuffmanTable {
  import opened Words
  import opened BitReversal
  import opened Canonical

  const MAX_BITS: nat := 15
  const FAST_BITS: nat := 9
  const FAST_SIZE: nat := 512
  const NUM_SYMS: nat := 288

  class ZHuffman {
    const fast: array<nat>
    const firstcode: array<nat>
    const maxcode: array<nat>
    const firstsymbol: array<nat>
    const size: array<nat>
    const value: array<nat>

    constructor ()
      ensures Shape() && fresh(Repr())
    {
      fast := new nat[FAST_SIZE];
      firstcode := new nat[16];
      maxcode := new nat[17];
      firstsymbol := new nat[16];
      size := new nat[NUM_SYMS];
      value := new nat[NUM_SYMS];
    }

    ghost function Repr(): set<object> {
      {fast, firstcode, maxcode, firstsymbol, size, value}
    }

    /** Six buffers of the declared sizes. */
    ghost predicate Shape() {
      && fast.Length == FAST_SIZE && firstcode.Length == 16 && maxcode.Length == 17
      && firstsymbol.Length == 16 && size.Length == NUM_SYMS && value.Length == NUM_SYMS
      && fast != firstcode && fast != maxcode && fast != firstsymbol && fast != size && fast != value
      && firstcode != maxcode && firstcode != firstsymbol && firstcode != size && firstcode != value
      && maxcode != firstsymbol && maxcode != size && maxcode != value
      && firstsymbol != size && firstsymbol != value && size != value
    }

    ghost predicate Apart(a: array<nat>) {
      a != fast && a != firstcode && a != maxcode && a != firstsymbol && a != size && a != value
    }

    /** The per-length tables describe the canonical code of L. */
    ghost predicate LengthTables(L: lengths)
      reads firstcode, maxcode, firstsymbol
      requires Shape()
    {
      && (forall s :: 1 <= s <= MAX_BITS ==> LengthRow(L, s, firstcode[s], firstsymbol[s], maxcode[s]))
      && maxcode[16] == 0x1_0000
    }

    /** The first n symbols are listed in code order. */
    ghost predicate Listed(L: lengths, n: nat)
      reads size, value
      requires Shape() && n <= |L| <= NUM_SYMS
    {
      forall i :: 0 <= i < n && L[i] > 0 ==>
        SlotInRange(L, i) && size[Slot(L, i)] == L[i] && value[Slot(L, i)] == i
    }

    /** Entry j names the symbol among the first n whose code the 9-bit window j starts with, or is 0. */
    ghost predicate FastFor(L: lengths, n: nat)
      reads fast
      requires Shape() && n <= |L|
    {
      forall j :: 0 <= j < FAST_SIZE ==> FastEntry(L, n, j, fast[j])
    }

    ghost predicate Represents(L: lengths)
      reads Repr()
    {
      && Shape()
      && |L| <= NUM_SYMS && Bounded(L, MAX_BITS) && Fits(L, MAX_BITS)
      && LengthTables(L) && Listed(L, |L|) && FastFor(L, |L|)
    }

    /**
      `stbi__zbuild_huffman`.  A list is accepted exactly when its codes do not
      run out, and then the tables represent it, whatever they held before.
     */
    method Build(L: lengths) returns (ok: bool)
      requires Shape() && |L| <= NUM_SYMS && Bounded(L, MAX_BITS)
      modifies Repr()
      ensures ok <==> Fits(L, MAX_BITS)
      ensures ok <==> KraftSum(L, |L|, MAX_BITS) <= Pow2(MAX_BITS)
      ensures ok ==> Represents(L)
    {
      KraftIsEnd(L, MAX_BITS);
      for j := 0 to FAST_SIZE
        invariant forall k :: 0 <= k < j ==> fast[k] == 0
      {
        fast[j] := 0;
      }
      var sizes := CountSizes(L);
      for i := 1 to 16 {
        if sizes[i] > Pow2(i) {
          NotFits(L, i);
          return false;
        }
      }
      var nextCode := new nat[16];
      ok := AssignLengths(L, sizes, nextCode);
      if ok {
        assert FastFor(L, 0) && Listed(L, 0);
        PlaceSymbols(L, nextCode);
      }
    }

    /** The second loop of `stbi__zbuild_huffman`: first code, first slot and limit of each length. */
    method AssignLengths(L: lengths, sizes: array<nat>, nextCode: array<nat>) returns (ok: bool)
      requires Shape() && |L| <= NUM_SYMS
      requires sizes.Length == 17 && nextCode.Length == 16
      requires Apart(sizes) && Apart(nextCode) && sizes != nextCode
      requires forall s :: 1 <= s <= MAX_BITS ==> sizes[s] == Count(L, s)
      modifies firstcode, maxcode, firstsymbol, nextCode
      ensures ok <==> Fits(L, MAX_BITS)
      ensures ok ==> LengthTables(L)
      ensures ok ==> forall s :: 1 <= s <= MAX_BITS ==> nextCode[s] == FirstCode(L, s)
    {
      var code: nat, k: nat := 0, 0;
      StartOfLengths(L);
      hide Limit, FirstCode, FirstSlot, Count, Fits, LengthRow, ZHuffman.Assigned, ZHuffman.LengthTables;
      for i := 1 to 16
        invariant code == FirstCode(L, i) && k == FirstSlot(L, i)
        invariant Fits(L, i - 1) && Assigned(L, i, nextCode)
      {
        ok, code, k := AssignLength(L, i, code, k, sizes[i], nextCode);
        if !ok {
          NotFits(L, i);
          return;
        }
      }
      CloseLengths(L, nextCode);
      ok := true;
    }

    /** The limit no window reaches, above all lengths. */
    method CloseLengths(L: lengths, nextCode: array<nat>)
      requires Shape() && nextCode.Length == 16 && Apart(nextCode) && Assigned(L, 16, nextCode)
      modifies maxcode
      ensures LengthTables(L)
      ensures forall s :: 1 <= s <= MAX_BITS ==> nextCode[s] == FirstCode(L, s)
    {
      hide Limit, FirstCode, FirstSlot;
      maxcode[16] := 0x1_0000;
      forall s | 1 <= s <= MAX_BITS ensures LengthRow(L, s, firstcode[s], firstsymbol[s], maxcode[s]) {
      }
    }

    /** The lengths below n have their first code, first slot and limit. */
    ghost predicate Assigned(L: lengths, n: nat, nextCode: array<nat>)
      requires Shape() && n <= 16 <= nextCode.Length
      reads firstcode, firstsymbol, maxcode, nextCode
    {
      forall s :: 1 <= s < n ==>
        nextCode[s] == FirstCode(L, s) && LengthRow(L, s, firstcode[s], firstsymbol[s], maxcode[s])
    }

    /** One round of it. */
    method AssignLength(L: lengths, i: nat, code: nat, k: nat, size: nat, nextCode: array<nat>)
      returns (ok: bool, code': nat, k': nat)
      requires Shape() && nextCode.Length == 16 && Apart(nextCode) && 1 <= i <= MAX_BITS
      requires code == FirstCode(L, i) && k == FirstSlot(L, i) && size == Count(L, i)
      requires Fits(L, i - 1) && Assigned(L, i, nextCode)
      modifies firstcode, maxcode, firstsymbol, nextCode
      ensures ok <==> Fits(L, i)
      ensures ok ==> code' == FirstCode(L, i + 1) && k' == FirstSlot(L, i + 1) && Assigned(L, i + 1, nextCode)
    {
      hide Limit, FirstCode, FirstSlot, Count, Fits, Pow2;
      NextLength(L, i, code, k);
      nextCode[i] := code;
      firstcode[i] := code;
      firstsymbol[i] := k;
      code' := code + size;
      k' := k;
      if size > 0 && code' - 1 >= Pow2(i) {
        return false, code', k';
      }
      maxcode[i] := code' * Pow2(16 - i);
      code' := code' * 2;
      k' := k' + size;
      ok := true;
    }

    /** The third loop of `stbi__zbuild_huffman`: list each symbol and spread its fast entries. */
    method PlaceSymbols(L: lengths, nextCode: array<nat>)
      requires Shape() && |L| <= NUM_SYMS && Bounded(L, MAX_BITS) && Fits(L, MAX_BITS)
      requires nextCode.Length == 16 && Apart(nextCode)
      requires LengthTables(L) && FastFor(L, 0) && Listed(L, 0)
      requires forall s :: 1 <= s <= MAX_BITS ==> nextCode[s] == FirstCode(L, s)
      modifies fast, size, value, nextCode
      ensures Listed(L, |L|) && FastFor(L, |L|)
    {
      for i := 0 to |L|
        invariant forall s :: 1 <= s <= MAX_BITS ==> nextCode[s] == NextCode(L, i, s)
        invariant Listed(L, i) && FastFor(L, i)
      {
        var s := L[i];
        if s > 0 {
          PlaceSymbol(L, i, nextCode[s]);
          nextCode[s] := nextCode[s] + 1;
        } else {
          FastSkip(L, i);
        }
      }
    }

    method PlaceSymbol(L: lengths, i: nat, code: nat)
      requires Shape() && i < |L| <= NUM_SYMS && Bounded(L, MAX_BITS) && Fits(L, MAX_BITS)
      requires LengthTables(L) && FastFor(L, i) && Listed(L, i)
      requires L[i] > 0 && code == CodeOf(L, i)
      modifies fast, size, value
      ensures Listed(L, i + 1) && FastFor(L, i + 1)
    {
      var s := L[i];
      assert LengthRow(L, s, firstcode[s], firstsymbol[s], maxcode[s]);
      var c := code - firstcode[s] + firstsymbol[s];
      assert c == Slot(L, i) < |L| by { SlotRange(L, i); }
      Place(L, i, c, s);
      var fastv := BitOr(i, s * Pow2(9));
      assert fastv == FastValue(s, i) by { JoinFast(s, i); }
      if s <= FAST_BITS {
        SpreadFast(L, i, s, code, fastv);
      } else {
        FastSkip(L, i);
      }
    }

    method Place(L: lengths, i: nat, c: nat, s: nat)
      requires Shape() && i < |L| <= NUM_SYMS && L[i] == s > 0
      requires c < NUM_SYMS && c == Slot(L, i) && Listed(L, i)
      modifies size, value
      ensures Listed(L, i + 1)
    {
      size[c] := s;
      value[c] := i;
      forall j | 0 <= j < i && L[j] > 0 ensures Slot(L, j) != c {
        if Slot(L, j) == c {
          SlotUnique(L, i, j);
        }
      }
    }

    /** Write one symbol's entry at every window that starts with its code. */
    method SpreadFast(L: lengths, i: nat, s: nat, code: nat, fastv: nat)
      requires Shape() && i < |L| && L[i] == s && 1 <= s <= FAST_BITS && Fits(L, MAX_BITS)
      requires code == CodeOf(L, i) && fastv == FastValue(s, i)
      requires FastFor(L, i)
      modifies fast
      ensures FastFor(L, i + 1)
    {
      CodeRange(L, i);
      FitsBelow(L, s, MAX_BITS);
      ghost var before := fast[..];
      WriteStride(s, code, fastv);
      forall k | 0 <= k < FAST_SIZE ensures FastEntry(L, i + 1, k, fast[k]) {
        HitIffLow(L, i, k);
        assert FastEntry(L, i, k, before[k]);
        FastStep(L, i, k, before[k], fast[k]);
      }
    }

    /** The innermost loop: every window whose low s digits are the reversed code. */
    method WriteStride(s: nat, code: nat, fastv: nat)
      requires Shape() && 1 <= s <= FAST_BITS && code < Pow2(s)
      modifies fast
      ensures forall k :: 0 <= k < FAST_SIZE ==>
        fast[k] == if Low(k, s) == Rev(code, s) then fastv else old(fast[k])
    {
      hide Rev, Low, Shr, BitReverse;
      var j := BitReverse(code, s);
      BitReverseIsRev(code, s);
      RevBound(code, s);
      SplitUnique(j, s, 0, j);
      FirstInStride(j, s);
      while j < FAST_SIZE
        invariant Low(j, s) == Rev(code, s)
        invariant forall k :: 0 <= k < FAST_SIZE ==>
          fast[k] == if k < j && Low(k, s) == Rev(code, s) then fastv else old(fast[k])
        invariant forall k :: 0 <= k < j && Low(k, s) == Rev(code, s) ==> k + Pow2(s) <= j
        decreases FAST_SIZE - j
      {
        fast[j] := fastv;
        NextInStride(j, s);
        j := j + Pow2(s);
      }
    }

    lemma FastSkip(L: lengths, i: nat)
      requires Shape() && i < |L| && FastFor(L, i)
      requires L[i] == 0 || L[i] > FAST_BITS
      ensures FastFor(L, i + 1)
    {
      forall k | 0 <= k < FAST_SIZE ensures FastEntry(L, i + 1, k, fast[k]) {
        assert FastEntry(L, i, k, fast[k]);
      }
    }
  }

  /** The first loop of `stbi__zbuild_huffman`. */
  method CountSizes(L: lengths) returns (sizes: array<nat>)
    requires Bounded(L, MAX_BITS)
    ensures fresh(sizes) && sizes.Length == 17
    ensures forall s :: 1 <= s <= MAX_BITS ==> sizes[s] == Count(L, s)
  {
    sizes := new nat[17](_ => 0);
    for i := 0 to |L|
      invariant forall s :: 0 <= s <= MAX_BITS ==> sizes[s] == CountTo(L, i, s)
    {
      sizes[L[i]] := sizes[L[i]] + 1;
    }
    sizes[0] := 0;
  }

  ghost predicate LengthRow(L: lengths, s: nat, firstcode: nat, firstsymbol: nat, maxcode: nat)
    requires 1 <= s <= MAX_BITS
  {
    firstcode == FirstCode(L, s) && firstsymbol == FirstSlot(L, s) && maxcode == Limit(L, s, 16)
  }

  function FastValue(s: nat, i: nat): nat {
    512 * s + i
  }

  ghost function NextCode(L: lengths, i: nat, s: nat): nat
    requires i <= |L| && s > 0
  {
    FirstCode(L, s) + CountTo(L, i, s)
  }

  ghost predicate SlotInRange(L: lengths, i: nat)
    requires i < |L| && L[i] > 0
  {
    Slot(L, i) < NUM_SYMS
  }

  /** The 9-bit window j, first bit least significant, starts with the code of symbol i. */
  ghost predicate FastHit(L: lengths, i: nat, j: nat) {
    Matches(L, i, Rev(j, FAST_BITS), FAST_BITS)
  }

  ghost predicate FastEntry(L: lengths, n: nat, j: nat, v: nat)
    requires n <= |L|
  {
    && (v == 0 ==> forall i: nat :: i < n ==> !FastHit(L, i, j))
    && (v != 0 ==> exists i: nat :: i < n && FastHit(L, i, j) && v == FastValue(L[i], i))
  }

  lemma StartOfLengths(L: lengths)
    ensures FirstCode(L, 1) == 0 && FirstSlot(L, 1) == 0 && Fits(L, 0)
  {
  }

  /** One step of the length loop; the casts to 16 bits are exact. */
  lemma NextLength(L: lengths, i: nat, code: nat, k: nat)
    requires 1 <= i <= MAX_BITS && code == FirstCode(L, i) && k == FirstSlot(L, i) && Fits(L, i - 1)
    ensures code < 0x1_0000 && k <= |L|
    ensures code + Count(L, i) == EndCode(L, i)
    ensures (code + Count(L, i)) * 2 == FirstCode(L, i + 1)
    ensures k + Count(L, i) == FirstSlot(L, i + 1)
    ensures (code + Count(L, i)) * Pow2(16 - i) == Limit(L, i, 16)
    ensures (Count(L, i) > 0 && code + Count(L, i) - 1 >= Pow2(i)) <==> !Fits(L, i)
  {
    Pow2Mono(i - 1, 14);
    assert Pow2(14) == 0x4000;
    ShorterBound(L, |L|, i);
  }

  lemma NotFits(L: lengths, s: nat)
    requires s <= MAX_BITS && !Fits(L, s)
    ensures !Fits(L, MAX_BITS)
  {
    if Fits(L, MAX_BITS) {
      FitsBelow(L, s, MAX_BITS);
    }
  }

  lemma JoinFast(s: nat, i: nat)
    requires i < NUM_SYMS && s <= MAX_BITS
    ensures BitOr(i, s * Pow2(9)) == FastValue(s, i) < 0x1_0000
  {
    assert Pow2(9) == 512;
    JoinIsSum(i, s, 9);
  }

  lemma FastStep(L: lengths, i: nat, j: nat, before: nat, after: nat)
    requires i < |L| && FastEntry(L, i, j, before)
    requires after == if FastHit(L, i, j) then FastValue(L[i], i) else before
    ensures FastEntry(L, i + 1, j, after)
  {
    if FastHit(L, i, j) {
      assert FastValue(L[i], i) != 0;
    }
  }

  // ----- windows with a given start -----

  lemma {:induction false} RevPrefix(j: nat, n: nat, s: nat)
    requires s <= n
    ensures Shr(Rev(j, n), n - s) == Rev(j, s)
    decreases n
  {
    if s == 0 {
      RevBound(j, n);
      SplitUnique(Rev(j, n), n, 0, Rev(j, n));
    } else {
      hide Shr, Pow2, Rev;
      RevUnfold(j, n);
      RevUnfold(j, s);
      RevPrefix(j / 2, n - 1, s - 1);
      RaiseDigit(Rev(j / 2, n - 1), j % 2, n - s, s - 1);
      assert s - 1 + (n - s) == n - 1;
    }
  }

  lemma RevUnfold(j: nat, n: nat)
    requires n > 0
    ensures Rev(j, n) == j % 2 * Pow2(n - 1) + Rev(j / 2, n - 1)
  {
  }

  lemma RaiseDigit(low: nat, d: nat, m: nat, s: nat)
    requires d <= 1
    ensures Shr(d * Pow2(s + m) + low, m) == d * Pow2(s) + Shr(low, m)
  {
    hide Shr, Low, Pow2;
    if d == 1 {
      Split(low, m);
      Pow2Add(s, m);
      var q := Shr(low, m);
      Distribute(Pow2(s), q, Pow2(m));
      SplitUnique(Pow2(s + m) + low, m, Pow2(s) + q, Low(low, m));
    }
  }

  lemma {:induction false} RevOfLow(j: nat, s: nat)
    ensures Rev(Low(j, s), s) == Rev(j, s)
    decreases s
  {
    if s == 0 {
    } else {
      RevOfLow(j / 2, s - 1);
    }
  }

  lemma HitIffLow(L: lengths, i: nat, j: nat)
    requires i < |L| && 1 <= L[i] <= FAST_BITS && CodeOf(L, i) < Pow2(L[i])
    ensures FastHit(L, i, j) <==> Low(j, L[i]) == Rev(CodeOf(L, i), L[i])
  {
    hide Rev, Low, Shr, Pow2, CodeOf;
    var s := L[i];
    RevPrefix(j, FAST_BITS, s);
    RevOfLow(j, s);
    Split(j, s);
    RevRev(Low(j, s), s);
    RevRev(CodeOf(L, i), s);
  }

  /** Between j and j + 2^s no word has the same low s digits. */
  lemma StrideGap(j: nat, k: nat, s: nat)
    requires j < k && Low(j, s) == Low(k, s)
    ensures j + Pow2(s) <= k
  {
    Split(j, s);
    Split(k, s);
    var qj, qk, p := Shr(j, s), Shr(k, s), Pow2(s);
    assert qk * p - qj * p == k - j;
    if qk <= qj {
      MulMono(qk, qj, p);
    } else {
      MulMono(qj + 1, qk, p);
    }
  }

  lemma FirstInStride(j: nat, s: nat)
    requires j < Pow2(s)
    ensures forall k: nat :: k < j ==> Low(k, s) != Low(j, s)
  {
    forall k: nat | k < j ensures Low(k, s) != Low(j, s) {
      if Low(k, s) == Low(j, s) {
        StrideGap(k, j, s);
      }
    }
  }

  lemma NextInStride(j: nat, s: nat)
    ensures Low(j + Pow2(s), s) == Low(j, s)
    ensures forall k: nat :: k < j + Pow2(s) && Low(k, s) == Low(j, s) ==> k <= j
  {
    Split(j, s);
    var p := Pow2(s);
    assert (Shr(j, s) + 1) * p == Shr(j, s) * p + p;
    SplitUnique(j + p, s, Shr(j, s) + 1, Low(j, s));
    forall k: nat | k < j + p && Low(k, s) == Low(j, s) ensures k <= j {
      if k > j {
        StrideGap(j, k, s);
      }
    }
  }
}
