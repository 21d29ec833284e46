/**
  An encoder for the AC coefficients of a JPEG block (section F.1.2.2 of ITU-T T.81), as
  a specification: runs of zeros along the diagonals, sizes and magnitudes, under any
  code.  Reading back what it writes gives the block.
 */
module JpegEncode {
  import opened Words
  import opened Canonical
  import opened Input
  import opened BitStream
  import opened JpegSpec
  import opened JpegStream
  import opened Jpeg
  import opened JpegEntropy

  // ----- magnitudes -----

  function Magnitude(v: int): nat {
    if v < 0 then -v else v
  }

  /** The size category of table F.1: the digits of the magnitude. */
  function Category(v: int): nat {
    Digits(Magnitude(v))
  }

  /** The bits sent for a coefficient: itself, or one less than itself in as many digits if it is negative. */
  function Sent(v: int): (r: nat)
    ensures r < Pow2(Category(v))
  {
    if v < 0 then v + (Pow2(Category(v)) - 1) else v
  }

  /** EXTEND restores the sign. */
  lemma ExtendSent(v: int)
    requires v != 0
    ensures Category(v) > 0 && Extend(Sent(v), Category(v)) == v
  {
    var n := Category(v);
    assert n > 0;
    assert Pow2(n) == 2 * Pow2(n - 1);
  }

  // ----- a block as symbols -----

  /** The coefficients in the order of their ranks. */
  predicate InOrder(block: seq<int>, zz: seq<int>)
    requires |block| == |zz| == 64
  {
    forall r, c :: 0 <= r < 8 && 0 <= c < 8 ==> zz[Rank(r, c)] == block[8 * r + c]
  }

  /** How many zeros come from place k on. */
  function Zeros(zz: seq<int>, k: nat): (n: nat)
    requires k <= |zz|
    ensures k + n <= |zz| && (k + n < |zz| ==> zz[k + n] != 0)
    ensures forall i :: k <= i < k + n ==> zz[i] == 0
    decreases |zz| - k
  {
    if k < |zz| && zz[k] == 0 then 1 + Zeros(zz, k + 1) else 0
  }

  datatype Item =
    | EndOfBlock
    | SixteenZeros
    | Value(run: nat, v: int)

  /** Figure F.2: what is sent for the coefficients from place k on. */
  function Items(zz: seq<int>, k: nat): seq<Item>
    requires k <= |zz|
    decreases |zz| - k
  {
    var n := Zeros(zz, k);
    if k == |zz| then []
    else if k + n == |zz| then [EndOfBlock]
    else if n >= 16 then [SixteenZeros] + Items(zz, k + 16)
    else [Value(n, zz[k + n])] + Items(zz, k + n + 1)
  }

  /** The symbol of an item: the run of zeros before a coefficient, and its size. */
  function Symbol(it: Item): nat {
    match it
    case EndOfBlock => 0x00
    case SixteenZeros => 0xF0
    case Value(run, v) => 16 * run + Category(v)
  }

  // ----- bits -----

  /** A table that codes symbol values[i] with code i, and the index it chooses for each symbol. */
  datatype Coder = Coder(L: lengths, values: seq<byte>, index: map<nat, nat>)

  ghost predicate GoodCoder(e: Coder) {
    && GoodSizes(e.L) && |e.L| <= |e.values|
    && forall s :: s in e.index ==> e.index[s] < |e.L| && e.values[e.index[s]] == s
  }

  /** Runs are below 16, sizes below 16, and the symbol has a code. */
  predicate Codable(e: Coder, it: Item) {
    Symbol(it) in e.index && (it.Value? ==> it.run < 16 && it.v != 0 && Category(it.v) < 16)
  }

  predicate AllCodable(e: Coder, items: seq<Item>) {
    forall it :: it in items ==> Codable(e, it)
  }

  ghost function CodeBits(e: Coder, it: Item): bits
    requires GoodCoder(e) && Codable(e, it)
  {
    var i := e.index[Symbol(it)];
    MsbBits(CodeOf(e.L, i), e.L[i])
  }

  ghost function ItemBits(e: Coder, it: Item): bits
    requires GoodCoder(e) && Codable(e, it)
  {
    CodeBits(e, it) + if it.Value? then MsbBits(Sent(it.v), Category(it.v)) else []
  }

  ghost function ItemsBits(e: Coder, items: seq<Item>): bits
    requires GoodCoder(e) && AllCodable(e, items)
  {
    if items == [] then [] else ItemBits(e, items[0]) + ItemsBits(e, items[1..])
  }

  /** The data have these bits from bit p on. */
  ghost predicate Shows(data: seq<byte>, p: nat, s: bits) {
    forall i :: 0 <= i < |s| ==> JpegStream.BitAt(data, p + i) == Digit(s[i])
  }

  lemma ShowsParts(data: seq<byte>, p: nat, s: bits, t: bits)
    requires Shows(data, p, s + t)
    ensures Shows(data, p, s) && Shows(data, p + |s|, t)
  {
    forall i | 0 <= i < |s| ensures JpegStream.BitAt(data, p + i) == Digit(s[i]) {
      assert (s + t)[i] == s[i];
    }
    forall i | 0 <= i < |t| ensures JpegStream.BitAt(data, p + |s| + i) == Digit(t[i]) {
      assert (s + t)[|s| + i] == t[i];
      assert JpegStream.BitAt(data, p + (|s| + i)) == Digit((s + t)[|s| + i]);
    }
  }

  lemma {:induction false} ReadNumber(data: seq<byte>, p: nat, v: nat, n: nat)
    requires v < Pow2(n) && Shows(data, p, MsbBits(v, n))
    ensures Window(data, p, n) == v
    decreases n
  {
    hide JpegStream.BitAt;
    if n == 0 {
    } else {
      ShowsParts(data, p, MsbBits(v / 2, n - 1), [v % 2 == 1]);
      assert JpegStream.BitAt(data, p + (n - 1) + 0) == Digit([v % 2 == 1][0]);
      ReadNumber(data, p, v / 2, n - 1);
    }
  }

  lemma ReadCode(e: Coder, data: seq<byte>, p: nat, it: Item)
    requires GoodCoder(e) && Codable(e, it) && Shows(data, p, CodeBits(e, it))
    ensures CodeAt(e.L, data, p) == e.index[Symbol(it)]
  {
    hide Shows, Window, MsbBits, CodeOf, FirstCode, Shr, Pow2;
    var L, i := e.L, e.index[Symbol(it)];
    CodeRange(L, i);
    FitsBelow(L, L[i], 16);
    ReadNumber(data, p, CodeOf(L, i), L[i]);
    WindowConcat(data, p, L[i], 16 - L[i]);
    WindowBound(data, p + L[i], 16 - L[i]);
    SplitUnique(Window(data, p, 16), 16 - L[i], CodeOf(L, i), Window(data, p + L[i], 16 - L[i]));
    assert Matches(L, i, Window(data, p, 16), 16) && CodeAt(L, data, p) >= 0;
    MatchUnique(L, i, CodeAt(L, data, p), Window(data, p, 16), 16);
  }

  // ----- reading back -----

  /** The coefficients of ranks below k are there; the later ones are zero. */
  ghost predicate Partial(block: seq<int>, k: nat, coeffs: seq<int>)
    requires |block| == |coeffs| == 64
  {
    && coeffs[0] == block[0]
    && forall r, c :: 0 <= r < 8 && 0 <= c < 8 && 0 < 8 * r + c ==>
         coeffs[8 * r + c] == if Rank(r, c) < k then block[8 * r + c] else 0
  }

  lemma SkipZeros(block: seq<int>, zz: seq<int>, k: nat, n: nat, coeffs: seq<int>)
    requires |block| == |zz| == |coeffs| == 64 && InOrder(block, zz) && Partial(block, k, coeffs) && k + n <= 64
    requires forall i :: k <= i < k + n ==> zz[i] == 0
    ensures Partial(block, k + n, coeffs)
  {
    hide Rank;
    forall r, c | 0 <= r < 8 && 0 <= c < 8 && 0 < 8 * r + c
      ensures coeffs[8 * r + c] == if Rank(r, c) < k + n then block[8 * r + c] else 0
    {
      assert zz[Rank(r, c)] == block[8 * r + c];
    }
  }

  /** The coefficient of rank k goes to its place. */
  lemma PutNext(block: seq<int>, zz: seq<int>, k: nat, coeffs: seq<int>)
    requires |block| == |zz| == |coeffs| == 64 && InOrder(block, zz) && 1 <= k < 64 && Partial(block, k, coeffs)
    ensures Partial(block, k + 1, coeffs[Dezigzag(k) := zz[k]])
  {
    hide Rank, Dezigzag;
    var z := Dezigzag(k);
    var r', c' := z / 8, z % 8;
    DezigzagIsRank(k);
    RankOfFirst();
    assert zz[Rank(r', c')] == block[8 * r' + c'];
    forall r, c | 0 <= r < 8 && 0 <= c < 8 && 0 < 8 * r + c
      ensures coeffs[z := zz[k]][8 * r + c] == if Rank(r, c) < k + 1 then block[8 * r + c] else 0
    {
      if Rank(r, c) == k {
        RankInjective(r, c, r', c');
      }
    }
  }

  lemma RankOfFirst()
    ensures Rank(0, 0) == 0
  {
  }

  lemma AllRead(block: seq<int>, coeffs: seq<int>)
    requires |block| == |coeffs| == 64 && Partial(block, 64, coeffs)
    ensures coeffs == block
  {
    forall z | 0 < z < 64 ensures coeffs[z] == block[z] {
      var r, c := z / 8, z % 8;
      assert Rank(r, c) < 64 && coeffs[8 * r + c] == block[8 * r + c];
    }
  }

  /** One item read. */
  lemma ReadItem(e: Coder, data: seq<byte>, p: nat, k: nat, it: Item, coeffs: seq<int>)
    requires GoodCoder(e) && Codable(e, it) && |coeffs| == 64 && k < 64
    requires Shows(data, p, ItemBits(e, it)) && (it.Value? ==> k + it.run < 64)
    ensures AcFrom(e.L, e.values, data, p, k, coeffs) ==
            var q := p + |ItemBits(e, it)|;
            match it
            case EndOfBlock => Coefficients(coeffs, q)
            case SixteenZeros => AcFrom(e.L, e.values, data, q, k + 16, coeffs)
            case Value(run, v) =>
              AcFrom(e.L, e.values, data, q, k + run + 1, coeffs[Dezigzag(k + run) := v])
  {
    hide Shows, Window, MsbBits, CodeAt, Extend, Dezigzag, CodeOf, Digits, Pow2, GoodSizes;
    if it.Value? {
      var n := Category(it.v);
      ShowsParts(data, p, CodeBits(e, it), MsbBits(Sent(it.v), n));
      ExtendSent(it.v);
      ReadNumber(data, p + |CodeBits(e, it)|, Sent(it.v), n);
    } else {
      assert CodeBits(e, it) + [] == CodeBits(e, it);
    }
    ReadCode(e, data, p, it);
  }

  /** The block comes back, from any place on. */
  lemma {:induction false} ReadItems(e: Coder, block: seq<int>, zz: seq<int>, data: seq<byte>, p: nat, k: nat,
                                     coeffs: seq<int>)
    requires GoodCoder(e) && |block| == |zz| == |coeffs| == 64 && InOrder(block, zz) && 1 <= k <= 64
    requires AllCodable(e, Items(zz, k)) && Shows(data, p, ItemsBits(e, Items(zz, k))) && Partial(block, k, coeffs)
    ensures AcFrom(e.L, e.values, data, p, k, coeffs) == Coefficients(block, p + |ItemsBits(e, Items(zz, k))|)
    decreases 64 - k
  {
    hide AcFrom, Shows, ItemBits, ItemsBits, Items, Codable, Partial, InOrder, GoodCoder, Dezigzag;
    CoderSizes(e);
    ItemsAre(zz, k);
    if k == 64 {
      NoBits(e);
      AllRead(block, coeffs);
      AcDone(e, data, p, coeffs);
    } else {
      var n := Zeros(zz, k);
      var it, rest := Items(zz, k)[0], Items(zz, k)[1..];
      var q := p + |ItemBits(e, it)|;
      FirstBits(e, Items(zz, k));
      ShowsParts(data, p, ItemBits(e, it), ItemsBits(e, rest));
      ReadItem(e, data, p, k, it, coeffs);
      SkipZeros(block, zz, k, if it.SixteenZeros? then 16 else n, coeffs);
      if it.EndOfBlock? {
        NoBits(e);
        AllRead(block, coeffs);
      } else if it.SixteenZeros? {
        ReadItems(e, block, zz, data, q, k + 16, coeffs);
      } else {
        PutNext(block, zz, k + n, coeffs);
        ReadItems(e, block, zz, data, q, k + n + 1, coeffs[Dezigzag(k + n) := zz[k + n]]);
      }
    }
  }

  lemma ItemsAre(zz: seq<int>, k: nat)
    requires k <= |zz|
    ensures k == |zz| ==> Items(zz, k) == []
    ensures k < |zz| ==>
              var n, items := Zeros(zz, k), Items(zz, k);
              && items != []
              && (if k + n == |zz| then items[0] == EndOfBlock && items[1..] == []
                  else if n >= 16 then items[0] == SixteenZeros && items[1..] == Items(zz, k + 16)
                  else items[0] == Value(n, zz[k + n]) && items[1..] == Items(zz, k + n + 1))
  {
    var n := Zeros(zz, k);
    hide Zeros;
    if k + n < |zz| {
      if n >= 16 {
        assert Items(zz, k) == [SixteenZeros] + Items(zz, k + 16);
      } else {
        assert Items(zz, k) == [Value(n, zz[k + n])] + Items(zz, k + n + 1);
      }
    }
  }

  lemma FirstBits(e: Coder, items: seq<Item>)
    requires GoodCoder(e) && AllCodable(e, items) && items != []
    ensures Codable(e, items[0]) && AllCodable(e, items[1..])
    ensures ItemsBits(e, items) == ItemBits(e, items[0]) + ItemsBits(e, items[1..])
  {
  }

  lemma NoBits(e: Coder)
    requires GoodCoder(e)
    ensures ItemsBits(e, []) == []
  {
  }

  lemma CoderSizes(e: Coder)
    requires GoodCoder(e)
    ensures |e.L| <= |e.values|
  {
  }

  lemma AcDone(e: Coder, data: seq<byte>, p: nat, coeffs: seq<int>)
    requires |e.L| <= |e.values| && |coeffs| == 64
    ensures AcFrom(e.L, e.values, data, p, 64, coeffs) == Coefficients(coeffs, p)
  {
  }

  /** The coefficients of a block along its diagonals. */
  function Diagonals(block: seq<int>): (zz: seq<int>)
    requires |block| == 64
    ensures |zz| == 64
  {
    seq(64, k requires 0 <= k < 64 => block[Dezigzag(k)])
  }

  lemma EveryBlockInOrder(block: seq<int>)
    requires |block| == 64
    ensures InOrder(block, Diagonals(block))
  {
    hide Rank, Dezigzag;
    forall r, c | 0 <= r < 8 && 0 <= c < 8 ensures Diagonals(block)[Rank(r, c)] == block[8 * r + c] {
      var z := Dezigzag(Rank(r, c));
      DezigzagIsRank(Rank(r, c));
      RankInjective(r, c, z / 8, z % 8);
    }
  }

  // ----- bytes -----

  /** The number that bits spell, first bit most significant. */
  function Number(s: bits): (v: nat)
    ensures v < Pow2(|s|)
  {
    if s == [] then 0 else 2 * Number(s[..|s| - 1]) + Digit(s[|s| - 1])
  }

  lemma {:induction false} BitOfNumber(s: bits, i: nat)
    requires i < |s|
    ensures Bit(Number(s), |s| - 1 - i) == Digit(s[i])
    decreases |s|
  {
    var m := |s| - 1;
    Halving(Number(s[..m]), Digit(s[m]));
    if i < m {
      BitOfNumber(s[..m], i);
    }
  }

  lemma Halving(a: nat, b: nat)
    requires b < 2
    ensures (2 * a + b) / 2 == a && (2 * a + b) % 2 == b
  {
  }

  /** Eight bits to a byte, the last byte filled up with ones. */
  function Octets(s: bits): (r: seq<byte>)
    ensures 8 * |r| >= |s|
    decreases |s|
  {
    if s == [] then []
    else if |s| < 8 then [Octet(s + seq(8 - |s|, _ => true))]
    else [Octet(s[..8])] + Octets(s[8..])
  }

  function Octet(s: bits): byte
    requires |s| == 8
  {
    assert Pow2(8) == 256;
    Number(s)
  }

  lemma BitAfter(b: byte, rest: seq<byte>, i: nat)
    ensures JpegStream.BitAt([b] + rest, i) == if i < 8 then Bit(b, 7 - i) else JpegStream.BitAt(rest, i - 8)
  {
    hide Bit;
    if i >= 8 {
      var c := (i - 8) / 8;
      DivMod(i, 8, c + 1, (i - 8) % 8);
      assert c < |rest| ==> ([b] + rest)[c + 1] == rest[c];
    }
  }

  lemma {:induction false} OctetAt(s: bits, i: nat)
    requires i < |s|
    ensures JpegStream.BitAt(Octets(s), i) == Digit(s[i])
    decreases |s|
  {
    hide JpegStream.BitAt, Bit, Number;
    if |s| < 8 {
      var full := s + seq(8 - |s|, _ => true);
      BitOfNumber(full, i);
      BitAfter(Octet(full), [], i);
      assert Octets(s) == [Octet(full)] + [];
    } else {
      BitAfter(Octet(s[..8]), Octets(s[8..]), i);
      if i < 8 {
        BitOfNumber(s[..8], i);
      } else {
        OctetAt(s[8..], i - 8);
      }
    }
  }

  /** Byte stuffing: a zero after every 0xFF, so that none of them starts a marker. */
  function Stuffed(data: seq<byte>): seq<byte> {
    if data == [] then []
    else (if data[0] == 0xFF then [0xFF, 0] else [data[0]]) + Stuffed(data[1..])
  }

  lemma PlainByte(input: seq<byte>, c: nat)
    requires c < |input| && input[c] != 0xFF
    ensures Data(input, c) == [input[c]] + Data(input, c + 1)
  {
  }

  lemma StuffedByte(input: seq<byte>, c: nat)
    requires c + 1 < |input| && input[c] == 0xFF && input[c + 1] == 0
    ensures Data(input, c) == [0xFF] + Data(input, c + 2)
  {
    assert AfterFill(input, c + 1) == c + 1;
    hide AfterFill;
  }

  /** The data of a scan begin with what was stuffed. */
  lemma {:induction false} ReadStuffed(input: seq<byte>, c: nat, data: seq<byte>)
    requires StartsAt(input, c, Stuffed(data))
    ensures Data(input, c) == data + Data(input, c + |Stuffed(data)|)
    decreases |data|
  {
    hide Data, StartsAt;
    if data == [] {
    } else {
      var first := if data[0] == 0xFF then [0xFF, 0] else [data[0]];
      StartsParts(input, c, first, Stuffed(data[1..]));
      StartsWith(input, c, first, 0);
      if data[0] == 0xFF {
        StartsWith(input, c, first, 1);
        StuffedByte(input, c);
      } else {
        PlainByte(input, c);
      }
      ReadStuffed(input, c + |first|, data[1..]);
    }
  }

  /** A marker behind them, whatever fill bytes come before it, ends the data. */
  lemma ScanEnds(input: seq<byte>, c: nat, data: seq<byte>, e: nat)
    requires StartsAt(input, c, Stuffed(data) + [0xFF])
    requires c + |Stuffed(data)| < e < |input| && input[e] != 0 && input[e] != 0xFF
    requires forall i :: c + |Stuffed(data)| <= i < e ==> input[i] == 0xFF
    ensures Data(input, c) == data
  {
    hide Stuffed, StartsAt, Data;
    var m := c + |Stuffed(data)|;
    StartsParts(input, c, Stuffed(data), [0xFF]);
    ReadStuffed(input, c, data);
    MarkerEnds(input, m, e);
    assert data + [] == data;
  }

  lemma MarkerEnds(input: seq<byte>, m: nat, e: nat)
    requires m < e < |input| && input[e] != 0 && input[e] != 0xFF && forall i :: m <= i < e ==> input[i] == 0xFF
    ensures Data(input, m) == []
  {
    FillEnds(input, m + 1, e);
  }

  lemma {:induction false} FillEnds(input: seq<byte>, c: nat, e: nat)
    requires c <= e < |input| && input[e] != 0xFF && forall i :: c <= i < e ==> input[i] == 0xFF
    ensures AfterFill(input, c) == e
    decreases e - c
  {
    if c < e {
      FillEnds(input, c + 1, e);
    }
  }

  /** Coded bits, in bytes at c, are the first bits of the data there. */
  lemma ScanShows(input: seq<byte>, c: nat, s: bits)
    requires StartsAt(input, c, Stuffed(Octets(s)))
    ensures Shows(Data(input, c), 0, s) && |s| <= 8 * |Data(input, c)|
  {
    hide Stuffed, Octets, Data, StartsAt;
    ReadStuffed(input, c, Octets(s));
    forall i | 0 <= i < |s| ensures JpegStream.BitAt(Data(input, c), 0 + i) == Digit(s[i]) {
      OctetAt(s, i);
      assert i / 8 < |Octets(s)|;
    }
  }

  /** Before the loop only the DC coefficient is there. */
  lemma OnlyFirst(block: seq<int>, coeffs: seq<int>)
    requires |block| == |coeffs| == 64 && coeffs[0] == block[0] && forall z :: 0 < z < 64 ==> coeffs[z] == 0
    ensures Partial(block, 1, coeffs)
  {
    hide Rank;
    RankOfFirst();
    forall r, c | 0 <= r < 8 && 0 <= c < 8 && 0 < 8 * r + c
      ensures coeffs[8 * r + c] == if Rank(r, c) < 1 then block[8 * r + c] else 0
    {
      if Rank(r, c) == 0 {
        RankInjective(r, c, 0, 0);
      }
    }
  }

  /**
    End to end: behind whatever was read before, the stuffed bytes of the items of a block
    make the coefficient loop of `stbi__jpeg_decode_block` leave that block.
   */
  method DecodeEncodedBlock(b: EntropyBuffer, h: JHuffman, fac: array<int>, coeffs: array<int>, ghost e: Coder,
                            ghost block: seq<int>, ghost zz: seq<int>, ghost c: nat, ghost before: bits,
                            ghost more: bits)
    returns (ok: bool)
    requires b.InStep() && b.AcReady(h, fac, e.L, coeffs) && !LastCodeHidden(e.L)
    requires GoodCoder(e) && e.values == h.values[..]
    requires |block| == |zz| == 64 && InOrder(block, zz) && AllCodable(e, Items(zz, 1))
    requires coeffs.Length == 64 && coeffs[0] == block[0] && forall z :: 0 < z < 64 ==> coeffs[z] == 0
    requires b.data == Data(b.input, c) && b.pos == |before|
    requires StartsAt(b.input, c, Stuffed(Octets(before + (ItemsBits(e, Items(zz, 1)) + more))))
    modifies b`cursor, b`codeBuffer, b`codeBits, b`marker, b`nomore, b`pos, coeffs
    ensures ok && b.InStep() && coeffs[..] == block
    ensures b.pos == old(b.pos) + |ItemsBits(e, Items(zz, 1))|
  {
    hide EntropyBuffer.InStep, EntropyBuffer.AcReady, AcTaken, AcFrom, ItemsBits, Items, Stuffed, Octets, Data, Shows;
    hide StartsAt, GoodCoder, InOrder, AllCodable, Partial, Represents, LastCodeHidden;
    ghost var s := ItemsBits(e, Items(zz, 1));
    ScanShows(b.input, c, before + (s + more));
    ShowsParts(b.data, 0, before, s + more);
    ShowsParts(b.data, b.pos, s, more);
    OnlyFirst(block, coeffs[..]);
    ReadItems(e, block, zz, b.data, b.pos, 1, coeffs[..]);
    ghost var short;
    ok, short := b.DecodeAc(h, fac, e.L, coeffs);
  }
}
