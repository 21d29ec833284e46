/** Whole encoded streams, and the inflate round trip. */
module InflateRoundTrip {
  import opened Words
  import opened BitStream
  import opened Canonical
  import opened DeflateSpec
  import opened InflateSpec
  import opened DeflateEncode
  import opened Growth
  import opened Inflate

  // ----- dynamic headers -----

  /** One item of the run-length coded list of code lengths. */
  datatype Item =
    | Length(len: nat)
    | RepeatLast(n: nat)
    | Zeros(n: nat)
    | ManyZeros(n: nat)

  predicate GoodItem(cl: lengths, it: Item) {
    match it
    case Length(len) => len < 16 && Codable(cl, len)
    case RepeatLast(n) => n < 4 && Codable(cl, 16)
    case Zeros(n) => n < 8 && Codable(cl, 17)
    case ManyZeros(n) => n < 128 && Codable(cl, 18)
  }

  function ItemBits(cl: lengths, it: Item): bits
    requires GoodItem(cl, it)
  {
    match it
    case Length(len) => CodeBits(cl, len)
    case RepeatLast(n) => CodeBits(cl, 16) + LsbBits(n, 2)
    case Zeros(n) => CodeBits(cl, 17) + LsbBits(n, 3)
    case ManyZeros(n) => CodeBits(cl, 18) + LsbBits(n, 7)
  }

  /** The lengths an item stands for, after acc. */
  function ItemLengths(it: Item, acc: lengths): lengths
    requires it.RepeatLast? ==> |acc| > 0
  {
    match it
    case Length(len) => [len]
    case RepeatLast(n) => Repeat(acc[|acc| - 1], n + 3)
    case Zeros(n) => Repeat(0, n + 3)
    case ManyZeros(n) => Repeat(0, n + 11)
  }

  /** The items spell out the list L, of which acc has been spelled already. */
  predicate Spells(items: seq<Item>, acc: lengths, L: lengths)
    decreases |items|
  {
    if items == [] then acc == L
    else
      && (items[0].RepeatLast? ==> |acc| > 0)
      && |acc| < |L|
      && |acc| + |ItemLengths(items[0], acc)| <= |L|
      && Spells(items[1..], acc + ItemLengths(items[0], acc), L)
  }

  function ItemsBits(cl: lengths, items: seq<Item>): bits
    requires GoodItems(cl, items)
  {
    if items == [] then [] else ItemBits(cl, items[0]) + ItemsBits(cl, items[1..])
  }

  lemma ReadItem(cl: lengths, input: seq<byte>, p: nat, acc: lengths, it: Item)
    requires |cl| == 19 && GoodCode(cl) && GoodItem(cl, it) && (it.RepeatLast? ==> |acc| > 0)
    requires Carries(input, p, ItemBits(cl, it))
    ensures NextLengths(cl, input, p, acc) == Some(Lens(ItemLengths(it, acc), p + |ItemBits(cl, it)|))
  {
    hide GoodCode, Carries, CodeBits, LsbBits, Lsb, Pow2, Repeat, Symbol, SymbolAt;
    SmallPowers();
    match it {
      case Length(len) =>
        ReadCode(cl, input, p, len);
      case RepeatLast(n) =>
        ReadCodeAnd(cl, input, p, 16, n, 2);
      case Zeros(n) =>
        ReadCodeAnd(cl, input, p, 17, n, 3);
      case ManyZeros(n) =>
        ReadCodeAnd(cl, input, p, 18, n, 7);
    }
  }

  lemma ReadCodeAnd(L: lengths, input: seq<byte>, p: nat, i: nat, v: nat, n: nat)
    requires GoodCode(L) && Codable(L, i) && v < Pow2(n)
    requires Carries(input, p, CodeBits(L, i) + LsbBits(v, n))
    ensures Symbol(L, input, p) == i && Lsb(input, p + L[i], n) == v
  {
    hide Carries, Symbol, Lsb, Pow2, CodeBits, LsbBits, GoodCode;
    CarriesParts(input, p, CodeBits(L, i), LsbBits(v, n));
    ReadCode(L, input, p, i);
    ReadLsb(input, p + L[i], v, n);
  }

  lemma {:induction false} ReadItems(cl: lengths, input: seq<byte>, p: nat, acc: lengths, items: seq<Item>, L: lengths)
    requires |cl| == 19 && GoodCode(cl) && GoodItems(cl, items)
    requires |acc| <= |L| && Spells(items, acc, L)
    requires Carries(input, p, ItemsBits(cl, items))
    ensures ReadLengths(cl, input, p, acc, |L|) == Some(Lens(L, p + |ItemsBits(cl, items)|))
    decreases |items|
  {
    hide GoodCode, Carries, ItemBits, NextLengths, ItemLengths;
    if items == [] {
    } else {
      var b := ItemBits(cl, items[0]);
      CarriesParts(input, p, b, ItemsBits(cl, items[1..]));
      ReadItem(cl, input, p, acc, items[0]);
      ReadItems(cl, input, p + |b|, acc + ItemLengths(items[0], acc), items[1..], L);
    }
  }

  /** A dynamic header: how the lists are cut, the code-length code, and the items. */
  datatype Header = Header(hlit: nat, hdist: nat, hclen: nat, cl: lengths, items: seq<Item>, L: lengths)

  predicate GoodCounts(h: Header) {
    257 <= h.hlit <= 288 && 1 <= h.hdist <= 32 && 4 <= h.hclen <= 19 && |h.L| == h.hlit + h.hdist
  }

  /** The lengths that are not sent are zero. */
  predicate GoodCl(cl: lengths, hclen: nat) {
    && |cl| == 19 && Bounded(cl, 7) && GoodCode(cl)
    && forall j :: hclen <= j < 19 ==> cl[Dezigzag(j)] == 0
  }

  predicate GoodItems(cl: lengths, items: seq<Item>) {
    forall it :: it in items ==> GoodItem(cl, it)
  }

  predicate GoodHeader(h: Header) {
    && GoodCounts(h) && GoodCl(h.cl, h.hclen) && GoodItems(h.cl, h.items) && Spells(h.items, [], h.L)
    && GoodCode(h.L[..h.hlit]) && GoodCode(h.L[h.hlit..])
  }

  /** The first n lengths of the code-length code, three bits each, in their scrambled order. */
  function ClBits(cl: lengths, n: nat): (s: bits)
    requires |cl| == 19 && n <= 19
    ensures |s| == 3 * n
  {
    if n == 0 then [] else ClBits(cl, n - 1) + LsbBits(cl[Dezigzag(n - 1)], 3)
  }

  function HeaderBits(h: Header): bits
    requires GoodCounts(h) && GoodCl(h.cl, h.hclen) && GoodItems(h.cl, h.items)
  {
    LsbBits(h.hlit - 257, 5) + (LsbBits(h.hdist - 1, 5) + (LsbBits(h.hclen - 4, 4)
      + (ClBits(h.cl, h.hclen) + ItemsBits(h.cl, h.items))))
  }

  lemma {:induction false} ReadCl(cl: lengths, input: seq<byte>, p: nat, n: nat)
    requires |cl| == 19 && n <= 19 && Bounded(cl, 7) && Carries(input, p, ClBits(cl, n))
    ensures forall j :: 0 <= j < 19 ==>
      CodeLengthCode(input, p, n)[Dezigzag(j)] == if j < n then cl[Dezigzag(j)] else 0
    decreases n
  {
    hide Carries, Lsb, LsbBits, Pow2, Dezigzag;
    SmallPowers();
    if n == 0 {
    } else {
      var v := cl[Dezigzag(n - 1)];
      CarriesParts(input, p, ClBits(cl, n - 1), LsbBits(v, 3));
      ReadCl(cl, input, p, n - 1);
      ReadLsb(input, p + 3 * (n - 1), v, 3);
      var before := CodeLengthCode(input, p, n - 1);
      forall j | 0 <= j < 19
        ensures CodeLengthCode(input, p, n)[Dezigzag(j)] == if j < n then cl[Dezigzag(j)] else 0
      {
        DezigzagInjective(j, n - 1);
        assert CodeLengthCode(input, p, n) == before[Dezigzag(n - 1) := v];
      }
    }
  }

  lemma DezigzagInjective(i: nat, j: nat)
    requires i < 19 && j < 19
    ensures i != j ==> Dezigzag(i) != Dezigzag(j)
  {
    hide Place, Dezigzag;
    DezigzagOrder(i);
    DezigzagOrder(j);
  }

  lemma ReadAllCl(cl: lengths, hclen: nat, input: seq<byte>, p: nat)
    requires hclen <= 19 && GoodCl(cl, hclen) && Carries(input, p, ClBits(cl, hclen))
    ensures CodeLengthCode(input, p, hclen) == cl
  {
    hide Carries, CodeLengthCode, Dezigzag, Place;
    ReadCl(cl, input, p, hclen);
    var got := CodeLengthCode(input, p, hclen);
    forall s | 0 <= s < 19 ensures got[s] == cl[s] {
      DezigzagOrder(s);
      assert got[Dezigzag(Place(s))] == cl[Dezigzag(Place(s))];
    }
  }

  /** The five fields of a header come out as they went in. */
  lemma ReadFields(input: seq<byte>, p: nat, h: Header)
    requires GoodCounts(h) && GoodCl(h.cl, h.hclen) && GoodItems(h.cl, h.items)
    requires Carries(input, p, HeaderBits(h))
    ensures Lsb(input, p, 5) == h.hlit - 257 && Lsb(input, p + 5, 5) == h.hdist - 1
    ensures Lsb(input, p + 10, 4) == h.hclen - 4
    ensures Carries(input, p + 14, ClBits(h.cl, h.hclen))
    ensures Carries(input, p + 14 + 3 * h.hclen, ItemsBits(h.cl, h.items))
    ensures |HeaderBits(h)| == 14 + 3 * h.hclen + |ItemsBits(h.cl, h.items)|
  {
    hide Carries, Lsb, LsbBits, Pow2, ItemsBits, ClBits, GoodItems, GoodCode, Bounded, Dezigzag;
    SmallPowers();
    var b3, b4 := ClBits(h.cl, h.hclen), ItemsBits(h.cl, h.items);
    var t2 := b3 + b4;
    var t1 := LsbBits(h.hclen - 4, 4) + t2;
    var t0 := LsbBits(h.hdist - 1, 5) + t1;
    assert HeaderBits(h) == LsbBits(h.hlit - 257, 5) + t0;
    hide HeaderBits;
    ReadField(input, p, h.hlit - 257, 5, t0);
    ReadField(input, p + 5, h.hdist - 1, 5, t1);
    ReadField(input, p + 10, h.hclen - 4, 4, t2);
    CarriesParts(input, p + 14, b3, b4);
  }

  lemma ReadField(input: seq<byte>, p: nat, v: nat, n: nat, rest: bits)
    requires v < Pow2(n) && Carries(input, p, LsbBits(v, n) + rest)
    ensures Lsb(input, p, n) == v && Carries(input, p + n, rest)
  {
    CarriesParts(input, p, LsbBits(v, n), rest);
    ReadLsb(input, p, v, n);
  }

  lemma ReadHeaderLengths(input: seq<byte>, p: nat, h: Header)
    requires GoodHeader(h) && Carries(input, p, HeaderBits(h))
    ensures HeaderLengths(input, p) == Some(HeaderLens(h.hlit, h.L, p + |HeaderBits(h)|))
  {
    hide Carries, Lsb, ItemsBits, ReadLengths, CodeLengthCode, ClBits, Spells, GoodItems, HeaderBits, Dezigzag;
    ReadFields(input, p, h);
    ReadAllCl(h.cl, h.hclen, input, p + 14);
    ReadItems(h.cl, input, p + 14 + 3 * h.hclen, [], h.items, h.L);
  }

  lemma ReadHeader(input: seq<byte>, p: nat, h: Header)
    requires GoodHeader(h) && Carries(input, p, HeaderBits(h))
    ensures DynamicHeader(input, p) == Some(Codes(h.L[..h.hlit], h.L[h.hlit..], p + |HeaderBits(h)|))
  {
    hide HeaderLengths, HeaderBits, Carries, Spells, GoodItems, GoodCl;
    ReadHeaderLengths(input, p, h);
  }

  // ----- blocks -----

  datatype Block =
    | Stored(data: seq<byte>)
    | FixedCodes(ts: seq<Token>)
    | DynamicCodes(h: Header, ts: seq<Token>)

  ghost predicate GoodBlock(b: Block) {
    match b
    case Stored(data) => |data| <= 0xFFFF
    case FixedCodes(ts) => GoodTokens(FixedLit(), FixedDist(), ts)
    case DynamicCodes(h, ts) =>
      GoodHeader(h) && Codable(h.L[..h.hlit], 256) && GoodTokens(h.L[..h.hlit], h.L[h.hlit..], ts)
  }

  /** The matches of the block reach back no further than the output before it. */
  ghost predicate BlockInReach(out: seq<byte>, b: Block) {
    b.Stored? || AllInReach(out, b.ts)
  }

  /** What a block appends. */
  ghost function BlockOutput(out: seq<byte>, b: Block): seq<byte>
    requires BlockInReach(out, b)
  {
    if b.Stored? then out + b.data else Expand(out, b.ts)
  }

  function DataBits(data: seq<byte>): (s: bits)
    ensures |s| == 8 * |data|
  {
    if data == [] then [] else LsbBits(data[0], 8) + DataBits(data[1..])
  }

  function ZeroBits(n: nat): (s: bits)
    ensures |s| == n
  {
    seq(n, _ => false)
  }

  function StoredBits(p: nat, data: seq<byte>): bits
    requires |data| <= 0xFFFF
  {
    ZeroBits(PadTo8(p)) + (LsbBits(|data|, 16) + (LsbBits(0xFFFF - |data|, 16) + DataBits(data)))
  }

  function Kind(b: Block): nat {
    match b
    case Stored(_) => 0
    case FixedCodes(_) => 1
    case DynamicCodes(_, _) => 2
  }

  /** A block at position p, after its three header bits. */
  ghost function BodyBits(p: nat, b: Block): bits
    requires GoodBlock(b)
  {
    match b
    case Stored(data) => StoredBits(p, data)
    case FixedCodes(ts) =>
      FixedIsGood();
      BlockBits(FixedLit(), FixedDist(), ts)
    case DynamicCodes(h, ts) => HeaderBits(h) + BlockBits(h.L[..h.hlit], h.L[h.hlit..], ts)
  }

  lemma {:induction false} ReadData(input: seq<byte>, p: nat, data: seq<byte>)
    requires Carries(input, p, DataBits(data))
    ensures Bytes(input, p, |data|) == data
    decreases |data|
  {
    hide Carries, LsbBits, Lsb;
    if data == [] {
    } else {
      SmallPowers();
      ReadField(input, p, data[0], 8, DataBits(data[1..]));
      ReadData(input, p + 8, data[1..]);
    }
  }

  lemma ReadStored(input: seq<byte>, p: nat, out: seq<byte>, data: seq<byte>)
    requires |data| <= 0xFFFF && Carries(input, p, StoredBits(p, data))
    ensures StoredBlock(input, State(p, out)) == Some(State(p + |StoredBits(p, data)|, out + data))
  {
    hide Carries, LsbBits, Lsb, DataBits, Bytes, PadTo8, Pow2;
    var k := PadTo8(p);
    var t2 := DataBits(data);
    var t1 := LsbBits(0xFFFF - |data|, 16) + t2;
    var t0 := LsbBits(|data|, 16) + t1;
    CarriesParts(input, p, ZeroBits(k), t0);
    Pow2Of16();
    ReadField(input, p + k, |data|, 16, t1);
    ReadField(input, p + k + 16, 0xFFFF - |data|, 16, t2);
    ReadData(input, p + k + 32, data);
  }

  lemma FixedIsGood()
    ensures GoodCode(FixedLit()) && GoodCode(FixedDist()) && Codable(FixedLit(), 256)
  {
    hide Fits;
    FixedFits();
    assert FixedLit()[256] == 7;
  }

  lemma ReadDynamic(input: seq<byte>, p: nat, out: seq<byte>, h: Header, ts: seq<Token>)
    requires GoodBlock(DynamicCodes(h, ts)) && AllInReach(out, ts)
    requires Carries(input, p, BodyBits(p, DynamicCodes(h, ts)))
    ensures DynamicBlock(input, State(p, out)) == Some(State(p + |BodyBits(p, DynamicCodes(h, ts))|, Expand(out, ts)))
  {
    hide Carries, HeaderBits, BlockBits, DynamicHeader, BlockEnd, AllInReach, Expand;
    hide Spells, GoodItems, GoodCl, GoodTokens, GoodCode;
    var lit, dist := h.L[..h.hlit], h.L[h.hlit..];
    CarriesParts(input, p, HeaderBits(h), BlockBits(lit, dist, ts));
    ReadHeader(input, p, h);
    ReadTokens(lit, dist, input, p + |HeaderBits(h)|, out, ts);
  }

  lemma ReadBody(input: seq<byte>, p: nat, out: seq<byte>, b: Block)
    requires GoodBlock(b) && BlockInReach(out, b)
    requires Carries(input, p, BodyBits(p, b))
    ensures BlockOf(input, State(p, out), Kind(b)) == Some(State(p + |BodyBits(p, b)|, BlockOutput(out, b)))
  {
    hide Carries, StoredBits, HeaderBits, BlockBits, StoredBlock, DynamicBlock, BlockEnd, FixedLit, FixedDist;
    hide AllInReach, Expand, GoodTokens, GoodHeader, GoodCode;
    match b {
      case Stored(data) =>
        ReadStored(input, p, out, data);
      case FixedCodes(ts) =>
        FixedIsGood();
        ReadTokens(FixedLit(), FixedDist(), input, p, out, ts);
      case DynamicCodes(h, ts) =>
        ReadDynamic(input, p, out, h, ts);
    }
  }

  // ----- streams -----

  ghost predicate GoodStream(bs: seq<Block>) {
    bs != [] && forall b :: b in bs ==> GoodBlock(b)
  }

  ghost predicate StreamInReach(out: seq<byte>, bs: seq<Block>)
    decreases |bs|
  {
    bs == [] || (BlockInReach(out, bs[0]) && StreamInReach(BlockOutput(out, bs[0]), bs[1..]))
  }

  ghost function StreamOutput(out: seq<byte>, bs: seq<Block>): seq<byte>
    requires StreamInReach(out, bs)
    decreases |bs|
  {
    if bs == [] then out else StreamOutput(BlockOutput(out, bs[0]), bs[1..])
  }

  /** The blocks from position p on; only the last one has its final bit set. */
  ghost function StreamBits(p: nat, bs: seq<Block>): bits
    requires GoodStream(bs)
    decreases |bs|
  {
    var body := BodyBits(p + 3, bs[0]);
    LsbBits(if |bs| == 1 then 1 else 0, 1) + (LsbBits(Kind(bs[0]), 2)
      + (body + if |bs| == 1 then [] else StreamBits(p + 3 + |body|, bs[1..])))
  }

  lemma StreamEndNext(input: seq<byte>, st: State)
    requires ReadBlock(input, st).Some? && st.pos < 8 * |input|
    ensures StreamEnd(input, st) == if Lsb(input, st.pos, 1) == 1 then ReadBlock(input, st)
                                    else StreamEnd(input, ReadBlock(input, st).value)
  {
    hide ReadBlock, Lsb;
  }

  lemma {:induction false} ReadStream(input: seq<byte>, p: nat, out: seq<byte>, bs: seq<Block>)
    requires GoodStream(bs) && StreamInReach(out, bs)
    requires Carries(input, p, StreamBits(p, bs)) && p + |StreamBits(p, bs)| <= 8 * |input|
    ensures StreamEnd(input, State(p, out)) == Some(State(p + |StreamBits(p, bs)|, StreamOutput(out, bs)))
    decreases |bs|
  {
    hide Carries, LsbBits, Lsb, BodyBits, ReadBlock, GoodBlock, BlockInReach, BlockOutput, StreamEnd;
    var final := if |bs| == 1 then 1 else 0;
    var body := BodyBits(p + 3, bs[0]);
    var rest := if |bs| == 1 then [] else StreamBits(p + 3 + |body|, bs[1..]);
    ReadOneBlock(input, p, out, bs[0], final, rest);
    StreamEndNext(input, State(p, out));
    if |bs| <= 1 {
    } else {
      ReadStream(input, p + 3 + |body|, BlockOutput(out, bs[0]), bs[1..]);
    }
  }

  lemma ReadOneBlock(input: seq<byte>, p: nat, out: seq<byte>, b: Block, final: nat, rest: bits)
    requires GoodBlock(b) && BlockInReach(out, b) && final < 2
    requires Carries(input, p, LsbBits(final, 1) + (LsbBits(Kind(b), 2) + (BodyBits(p + 3, b) + rest)))
    ensures Lsb(input, p, 1) == final
    ensures ReadBlock(input, State(p, out)) == Some(State(p + 3 + |BodyBits(p + 3, b)|, BlockOutput(out, b)))
    ensures Carries(input, p + 3 + |BodyBits(p + 3, b)|, rest)
  {
    hide Carries, LsbBits, Lsb, BodyBits, BlockOf, Pow2, GoodBlock, BlockInReach, BlockOutput;
    SmallPowers();
    var body := BodyBits(p + 3, b);
    ReadField(input, p, final, 1, LsbBits(Kind(b), 2) + (body + rest));
    ReadField(input, p + 1, Kind(b), 2, body + rest);
    CarriesParts(input, p + 3, body, rest);
    ReadBody(input, p + 3, out, b);
  }

  /** The packed stream, and whatever follows it. */
  ghost function EncodeRaw(bs: seq<Block>, trailer: seq<byte>): seq<byte>
    requires GoodStream(bs)
  {
    Pack(StreamBits(0, bs)) + trailer
  }

  /** The same behind the two bytes of a zlib header; the checksum is part of the trailer. */
  ghost function EncodeZlib(cmf: byte, flg: byte, bs: seq<Block>, trailer: seq<byte>): seq<byte>
    requires GoodStream(bs)
  {
    Pack(LsbBits(cmf, 8) + (LsbBits(flg, 8) + StreamBits(16, bs))) + trailer
  }

  lemma PackedThenMore(s: bits, trailer: seq<byte>)
    ensures Carries(Pack(s) + trailer, 0, s) && |s| <= 8 * |Pack(s) + trailer|
  {
    PackCarries(s);
    forall i | 0 <= i < |s| ensures BitAt(Pack(s) + trailer, 0 + i) == Digit(s[i]) {
      assert BitAt(Pack(s), 0 + i) == Digit(s[i]);
      assert i / 8 < |Pack(s)|;
    }
  }

  /** The round trip, for every stream of blocks and every trailer. */
  lemma RawRoundTrip(bs: seq<Block>, trailer: seq<byte>)
    requires GoodStream(bs) && StreamInReach([], bs)
    ensures var want := InflateSpec.Inflate(EncodeRaw(bs, trailer), false);
            want.Some? && want.value.out == StreamOutput([], bs) && want.value.pos <= 8 * |EncodeRaw(bs, trailer)|
  {
    hide StreamBits, StreamOutput, StreamEnd;
    PackedThenMore(StreamBits(0, bs), trailer);
    ReadStream(EncodeRaw(bs, trailer), 0, [], bs);
  }

  lemma ZlibRoundTrip(cmf: byte, flg: byte, bs: seq<Block>, trailer: seq<byte>)
    requires GoodStream(bs) && StreamInReach([], bs)
    requires ZlibHeader([cmf, flg, 0])
    ensures var want := InflateSpec.Inflate(EncodeZlib(cmf, flg, bs, trailer), true);
            && want.Some? && want.value.out == StreamOutput([], bs)
            && want.value.pos <= 8 * |EncodeZlib(cmf, flg, bs, trailer)|
  {
    hide StreamBits, StreamOutput, StreamEnd, Carries, Lsb, LsbBits;
    var input := EncodeZlib(cmf, flg, bs, trailer);
    var t1 := StreamBits(16, bs);
    var t0 := LsbBits(flg, 8) + t1;
    PackedThenMore(LsbBits(cmf, 8) + t0, trailer);
    SmallPowers();
    ReadField(input, 0, cmf, 8, t0);
    ReadField(input, 8, flg, 8, t1);
    StreamNotEmpty(16, bs);
    LsbByte(input, 0);
    LsbByte(input, 1);
    ReadStream(input, 16, [], bs);
  }

  lemma StreamNotEmpty(p: nat, bs: seq<Block>)
    requires GoodStream(bs)
    ensures |StreamBits(p, bs)| >= 3
  {
    hide BodyBits;
  }

  /** End to end: the decoder returns exactly what was encoded, memory permitting. */
  method DecodeEncoded(input: seq<byte>, ghost cmf: byte, ghost flg: byte, ghost bs: seq<Block>,
                       ghost trailer: seq<byte>,
                       initialSize: nat, allocLimit: nat)
    returns (r: Option<seq<byte>>)
    requires GoodStream(bs) && StreamInReach([], bs) && ZlibHeader([cmf, flg, 0])
    requires input == EncodeZlib(cmf, flg, bs, trailer)
    requires initialSize <= UINT_MAX && initialSize <= allocLimit
    requires CanHold(true, allocLimit, initialSize, |StreamOutput([], bs)|)
    ensures r == Some(StreamOutput([], bs))
  {
    hide StreamOutput, InflateSpec.Inflate, CanHold;
    ZlibRoundTrip(cmf, flg, bs, trailer);
    var hangs;
    r, hangs := DecodeMalloc(input, initialSize, true, allocLimit);
  }

  /** The stream of stored blocks for some bytes: one way in which any bytes can be encoded. */
  function StoredChunks(data: seq<byte>): seq<Block>
    decreases |data|
  {
    if |data| <= 0xFFFF then [Stored(data)] else [Stored(data[..0xFFFF])] + StoredChunks(data[0xFFFF..])
  }

  lemma {:induction false} EveryOutputHasStream(out: seq<byte>, data: seq<byte>)
    ensures GoodStream(StoredChunks(data)) && StreamInReach(out, StoredChunks(data))
    ensures StreamOutput(out, StoredChunks(data)) == out + data
    decreases |data|
  {
    var bs := StoredChunks(data);
    if |data| > 0xFFFF {
      var head, rest := data[..0xFFFF], data[0xFFFF..];
      assert bs[0] == Stored(head) && bs[1..] == StoredChunks(rest);
      EveryOutputHasStream(out + head, rest);
      assert out + head + rest == out + data;
    } else {
      assert bs[1..] == [];
    }
  }

  /** A growing buffer that starts empty never ends growing: all nonempty bytes have a stream on which the call does not
      return. */
  method EmptyStartHangs(input: seq<byte>, ghost data: seq<byte>, allocLimit: nat) returns (hangs: bool)
    requires data != [] && GoodStream(StoredChunks(data)) && input == EncodeZlib(0x78, 0x01, StoredChunks(data), [])
    ensures hangs
  {
    hide StreamOutput, InflateSpec.Inflate, CanHold, StoredChunks, EncodeZlib;
    EveryOutputHasStream([], data);
    ZlibRoundTrip(0x78, 0x01, StoredChunks(data), []);
    var r;
    r, hangs := DecodeMalloc(input, 0, true, allocLimit);
  }
}
