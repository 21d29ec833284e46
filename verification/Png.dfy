/** PNG reconstruction in stb_image: `stbi__paeth`, `stbi__create_png_image_raw`, `stbi__create_png_image`. */
module Png {
  import opened Words
  import opened PngSpec
  import opened PngFormat

  /** `stbi__paeth`: a branch-friendly form of the predictor, equal to the specification's for all integers. */
  function StbPaeth(a: int, b: int, c: int): (r: int)
    ensures r == PaethPredictor(a, b, c)
  {
    var thresh := c * 3 - (a + b);
    var lo := if a < b then a else b;
    var hi := if a < b then b else a;
    var t0 := if hi <= thresh then lo else c;
    if thresh <= lo then hi else t0
  }

  /** What the code adds to a raw byte for its internal filter codes; 5 is "average, first row". */
  function StbPredict(f: nat, a: byte, b: byte, c: byte): (r: byte)
    requires f <= 5
  {
    if f == 5 then a / 2
    else if f == 4 then StbPaeth(a, b, c)
    else Predict(f, a, b, c)
  }

  /** The byte the code stores for raw byte r and neighbours a, b, c. */
  function Stored(f: nat, r: byte, a: byte, b: byte, c: byte): byte
    requires f <= 5
  {
    Wrap(r as int + StbPredict(f, a, b, c) as int)
  }

  const FIRST_ROW_FILTER: seq<nat> := [0, 1, 0, 5, 1]

  /** On the first row the substituted filter needs no previous row. */
  lemma Substitution(ft: nat, a: byte, b: byte, c: byte)
    requires ft <= 4
    ensures StbPredict(FIRST_ROW_FILTER[ft], a, b, c) == Predict(ft, a, 0, 0)
  {
  }

  /** Each byte of `cur` is the raw byte plus the prediction from its neighbours. */
  ghost predicate Recurrence(f: nat, bpp: nat, raw: row, cur: row, prior: row)
    requires f <= 5 && |raw| == |cur| == |prior|
  {
    forall k :: 0 <= k < |raw| ==>
      cur[k] == Stored(f, raw[k], At(cur, k - bpp), prior[k], At(prior, k - bpp))
  }

  lemma {:induction false} RecurrenceByte(f: nat, bpp: nat, raw: row, cur: row, prior: row, ft: nat, above: row, k: nat)
    requires f <= 5 && ft <= 4 && bpp > 0 && |raw| == |cur| == |prior| == |above| && k < |raw|
    requires Recurrence(f, bpp, raw, cur, prior)
    requires (f == ft && above == prior) || (f == FIRST_ROW_FILTER[ft] && above == Zeros(|raw|))
    ensures cur[k] == ReconByte(ft, bpp, raw, above, k)
    decreases k
  {
    hide PaethPredictor, Wrap;
    if bpp <= k {
      RecurrenceByte(f, bpp, raw, cur, prior, ft, above, k - bpp);
    }
    Substitution(ft, At(cur, k - bpp), prior[k], At(prior, k - bpp));
  }

  /** A row that satisfies the recurrence is the reconstructed row. */
  lemma RecurrenceIsRecon(f: nat, bpp: nat, raw: row, cur: row, prior: row, ft: nat, above: row)
    requires f <= 5 && ft <= 4 && bpp > 0 && |raw| == |cur| == |prior| == |above|
    requires Recurrence(f, bpp, raw, cur, prior)
    requires (f == ft && above == prior) || (f == FIRST_ROW_FILTER[ft] && above == Zeros(|raw|))
    ensures cur == ReconRow(ft, bpp, raw, above)
  {
    hide Recurrence, ReconByte;
    forall k | 0 <= k < |raw| ensures cur[k] == ReconByte(ft, bpp, raw, above, k) {
      RecurrenceByte(f, bpp, raw, cur, prior, ft, above, k);
    }
  }

  // ----- one row, in one half of the two-row buffer -----

  /** The byte at offset i of the half that starts at `half`, or 0 left of it. */
  function Left(buf: array<byte>, half: nat, i: int): byte
    reads buf
    requires half + i < buf.Length
  {
    if i < 0 then 0 else buf[half + i]
  }

  /** The first n bytes of the current half are reconstructed. */
  ghost predicate Done(buf: array<byte>, cur: nat, prior: nat, raw: row, f: nat, bpp: nat, n: nat)
    reads buf
    requires f <= 5 && n <= |raw| && cur + |raw| <= buf.Length && prior + |raw| <= buf.Length
  {
    forall i :: 0 <= i < n ==>
      buf[cur + i] == Stored(f, raw[i], Left(buf, cur, i - bpp), buf[prior + i], Left(buf, prior, i - bpp))
  }

  predicate Halves(buf: array<byte>, cur: nat, prior: nat, w: nat) {
    cur + w <= buf.Length && prior + w <= buf.Length && (cur + w <= prior || prior + w <= cur)
  }

  /** What each branch of the filter switch stores. */
  lemma StoredForm(f: nat, r: byte, a: byte, b: byte, c: byte)
    requires f <= 5
    ensures Stored(f, r, a, b, c) == Wrap(r as int +
              if f == 0 then 0 else if f == 1 then a as int else if f == 2 then b as int
              else if f == 3 then (a as int + b as int) / 2 else if f == 4 then StbPaeth(a, b, c) else a as int / 2)
    ensures f == 0 ==> Stored(f, r, a, b, c) == r
  {
    hide PaethPredictor;
  }

  /** Left of the filter unit the sub and average forms store the raw byte, and Paeth adds the byte above. */
  lemma StoredAtEdge(f: nat, r: byte, b: byte)
    requires f <= 5
    ensures f == 1 || f == 5 ==> Stored(f, r, 0, b, 0) == r
    ensures f == 3 || f == 4 ==> Stored(f, r, 0, b, 0) == Wrap(r as int + if f == 3 then b as int / 2 else b as int)
  {
    PaethAtEdge(b);
    assert Wrap(r as int) == r;
    hide StbPaeth, PaethPredictor, Wrap;
  }

  lemma PaethAtEdge(b: byte)
    ensures StbPaeth(0, b, 0) == b
  {
  }

  /** Storing byte k of the current half completes the first k + 1 and leaves the other half alone. */
  method Put(buf: array<byte>, cur: nat, ghost prior: nat, ghost raw: row, ghost f: nat, ghost bpp: nat, k: nat,
             v: byte)
    requires Halves(buf, cur, prior, |raw|) && f <= 5 && 0 < bpp && k < |raw|
    requires Done(buf, cur, prior, raw, f, bpp, k)
    requires v == Stored(f, raw[k], Left(buf, cur, k - bpp), buf[prior + k], Left(buf, prior, k - bpp))
    modifies buf
    ensures Done(buf, cur, prior, raw, f, bpp, k + 1)
    ensures forall i :: prior <= i < prior + |raw| ==> buf[i] == old(buf[i])
  {
    hide Stored;
    buf[cur + k] := v;
  }

  /** `STBI__F_none` */
  method UnfilterNone(buf: array<byte>, cur: nat, ghost prior: nat, raw: row, ghost bpp: nat)
    requires Halves(buf, cur, prior, |raw|) && 0 < bpp
    modifies buf
    ensures Done(buf, cur, prior, raw, 0, bpp, |raw|)
    ensures forall i :: prior <= i < prior + |raw| ==> buf[i] == old(buf[i])
  {
    hide Stored, Wrap, StbPaeth;
    for k := 0 to |raw|
      invariant Done(buf, cur, prior, raw, 0, bpp, k)
      invariant forall i :: prior <= i < prior + |raw| ==> buf[i] == old(buf[i])
    {
      hide Done;
      StoredForm(0, raw[k], Left(buf, cur, k - bpp), buf[prior + k], Left(buf, prior, k - bpp));
      Put(buf, cur, prior, raw, 0, bpp, k, raw[k]);
    }
  }

  /** `STBI__F_sub` */
  method UnfilterSub(buf: array<byte>, cur: nat, ghost prior: nat, raw: row, bpp: nat)
    requires Halves(buf, cur, prior, |raw|) && 0 < bpp <= |raw|
    modifies buf
    ensures Done(buf, cur, prior, raw, 1, bpp, |raw|)
    ensures forall i :: prior <= i < prior + |raw| ==> buf[i] == old(buf[i])
  {
    hide Stored, Wrap, StbPaeth;
    for k := 0 to bpp
      invariant Done(buf, cur, prior, raw, 1, bpp, k)
      invariant forall i :: prior <= i < prior + |raw| ==> buf[i] == old(buf[i])
    {
      hide Done;
      StoredAtEdge(1, raw[k], buf[prior + k]);
      Put(buf, cur, prior, raw, 1, bpp, k, raw[k]);
    }
    for k := bpp to |raw|
      invariant Done(buf, cur, prior, raw, 1, bpp, k)
      invariant forall i :: prior <= i < prior + |raw| ==> buf[i] == old(buf[i])
    {
      hide Done;
      StoredForm(1, raw[k], Left(buf, cur, k - bpp), buf[prior + k], Left(buf, prior, k - bpp));
      Put(buf, cur, prior, raw, 1, bpp, k, Wrap(raw[k] as int + buf[cur + k - bpp] as int));
    }
  }

  /** `STBI__F_up` */
  method UnfilterUp(buf: array<byte>, cur: nat, prior: nat, raw: row, ghost bpp: nat)
    requires Halves(buf, cur, prior, |raw|) && 0 < bpp
    modifies buf
    ensures Done(buf, cur, prior, raw, 2, bpp, |raw|)
    ensures forall i :: prior <= i < prior + |raw| ==> buf[i] == old(buf[i])
  {
    hide Stored, Wrap, StbPaeth;
    for k := 0 to |raw|
      invariant Done(buf, cur, prior, raw, 2, bpp, k)
      invariant forall i :: prior <= i < prior + |raw| ==> buf[i] == old(buf[i])
    {
      hide Done;
      StoredForm(2, raw[k], Left(buf, cur, k - bpp), buf[prior + k], Left(buf, prior, k - bpp));
      Put(buf, cur, prior, raw, 2, bpp, k, Wrap(raw[k] as int + buf[prior + k] as int));
    }
  }

  /** `STBI__F_avg` */
  method UnfilterAvg(buf: array<byte>, cur: nat, prior: nat, raw: row, bpp: nat)
    requires Halves(buf, cur, prior, |raw|) && 0 < bpp <= |raw|
    modifies buf
    ensures Done(buf, cur, prior, raw, 3, bpp, |raw|)
    ensures forall i :: prior <= i < prior + |raw| ==> buf[i] == old(buf[i])
  {
    hide Stored, Wrap, StbPaeth;
    for k := 0 to bpp
      invariant Done(buf, cur, prior, raw, 3, bpp, k)
      invariant forall i :: prior <= i < prior + |raw| ==> buf[i] == old(buf[i])
    {
      hide Done;
      StoredAtEdge(3, raw[k], buf[prior + k]);
      Put(buf, cur, prior, raw, 3, bpp, k, Wrap(raw[k] as int + buf[prior + k] as int / 2));
    }
    for k := bpp to |raw|
      invariant Done(buf, cur, prior, raw, 3, bpp, k)
      invariant forall i :: prior <= i < prior + |raw| ==> buf[i] == old(buf[i])
    {
      hide Done;
      StoredForm(3, raw[k], Left(buf, cur, k - bpp), buf[prior + k], Left(buf, prior, k - bpp));
      Put(buf, cur, prior, raw, 3, bpp, k,
          Wrap(raw[k] as int + (buf[cur + k - bpp] as int + buf[prior + k] as int) / 2));
    }
  }

  /** `STBI__F_paeth` */
  method UnfilterPaeth(buf: array<byte>, cur: nat, prior: nat, raw: row, bpp: nat)
    requires Halves(buf, cur, prior, |raw|) && 0 < bpp <= |raw|
    modifies buf
    ensures Done(buf, cur, prior, raw, 4, bpp, |raw|)
    ensures forall i :: prior <= i < prior + |raw| ==> buf[i] == old(buf[i])
  {
    hide Stored, Wrap, StbPaeth;
    for k := 0 to bpp
      invariant Done(buf, cur, prior, raw, 4, bpp, k)
      invariant forall i :: prior <= i < prior + |raw| ==> buf[i] == old(buf[i])
    {
      hide Done;
      StoredAtEdge(4, raw[k], buf[prior + k]);
      Put(buf, cur, prior, raw, 4, bpp, k, Wrap(raw[k] as int + buf[prior + k] as int));
    }
    for k := bpp to |raw|
      invariant Done(buf, cur, prior, raw, 4, bpp, k)
      invariant forall i :: prior <= i < prior + |raw| ==> buf[i] == old(buf[i])
    {
      hide Done;
      StoredForm(4, raw[k], Left(buf, cur, k - bpp), buf[prior + k], Left(buf, prior, k - bpp));
      Put(buf, cur, prior, raw, 4, bpp, k,
          Wrap(raw[k] as int + StbPaeth(buf[cur + k - bpp], buf[prior + k], buf[prior + k - bpp])));
    }
  }

  /** `STBI__F_avg_first` */
  method UnfilterAvgFirst(buf: array<byte>, cur: nat, ghost prior: nat, raw: row, bpp: nat)
    requires Halves(buf, cur, prior, |raw|) && 0 < bpp <= |raw|
    modifies buf
    ensures Done(buf, cur, prior, raw, 5, bpp, |raw|)
    ensures forall i :: prior <= i < prior + |raw| ==> buf[i] == old(buf[i])
  {
    hide Stored, Wrap, StbPaeth;
    for k := 0 to bpp
      invariant Done(buf, cur, prior, raw, 5, bpp, k)
      invariant forall i :: prior <= i < prior + |raw| ==> buf[i] == old(buf[i])
    {
      hide Done;
      StoredAtEdge(5, raw[k], buf[prior + k]);
      Put(buf, cur, prior, raw, 5, bpp, k, raw[k]);
    }
    for k := bpp to |raw|
      invariant Done(buf, cur, prior, raw, 5, bpp, k)
      invariant forall i :: prior <= i < prior + |raw| ==> buf[i] == old(buf[i])
    {
      hide Done;
      StoredForm(5, raw[k], Left(buf, cur, k - bpp), buf[prior + k], Left(buf, prior, k - bpp));
      Put(buf, cur, prior, raw, 5, bpp, k, Wrap(raw[k] as int + buf[cur + k - bpp] as int / 2));
    }
  }

  /** The filter switch: reconstruct one row into the current half, leaving the other half alone. */
  method UnfilterRow(buf: array<byte>, cur: nat, prior: nat, raw: row, f: nat, bpp: nat)
    requires Halves(buf, cur, prior, |raw|) && 0 < bpp <= |raw| && f <= 5
    modifies buf
    ensures Recurrence(f, bpp, raw, buf[cur..cur + |raw|], buf[prior..prior + |raw|])
    ensures buf[prior..prior + |raw|] == old(buf[prior..prior + |raw|])
  {
    hide Stored;
    if f == 0 {
      UnfilterNone(buf, cur, prior, raw, bpp);
    } else if f == 1 {
      UnfilterSub(buf, cur, prior, raw, bpp);
    } else if f == 2 {
      UnfilterUp(buf, cur, prior, raw, bpp);
    } else if f == 3 {
      UnfilterAvg(buf, cur, prior, raw, bpp);
    } else if f == 4 {
      UnfilterPaeth(buf, cur, prior, raw, bpp);
    } else {
      UnfilterAvgFirst(buf, cur, prior, raw, bpp);
    }
    DoneIsRecurrence(buf, cur, prior, raw, f, bpp);
  }

  lemma DoneIsRecurrence(buf: array<byte>, cur: nat, prior: nat, raw: row, f: nat, bpp: nat)
    requires f <= 5 && Halves(buf, cur, prior, |raw|)
    requires Done(buf, cur, prior, raw, f, bpp, |raw|)
    ensures Recurrence(f, bpp, raw, buf[cur..cur + |raw|], buf[prior..prior + |raw|])
  {
    hide Stored;
    var c, p := buf[cur..cur + |raw|], buf[prior..prior + |raw|];
    forall k | 0 <= k < |raw| ensures c[k] == Stored(f, raw[k], At(c, k - bpp), p[k], At(p, k - bpp)) {
      assert At(c, k - bpp) == Left(buf, cur, k - bpp) && At(p, k - bpp) == Left(buf, prior, k - bpp);
      assert c[k] == buf[cur + k] && p[k] == buf[prior + k];
    }
  }

  // ----- a whole (sub-)image -----

  /** The pixels of one reconstructed row. */
  function OutRow(cur: row, x: nat, f: Format): (r: seq<pixel>)
    requires GoodFormat(f) && |cur| == RowWidth(f, x)
    ensures |r| == x
  {
    seq(x, i requires 0 <= i < x => OutPixel(cur, i, x, f))
  }

  /** Where row j starts in an image x pixels wide. */
  function RowOffset(j: nat, x: nat): nat {
    j * x
  }

  lemma RowOffsetNext(j: nat, y: nat, x: nat)
    requires j < y
    ensures RowOffset(j + 1, x) == RowOffset(j, x) + x <= RowOffset(y, x)
  {
    MulMono(j + 1, y, x);
  }

  /** The first n rows of the image, row after row. */
  function OutRows(raw: seq<byte>, x: nat, f: Format, n: nat): (r: seq<pixel>)
    requires GoodFormat(f) && n * (RowWidth(f, x) + 1) <= |raw| && GoodFilters(raw, RowWidth(f, x), n)
    ensures |r| == RowOffset(n, x)
  {
    if n == 0 then []
    else
      RowStart(RowWidth(f, x), n - 1);
      RowOffsetNext(n - 1, n, x);
      hide RowWidth, Unit;
      OutRows(raw, x, f, n - 1) + OutRow(ReconUpTo(raw, RowWidth(f, x), Unit(f), n), x, f)
  }

  // ----- expanding samples of less than a byte -----

  /** `b << n` in a byte. */
  function ShlByte(b: nat, n: nat): nat {
    Low(b * Pow2(n), 8)
  }

  /** The bits at the top of a byte shifted left are a sample further down. */
  lemma TopOfShifted(b: byte, sh: nat, depth: nat)
    requires sh + depth <= 8
    ensures Shr(Low(b * Pow2(sh), 8), 8 - depth) == Low(Shr(b, 8 - depth - sh), depth)
  {
    hide Shr, Low, Pow2;
    LowOfShl(b, sh, 8 - sh);
    ShrOfShl(Low(b, 8 - sh), sh, 8 - depth - sh);
    LowOfShr(b, 8 - depth - sh, depth);
  }

  lemma ShiftedOn(b: byte, sh: nat, depth: nat)
    ensures Low(Low(b * Pow2(sh), 8) * Pow2(depth), 8) == Low(b * Pow2(sh + depth), 8)
  {
    hide Shr, Low, Pow2;
    var a := b * Pow2(sh);
    Split(a, 8);
    Pow2Add(sh, depth);
    Pow2Add(8, depth);
    var p, q, h := Pow2(depth), Low(a, 8), Shr(a, 8);
    assert a * p == (h * Pow2(8) + q) * p;
    assert (h * Pow2(8) + q) * p == h * p * Pow2(8) + q * p;
    assert b * Pow2(sh + depth) == a * p;
    DropMultiple(q * p, h * p);
  }

  lemma DropMultiple(a: nat, k: nat)
    ensures Low(k * Pow2(8) + a, 8) == Low(a, 8)
  {
    hide Shr, Low, Pow2;
    Split(a, 8);
    var q := Shr(a, 8);
    assert k * Pow2(8) + q * Pow2(8) == (k + q) * Pow2(8);
    SplitUnique(k * Pow2(8) + a, 8, k + q, Low(a, 8));
  }

  lemma WholeByte(b: byte)
    ensures ShlByte(b, 0) == b
  {
    SmallPowers();
    SplitUnique(b, 8, 0, b);
  }

  /** Before sample i: the next byte to take, and what is left of the one taken last. */
  predicate BitsHeld(src: row, i: nat, depth: nat, next: nat, inb: nat)
    requires depth == 1 || depth == 2 || depth == 4
  {
    var q, t := Quo(i, PerByte(depth)), Rem(i, PerByte(depth));
    if t == 0 then next == q
    else next == q + 1 <= |src| && inb == ShlByte(src[q], t * depth)
  }

  lemma NextPlace(i: nat, per: nat)
    requires per > 1
    ensures Quo(i + 1, per) == if Rem(i, per) == per - 1 then Quo(i, per) + 1 else Quo(i, per)
    ensures Rem(i + 1, per) == if Rem(i, per) == per - 1 then 0 else Rem(i, per) + 1
  {
    hide Quo, Rem;
    QuoRem(i, per);
    if Rem(i, per) == per - 1 {
      QuoRemUnique(i + 1, Quo(i, per) + 1, 0, per);
    } else {
      QuoRemUnique(i + 1, Quo(i, per), Rem(i, per) + 1, per);
    }
  }

  /** One round of the loop below. */
  lemma BitsStep(src: row, i: nat, n: nat, depth: nat, next: nat, inb: nat)
    requires (depth == 1 || depth == 2 || depth == 4) && i < n && |src| == Bytes(n, depth)
    requires BitsHeld(src, i, depth, next, inb)
    ensures var taken := Rem(i, PerByte(depth)) == 0;
            && (taken ==> next < |src|)
            && var held: nat := if taken then src[next] else inb;
            && Shr(held, 8 - depth) == Sample(src, i, n, depth)
            && BitsHeld(src, i + 1, depth, if taken then next + 1 else next, ShlByte(held, depth))
  {
    hide Shr, Low, Pow2, Quo, Rem, ShlByte;
    SampleOf(src, i, n, depth);
    var per := PerByte(depth);
    assert per > 1;
    ByteParts(Rem(i, per), depth);
    hide Bytes, PerByte, Sample;
    NextPlace(i, per);
    var b, t := src[Quo(i, per)], Rem(i, per);
    WholeByte(b);
    HeldSample(b, t * depth, depth, if t == 0 then b else inb);
  }

  /** The parts of a byte, one after another. */
  lemma ByteParts(t: nat, depth: nat)
    requires (depth == 1 || depth == 2 || depth == 4) && t < PerByte(depth)
    ensures t * depth + depth <= 8 && (t + 1) * depth == t * depth + depth && (t == 0 ==> t * depth == 0)
  {
    if depth == 1 {
    } else if depth == 2 {
    } else {
    }
  }

  lemma SampleOf(src: row, i: nat, n: nat, depth: nat)
    requires (depth == 1 || depth == 2 || depth == 4) && i < n && |src| == Bytes(n, depth)
    ensures var q, t := Quo(i, PerByte(depth)), Rem(i, PerByte(depth));
            && q < |src| && t < PerByte(depth) && t * depth + depth <= 8
            && Sample(src, i, n, depth) == Low(Shr(src[q], 8 - depth - t * depth), depth)
  {
    SampleInRow(i, n, depth);
    QuoRem(i, PerByte(depth));
    hide Shr, Low, Pow2, Quo, Rem, Bytes;
    ByteParts(Rem(i, PerByte(depth)), depth);
  }

  lemma HeldSample(b: byte, sh: nat, depth: nat, held: nat)
    requires sh + depth <= 8 && held == ShlByte(b, sh)
    ensures Shr(held, 8 - depth) == Low(Shr(b, 8 - depth - sh), depth)
    ensures ShlByte(held, depth) == ShlByte(b, sh + depth)
  {
    hide Shr, Low, Pow2;
    TopOfShifted(b, sh, depth);
    ShiftedOn(b, sh, depth);
  }

  lemma NothingHeld(src: row, depth: nat)
    requires depth == 1 || depth == 2 || depth == 4
    ensures BitsHeld(src, 0, depth, 0, 0)
  {
  }

  /** The line starts with the n samples of a row, scaled. */
  ghost predicate Line(line: seq<nat>, src: row, n: nat, f: Format)
    requires GoodFormat(f) && |src| == Bytes(n, f.depth)
  {
    n <= |line| && forall m :: 0 <= m < n ==> line[m] == Scaled(f, Sample(src, m, n, f.depth))
  }

  /** The loop that takes n samples of 1, 2 or 4 bits out of the row, shifting each byte left. */
  method ExpandBits(buf: array<byte>, cur: nat, ghost src: row, n: nat, f: Format, line: array<nat>)
    requires GoodFormat(f) && f.depth < 8 && |src| == Bytes(n, f.depth) && n <= line.Length
    requires cur + |src| <= buf.Length && buf[cur..cur + |src|] == src
    modifies line
    ensures Line(line[..], src, n, f)
  {
    hide Shr, Low, Pow2, Scaled, Sample, Rem, Quo, ShlByte;
    NothingHeld(src, f.depth);
    var per := PerByte(f.depth);
    var next, inb: nat := 0, 0;
    for i := 0 to n
      invariant forall m :: 0 <= m < i ==> line[m] == Scaled(f, Sample(src, m, n, f.depth))
      invariant BitsHeld(src, i, f.depth, next, inb)
    {
      hide BitsHeld;
      BitsStep(src, i, n, f.depth, next, inb);
      if Rem(i, per) == 0 {
        assert buf[cur + next] == src[next];
        inb, next := buf[cur + next], next + 1;
      }
      line[i] := Scaled(f, Shr(inb, 8 - f.depth));
      inb := ShlByte(inb, f.depth);
    }
  }

  /** Pixel i of a line has its components and an opaque alpha. */
  ghost predicate AlphaAt(before: seq<nat>, after: seq<nat>, i: nat, n: nat) {
    && i * n + n <= |before| && i * (n + 1) + n + 1 <= |after|
    && after[i * (n + 1)..i * (n + 1) + n + 1] == before[i * n..i * n + n] + [255]
  }

  /** Where pixel i of x is, before and after. */
  lemma Places(i: nat, x: nat, n: nat)
    requires i < x
    ensures i * (n + 1) == i * n + i
    ensures i * n + n == (i + 1) * n <= x * n <= x * (n + 1)
    ensures i * (n + 1) + n + 1 == (i + 1) * (n + 1) <= x * (n + 1)
  {
    MulMono(i + 1, x, n + 1);
    MulMono(i + 1, x, n);
  }

  /** `stbi__create_png_alpha_expand8` in place: backwards, since pixels grow. */
  method AlphaExpand(line: array<nat>, x: nat, n: nat)
    requires x * (n + 1) <= line.Length
    modifies line
    ensures forall i :: 0 <= i < x ==> AlphaAt(old(line[..]), line[..], i, n)
  {
    ghost var before := line[..];
    for i := x downto 0
      invariant i * n <= line.Length && line[..i * n] == before[..i * n]
      invariant forall k :: i <= k < x ==> AlphaAt(before, line[..], k, n)
    {
      Places(i, x, n);
      ghost var mid := line[..];
      ExpandOne(line, i, x, n, before);
      hide AlphaAt;
      forall k | i < k < x ensures AlphaAt(before, line[..], k, n) {
        AlphaStays(before, mid, line[..], i, k, n);
      }
    }
  }

  lemma AlphaStays(before: seq<nat>, mid: seq<nat>, after: seq<nat>, i: nat, k: nat, n: nat)
    requires i < k && AlphaAt(before, mid, k, n) && |mid| == |after|
    requires forall m :: i * (n + 1) + n < m < |mid| ==> after[m] == mid[m]
    ensures AlphaAt(before, after, k, n)
  {
    MulMono(i + 1, k, n + 1);
    var d := k * (n + 1);
    assert (i + 1) * (n + 1) == i * (n + 1) + n + 1;
    assert after[d..d + n + 1] == mid[d..d + n + 1];
  }

  /** One round of it: alpha first, then the components from the last on. */
  method ExpandOne(line: array<nat>, i: nat, x: nat, n: nat, ghost before: seq<nat>)
    requires i < x && x * (n + 1) <= line.Length == |before|
    requires i * n + n <= line.Length && line[..i * n + n] == before[..i * n + n]
    modifies line
    ensures line[..i * n] == before[..i * n]
    ensures forall m :: i * (n + 1) + n < m < line.Length ==> line[m] == old(line[m])
    ensures AlphaAt(before, line[..], i, n)
  {
    Places(i, x, n);
    var s, d := i * n, i * (n + 1);
    hide AlphaAt;
    MovePixel(line, s, d, n, before);
    MovedIs(before, line[..], i, n, s, d);
  }

  lemma MovedIs(before: seq<nat>, after: seq<nat>, i: nat, n: nat, s: nat, d: nat)
    requires s == i * n && d == i * (n + 1) && s + n <= |before| && d + n + 1 <= |after|
    requires after[d..d + n + 1] == before[s..s + n] + [255]
    ensures AlphaAt(before, after, i, n)
  {
  }

  /** Moves n components from s up to d, from the last on, and puts an opaque alpha behind them. */
  method MovePixel(line: array<nat>, s: nat, d: nat, n: nat, ghost before: seq<nat>)
    requires s <= d && d + n < line.Length && s + n <= |before| && line[..s + n] == before[..s + n]
    modifies line
    ensures line[..s] == before[..s]
    ensures forall m :: d + n < m < line.Length ==> line[m] == old(line[m])
    ensures line[d..d + n + 1] == before[s..s + n] + [255]
  {
    forall m | 0 <= m < s + n ensures line[m] == before[m] {
      assert line[..s + n][m] == before[..s + n][m];
    }
    line[d + n] := 255;
    for c := n downto 0
      invariant forall m :: 0 <= m < s + c ==> line[m] == before[m]
      invariant forall m :: d + n < m < line.Length ==> line[m] == old(line[m])
      invariant forall m :: d + c <= m < d + n ==> line[m] == before[m - d + s]
      invariant line[d + n] == 255
    {
      line[d + c] := line[s + c];
    }
  }

  // ----- one row of output -----

  /** A pixel of samples that are bytes, or pairs of bytes with the high one first. */
  method WholeSamples(buf: array<byte>, cur: nat, ghost src: row, i: nat, x: nat, f: Format) returns (px: pixel)
    requires GoodFormat(f) && f.depth >= 8 && i < x && |src| == RowWidth(f, x)
    requires cur + |src| <= buf.Length && buf[cur..cur + |src|] == src
    ensures px == OutPixel(src, i, x, f)
  {
    px := [];
    PixelInRow(i, x, f.imgN);
    for c := 0 to f.imgN
      invariant |px| == c && forall k :: 0 <= k < c ==> px[k] == Component(src, i, k, x, f)
    {
      var m := i * f.imgN + c;
      SampleInRow(m, x * f.imgN, f.depth);
      hide Bytes;
      if f.depth == 8 {
        assert buf[cur + m] == src[m];
        px := px + [buf[cur + m]];
      } else {
        assert buf[cur + 2 * m] == src[2 * m] && buf[cur + 2 * m + 1] == src[2 * m + 1];
        px := px + [buf[cur + 2 * m] as nat * 256 + buf[cur + 2 * m + 1] as nat];
      }
    }
    px := px + Opaque(f);
  }

  predicate PixelAt(line: seq<nat>, i: nat, n: nat, px: pixel) {
    i * n + n <= |line| && line[i * n..i * n + n] == px
  }

  /** The pixels of a row of samples of less than a byte, by way of a line of single samples. */
  method SmallSamples(buf: array<byte>, cur: nat, ghost src: row, x: nat, f: Format) returns (line: array<nat>)
    requires GoodFormat(f) && f.depth < 8 && |src| == RowWidth(f, x)
    requires cur + |src| <= buf.Length && buf[cur..cur + |src|] == src
    ensures fresh(line) && line.Length == x * f.outN
    ensures forall i :: 0 <= i < x ==> PixelAt(line[..], i, f.outN, OutPixel(src, i, x, f))
  {
    MulMono(f.imgN, f.outN, x);
    line := new nat[x * f.outN](_ => 0);
    ExpandBits(buf, cur, src, x * f.imgN, f, line);
    ghost var before := line[..];
    if f.imgN != f.outN {
      AlphaExpand(line, x, f.imgN);
    }
    forall i | 0 <= i < x ensures PixelAt(line[..], i, f.outN, OutPixel(src, i, x, f)) {
      LinePixel(src, before, line[..], i, x, f);
    }
  }

  lemma LinePixel(src: row, before: seq<nat>, after: seq<nat>, i: nat, x: nat, f: Format)
    requires GoodFormat(f) && f.depth < 8 && |src| == RowWidth(f, x) && i < x
    requires |before| == |after| == x * f.outN && Line(before, src, x * f.imgN, f)
    requires if f.imgN == f.outN then after == before else AlphaAt(before, after, i, f.imgN)
    ensures PixelAt(after, i, f.outN, OutPixel(src, i, x, f))
  {
    PixelInRow(i, x, f.outN);
    PixelInRow(i, x, f.imgN);
    LineComponents(src, before, i, x, f);
    hide Components, RowWidth, Line;
  }

  lemma LineComponents(src: row, line: seq<nat>, i: nat, x: nat, f: Format)
    requires GoodFormat(f) && |src| == RowWidth(f, x) && i < x && Line(line, src, x * f.imgN, f)
    ensures PixelAt(line, i, f.imgN, Components(src, i, x, f))
  {
    hide Sample, Scaled;
    PixelInRow(i, x, f.imgN);
    var s := i * f.imgN;
    forall c | 0 <= c < f.imgN ensures line[s..s + f.imgN][c] == Component(src, i, c, x, f) {
      assert line[s..s + f.imgN][c] == line[s + c];
    }
  }

  /** The first n pixels of the row that starts at `at` are there, and nothing before it has changed. */
  ghost predicate Filled(out: seq<pixel>, before: seq<pixel>, at: nat, src: row, x: nat, f: Format, a: nat, b: nat)
    requires GoodFormat(f) && |src| == RowWidth(f, x)
  {
    && at + x <= |out| == |before| && a <= b <= x && out[..at] == before[..at]
    && forall k :: a <= k < b ==> out[at + k] == OutPixel(src, k, x, f)
  }

  method FillSmall(buf: array<byte>, cur: nat, ghost src: row, out: array<pixel>, at: nat, x: nat, f: Format)
    requires GoodFormat(f) && f.depth < 8 && |src| == RowWidth(f, x) && at + x <= out.Length
    requires cur + |src| <= buf.Length && buf[cur..cur + |src|] == src
    modifies out
    ensures Filled(out[..], old(out[..]), at, src, x, f, 0, x)
  {
    hide OutPixel, RowWidth;
    var line := SmallSamples(buf, cur, src, x, f);
    ghost var samples, before := line[..], out[..];
    for i := 0 to x
      invariant line[..] == samples && Filled(out[..], before, at, src, x, f, 0, i)
    {
      assert PixelAt(samples, i, f.outN, OutPixel(src, i, x, f));
      out[at + i] := line[..][i * f.outN..i * f.outN + f.outN];
    }
  }

  method FillForward(buf: array<byte>, cur: nat, ghost src: row, out: array<pixel>, at: nat, x: nat, f: Format)
    requires GoodFormat(f) && f.depth >= 8 && |src| == RowWidth(f, x) && at + x <= out.Length
    requires cur + |src| <= buf.Length && buf[cur..cur + |src|] == src
    modifies out
    ensures Filled(out[..], old(out[..]), at, src, x, f, 0, x)
  {
    hide OutPixel, RowWidth;
    ghost var before := out[..];
    for i := 0 to x
      invariant Filled(out[..], before, at, src, x, f, 0, i)
    {
      var px := WholeSamples(buf, cur, src, i, x, f);
      out[at + i] := px;
    }
  }

  method FillBackward(buf: array<byte>, cur: nat, ghost src: row, out: array<pixel>, at: nat, x: nat, f: Format)
    requires GoodFormat(f) && f.depth >= 8 && |src| == RowWidth(f, x) && at + x <= out.Length
    requires cur + |src| <= buf.Length && buf[cur..cur + |src|] == src
    modifies out
    ensures Filled(out[..], old(out[..]), at, src, x, f, 0, x)
  {
    hide OutPixel, RowWidth;
    ghost var before := out[..];
    for i := x downto 0
      invariant Filled(out[..], before, at, src, x, f, i, x)
    {
      var px := WholeSamples(buf, cur, src, i, x, f);
      out[at + i] := px;
    }
  }

  /** Expand the current half to row `at` of the output; 8-bit pixels that get an alpha are copied backwards. */
  method ExpandRow(buf: array<byte>, cur: nat, out: array<pixel>, at: nat, x: nat, f: Format)
    requires GoodFormat(f) && cur + RowWidth(f, x) <= buf.Length && at + x <= out.Length
    modifies out
    ensures out[..at] == old(out[..at])
    ensures out[at..at + x] == OutRow(buf[cur..cur + RowWidth(f, x)], x, f)
  {
    ghost var src := buf[cur..cur + RowWidth(f, x)];
    hide OutPixel, RowWidth;
    if f.depth < 8 {
      FillSmall(buf, cur, src, out, at, x, f);
    } else if f.depth == 16 || f.imgN == f.outN {
      FillForward(buf, cur, src, out, at, x, f);
    } else {
      FillBackward(buf, cur, src, out, at, x, f);
    }
  }

  /** Where the half of the buffer whose turn it is at row j starts. */
  function Half(j: nat, w: nat): nat {
    if j % 2 == 0 then 0 else w
  }

  lemma OtherHalf(j: nat, w: nat)
    ensures Half(j + 1, w) == w - Half(j, w)
    ensures Half(j, w) == 0 || Half(j, w) == w
  {
  }

  lemma ReconUpToNext(raw: seq<byte>, w: nat, bpp: nat, j: nat)
    requires (j + 1) * (w + 1) <= |raw| && j * (w + 1) <= |raw| && bpp > 0
    requires GoodFilters(raw, w, j) && RowFilter(raw, w, j) <= 4
    ensures GoodFilters(raw, w, j + 1)
    ensures ReconUpTo(raw, w, bpp, j + 1)
         == ReconRow(RowFilter(raw, w, j), bpp, RowBytes(raw, w, j), ReconUpTo(raw, w, bpp, j))
    ensures j == 0 ==> ReconUpTo(raw, w, bpp, j) == Zeros(w)
  {
    hide RowFilter, RowBytes, ReconRow;
  }

  /** Reconstruct row j into the half of the buffer that is its turn; the other half holds the row above. */
  method ReconInto(buf: array<byte>, raw: seq<byte>, w: nat, bpp: nat, j: nat) returns (ok: bool)
    requires 0 < bpp <= w && buf.Length == 2 * w
    requires (j + 1) * (w + 1) <= |raw| && j * (w + 1) <= |raw| && GoodFilters(raw, w, j)
    requires j > 0 ==> buf[Half(j + 1, w)..Half(j + 1, w) + w] == ReconUpTo(raw, w, bpp, j)
    modifies buf
    ensures ok <==> GoodFilters(raw, w, j + 1)
    ensures ok ==> buf[Half(j, w)..Half(j, w) + w] == ReconUpTo(raw, w, bpp, j + 1)
  {
    hide ReconRow, Recurrence, GoodFilters, Half, ReconUpTo, RowFilter, RowBytes;
    OtherHalf(j, w);
    GoodFiltersStep(raw, w, j);
    var cur, prior := Half(j, w), Half(j + 1, w);
    var filter := RowFilter(raw, w, j);
    if filter > 4 {
      return false;
    }
    var f: nat := if j == 0 then FIRST_ROW_FILTER[filter] else filter;
    var bytes := RowBytes(raw, w, j);
    ReconUpToNext(raw, w, bpp, j);
    ghost var above := buf[prior..prior + w];
    UnfilterRow(buf, cur, prior, bytes, f, bpp);
    RecurrenceIsRecon(f, bpp, bytes, buf[cur..cur + w], above, filter, if j == 0 then Zeros(w) else above);
    ok := true;
  }

  lemma GoodFiltersStep(raw: seq<byte>, w: nat, j: nat)
    requires (j + 1) * (w + 1) <= |raw| && j * (w + 1) <= |raw|
    ensures GoodFilters(raw, w, j + 1) <==> RowFilter(raw, w, j) <= 4 && GoodFilters(raw, w, j)
  {
  }

  lemma OutRowsNext(raw: seq<byte>, x: nat, f: Format, n: nat)
    requires GoodFormat(f) && (n + 1) * (RowWidth(f, x) + 1) <= |raw| && n * (RowWidth(f, x) + 1) <= |raw|
    requires GoodFilters(raw, RowWidth(f, x), n) && GoodFilters(raw, RowWidth(f, x), n + 1)
    ensures OutRows(raw, x, f, n + 1)
         == OutRows(raw, x, f, n) + OutRow(ReconUpTo(raw, RowWidth(f, x), Unit(f), n + 1), x, f)
  {
  }

  /** The rows before j are in the output and row j-1 is in its half of the buffer. */
  ghost predicate RowsDone(buf: array<byte>, out: array<pixel>, raw: seq<byte>, x: nat, f: Format, j: nat)
    reads buf, out
    requires GoodFormat(f)
  {
    var w := RowWidth(f, x);
    && buf.Length == 2 * w
    && j * (w + 1) <= |raw| && GoodFilters(raw, w, j) && RowOffset(j, x) <= out.Length
    && out[..RowOffset(j, x)] == OutRows(raw, x, f, j)
    && (j > 0 ==> buf[Half(j + 1, w)..Half(j + 1, w) + w] == ReconUpTo(raw, w, Unit(f), j))
  }

  /** One round of the row loop. */
  method OneRow(buf: array<byte>, out: array<pixel>, raw: seq<byte>, x: nat, y: nat, f: Format, j: nat)
    returns (ok: bool)
    requires GoodFormat(f) && x > 0 && j < y && y * (RowWidth(f, x) + 1) <= |raw| && out.Length == RowOffset(y, x)
    requires RowsDone(buf, out, raw, x, f, j)
    modifies buf, out
    ensures ok ==> RowsDone(buf, out, raw, x, f, j + 1)
    ensures !ok ==> !GoodFilters(raw, RowWidth(f, x), y)
  {
    UnitInRow(f, x);
    var w := RowWidth(f, x);
    OtherHalf(j, w);
    OtherHalf(j + 1, w);
    hide ReconUpTo, GoodFilters, OutRow, OutRows, RowOffset, RowWidth, Unit, Half;
    MulMono(j + 1, y, w + 1);
    ok := ReconInto(buf, raw, w, Unit(f), j);
    if !ok {
      BadRow(raw, w, j, y);
      return;
    }
    GoodFiltersStep(raw, w, j);
    RowOffsetNext(j, y, x);
    var cur := Half(j, w);
    var at := RowOffset(j, x);
    ExpandRow(buf, cur, out, at, x, f);
    hide RowsDone;
    RowsDoneNext(buf, out, raw, x, f, j);
  }

  lemma RowsDoneNext(buf: array<byte>, out: array<pixel>, raw: seq<byte>, x: nat, f: Format, j: nat)
    requires GoodFormat(f) && buf.Length == 2 * RowWidth(f, x)
    requires (j + 1) * (RowWidth(f, x) + 1) <= |raw| && j * (RowWidth(f, x) + 1) <= |raw|
    requires GoodFilters(raw, RowWidth(f, x), j) && GoodFilters(raw, RowWidth(f, x), j + 1)
    requires RowOffset(j + 1, x) == RowOffset(j, x) + x <= out.Length
    requires out[..RowOffset(j, x)] == OutRows(raw, x, f, j)
    requires Half(j, RowWidth(f, x)) + RowWidth(f, x) <= buf.Length
    requires Half(j + 2, RowWidth(f, x)) == Half(j, RowWidth(f, x))
    requires buf[Half(j, RowWidth(f, x))..Half(j, RowWidth(f, x)) + RowWidth(f, x)]
          == ReconUpTo(raw, RowWidth(f, x), Unit(f), j + 1)
    requires out[RowOffset(j, x)..RowOffset(j, x) + x]
          == OutRow(ReconUpTo(raw, RowWidth(f, x), Unit(f), j + 1), x, f)
    ensures RowsDone(buf, out, raw, x, f, j + 1)
  {
    hide ReconUpTo, GoodFilters, OutRow, OutRows, RowOffset, RowWidth, Unit, Half;
    var at := RowOffset(j, x);
    OutRowsNext(raw, x, f, j);
    assert out[..at + x] == out[..at] + out[at..at + x];
  }

  /**
    `stbi__create_png_image_raw`: it fails exactly when the data are too short or a row
    names an unknown filter, and otherwise yields the reconstructed image.
   */
  method CreatePngImageRaw(raw: seq<byte>, f: Format, x: nat, y: nat) returns (ok: bool, out: array<pixel>)
    requires GoodFormat(f) && x > 0
    ensures fresh(out)
    ensures ok <==> y * (RowWidth(f, x) + 1) <= |raw| && GoodFilters(raw, RowWidth(f, x), y)
    ensures ok ==> out[..] == OutRows(raw, x, f, y)
  {
    hide RowWidth, Unit;
    var w := RowWidth(f, x);
    out := new pixel[RowOffset(y, x)](_ => []);
    var imgLen := (w + 1) * y;
    assert imgLen == y * (w + 1);
    if |raw| < imgLen {
      return false, out;
    }
    hide RowsDone, GoodFilters, OutRows;
    var buf := new byte[2 * w](_ => 0);
    NoRowsDone(buf, out, raw, x, f);
    for j := 0 to y
      invariant RowsDone(buf, out, raw, x, f, j)
    {
      ok := OneRow(buf, out, raw, x, y, f, j);
      if !ok {
        return;
      }
    }
    AllRowsDone(buf, out, raw, x, f, y);
    ok := true;
  }

  lemma NoRowsDone(buf: array<byte>, out: array<pixel>, raw: seq<byte>, x: nat, f: Format)
    requires GoodFormat(f) && buf.Length == 2 * RowWidth(f, x)
    ensures RowsDone(buf, out, raw, x, f, 0)
  {
    var w := RowWidth(f, x);
    hide RowWidth;
    assert 0 * (w + 1) == 0;
  }

  lemma AllRowsDone(buf: array<byte>, out: array<pixel>, raw: seq<byte>, x: nat, f: Format, y: nat)
    requires GoodFormat(f) && RowsDone(buf, out, raw, x, f, y) && out.Length == RowOffset(y, x)
    ensures y * (RowWidth(f, x) + 1) <= |raw| && GoodFilters(raw, RowWidth(f, x), y)
    ensures out[..] == OutRows(raw, x, f, y)
  {
    hide RowOffset, ReconUpTo, OutRows, GoodFilters, RowWidth;
    assert out[..out.Length] == out[..];
  }

  lemma BadRow(raw: seq<byte>, w: nat, j: nat, y: nat)
    requires j < y && y * (w + 1) <= |raw| && (j + 1) * (w + 1) <= |raw| && !GoodFilters(raw, w, j + 1)
    ensures !GoodFilters(raw, w, y)
  {
    if GoodFilters(raw, w, y) {
      GoodFiltersPrefix(raw, w, j + 1, y);
    }
  }
}
