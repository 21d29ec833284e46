/**
  An LZW encoder for GIF rasters (Appendix F of GIF89a), as a specification: any way to
  cut the indices into strings that have codes, with clear codes anywhere, in any
  sub-blocks.  The encoder knows nothing of the decoder's table; reading back says that they agree.
 */
module GifEncode {
  import opened Words
  import opened BitStream
  import opened Input
  import opened GifSpec
  import opened Gif
  import opened GifLzw

  /** A string of indices and the code it is sent as. */
  datatype Sent = Sent(word: seq<byte>, code: nat)

  /** What has been sent since a clear code; it determines the dictionary. */
  type run = seq<Sent>

  predicate Nonempty(r: run) {
    forall k :: 0 <= k < |r| ==> r[k].word != []
  }

  /** The j-th string added to the dictionary: string j and the first index of the next. */
  function Added(r: run, j: nat): seq<byte>
    requires Nonempty(r) && j + 1 < |r|
  {
    r[j].word + [r[j + 1].word[0]]
  }

  /** Where the codes of added strings begin: after the indices, the clear code and the end code. */
  function FirstFree(cs: nat): nat {
    Pow2(cs) + 2
  }

  /** String k is an index under its own number, or the string added under its code, the last one at the latest. */
  predicate HasCode(cs: nat, r: run, k: nat)
    requires Nonempty(r) && k < |r|
  {
    var t := r[k];
    if t.code < Pow2(cs) then t.code < 256 && t.word == [t.code]
    else FirstFree(cs) <= t.code < FirstFree(cs) + k && t.word == Added(r, t.code - FirstFree(cs))
  }

  /** The largest code there can be when k codes were sent since a clear: the one the k-th code adds. */
  function TopCode(cs: nat, k: nat): nat {
    Pow2(cs) + 1 + k
  }

  /** Codes are sent in the digits the largest one needs, but not in more than 12 unless they start so. */
  function CodeWidth(cs: nat, k: nat): (n: nat)
    ensures n > 0
  {
    var n := Digits(TopCode(cs, k));
    if n <= cs || (12 < n && 12 <= cs) then cs + 1 else if n <= 12 then n else 12
  }

  /** Every string has a code, every code fits its bits, and the decoder has room for all strings. */
  predicate GoodRun(cs: nat, r: run) {
    && Nonempty(r) && Pow2(cs) + |r| < 8192
    && forall k :: 0 <= k < |r| ==> HasCode(cs, r, k) && r[k].code < Pow2(CodeWidth(cs, k))
  }

  /** The indices of a run from the k-th string on. */
  function RunIndices(r: run, k: nat): seq<byte>
    requires k <= |r|
    decreases |r| - k
  {
    if k == |r| then [] else r[k].word + RunIndices(r, k + 1)
  }

  /** The indices of runs separated by clear codes. */
  function Indices(rs: seq<run>): seq<byte> {
    if rs == [] then [] else RunIndices(rs[0], 0) + Indices(rs[1..])
  }

  /** The codes of a run from the k-th on. */
  function RunBits(cs: nat, r: run, k: nat): bits
    requires k <= |r|
    decreases |r| - k
  {
    if k == |r| then [] else LsbBits(r[k].code, CodeWidth(cs, k)) + RunBits(cs, r, k + 1)
  }

  /** A clear code before every run, when k codes were sent since the last clear. */
  function RunsBits(cs: nat, rs: seq<run>, k: nat): bits
    decreases |rs|
  {
    if rs == [] then []
    else LsbBits(Pow2(cs), CodeWidth(cs, k)) + (RunBits(cs, rs[0], 0) + RunsBits(cs, rs[1..], |rs[0]|))
  }

  /** How many codes were sent since the last clear, after all runs. */
  function LastCount(rs: seq<run>): nat {
    if rs == [] then 0 else |rs[|rs| - 1]|
  }

  /** All runs and the end code. */
  function RasterBits(cs: nat, rs: seq<run>): bits {
    RunsBits(cs, rs, 0) + LsbBits(Pow2(cs) + 1, CodeWidth(cs, LastCount(rs)))
  }

  predicate GoodRuns(cs: nat, rs: seq<run>) {
    forall r :: r in rs ==> GoodRun(cs, r)
  }

  // ----- the width -----

  lemma DigitsAre(a: nat, n: nat)
    requires n > 0 && Pow2(n - 1) <= a < Pow2(n)
    ensures Digits(a) == n
  {
    DigitsAtMost(a, n);
    Pow2Less(n - 1, Digits(a));
  }

  /** Until the dictionary has 4096 codes, every code there can be fits its digits. */
  lemma CodeFits(cs: nat, k: nat, code: nat)
    requires code <= TopCode(cs, k) < 0x1000
    ensures code < Pow2(CodeWidth(cs, k))
  {
    hide Digits;
    var n := Digits(TopCode(cs, k));
    Pow2Of12();
    DigitsAtMost(TopCode(cs, k), 12);
    Pow2Mono(n, if n <= cs then cs + 1 else n);
  }

  lemma Pow2Of12()
    ensures Pow2(12) == 0x1000
  {
    Pow2Add(4, 8);
    SmallPowers();
  }

  lemma FirstWidth(cs: nat)
    requires 1 <= cs <= 12
    ensures CodeWidth(cs, 0) == cs + 1
  {
    hide Digits;
    Pow2Mono(1, cs);
    DigitsAre(Pow2(cs) + 1, cs + 1);
  }

  /** The decoder's width changes just when the digits of the largest code do. */
  lemma WidthStep(cs: nat, k: nat)
    requires 1 <= cs <= 12
    ensures var top, w := TopCode(cs, k + 1), CodeWidth(cs, k);
            CodeWidth(cs, k + 1) == if Low(top, w) == 0 && top <= 0xFFF then w + 1 else w
  {
    hide Digits, Low, Pow2;
    var top := TopCode(cs, k + 1);
    TopDigits(cs, k);
    TopDigits(cs, k + 1);
    if top <= 0xFFF {
      Pow2Of12();
      Pow2Less(cs, 12);
      SmallStep(top);
    } else {
      BigStep(top);
    }
  }

  lemma TopDigits(cs: nat, k: nat)
    ensures Digits(TopCode(cs, k)) > cs
  {
    hide Digits;
    Pow2Less(cs, Digits(TopCode(cs, k)));
  }

  /** Digits grow at the powers of two. */
  lemma SmallStep(top: nat)
    requires 1 < top <= 0xFFF
    ensures var n := Digits(top - 1);
            Digits(top) == (if Low(top, n) == 0 then n + 1 else n) <= 12
  {
    hide Digits, Low, Shr;
    Pow2Of12();
    var n := Digits(top - 1);
    DigitsAtMost(top, 12);
    if top == Pow2(n) {
      SplitUnique(top, n, 1, 0);
      DigitsAre(top, n + 1);
    } else {
      SplitUnique(top, n, 0, top);
      DigitsAre(top, n);
    }
  }

  lemma BigStep(top: nat)
    requires 0xFFF < top
    ensures Digits(top) > 12 && Digits(top - 1) >= 12
  {
    Pow2Of12();
    hide Digits;
    Pow2Less(12, Digits(top));
    Pow2Less(11, Digits(top - 1));
  }

  // ----- reading back -----

  /** A decoder that has read the first k codes of a run. */
  ghost predicate Knows(cs: nat, s: Lzw, r: run, k: nat)
    requires Nonempty(r) && k <= |r|
  {
    && s.started && s.width == CodeWidth(cs, k) && |s.table| == FirstFree(cs) + (if k == 0 then 0 else k - 1)
    && (forall c: byte :: c < Pow2(cs) ==> s.table[c] == [c])
    && (forall j: nat :: j + 1 < k ==> s.table[FirstFree(cs) + j] == Added(r, j))
    && (if k == 0 then s.last == -1 else 0 <= s.last < |s.table| && s.table[s.last] == r[k - 1].word)
  }

  lemma KnowsNothing(cs: nat, r: run)
    requires 1 <= cs <= 12 && Nonempty(r)
    ensures Knows(cs, Fresh(cs, true), r, 0)
  {
    hide Pow2, CodeWidth;
    FirstWidth(cs);
    var s := Fresh(cs, true);
    forall c: byte | c < Pow2(cs) ensures s.table[c] == [c] {
    }
  }

  /** What the decoder finds under a code that was sent, even one whose string it is just adding. */
  lemma SentIsKnown(cs: nat, s: Lzw, r: run, k: nat)
    requires GoodRun(cs, r) && k < |r| && Knows(cs, s, r, k)
    ensures var code, word := r[k].code, r[k].word;
            && code != Pow2(cs) && code != Pow2(cs) + 1 && code <= |s.table|
            && (code == |s.table| ==> k > 0 && word == Added(r, k - 1) && word[0] == r[k - 1].word[0])
            && (code < |s.table| ==> s.table[code] == word)
  {
    hide CodeWidth, Pow2;
    assert HasCode(cs, r, k);
  }

  /** One code gives its string, and the decoder then knows one more. */
  lemma StepSent(cs: nat, s: Lzw, r: run, k: nat)
    requires 1 <= cs <= 12 && GoodRun(cs, r) && k < |r| && Knows(cs, s, r, k)
    ensures var o := Step(cs, s, r[k].code);
            o.Continue? && o.emitted == r[k].word && Knows(cs, o.s, r, k + 1)
  {
    hide CodeWidth, Pow2, Low, HasCode;
    WidthStep(cs, k);
    SentIsKnown(cs, s, r, k);
    var word := r[k].word;
    if k == 0 {
      assert Step(cs, s, r[k].code) == Continue(Widen(s.(last := r[k].code)), word);
    } else {
      var table := s.table + [Added(r, k - 1)];
      assert Step(cs, s, r[k].code) == Continue(Widen(s.(table := table, last := r[k].code)), word);
    }
    hide Step;
  }

  lemma DecodeStep(cs: nat, data: seq<byte>, p: nat, s: Lzw, code: nat, out: seq<byte>)
    requires -1 <= s.last < |s.table| && s.width > 0 && code < Pow2(s.width)
    requires Carries(data, p, LsbBits(code, s.width)) && p + s.width <= 8 * |data|
    ensures Decode(cs, data, p, s, out) ==
            match Step(cs, s, code)
            case Continue(s', emitted) => Decode(cs, data, p + s.width, s', out + emitted)
            case Finished => Decoded(true, out)
            case Failed => Decoded(false, out)
  {
    hide Step, Carries, LsbBits, Lsb;
    ReadLsb(data, p, code, s.width);
  }

  lemma {:induction false} ReadRun(cs: nat, data: seq<byte>, p: nat, s: Lzw, out: seq<byte>, r: run, k: nat)
    returns (s': Lzw)
    requires 1 <= cs <= 12 && GoodRun(cs, r) && k <= |r| && Knows(cs, s, r, k)
    requires Carries(data, p, RunBits(cs, r, k)) && p + |RunBits(cs, r, k)| <= 8 * |data|
    ensures Knows(cs, s', r, |r|)
    ensures Decode(cs, data, p, s, out)
         == Decode(cs, data, p + |RunBits(cs, r, k)|, s', out + RunIndices(r, k))
    decreases |r| - k
  {
    hide Decode, Step, Carries, LsbBits, CodeWidth, HasCode, Pow2;
    if k == |r| {
      s' := s;
      assert out + [] == out;
    } else {
      var t := r[k];
      var code := LsbBits(t.code, CodeWidth(cs, k));
      CarriesParts(data, p, code, RunBits(cs, r, k + 1));
      StepSent(cs, s, r, k);
      DecodeStep(cs, data, p, s, t.code, out);
      var next := Step(cs, s, t.code).s;
      s' := ReadRun(cs, data, p + |code|, next, out + t.word, r, k + 1);
      assert out + t.word + RunIndices(r, k + 1) == out + RunIndices(r, k);
    }
  }

  lemma ControlsFit(cs: nat, k: nat)
    requires cs > 0
    ensures Pow2(cs) + 1 < Pow2(CodeWidth(cs, k))
  {
    hide Digits;
    Pow2Mono(1, cs);
    Pow2Mono(cs + 1, CodeWidth(cs, k));
  }

  /** A decoder after some runs: it knows the last one. */
  ghost predicate Done(cs: nat, s: Lzw, rs: seq<run>) {
    && -1 <= s.last < |s.table| && s.width == CodeWidth(cs, LastCount(rs))
    && if rs == [] then s == Fresh(cs, false)
       else Nonempty(rs[|rs| - 1]) && Knows(cs, s, rs[|rs| - 1], LastCount(rs))
  }

  lemma DoneOne(cs: nat, s: Lzw, r: run)
    requires Nonempty(r) && Knows(cs, s, r, |r|)
    ensures Done(cs, s, [r])
  {
  }

  /** One clear code and one run. */
  lemma ReadClearedRun(cs: nat, data: seq<byte>, p: nat, s: Lzw, out: seq<byte>, r: run, k: nat) returns (s': Lzw)
    requires 1 <= cs <= 12 && GoodRun(cs, r) && s.width == CodeWidth(cs, k) && -1 <= s.last < |s.table|
    requires Carries(data, p, LsbBits(Pow2(cs), CodeWidth(cs, k)) + RunBits(cs, r, 0))
    requires p + CodeWidth(cs, k) + |RunBits(cs, r, 0)| <= 8 * |data|
    ensures Done(cs, s', [r]) && s'.width == CodeWidth(cs, |r|) && -1 <= s'.last < |s'.table|
    ensures Decode(cs, data, p, s, out)
         == Decode(cs, data, p + CodeWidth(cs, k) + |RunBits(cs, r, 0)|, s', out + RunIndices(r, 0))
  {
    hide Decode, Step, Carries, LsbBits, CodeWidth, Pow2, GoodRun, RunBits, RunIndices, HasCode;
    ControlsFit(cs, k);
    ControlCodes(cs, s);
    var clear := LsbBits(Pow2(cs), CodeWidth(cs, k));
    CarriesParts(data, p, clear, RunBits(cs, r, 0));
    DecodeStep(cs, data, p, s, Pow2(cs), out);
    assert out + [] == out;
    AllNonempty(cs, r);
    KnowsNothing(cs, r);
    s' := ReadRun(cs, data, p + |clear|, Fresh(cs, true), out, r, 0);
    DoneOne(cs, s', r);
  }

  /** The decoder emits the indices of all runs, from where k codes were sent since a clear. */
  lemma {:induction false} ReadRuns(cs: nat, data: seq<byte>, p: nat, s: Lzw, out: seq<byte>, rs: seq<run>, k: nat)
    returns (s': Lzw)
    requires 1 <= cs <= 12 && GoodRuns(cs, rs) && s.width == CodeWidth(cs, k) && -1 <= s.last < |s.table|
    requires Carries(data, p, RunsBits(cs, rs, k)) && p + |RunsBits(cs, rs, k)| <= 8 * |data|
    ensures if rs == [] then s' == s else Done(cs, s', rs) && -1 <= s'.last < |s'.table|
    ensures Decode(cs, data, p, s, out) == Decode(cs, data, p + |RunsBits(cs, rs, k)|, s', out + Indices(rs))
    decreases |rs|
  {
    hide Decode, Carries, LsbBits, CodeWidth, Pow2, GoodRun, RunBits, RunIndices, Knows, Fresh;
    s' := s;
    if rs == [] {
      assert out + [] == out;
    } else {
      var r, rest := rs[0], RunsBits(cs, rs[1..], |rs[0]|);
      var clear, codes := LsbBits(Pow2(cs), CodeWidth(cs, k)), RunBits(cs, r, 0);
      assert clear + (codes + rest) == clear + codes + rest;
      CarriesParts(data, p, clear + codes, rest);
      s' := ReadClearedRun(cs, data, p, s, out, r, k);
      s' := ReadRuns(cs, data, p + |clear| + |codes|, s', out + RunIndices(r, 0), rs[1..], |r|);
      assert out + RunIndices(r, 0) + Indices(rs[1..]) == out + Indices(rs);
    }
  }

  /** After the runs comes a code that ends the raster, well or badly, or too few bits for one. */
  lemma ReadEnding(cs: nat, data: seq<byte>, rs: seq<run>, code: nat) returns (s: Lzw)
    requires 1 <= cs <= 12 && GoodRuns(cs, rs) && code < Pow2(CodeWidth(cs, LastCount(rs)))
    requires Begins(data, RunsBits(cs, rs, 0) + LsbBits(code, CodeWidth(cs, LastCount(rs))))
    ensures Done(cs, s, rs) && -1 <= s.last < |s.table|
    ensures Decode(cs, data, 0, Fresh(cs, false), []) ==
            match Step(cs, s, code)
            case Continue(s', emitted) =>
              Decode(cs, data, |RunsBits(cs, rs, 0)| + s.width, s', Indices(rs) + emitted)
            case Finished => Decoded(true, Indices(rs))
            case Failed => Decoded(false, Indices(rs))
  {
    hide Decode, Step, Carries, LsbBits, CodeWidth, RunsBits, GoodRuns, Indices, Knows;
    var codes, last := RunsBits(cs, rs, 0), LsbBits(code, CodeWidth(cs, LastCount(rs)));
    FirstWidth(cs);
    CarriesParts(data, 0, codes, last);
    s := ReadRuns(cs, data, 0, Fresh(cs, false), [], rs, 0);
    assert [] + Indices(rs) == Indices(rs);
    DecodeStep(cs, data, |codes|, s, code, Indices(rs));
  }

  /** The data begin with these bits. */
  ghost predicate Begins(data: seq<byte>, s: bits) {
    Carries(data, 0, s) && |s| <= 8 * |data|
  }

  lemma PackedBegins(s: bits, data: seq<byte>)
    requires Pack(s) <= data
    ensures Begins(data, s)
  {
    PackCarries(s);
    forall i | 0 <= i < |s| ensures BitAt(data, 0 + i) == Digit(s[i]) {
      assert BitAt(Pack(s), 0 + i) == Digit(s[i]);
      assert data[i / 8] == Pack(s)[i / 8];
    }
  }

  /** Which codes a decoder cannot take: ones not given out yet, and any that would add a string past 8192. */
  lemma FailsIff(cs: nat, s: Lzw, r: run, k: nat, code: nat)
    requires Nonempty(r) && k <= |r| && Knows(cs, s, r, k) && code != Pow2(cs) && code != Pow2(cs) + 1
    ensures Step(cs, s, code).Failed? <==> code > TopCode(cs, k) || (k > 0 && TopCode(cs, k) >= 8192)
  {
    hide CodeWidth, Pow2;
  }

  lemma AllNonempty(cs: nat, r: run)
    requires GoodRun(cs, r)
    ensures Nonempty(r)
  {
  }

  // ----- the greedy encoder -----

  /** The longest string of the dictionary that the indices start with, if its prefixes are there too. */
  function Longest(dict: map<seq<byte>, nat>, s: seq<byte>, n: nat): (m: nat)
    requires n <= |s| && s[..n] in dict
    ensures n <= m <= |s| && s[..m] in dict && (m < |s| ==> s[..m + 1] !in dict)
    decreases |s| - n
  {
    if n < |s| && s[..n + 1] in dict then Longest(dict, s, n + 1) else n
  }

  /** Every index has its own code at the start. */
  function Singles(cs: nat): (dict: map<seq<byte>, nat>)
    ensures forall c: byte :: c < Pow2(cs) ==> [c] in dict
  {
    map c: byte | c < Pow2(cs) :: [c] := c as nat
  }

  /** All indices fit the minimum code size. */
  predicate InRange(cs: nat, s: seq<byte>) {
    forall i :: 0 <= i < |s| ==> s[i] < Pow2(cs)
  }

  datatype Cut = Cut(r: run, rest: seq<byte>)

  /** The dictionary still has room for a code of 12 bits. */
  predicate HasRoom(cs: nat, r: run) {
    FirstFree(cs) + |r| <= 0xFFF
  }

  /**
    The encoder of the GIF89a appendix: the longest string known, then the string that
    adds the next index to it gets the next code; until the dictionary is full.
   */
  function Greedy(cs: nat, r: run, dict: map<seq<byte>, nat>, s: seq<byte>): Cut
    requires InRange(cs, s) && forall c: byte :: c < Pow2(cs) ==> [c] in dict
    decreases |s|
  {
    if s == [] || !HasRoom(cs, r) then Cut(r, s)
    else
      assert s[..1] == [s[0]];
      var n := Longest(dict, s, 1);
      var r' := r + [Sent(s[..n], dict[s[..n]])];
      if n == |s| then Cut(r', []) else Greedy(cs, r', dict[s[..n + 1] := FirstFree(cs) + |r|], s[n..])
  }

  /** The dictionary has the indices and the strings added so far, the last one with the index to come. */
  predicate Lists(cs: nat, dict: map<seq<byte>, nat>, r: run, s: seq<byte>)
    requires Nonempty(r)
  {
    && (forall c: byte :: c < Pow2(cs) ==> [c] in dict)
    && forall w :: w in dict ==>
         if dict[w] < Pow2(cs) then dict[w] < 256 && w == [dict[w]]
         else
           var j := dict[w] - FirstFree(cs);
           0 <= j < |r| && if j + 1 < |r| then w == Added(r, j) else s != [] && w == r[j].word + [s[0]]
  }

  lemma {:induction false} Snoc(r: run, t: Sent, k: nat)
    requires k <= |r|
    ensures RunIndices(r + [t], k) == RunIndices(r, k) + t.word
    decreases |r| - k
  {
    if k == |r| {
      assert RunIndices(r + [t], k + 1) == [];
    } else {
      Snoc(r, t, k + 1);
    }
  }

  lemma {:induction false} GreedyIsGood(cs: nat, r: run, dict: map<seq<byte>, nat>, s: seq<byte>)
    requires 1 <= cs <= 8 && InRange(cs, s) && GoodRun(cs, r) && Lists(cs, dict, r, s)
    ensures var cut := Greedy(cs, r, dict, s);
            && GoodRun(cs, cut.r) && RunIndices(cut.r, 0) + cut.rest == RunIndices(r, 0) + s
            && InRange(cs, cut.rest)
            && (s != [] && HasRoom(cs, r) ==> |cut.rest| < |s|)
    decreases |s|
  {
    hide RunIndices, GoodRun, HasRoom, Lists, Longest;
    if s == [] || !HasRoom(cs, r) {
    } else {
      AllNonempty(cs, r);
      SinglesListed(cs, dict, r, s);
      assert s[..1] == [s[0]];
      var n := Longest(dict, s, 1);
      var t := Sent(s[..n], dict[s[..n]]);
      Snoc(r, t, 0);
      GoodNext(cs, r, dict, s, n);
      if n < |s| {
        AllNonempty(cs, r + [t]);
        assert RunIndices(r, 0) + s[..n] + s[n..] == RunIndices(r, 0) + s;
        GreedyIsGood(cs, r + [t], dict[s[..n + 1] := FirstFree(cs) + |r|], s[n..]);
      }
    }
  }

  lemma SinglesListed(cs: nat, dict: map<seq<byte>, nat>, r: run, s: seq<byte>)
    requires Nonempty(r) && Lists(cs, dict, r, s)
    ensures forall c: byte :: c < Pow2(cs) ==> [c] in dict
  {
  }

  lemma AddedAt(r: run, t: Sent, j: nat)
    requires Nonempty(r) && t.word != [] && j < |r|
    ensures Added(r + [t], j) == if j + 1 < |r| then Added(r, j) else r[j].word + [t.word[0]]
  {
  }

  /** One more string with a code leaves the codes of the others as they are. */
  lemma OneMore(cs: nat, r: run, t: Sent)
    requires GoodRun(cs, r) && HasRoom(cs, r) && t.word != [] && HasCode(cs, r + [t], |r|)
    ensures GoodRun(cs, r + [t])
  {
    hide CodeWidth, Pow2, Added;
    var r' := r + [t];
    assert t.code <= TopCode(cs, |r|);
    CodeFits(cs, |r|, t.code);
    forall k | 0 <= k < |r'| ensures HasCode(cs, r', k) && r'[k].code < Pow2(CodeWidth(cs, k)) {
      if k < |r| {
        assert HasCode(cs, r, k);
        if r[k].code >= Pow2(cs) {
          AddedAt(r, t, r[k].code - FirstFree(cs));
        }
      }
    }
  }

  lemma GoodNext(cs: nat, r: run, dict: map<seq<byte>, nat>, s: seq<byte>, n: nat)
    requires 1 <= cs <= 8 && InRange(cs, s) && GoodRun(cs, r) && Lists(cs, dict, r, s) && HasRoom(cs, r)
    requires 0 < n <= |s| && s[..n] in dict
    ensures var r' := r + [Sent(s[..n], dict[s[..n]])];
            && GoodRun(cs, r')
            && (n < |s| ==> Lists(cs, dict[s[..n + 1] := FirstFree(cs) + |r|], r', s[n..]))
  {
    hide CodeWidth, Pow2, Added;
    var w := s[..n];
    var t := Sent(w, dict[w]);
    var r' := r + [t];
    forall j: nat | j < |r|
      ensures Nonempty(r') && Added(r', j) == if j + 1 < |r| then Added(r, j) else r[j].word + [w[0]]
    {
      AddedAt(r, t, j);
    }
    OneMore(cs, r, t);
  }

  /** A clear code whenever the dictionary is full. */
  function Runs(cs: nat, s: seq<byte>): seq<run>
    requires 1 <= cs <= 8 && InRange(cs, s)
    decreases |s|
  {
    if s == [] then []
    else
      var cut := Greedy(cs, [], Singles(cs), s);
      GreedyFromStart(cs, s);
      [cut.r] + Runs(cs, cut.rest)
  }

  lemma GreedyFromStart(cs: nat, s: seq<byte>)
    requires 1 <= cs <= 8 && InRange(cs, s)
    ensures var cut := Greedy(cs, [], Singles(cs), s);
            && GoodRun(cs, cut.r) && RunIndices(cut.r, 0) + cut.rest == s && InRange(cs, cut.rest)
            && (s != [] ==> |cut.rest| < |s|)
  {
    SmallPowers();
    Pow2Mono(cs, 8);
    hide Pow2, Greedy;
    GreedyIsGood(cs, [], Singles(cs), s);
  }

  /** Every string of indices has an encoding: the greedy one. */
  lemma {:induction false} EveryRasterHasRuns(cs: nat, s: seq<byte>)
    requires 1 <= cs <= 8 && InRange(cs, s)
    ensures GoodRuns(cs, Runs(cs, s)) && Indices(Runs(cs, s)) == s
    decreases |s|
  {
    hide Greedy, GoodRun, RunIndices, Singles, Pow2;
    if s == [] {
    } else {
      GreedyFromStart(cs, s);
      EveryRasterHasRuns(cs, Greedy(cs, [], Singles(cs), s).rest);
    }
  }

  // ----- sub-blocks -----

  predicate GoodChunks(chunks: seq<seq<byte>>) {
    forall c :: c in chunks ==> 1 <= |c| <= 255
  }

  function Joined(chunks: seq<seq<byte>>): seq<byte> {
    if chunks == [] then [] else chunks[0] + Joined(chunks[1..])
  }

  /** Each sub-block behind its size, and a size of 0 after the last. */
  function Blocks(chunks: seq<seq<byte>>): seq<byte>
    requires GoodChunks(chunks)
  {
    if chunks == [] then [0] else [|chunks[0]|] + (chunks[0] + Blocks(chunks[1..]))
  }

  lemma {:induction false} ReadChunk(input: seq<byte>, c: nat, chunk: seq<byte>)
    requires StartsAt(input, c, chunk)
    ensures Pending(input, c, |chunk|) == chunk + Pending(input, c + |chunk|, 0)
    ensures AfterPending(input, c, |chunk|) == AfterPending(input, c + |chunk|, 0)
    decreases |chunk|
  {
    hide StartsAt;
    if chunk == [] {
    } else {
      var rest := chunk[1..];
      assert chunk == [chunk[0]] + rest;
      StartsWith(input, c, chunk, 0);
      StartsParts(input, c, [chunk[0]], rest);
      ReadChunk(input, c + 1, rest);
      PendingByte(input, c, |chunk|);
    }
  }

  lemma PendingByte(input: seq<byte>, c: nat, len: nat)
    requires c < |input| && len > 0
    ensures Pending(input, c, len) == [input[c]] + Pending(input, c + 1, len - 1)
    ensures AfterPending(input, c, len) == AfterPending(input, c + 1, len - 1)
  {
  }

  lemma NextPending(input: seq<byte>, c: nat)
    requires c < |input|
    ensures Pending(input, c, 0) == if input[c] == 0 then [] else Pending(input, c + 1, input[c])
    ensures AfterPending(input, c, 0) == if input[c] == 0 then c + 1 else AfterPending(input, c + 1, input[c])
  {
  }

  lemma FirstBlock(chunks: seq<seq<byte>>)
    requires GoodChunks(chunks) && chunks != []
    ensures Blocks(chunks) == [|chunks[0]|] + (chunks[0] + Blocks(chunks[1..]))
    ensures Joined(chunks) == chunks[0] + Joined(chunks[1..])
    ensures 1 <= |chunks[0]| <= 255
  {
  }

  lemma NoBlocks(input: seq<byte>, c: nat)
    requires StartsAt(input, c, Blocks([]))
    ensures Pending(input, c, 0) == Joined([]) && AfterPending(input, c, 0) == c + |Blocks([])|
  {
    StartsWith(input, c, [0], 0);
  }

  /** The sub-blocks give their bytes in order, up to the terminator. */
  lemma {:induction false} ReadBlocks(input: seq<byte>, c: nat, chunks: seq<seq<byte>>)
    requires GoodChunks(chunks) && StartsAt(input, c, Blocks(chunks))
    ensures Pending(input, c, 0) == Joined(chunks)
    ensures AfterPending(input, c, 0) == c + |Blocks(chunks)|
    decreases |chunks|
  {
    hide StartsAt, Pending, AfterPending, Blocks, Joined;
    if chunks == [] {
      NoBlocks(input, c);
    } else {
      var chunk, rest := chunks[0], Blocks(chunks[1..]);
      FirstBlock(chunks);
      StartsWith(input, c, [|chunk|] + (chunk + rest), 0);
      NextPending(input, c);
      StartsParts(input, c, [|chunk|], chunk + rest);
      StartsParts(input, c + 1, chunk, rest);
      ReadChunk(input, c + 1, chunk);
      ReadBlocks(input, c + 1 + |chunk|, chunks[1..]);
    }
  }

  // ----- the round trip -----

  /** The bytes in the sub-blocks are the packed codes, and perhaps more. */
  ghost predicate EncodedAs(cs: nat, rs: seq<run>, data: seq<byte>) {
    Pack(RasterBits(cs, rs)) <= data
  }

  /** What the decoder's specification makes of encoded data. */
  lemma RasterRoundTrip(cs: nat, rs: seq<run>, data: seq<byte>)
    requires 1 <= cs <= 12 && GoodRuns(cs, rs) && EncodedAs(cs, rs, data)
    ensures Decode(cs, data, 0, Fresh(cs, false), []) == Decoded(true, Indices(rs))
  {
    hide Decode, Step, RunsBits, Indices, GoodRuns, Begins, Pack, Done, CodeWidth;
    PackedBegins(RasterBits(cs, rs), data);
    ControlsFit(cs, LastCount(rs));
    var s := ReadEnding(cs, data, rs, Pow2(cs) + 1);
    ControlCodes(cs, s);
  }

  /** Data that end before another code is complete end the raster as well as the end code does. */
  lemma RasterCutShort(cs: nat, rs: seq<run>, data: seq<byte>)
    requires 1 <= cs <= 12 && GoodRuns(cs, rs) && Begins(data, RunsBits(cs, rs, 0))
    requires 8 * |data| < |RunsBits(cs, rs, 0)| + CodeWidth(cs, LastCount(rs))
    ensures Decode(cs, data, 0, Fresh(cs, false), []) == Decoded(true, Indices(rs))
  {
    hide Step, Carries, LsbBits, Lsb, RunsBits, GoodRuns, Indices, Knows, CodeWidth;
    FirstWidth(cs);
    var s := ReadRuns(cs, data, 0, Fresh(cs, false), [], rs, 0);
    assert [] + Indices(rs) == Indices(rs);
  }

  /**
    The decode fails when a code comes that is not given out yet, or the strings are too
    many, or no clear code came first; what was drawn by then stays.
   */
  lemma RasterFails(cs: nat, rs: seq<run>, code: nat, data: seq<byte>)
    requires 1 <= cs <= 12 && GoodRuns(cs, rs) && code != Pow2(cs) && code != Pow2(cs) + 1
    requires code < Pow2(CodeWidth(cs, LastCount(rs)))
    requires Pack(RunsBits(cs, rs, 0) + LsbBits(code, CodeWidth(cs, LastCount(rs)))) <= data
    requires var k := LastCount(rs); rs == [] || code > TopCode(cs, k) || (k > 0 && TopCode(cs, k) >= 8192)
    ensures Decode(cs, data, 0, Fresh(cs, false), []) == Decoded(false, Indices(rs))
  {
    hide Decode, Step, RunsBits, Indices, GoodRuns, Begins, Pack, CodeWidth, Knows;
    PackedBegins(RunsBits(cs, rs, 0) + LsbBits(code, CodeWidth(cs, LastCount(rs))), data);
    var s := ReadEnding(cs, data, rs, code);
    if rs == [] {
      NoneCleared(cs, code);
    } else {
      FailsIff(cs, s, rs[|rs| - 1], LastCount(rs), code);
    }
  }

  lemma NoneCleared(cs: nat, code: nat)
    requires code != Pow2(cs) && code != Pow2(cs) + 1
    ensures Step(cs, Fresh(cs, false), code) == Failed
  {
  }

  /**
    End to end: after the minimum code size, sub-blocks that carry the codes of some
    indices make `stbi__process_gif_raster` draw exactly these indices and stop behind
    the terminator.
   */
  method DecodeRaster(d: Decoder, ghost cs: byte, ghost rs: seq<run>, ghost chunks: seq<seq<byte>>) returns (ok: bool)
    requires d.raster.Ready() && d.codes.Length == MAX_ENTRIES
    requires 1 <= cs <= 12 && GoodRuns(cs, rs) && GoodChunks(chunks) && EncodedAs(cs, rs, Joined(chunks))
    requires StartsAt(d.input, d.cursor, [cs] + Blocks(chunks))
    modifies d, d.codes, d.raster, d.raster.out, d.raster.history
    ensures ok && d.raster.Ready() && d.raster.emitted == old(d.raster.emitted) + Indices(rs)
    ensures d.raster.frame == old(d.raster.frame) && d.raster.under == old(d.raster.under)
    ensures SamePlace(d.input, d.cursor, old(d.cursor) + 1 + |Blocks(chunks)|)
  {
    hide Raster.Ready, GoodRun, Blocks, Decode, Indices, EncodedAs;
    StartsParts(d.input, d.cursor, [cs], Blocks(chunks));
    assert d.input[d.cursor..d.cursor + 1][0] == cs;
    ReadBlocks(d.input, d.cursor + 1, chunks);
    RasterRoundTrip(cs, rs, Joined(chunks));
    ok := d.ProcessGifRaster();
  }
}
