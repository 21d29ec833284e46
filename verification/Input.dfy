/** The input of the image decoders: bytes and a cursor. */
module Input {
  import opened Words

  /** `stbi__get8`: the next byte, or 0 at the end. */
  function Get8(input: seq<byte>, c: nat): byte {
    if c < |input| then input[c] else 0
  }

  /** The cursor after it. */
  function Next(input: seq<byte>, c: nat): nat {
    if c < |input| then c + 1 else c
  }

  /** The input at c starts with s. */
  predicate StartsAt(input: seq<byte>, c: nat, s: seq<byte>) {
    c + |s| <= |input| && input[c..c + |s|] == s
  }

  lemma StartsParts(input: seq<byte>, c: nat, s: seq<byte>, t: seq<byte>)
    requires StartsAt(input, c, s + t)
    ensures StartsAt(input, c, s) && StartsAt(input, c + |s|, t)
  {
    var both := input[c..c + |s| + |t|];
    assert input[c..c + |s|] == both[..|s|] && input[c + |s|..c + |s| + |t|] == both[|s|..];
  }

  lemma StartsWith(input: seq<byte>, c: nat, s: seq<byte>, i: nat)
    requires StartsAt(input, c, s) && i < |s|
    ensures c + i < |input| && Get8(input, c + i) == s[i]
  {
    assert input[c..c + |s|][i] == input[c + i];
  }
}
