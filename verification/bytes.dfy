/** Bytes, and the conversion between ASCII text and the bytes Go's `[]byte(s)` yields for it. */
module Bytes {
  import opened Wrappers

  type byte = x: int | 0 <= x < 256

  predicate IsAsciiChar(c: char) {
    c as int < 128
  }

  predicate IsAscii(s: string) {
    forall i :: 0 <= i < |s| ==> IsAsciiChar(s[i])
  }

  /** The UTF-8 encoding of an ASCII string: one byte per character, equal to its code. */
  function AsciiToBytes(s: string): (b: seq<byte>)
    requires IsAscii(s)
    ensures |b| == |s|
    ensures forall i :: 0 <= i < |s| ==> b[i] < 128 && b[i] == s[i] as int
    decreases |s|
  {
    if |s| == 0 then [] else [s[0] as int] + AsciiToBytes(s[1..])
  }

  /** Reads bytes back as ASCII text; fails on the first byte that is not ASCII. */
  function BytesToAscii(b: seq<byte>): (r: Option<string>)
    ensures r.Some? <==> forall i :: 0 <= i < |b| ==> b[i] < 128
    ensures r.Some? ==> |r.value| == |b| && IsAscii(r.value)
    decreases |b|
  {
    if |b| == 0 then Some([])
    else if b[0] >= 128 then None
    else match BytesToAscii(b[1..])
      case None => None
      case Some(rest) => Some([b[0] as char] + rest)
  }

  /** Reading the bytes of ASCII text gives the text back. */
  lemma {:induction false} AsciiRoundTrip(s: string)
    requires IsAscii(s)
    ensures BytesToAscii(AsciiToBytes(s)) == Some(s)
    decreases |s|
  {
    if |s| > 0 {
      AsciiRoundTrip(s[1..]);
      assert AsciiToBytes(s)[1..] == AsciiToBytes(s[1..]);
      assert (s[0] as int) as char == s[0];
      assert [s[0]] + s[1..] == s;
    }
  }

  /** The bytes of a concatenation are the concatenation of the bytes. */
  lemma AsciiConcat(s: string, t: string)
    requires IsAscii(s) && IsAscii(t)
    ensures IsAscii(s + t)
    ensures AsciiToBytes(s + t) == AsciiToBytes(s) + AsciiToBytes(t)
  {
    var l, r := AsciiToBytes(s + t), AsciiToBytes(s) + AsciiToBytes(t);
    assert |l| == |r|;
    forall i | 0 <= i < |l|
      ensures l[i] == r[i]
    {
      if i < |s| {
        assert (s + t)[i] == s[i];
      } else {
        assert (s + t)[i] == t[i - |s|];
      }
    }
  }
}
