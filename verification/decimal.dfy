/**
 Decimal text of integers, as Go's `strconv.Itoa` writes it (and as `encoding/json` writes an
 `int` field): a `-` for negative values, then the digits with no leading zero.
 */
module Decimal {
  import opened Wrappers

  predicate IsDigit(c: char) {
    '0' <= c <= '9'
  }

  predicate AllDigits(s: string) {
    forall i :: 0 <= i < |s| ==> IsDigit(s[i])
  }

  function DigitChar(d: int): (c: char)
    requires 0 <= d < 10
    ensures IsDigit(c) && c as int - '0' as int == d
  {
    ('0' as int + d) as char
  }

  /** Digits of a natural number: at least one, and no leading zero unless it is `0` itself. */
  function NatToString(n: nat): (s: string)
    ensures |s| >= 1 && AllDigits(s)
    ensures |s| > 1 ==> s[0] != '0'
    ensures n < 10 <==> |s| == 1
    decreases n
  {
    if n < 10 then [DigitChar(n)] else NatToString(n / 10) + [DigitChar(n % 10)]
  }

  /** `strconv.Itoa`. */
  function IntToString(n: int): (s: string)
    ensures |s| >= 1
    ensures n < 0 <==> s[0] == '-'
    ensures forall i :: 0 < i < |s| ==> IsDigit(s[i])
  {
    if n < 0 then "-" + NatToString(-n) else NatToString(n)
  }

  /** The value of a string of digits, read most significant first. */
  function DigitsValue(s: string): nat
    requires AllDigits(s)
    decreases |s|
  {
    if |s| == 0 then 0
    else DigitsValue(s[..|s| - 1]) * 10 + (s[|s| - 1] as int - '0' as int)
  }

  /** Reading the digits of `n` gives `n` back. */
  lemma {:induction false} NatRoundTrip(n: nat)
    ensures DigitsValue(NatToString(n)) == n
    decreases n
  {
    if n >= 10 {
      var s := NatToString(n);
      NatRoundTrip(n / 10);
      assert s[..|s| - 1] == NatToString(n / 10);
    }
  }

  /** The longest prefix of `s` made of digits. */
  function DigitSpan(s: string): (n: nat)
    ensures n <= |s| && AllDigits(s[..n])
    ensures n < |s| ==> !IsDigit(s[n])
    decreases |s|
  {
    if |s| > 0 && IsDigit(s[0]) then 1 + DigitSpan(s[1..]) else 0
  }

  /** The digit span of digits followed by a non-digit ends exactly at that non-digit. */
  lemma {:induction false} DigitSpanOf(d: string, rest: string)
    requires AllDigits(d)
    requires |rest| == 0 || !IsDigit(rest[0])
    ensures DigitSpan(d + rest) == |d|
    decreases |d|
  {
    if |d| > 0 {
      assert (d + rest)[1..] == d[1..] + rest;
      DigitSpanOf(d[1..], rest);
    } else {
      assert d + rest == rest;
    }
  }

  /**
   Reads an integer at the front of `s` (an optional `-`, then at least one digit) and
   returns it with the text after it.
   */
  function ReadInt(s: string): (r: Option<(int, string)>)
    ensures r.Some? ==> |r.value.1| < |s| && r.value.1 == s[|s| - |r.value.1|..]
  {
    var negative := |s| > 0 && s[0] == '-';
    var body := if negative then s[1..] else s;
    var n := DigitSpan(body);
    if n == 0 then None
    else
      var v: int := DigitsValue(body[..n]);
      Some((if negative then -v else v, body[n..]))
  }

  /** The decimal text of `n` followed by anything that does not start with a digit reads back as `n`. */
  lemma ReadIntRoundTrip(n: int, rest: string)
    requires |rest| == 0 || !IsDigit(rest[0])
    ensures ReadInt(IntToString(n) + rest) == Some((n, rest))
  {
    var d := NatToString(if n < 0 then -n else n);
    var s := IntToString(n) + rest;
    DigitSpanOf(d, rest);
    NatRoundTrip(if n < 0 then -n else n);
    if n < 0 {
      assert s == "-" + (d + rest);
      assert s[1..] == d + rest;
    } else {
      assert s == d + rest;
      assert s[0] != '-' by { assert IsDigit(d[0]); }
    }
    assert (d + rest)[..|d|] == d;
    assert (d + rest)[|d|..] == rest;
  }
}
