/**
 The pieces of JSON text `encoding/json` emits for a flat struct of strings, ints and bools,
 and a reader for each. Only "plain" strings are handled: printable ASCII without `"`, `\`
 and the three characters `<`, `>`, `&` that `encoding/json` escapes for HTML safety; such a
 string is copied between the quotes unchanged.
 */
module Json {
  import opened Wrappers
  import Bytes

  predicate IsPlainChar(c: char) {
    ' ' <= c <= '~' && c != '"' && c != '\\' && c != '<' && c != '>' && c != '&'
  }

  predicate IsPlain(s: string) {
    forall i :: 0 <= i < |s| ==> IsPlainChar(s[i])
  }

  lemma PlainConcat(s: string, t: string)
    requires IsPlain(s) && IsPlain(t)
    ensures IsPlain(s + t)
  {
    forall i | 0 <= i < |s + t|
      ensures IsPlainChar((s + t)[i])
    {
      if i >= |s| {
        assert (s + t)[i] == t[i - |s|];
      }
    }
  }

  lemma PlainIsAscii(s: string)
    requires IsPlain(s)
    ensures Bytes.IsAscii(s)
  {
    assert forall i :: 0 <= i < |s| ==> IsPlainChar(s[i]);
  }

  /** A JSON string literal holding a plain string. */
  function Quote(s: string): string {
    "\"" + s + "\""
  }

  function Bool(b: bool): string {
    if b then "true" else "false"
  }

  /** Consumes the literal `lit` at the front of `s`, returning what follows it. */
  function Expect(lit: string, s: string): (r: Option<string>)
    ensures r.Some? <==> |lit| <= |s| && s[..|lit|] == lit
    ensures r.Some? ==> s == lit + r.value
  {
    if |lit| <= |s| && s[..|lit|] == lit then Some(s[|lit|..]) else None
  }

  lemma ExpectLiteral(lit: string, rest: string)
    ensures Expect(lit, lit + rest) == Some(rest)
  {
    assert (lit + rest)[..|lit|] == lit;
    assert (lit + rest)[|lit|..] == rest;
  }

  /** The characters of `s` up to the first `"`, and what follows that quote. */
  function UntilQuote(s: string): (r: Option<(string, string)>)
    ensures r.Some? ==> s == r.value.0 + "\"" + r.value.1
    ensures r.Some? ==> forall i :: 0 <= i < |r.value.0| ==> r.value.0[i] != '"'
    ensures r.None? ==> forall i :: 0 <= i < |s| ==> s[i] != '"'
    decreases |s|
  {
    if |s| == 0 then None
    else if s[0] == '"' then Some(([], s[1..]))
    else match UntilQuote(s[1..])
      case None => None
      case Some(p) => Some(([s[0]] + p.0, p.1))
  }

  /** Reads a string literal at the front of `s`, returning its contents and what follows it. */
  function ReadQuoted(s: string): (r: Option<(string, string)>)
    ensures r.Some? ==> s == Quote(r.value.0) + r.value.1
    ensures r.Some? ==> forall i :: 0 <= i < |r.value.0| ==> r.value.0[i] != '"'
  {
    var r0 :- Expect("\"", s);
    var p :- UntilQuote(r0);
    assert s == Quote(p.0) + p.1;
    Some(p)
  }

  lemma {:induction false} UntilQuoteOf(x: string, rest: string)
    requires forall i :: 0 <= i < |x| ==> x[i] != '"'
    ensures UntilQuote(x + "\"" + rest) == Some((x, rest))
    decreases |x|
  {
    var s := x + "\"" + rest;
    if |x| == 0 {
      assert s == "\"" + rest;
    } else {
      assert s[1..] == x[1..] + "\"" + rest;
      UntilQuoteOf(x[1..], rest);
      assert [x[0]] + x[1..] == x;
    }
  }

  /** A plain string written as a literal reads back as itself. */
  lemma ReadQuotedRoundTrip(x: string, rest: string)
    requires IsPlain(x)
    ensures ReadQuoted(Quote(x) + rest) == Some((x, rest))
  {
    assert forall i :: 0 <= i < |x| ==> IsPlainChar(x[i]);
    assert Quote(x) + rest == "\"" + (x + "\"" + rest);
    ExpectLiteral("\"", x + "\"" + rest);
    UntilQuoteOf(x, rest);
  }

  /** Reads `true` or `false` at the front of `s`. */
  function ReadBool(s: string): (r: Option<(bool, string)>)
    ensures r.Some? ==> s == Bool(r.value.0) + r.value.1
  {
    match Expect("true", s)
    case Some(rest) => Some((true, rest))
    case None =>
      match Expect("false", s)
      case Some(rest) => Some((false, rest))
      case None => None
  }

  lemma ReadBoolRoundTrip(b: bool, rest: string)
    ensures ReadBool(Bool(b) + rest) == Some((b, rest))
  {
    ExpectLiteral(Bool(b), rest);
    if !b {
      assert (Bool(b) + rest)[0] == 'f';
    }
  }
}
