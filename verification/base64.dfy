/**
 The "base64" encoding of section 4 of RFC 4648: the standard 64-character alphabet with
 `=` padding, which is what Go's `base64.StdEncoding.EncodeToString` produces.

 The decoder is the strict one section 3.5 of RFC 4648 permits: it accepts only canonical
 encodings (padding only in the final quantum, unused bits of a padded quantum zero), which
 makes it the exact inverse of the encoder.
 */
module Base64 {
  import opened Wrappers
  import opened Bytes

  type sextet = x: int | 0 <= x < 64

  /** The characters of the alphabet of table 1 of RFC 4648. */
  predicate IsBase64Char(c: char) {
    'A' <= c <= 'Z' || 'a' <= c <= 'z' || '0' <= c <= '9' || c == '+' || c == '/'
  }

  /** The value table 1 assigns to an alphabet character. */
  function IndexOf(c: char): (v: sextet)
    requires IsBase64Char(c)
  {
    if 'A' <= c <= 'Z' then c as int - 'A' as int
    else if 'a' <= c <= 'z' then c as int - 'a' as int + 26
    else if '0' <= c <= '9' then c as int - '0' as int + 52
    else if c == '+' then 62
    else 63
  }

  /** The alphabet character table 1 assigns to a 6-bit value; `IndexOf` undoes it. */
  function CharOf(v: sextet): (c: char)
    ensures IsBase64Char(c) && IndexOf(c) == v
  {
    if v < 26 then ('A' as int + v) as char
    else if v < 52 then ('a' as int + (v - 26)) as char
    else if v < 62 then ('0' as int + (v - 52)) as char
    else if v == 62 then '+'
    else '/'
  }

  /** `CharOf` also undoes `IndexOf`, so the two are inverse bijections. */
  lemma CharOfIndexOf(c: char)
    requires IsBase64Char(c)
    ensures CharOf(IndexOf(c)) == c
  {
  }

  /** A full 24-bit group: three bytes become four characters. */
  function EncodeGroup(a: byte, b: byte, c: byte): string {
    [CharOf(a / 4), CharOf(a % 4 * 16 + b / 16), CharOf(b % 16 * 4 + c / 64), CharOf(c % 64)]
  }

  /** A final group of two bytes: three characters and one `=`. */
  function EncodeTwo(a: byte, b: byte): string {
    [CharOf(a / 4), CharOf(a % 4 * 16 + b / 16), CharOf(b % 16 * 4), '=']
  }

  /** A final group of one byte: two characters and two `=`. */
  function EncodeOne(a: byte): string {
    [CharOf(a / 4), CharOf(a % 4 * 16), '=', '=']
  }

  /**
   Base64 text of `data`: `4 * ceil(n / 3)` characters, every one from the alphabet or `=`,
   with `=` only among the last two, and a second-to-last `=` only followed by another.
   */
  function Encode(data: seq<byte>): (s: string)
    ensures |s| == 4 * ((|data| + 2) / 3)
    ensures forall i :: 0 <= i < |s| ==> IsBase64Char(s[i]) || s[i] == '='
    ensures forall i :: 0 <= i < |s| - 2 ==> IsBase64Char(s[i])
    ensures |s| >= 2 && s[|s| - 2] == '=' ==> s[|s| - 1] == '='
    decreases |data|
  {
    if |data| == 0 then []
    else if |data| == 1 then EncodeOne(data[0])
    else if |data| == 2 then EncodeTwo(data[0], data[1])
    else EncodeGroup(data[0], data[1], data[2]) + Encode(data[3..])
  }

  /** The three bytes carried by four sextets. */
  function Bytes3(i0: sextet, i1: sextet, i2: sextet, i3: sextet): seq<byte> {
    [i0 * 4 + i1 / 16, i1 % 16 * 16 + i2 / 4, i2 % 4 * 64 + i3]
  }

  predicate AllBase64(q: string) {
    forall i :: 0 <= i < |q| ==> IsBase64Char(q[i])
  }

  /** A quantum that is not the last one: four alphabet characters, no padding. */
  function DecodeGroup(q: string): (r: Option<seq<byte>>)
    requires |q| == 4
    ensures r.Some? <==> AllBase64(q)
    ensures r.Some? ==> |r.value| == 3
  {
    if AllBase64(q) then Some(Bytes3(IndexOf(q[0]), IndexOf(q[1]), IndexOf(q[2]), IndexOf(q[3])))
    else None
  }

  /** The final quantum: unpadded, or padded with one or two `=` whose unused bits are zero. */
  function DecodeLast(q: string): (r: Option<seq<byte>>)
    requires |q| == 4
    ensures r.Some? ==> 1 <= |r.value| <= 3
  {
    if AllBase64(q) then DecodeGroup(q)
    else if IsBase64Char(q[0]) && IsBase64Char(q[1]) && IsBase64Char(q[2]) && q[3] == '='
      && IndexOf(q[2]) % 4 == 0
    then Some(Bytes3(IndexOf(q[0]), IndexOf(q[1]), IndexOf(q[2]), 0)[..2])
    else if IsBase64Char(q[0]) && IsBase64Char(q[1]) && q[2] == '=' && q[3] == '='
      && IndexOf(q[1]) % 16 == 0
    then Some(Bytes3(IndexOf(q[0]), IndexOf(q[1]), 0, 0)[..1])
    else None
  }

  /** Decodes canonical base64 text; `None` for anything `Encode` cannot produce. */
  function Decode(s: string): (r: Option<seq<byte>>)
    ensures r.Some? ==> |s| % 4 == 0
    ensures r.Some? ==> (|r.value| == 0 <==> |s| == 0)
    decreases |s|
  {
    if |s| == 0 then Some([])
    else if |s| < 4 then None
    else if |s| == 4 then DecodeLast(s)
    else match DecodeGroup(s[..4])
      case None => None
      case Some(head) =>
        match Decode(s[4..])
        case None => None
        case Some(tail) => Some(head + tail)
  }

  lemma GroupRoundTrip(a: byte, b: byte, c: byte)
    ensures DecodeGroup(EncodeGroup(a, b, c)) == Some([a, b, c])
    ensures DecodeLast(EncodeGroup(a, b, c)) == Some([a, b, c])
  {
    var q := EncodeGroup(a, b, c);
    assert AllBase64(q);
    assert (a % 4 * 16 + b / 16) / 16 == a % 4;
    assert (a % 4 * 16 + b / 16) % 16 == b / 16;
    assert (b % 16 * 4 + c / 64) / 4 == b % 16;
    assert (b % 16 * 4 + c / 64) % 4 == c / 64;
  }

  lemma TwoRoundTrip(a: byte, b: byte)
    ensures DecodeLast(EncodeTwo(a, b)) == Some([a, b])
  {
    var q := EncodeTwo(a, b);
    assert !AllBase64(q) by { assert !IsBase64Char(q[3]); }
    assert (a % 4 * 16 + b / 16) / 16 == a % 4;
    assert (a % 4 * 16 + b / 16) % 16 == b / 16;
    assert (b % 16 * 4) / 4 == b % 16;
    assert IndexOf(q[2]) % 4 == 0;
    var r := Bytes3(IndexOf(q[0]), IndexOf(q[1]), IndexOf(q[2]), 0);
    assert r[0] == a && r[1] == b;
    assert r[..2] == [a, b];
  }

  lemma OneRoundTrip(a: byte)
    ensures DecodeLast(EncodeOne(a)) == Some([a])
  {
    var q := EncodeOne(a);
    assert !AllBase64(q) by { assert !IsBase64Char(q[3]); }
    assert (a % 4 * 16) / 16 == a % 4;
    assert IndexOf(q[1]) % 16 == 0;
    var r := Bytes3(IndexOf(q[0]), IndexOf(q[1]), 0, 0);
    assert r[0] == a;
    assert r[..1] == [a];
  }

  /** Decoding the encoding of any bytes gives those bytes back. */
  lemma {:induction false} DecodeEncode(data: seq<byte>)
    ensures Decode(Encode(data)) == Some(data)
    decreases |data|
  {
    if |data| == 1 {
      OneRoundTrip(data[0]);
      assert [data[0]] == data;
    } else if |data| == 2 {
      TwoRoundTrip(data[0], data[1]);
      assert [data[0], data[1]] == data;
    } else if |data| >= 3 {
      var s := Encode(data);
      var g := EncodeGroup(data[0], data[1], data[2]);
      GroupRoundTrip(data[0], data[1], data[2]);
      assert data == [data[0], data[1], data[2]] + data[3..];
      if |data| == 3 {
        assert data[3..] == [];
        assert s == g;
        assert |s| == 4;
        assert Decode(s) == DecodeLast(g);
        assert data == [data[0], data[1], data[2]];
      } else {
        DecodeEncode(data[3..]);
        assert s[..4] == g;
        assert s[4..] == Encode(data[3..]);
      }
    }
  }

  lemma GroupCanonical(q: string)
    requires |q| == 4 && AllBase64(q)
    ensures var b := DecodeGroup(q).value; EncodeGroup(b[0], b[1], b[2]) == q
  {
    var i0, i1, i2, i3 := IndexOf(q[0]), IndexOf(q[1]), IndexOf(q[2]), IndexOf(q[3]);
    var b := Bytes3(i0, i1, i2, i3);
    assert b[0] / 4 == i0;
    assert b[0] % 4 == i1 / 16;
    assert b[1] / 16 == i1 % 16;
    assert b[1] % 16 == i2 / 4;
    assert b[2] / 64 == i2 % 4;
    assert b[2] % 64 == i3;
    CharOfIndexOf(q[0]);
    CharOfIndexOf(q[1]);
    CharOfIndexOf(q[2]);
    CharOfIndexOf(q[3]);
  }

  lemma LastCanonical(q: string)
    requires |q| == 4 && DecodeLast(q).Some?
    ensures Encode(DecodeLast(q).value) == q
  {
    var b := DecodeLast(q).value;
    if AllBase64(q) {
      GroupCanonical(q);
      assert b[3..] == [];
    } else if |b| == 2 {
      var i0, i1, i2 := IndexOf(q[0]), IndexOf(q[1]), IndexOf(q[2]);
      assert b[0] / 4 == i0;
      assert b[0] % 4 == i1 / 16;
      assert b[1] / 16 == i1 % 16;
      assert b[1] % 16 * 4 == i2;
      CharOfIndexOf(q[0]);
      CharOfIndexOf(q[1]);
      CharOfIndexOf(q[2]);
    } else {
      var i0, i1 := IndexOf(q[0]), IndexOf(q[1]);
      assert b[0] / 4 == i0;
      assert b[0] % 4 * 16 == i1;
      CharOfIndexOf(q[0]);
      CharOfIndexOf(q[1]);
    }
  }

  /** Every text the decoder accepts is the encoding of what it decodes to. */
  lemma {:induction false} EncodeDecode(s: string)
    requires Decode(s).Some?
    ensures Encode(Decode(s).value) == s
    decreases |s|
  {
    if |s| == 4 {
      LastCanonical(s);
    } else if |s| > 4 {
      var head := DecodeGroup(s[..4]).value;
      var tail := Decode(s[4..]).value;
      EncodeDecode(s[4..]);
      GroupCanonical(s[..4]);
      var data := head + tail;
      assert data[..3] == head && data[3..] == tail;
      assert s == s[..4] + s[4..];
    }
  }

  /** `Decode` accepts exactly the encodings, and returns what was encoded. */
  lemma DecodeIffEncode(s: string, data: seq<byte>)
    ensures Decode(s) == Some(data) <==> s == Encode(data)
  {
    if Decode(s) == Some(data) {
      EncodeDecode(s);
    }
    if s == Encode(data) {
      DecodeEncode(data);
    }
  }

  /** Encoding is injective: different bytes never share a base64 text. */
  lemma EncodeInjective(x: seq<byte>, y: seq<byte>)
    requires Encode(x) == Encode(y)
    ensures x == y
  {
    DecodeEncode(x);
    DecodeEncode(y);
  }

  /** The test vectors of section 10 of RFC 4648 ("", "f", "fo", "foo", "foob", "fooba", "foobar"). */
  lemma RfcTestVectors()
    ensures Encode([]) == ""
    ensures Encode([102]) == "Zg=="
    ensures Encode([102, 111]) == "Zm8="
    ensures Encode([102, 111, 111]) == "Zm9v"
    ensures Encode([102, 111, 111, 98]) == "Zm9vYg=="
    ensures Encode([102, 111, 111, 98, 97]) == "Zm9vYmE="
    ensures Encode([102, 111, 111, 98, 97, 114]) == "Zm9vYmFy"
  {
    assert EncodeOne(102) == "Zg==";
    assert EncodeTwo(102, 111) == "Zm8=";
    assert EncodeGroup(102, 111, 111) == "Zm9v";
    assert EncodeOne(98) == "Yg==";
    assert EncodeTwo(98, 97) == "YmE=";
    assert EncodeGroup(98, 97, 114) == "YmFy";
    assert Encode([98, 97, 114]) == "YmFy" by {
      assert [98, 97, 114][3..] == [];
    }
    assert Encode([102, 111, 111]) == "Zm9v" by {
      assert [102, 111, 111][3..] == [];
    }
    assert [102, 111, 111, 98][3..] == [98];
    assert [102, 111, 111, 98, 97][3..] == [98, 97];
    assert [102, 111, 111, 98, 97, 114][3..] == [98, 97, 114];
  }
}
