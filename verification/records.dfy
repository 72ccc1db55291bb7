/**
 The two wire records of the client and their JSON text, written as `json.Marshal` writes
 them: fields in struct order under their tag names, no white space.
 */
module Records {
  import opened Wrappers
  import opened Json
  import Bytes
  import Decimal

  /** The envelope every frame carries: a kind tag and base64 text. */
  datatype MessageWrapper = MessageWrapper(wrapperType: string, data: string)

  /** One chunk of a file transfer; `data` is the base64 text of the chunk's bytes. */
  datatype Message = Message(messageType: string, fileName: string, data: string, number: int, isLast: bool)

  predicate WrapperIsPlain(w: MessageWrapper) {
    IsPlain(w.wrapperType) && IsPlain(w.data)
  }

  predicate MessageIsPlain(m: Message) {
    IsPlain(m.messageType) && IsPlain(m.fileName) && IsPlain(m.data)
  }

  // Each text is written as one field followed by the rest of the record, which is the order
  // the parsers below consume it in.

  /**
   The JSON text of an envelope. It is ASCII, so its bytes are one per character;
   `WrapperRoundTrip` shows that `ParseWrapper` reads it back and reads no other text as
   that envelope.
   */
  function SerializeWrapper(w: MessageWrapper): (t: string)
    requires WrapperIsPlain(w)
    ensures Bytes.IsAscii(t)
  {
    var a, b, c := "{\"type\":", ",\"data\":", "}";
    var s2 := Quote(w.data) + c;
    var s1 := b + s2;
    var s0 := Quote(w.wrapperType) + s1;
    // ASCII, piece by piece from the right.
    QuoteAscii(w.wrapperType);
    QuoteAscii(w.data);
    Bytes.AsciiConcat(Quote(w.data), c);
    Bytes.AsciiConcat(b, s2);
    Bytes.AsciiConcat(Quote(w.wrapperType), s1);
    Bytes.AsciiConcat(a, s0);
    a + s0
  }

  /** `ParseWrapper` reads the text of a plain envelope back as that envelope. */
  lemma WrapperParsesBack(w: MessageWrapper)
    requires WrapperIsPlain(w)
    ensures ParseWrapper(SerializeWrapper(w)) == Some(w)
  {
    var a, b, c := "{\"type\":", ",\"data\":", "}";
    var s2 := Quote(w.data) + c;
    var s1 := b + s2;
    var s0 := Quote(w.wrapperType) + s1;
    // Each reader consumes exactly its own piece.
    ExpectLiteral(a, s0);
    ReadQuotedRoundTrip(w.wrapperType, s1);
    ExpectLiteral(b, s2);
    ReadQuotedRoundTrip(w.data, c);
    ExpectLiteral(c, []);
    assert c + [] == c;
  }

  /**
   The text of a chunk record after its opening `{"type":`: each field, in struct order under
   its tag, followed by the rest of the record.
   */
  function MessageFields(m: Message): string {
    Quote(m.messageType) + (",\"fileName\":" + (Quote(m.fileName) + (",\"data\":" + (Quote(m.data)
      + (",\"number\":" + (Decimal.IntToString(m.number) + (",\"isLast\":" + (Bool(m.isLast) + "}"))))))))
  }

  /**
   The JSON text of a chunk record. It is ASCII, so its bytes are one per character;
   `MessageRoundTrip` shows that `ParseMessage` reads it back as that record.
   */
  function SerializeMessage(m: Message): (t: string)
    requires MessageIsPlain(m)
    ensures Bytes.IsAscii(t)
  {
    MessageAscii(m);
    "{\"type\":" + MessageFields(m)
  }

  /** The text of a plain chunk record parses back to that record. */
  lemma MessageRoundTrip(m: Message)
    requires MessageIsPlain(m)
    ensures ParseMessage(SerializeMessage(m)) == Some(m)
  {
    MessageParses(m);
  }

  lemma QuoteAscii(s: string)
    requires IsPlain(s)
    ensures Bytes.IsAscii(Quote(s))
  {
    PlainIsAscii(s);
    Bytes.AsciiConcat("\"", s);
    Bytes.AsciiConcat("\"" + s, "\"");
  }

  lemma DecimalAscii(n: int)
    ensures Bytes.IsAscii(Decimal.IntToString(n))
  {
    var t := Decimal.IntToString(n);
    forall i | 0 <= i < |t|
      ensures Bytes.IsAsciiChar(t[i])
    {
      if i > 0 {
        assert Decimal.IsDigit(t[i]);
      }
    }
  }

  /** The text of a chunk record, after its opening `{"type":`, is ASCII. */
  lemma MessageAscii(m: Message)
    requires MessageIsPlain(m)
    ensures Bytes.IsAscii("{\"type\":" + MessageFields(m))
  {
    var a, b, c, d, e, f := "{\"type\":", ",\"fileName\":", ",\"data\":", ",\"number\":", ",\"isLast\":", "}";
    var n, l := Decimal.IntToString(m.number), Bool(m.isLast);
    DecimalAscii(m.number);
    QuoteAscii(m.messageType);
    QuoteAscii(m.fileName);
    QuoteAscii(m.data);
    assert Bytes.IsAscii(a) && Bytes.IsAscii(b) && Bytes.IsAscii(c);
    assert Bytes.IsAscii(d) && Bytes.IsAscii(e) && Bytes.IsAscii(f) && Bytes.IsAscii(l);
    var s8 := l + f;
    Bytes.AsciiConcat(l, f);
    var s7 := e + s8;
    Bytes.AsciiConcat(e, s8);
    var s6 := n + s7;
    Bytes.AsciiConcat(n, s7);
    var s5 := d + s6;
    Bytes.AsciiConcat(d, s6);
    var s4 := Quote(m.data) + s5;
    Bytes.AsciiConcat(Quote(m.data), s5);
    var s3 := c + s4;
    Bytes.AsciiConcat(c, s4);
    var s2 := Quote(m.fileName) + s3;
    Bytes.AsciiConcat(Quote(m.fileName), s3);
    var s1 := b + s2;
    Bytes.AsciiConcat(b, s2);
    var s0 := Quote(m.messageType) + s1;
    Bytes.AsciiConcat(Quote(m.messageType), s1);
    Bytes.AsciiConcat(a, s0);
  }

  /** `ParseMessage` reads each field of a chunk record's text back, piece by piece. */
  lemma MessageParses(m: Message)
    requires MessageIsPlain(m)
    ensures ParseMessage("{\"type\":" + MessageFields(m)) == Some(m)
  {
    var a, b, c, d, e, f := "{\"type\":", ",\"fileName\":", ",\"data\":", ",\"number\":", ",\"isLast\":", "}";
    var s9 := f;
    var s8 := Bool(m.isLast) + s9;
    var s7 := e + s8;
    var s6 := Decimal.IntToString(m.number) + s7;
    var s5 := d + s6;
    var s4 := Quote(m.data) + s5;
    var s3 := c + s4;
    var s2 := Quote(m.fileName) + s3;
    var s1 := b + s2;
    var s0 := Quote(m.messageType) + s1;
    ExpectLiteral(a, s0);
    ReadQuotedRoundTrip(m.messageType, s1);
    ExpectLiteral(b, s2);
    ReadQuotedRoundTrip(m.fileName, s3);
    ExpectLiteral(c, s4);
    ReadQuotedRoundTrip(m.data, s5);
    ExpectLiteral(d, s6);
    Decimal.ReadIntRoundTrip(m.number, s7);
    ExpectLiteral(e, s8);
    ReadBoolRoundTrip(m.isLast, s9);
    ExpectLiteral(f, []);
    assert f + [] == f;
  }

  /** Reads the text of a `MessageWrapper`; `None` for any other text. */
  function ParseWrapper(t: string): (r: Option<MessageWrapper>)
  {
    var r0 :- Expect("{\"type\":", t);
    var ty :- ReadQuoted(r0);
    var r1 :- Expect(",\"data\":", ty.1);
    var d :- ReadQuoted(r1);
    var r2 :- Expect("}", d.1);
    if r2 == [] then Some(MessageWrapper(ty.0, d.0)) else None
  }

  /** Reads the text of a `Message`; `None` for any other text. */
  function ParseMessage(t: string): (r: Option<Message>)
  {
    var r0 :- Expect("{\"type\":", t);
    var ty :- ReadQuoted(r0);
    var r1 :- Expect(",\"fileName\":", ty.1);
    var name :- ReadQuoted(r1);
    var r2 :- Expect(",\"data\":", name.1);
    var d :- ReadQuoted(r2);
    var r3 :- Expect(",\"number\":", d.1);
    var n :- Decimal.ReadInt(r3);
    var r4 :- Expect(",\"isLast\":", n.1);
    var last :- ReadBool(r4);
    var r5 :- Expect("}", last.1);
    if r5 == [] then Some(Message(ty.0, name.0, d.0, n.0, last.0)) else None
  }

  /** The only text that reads as a plain envelope is its serialization. */
  lemma WrapperParseCanonical(w: MessageWrapper, t: string)
    requires WrapperIsPlain(w)
    requires ParseWrapper(t) == Some(w)
    ensures t == SerializeWrapper(w)
  {
    var a, b, c := "{\"type\":", ",\"data\":", "}";
    var r0 := Expect(a, t).value;
    var ty := ReadQuoted(r0).value;
    var r1 := Expect(b, ty.1).value;
    var d := ReadQuoted(r1).value;
    assert d.1 == c;
  }

  /** For a plain envelope, the parser returns it from a text exactly when that text is its serialization. */
  lemma WrapperRoundTrip(w: MessageWrapper, t: string)
    requires WrapperIsPlain(w)
    ensures ParseWrapper(t) == Some(w) <==> t == SerializeWrapper(w)
  {
    if ParseWrapper(t) == Some(w) {
      WrapperParseCanonical(w, t);
    } else {
      WrapperParsesBack(w);
    }
  }
}
