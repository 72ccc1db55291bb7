/**
 The file-transfer framing of the websocket client: the handshake envelope, the midpoint
 split of the file into two numbered chunks, the double base64 wrapping of each chunk, and
 the order in which the producer writes the two frames. A receiver-side reading of the
 frames states what the framing promises the peer.
 */
module Framing {
  import opened Wrappers
  import opened Bytes
  import Base64
  import Decimal
  import opened Json
  import opened Records

  const InitialKind := "INITIAL"
  const FileKind := "FILE"
  const CreateKind := "CREATE"

  /** A frame as written to the connection: the bytes of one serialized envelope. */
  type Frame = seq<byte>

  /**
   The handshake identity; `draw` stands for the client's `rand.Intn(100)` value. It is plain
   text, and after the fixed prefix it reads back as exactly the draw.
   */
  function ClientIdentity(draw: nat): (id: string)
    ensures IsPlain(id)
    ensures |id| > 15 && id[..15] == "Mein Go Client "
    ensures Decimal.ReadInt(id[15..]) == Some((draw, ""))
  {
    var prefix, digits := "Mein Go Client ", Decimal.IntToString(draw);
    DecimalPlain(draw);
    PlainConcat(prefix, digits);
    Decimal.ReadIntRoundTrip(draw, "");
    assert digits + "" == digits;
    assert (prefix + digits)[..15] == prefix && (prefix + digits)[15..] == digits;
    prefix + digits
  }

  /**
   The destination file name; `draw` stands for the producer's `rand.Intn(100)` value. It is
   plain text of the form `test<draw>.txt`.
   */
  function FileNameFor(draw: nat): (name: string)
    ensures IsPlain(name)
    ensures |name| > 8 && name[..4] == "test" && name[|name| - 4..] == ".txt"
  {
    var prefix, digits, suffix := "test", Decimal.IntToString(draw), ".txt";
    DecimalPlain(draw);
    PlainConcat(prefix, digits);
    PlainConcat(prefix + digits, suffix);
    var name := prefix + digits + suffix;
    assert name[..4] == prefix && name[|name| - 4..] == suffix;
    name
  }

  /** After `test`, the file name reads back as the draw followed by `.txt`. */
  lemma FileNameDraw(draw: nat)
    ensures Decimal.ReadInt(FileNameFor(draw)[4..]) == Some((draw, ".txt"))
  {
    var digits := Decimal.IntToString(draw);
    Decimal.ReadIntRoundTrip(draw, ".txt");
    assert FileNameFor(draw)[4..] == digits + ".txt";
  }

  // ---------------------------------------------------------------------------------------
  // Splitting and chunks

  /** The midpoint split: the first part takes `len / 2` bytes, the second the rest. */
  function Split(content: seq<byte>): (parts: (seq<byte>, seq<byte>))
    ensures parts.0 + parts.1 == content
    ensures |parts.0| == |content| / 2 && |parts.1| == |content| - |content| / 2
    ensures |parts.0| <= |parts.1| <= |parts.0| + 1
  {
    var half := |content| / 2;
    (content[..half], content[half..])
  }

  /** One chunk record; its `data` is base64 text that decodes to exactly `part`. */
  function Chunk(fileName: string, part: seq<byte>, number: int, isLast: bool): (m: Message)
    ensures m.messageType == CreateKind && m.fileName == fileName
    ensures m.number == number && m.isLast == isLast
    ensures Base64.Decode(m.data) == Some(part)
  {
    Base64.DecodeEncode(part);
    Message(CreateKind, fileName, Base64.Encode(part), number, isLast)
  }

  /**
   A well-formed transfer of file `fileName`: at least one chunk, all of type CREATE and
   naming that file, numbered 1, 2, ... without gaps, and only the last marked last.
   */
  predicate IsTransfer(chunks: seq<Message>, fileName: string) {
    && |chunks| >= 1
    && forall i :: 0 <= i < |chunks| ==>
      && chunks[i].messageType == CreateKind
      && chunks[i].fileName == fileName
      && chunks[i].number == i + 1
      && (chunks[i].isLast <==> i == |chunks| - 1)
  }

  /** The bytes a transfer carries: each chunk's data decoded, concatenated in order. */
  function Payload(chunks: seq<Message>): (r: Option<seq<byte>>)
    ensures r.Some? <==> forall i :: 0 <= i < |chunks| ==> Base64.Decode(chunks[i].data).Some?
    decreases |chunks|
  {
    if |chunks| == 0 then Some([])
    else
      var head :- Base64.Decode(chunks[0].data);
      var tail :- Payload(chunks[1..]);
      Some(head + tail)
  }

  /** The two chunks of the file producer: a well-formed transfer that carries `content`. */
  function MakeChunks(fileName: string, content: seq<byte>): (chunks: seq<Message>)
    ensures |chunks| == 2
    ensures IsTransfer(chunks, fileName)
    ensures Payload(chunks) == Some(content)
    ensures Base64.Decode(chunks[0].data) == Some(Split(content).0)
    ensures Base64.Decode(chunks[1].data) == Some(Split(content).1)
  {
    var parts := Split(content);
    var chunks := [Chunk(fileName, parts.0, 1, false), Chunk(fileName, parts.1, 2, true)];
    assert Payload(chunks[1..]) == Some(parts.1 + []) by {
      assert chunks[1..][1..] == [];
    }
    assert parts.1 + [] == parts.1;
    chunks
  }

  // ---------------------------------------------------------------------------------------
  // Envelopes and frames

  /** An envelope of kind `kind` whose data is the base64 text of `payload`. */
  function Base64Envelope(kind: string, payload: seq<byte>): (w: MessageWrapper)
    requires IsPlain(kind)
    ensures w.wrapperType == kind && WrapperIsPlain(w)
    ensures Base64.Decode(w.data) == Some(payload)
  {
    Base64EncodePlain(payload);
    Base64.DecodeEncode(payload);
    MessageWrapper(kind, Base64.Encode(payload))
  }

  /** The FILE envelope of a serialized chunk record: base64 of the record's bytes. */
  function WrapFile(serialized: seq<byte>): (w: MessageWrapper)
    ensures w.wrapperType == FileKind && WrapperIsPlain(w)
    ensures Base64.Decode(w.data) == Some(serialized)
  {
    Base64Envelope(FileKind, serialized)
  }

  /** The INITIAL envelope: base64 of the bytes of the identity string. */
  function WrapInitial(identity: string): (w: MessageWrapper)
    requires IsAscii(identity)
    ensures w.wrapperType == InitialKind && WrapperIsPlain(w)
    ensures Base64.Decode(w.data) == Some(AsciiToBytes(identity))
  {
    Base64Envelope(InitialKind, AsciiToBytes(identity))
  }

  /** The bytes of an envelope's JSON text, as written to the connection. */
  function EnvelopeFrame(w: MessageWrapper): Frame
    requires WrapperIsPlain(w)
  {
    AsciiToBytes(SerializeWrapper(w))
  }

  /** The bytes of a chunk record's JSON text, which the FILE envelope then encodes. */
  function MessageBytes(m: Message): seq<byte>
    requires MessageIsPlain(m)
  {
    AsciiToBytes(SerializeMessage(m))
  }

  /**
   The handshake frame the first producer writes: it reads back as an INITIAL envelope whose
   data decodes to the identity string.
   */
  function InitialFrame(draw: nat): (frame: Frame)
    ensures DecodeEnvelope(frame).Some? && DecodeEnvelope(frame).value.wrapperType == InitialKind
    ensures DecodeInitialFrame(frame) == Some(ClientIdentity(draw))
  {
    var identity := ClientIdentity(draw);
    PlainIsAscii(identity);
    var w := WrapInitial(identity);
    EnvelopeRoundTrip(w);
    AsciiRoundTrip(identity);
    EnvelopeFrame(w)
  }

  /**
   The two frames of the file producer, `[wrapperOne, wrapperTwo]`, chunk 1 first. What they
   carry is stated by `FileFrameDecodes` and `TransferRoundTrip`.
   */
  function FileFrames(content: seq<byte>, draw: nat): (frames: seq<Frame>)
    ensures |frames| == 2
  {
    var chunks := MakeChunks(FileNameFor(draw), content);
    ChunksPlain(FileNameFor(draw), content);
    [EnvelopeFrame(WrapFile(MessageBytes(chunks[0]))), EnvelopeFrame(WrapFile(MessageBytes(chunks[1])))]
  }

  // ---------------------------------------------------------------------------------------
  // Writing

  /**
   Writes `frames` in order, one write each; `writeOk[i]` is the outcome of the i-th write.
   A failed write puts nothing on the wire and ends the producer. Returns what reached the
   wire and whether every write succeeded.
   */
  function WriteInOrder(frames: seq<Frame>, writeOk: seq<bool>): (out: (seq<Frame>, bool))
    requires |writeOk| == |frames|
    ensures |out.0| <= |frames| && out.0 == frames[..|out.0|]
    ensures forall i :: 0 <= i < |out.0| ==> writeOk[i]
    ensures out.1 <==> |out.0| == |frames|
    ensures !out.1 ==> !writeOk[|out.0|]
    decreases |frames|
  {
    if |frames| == 0 then ([], true)
    else if !writeOk[0] then ([], false)
    else
      var rest := WriteInOrder(frames[1..], writeOk[1..]);
      ([frames[0]] + rest.0, rest.1)
  }

  /** The handshake producer: one write of the INITIAL frame. */
  function InitialProducer(draw: nat, writeOk: bool): (out: (seq<Frame>, bool))
    ensures out.0 == (if writeOk then [InitialFrame(draw)] else [])
    ensures out.1 == writeOk
  {
    WriteInOrder([InitialFrame(draw)], [writeOk])
  }

  /**
   The file producer: the two chunk frames, written in order until a write fails. Nothing
   reaches the wire if the first write fails, only the first frame if the second write fails,
   and it succeeds exactly when both writes do, with both frames on the wire in order.
   */
  function FileProducer(content: seq<byte>, draw: nat, writeOk: seq<bool>): (out: (seq<Frame>, bool))
    requires |writeOk| == 2
    ensures out.0 == [] <==> !writeOk[0]
    ensures out.1 <==> writeOk[0] && writeOk[1]
    ensures writeOk[0] && !writeOk[1] ==> out.0 == [FileFrames(content, draw)[0]]
    ensures out.1 ==> out.0 == FileFrames(content, draw)
  {
    var frames := FileFrames(content, draw);
    WriteTwo(frames, writeOk);
    WriteInOrder(frames, writeOk)
  }

  /** Two writes in order: the first failing writes nothing, and success needs both. */
  lemma WriteTwo(frames: seq<Frame>, writeOk: seq<bool>)
    requires |frames| == 2 && |writeOk| == 2
    ensures var out := WriteInOrder(frames, writeOk);
      && (out.0 == [] <==> !writeOk[0])
      && (out.1 <==> writeOk[0] && writeOk[1])
  {
    var out := WriteInOrder(frames, writeOk);
    if writeOk[0] {
      assert |out.0| >= 1;
    }
  }

  // ---------------------------------------------------------------------------------------
  // Reading frames back (what the peer sees)

  /** The envelope a frame carries, if it is the JSON text of one. */
  function DecodeEnvelope(frame: Frame): Option<MessageWrapper> {
    var text :- BytesToAscii(frame);
    ParseWrapper(text)
  }

  /** The chunk record a FILE frame carries. */
  function DecodeFileFrame(frame: Frame): (r: Option<Message>)
    ensures r.Some? ==> DecodeEnvelope(frame).Some? && DecodeEnvelope(frame).value.wrapperType == FileKind
  {
    var w :- DecodeEnvelope(frame);
    if w.wrapperType != FileKind then None
    else
      var bytes :- Base64.Decode(w.data);
      var text :- BytesToAscii(bytes);
      ParseMessage(text)
  }

  /** The identity string an INITIAL frame carries. */
  function DecodeInitialFrame(frame: Frame): (r: Option<string>)
  {
    var w :- DecodeEnvelope(frame);
    if w.wrapperType != InitialKind then None
    else
      var bytes :- Base64.Decode(w.data);
      BytesToAscii(bytes)
  }

  function DecodeFileFrames(frames: seq<Frame>): (r: Option<seq<Message>>)
    ensures r.Some? ==> |r.value| == |frames|
    decreases |frames|
  {
    if |frames| == 0 then Some([])
    else
      var head :- DecodeFileFrame(frames[0]);
      var tail :- DecodeFileFrames(frames[1..]);
      Some([head] + tail)
  }

  /** The file name and content a sequence of FILE frames delivers, if they form a whole transfer. */
  function Reassemble(frames: seq<Frame>): (r: Option<(string, seq<byte>)>)
    ensures r.Some? ==> |frames| >= 1
  {
    var chunks :- DecodeFileFrames(frames);
    if |chunks| == 0 || !IsTransfer(chunks, chunks[0].fileName) then None
    else
      var content :- Payload(chunks);
      Some((chunks[0].fileName, content))
  }

  // ---------------------------------------------------------------------------------------
  // Plain text: what json.Marshal copies verbatim

  lemma Base64EncodePlain(data: seq<byte>)
    ensures IsPlain(Base64.Encode(data))
  {
    var s := Base64.Encode(data);
    assert forall i :: 0 <= i < |s| ==> Base64.IsBase64Char(s[i]) || s[i] == '=';
  }

  lemma DecimalPlain(n: nat)
    ensures IsPlain(Decimal.IntToString(n))
  {
    var t := Decimal.IntToString(n);
    assert forall i :: 0 <= i < |t| ==> Decimal.IsDigit(t[i]) by {
      forall i | 0 <= i < |t| ensures Decimal.IsDigit(t[i]) {
        if i == 0 { assert t[0] != '-'; assert Decimal.IsDigit(Decimal.NatToString(n)[0]); }
      }
    }
  }

  lemma ChunksPlain(fileName: string, content: seq<byte>)
    requires IsPlain(fileName)
    ensures forall i :: 0 <= i < 2 ==> MessageIsPlain(MakeChunks(fileName, content)[i])
  {
    var parts := Split(content);
    Base64EncodePlain(parts.0);
    Base64EncodePlain(parts.1);
  }

  // ---------------------------------------------------------------------------------------
  // Laws

  /** In a well-formed transfer exactly one chunk is last, and it carries the largest number. */
  lemma TransferLastIsMax(chunks: seq<Message>, fileName: string)
    requires IsTransfer(chunks, fileName)
    ensures chunks[|chunks| - 1].isLast
    ensures forall i :: 0 <= i < |chunks| && chunks[i].isLast ==> i == |chunks| - 1
    ensures forall i :: 0 <= i < |chunks| ==> chunks[i].number <= chunks[|chunks| - 1].number
  {
  }

  /** An empty file still gives two chunks, both empty, and the second still ends the transfer. */
  lemma EmptyContent(fileName: string)
    ensures var chunks := MakeChunks(fileName, []);
      && |chunks| == 2
      && chunks[0].data == [] && chunks[1].data == []
      && !chunks[0].isLast && chunks[1].isLast
  {
    var chunks := MakeChunks(fileName, []);
    Base64.DecodeIffEncode(chunks[0].data, []);
    Base64.DecodeIffEncode(chunks[1].data, []);
  }

  /** Any plain envelope written as a frame reads back as that envelope. */
  lemma EnvelopeRoundTrip(w: MessageWrapper)
    requires WrapperIsPlain(w)
    ensures DecodeEnvelope(EnvelopeFrame(w)) == Some(w)
  {
    AsciiRoundTrip(SerializeWrapper(w));
    WrapperRoundTrip(w, SerializeWrapper(w));
  }

  /** A FILE frame of a chunk reads back, through both base64 layers, as that chunk. */
  lemma FileFrameRoundTrip(m: Message)
    requires MessageIsPlain(m)
    ensures DecodeFileFrame(EnvelopeFrame(WrapFile(MessageBytes(m)))) == Some(m)
  {
    var w := WrapFile(MessageBytes(m));
    EnvelopeRoundTrip(w);
    AsciiRoundTrip(SerializeMessage(m));
    MessageRoundTrip(m);
  }

  /** Frame i of the file producer is a FILE envelope carrying chunk i + 1. */
  lemma FileFrameDecodes(content: seq<byte>, draw: nat, i: int)
    requires 0 <= i < 2
    ensures DecodeFileFrame(FileFrames(content, draw)[i]) == Some(MakeChunks(FileNameFor(draw), content)[i])
  {
    var chunks := MakeChunks(FileNameFor(draw), content);
    ChunksPlain(FileNameFor(draw), content);
    FileFrameRoundTrip(chunks[i]);
  }

  /** Read together, the producer's frames give back the two chunks, in order. */
  lemma FileFramesCarryChunks(content: seq<byte>, draw: nat)
    ensures DecodeFileFrames(FileFrames(content, draw)) == Some(MakeChunks(FileNameFor(draw), content))
  {
    var frames, chunks := FileFrames(content, draw), MakeChunks(FileNameFor(draw), content);
    FileFrameDecodes(content, draw, 0);
    FileFrameDecodes(content, draw, 1);
    DecodeTwoFrames(frames[0], frames[1], chunks[0], chunks[1]);
    assert frames == [frames[0], frames[1]] && chunks == [chunks[0], chunks[1]];
  }

  /** Two frames that each read back as a chunk read back, in order, as those two chunks. */
  lemma DecodeTwoFrames(f0: Frame, f1: Frame, c0: Message, c1: Message)
    requires DecodeFileFrame(f0) == Some(c0) && DecodeFileFrame(f1) == Some(c1)
    ensures DecodeFileFrames([f0, f1]) == Some([c0, c1])
  {
    assert [f1] + [] == [f1] && [c1] + [] == [c1];
    DecodeFramesCons(f1, [], c1, []);
    assert [f0] + [f1] == [f0, f1] && [c0] + [c1] == [c0, c1];
    DecodeFramesCons(f0, [f1], c0, [c1]);
  }

  /** A frame that reads back as a chunk, followed by frames that read back, reads back in order. */
  lemma DecodeFramesCons(frame: Frame, rest: seq<Frame>, chunk: Message, tail: seq<Message>)
    requires DecodeFileFrame(frame) == Some(chunk)
    requires DecodeFileFrames(rest) == Some(tail)
    ensures DecodeFileFrames([frame] + rest) == Some([chunk] + tail)
  {
    var frames: seq<Frame> := [frame] + rest;
    assert frames[0] == frame && frames[1..] == rest;
  }

  /** The peer that reads both file frames recovers the file name and the exact file content. */
  lemma TransferRoundTrip(content: seq<byte>, draw: nat)
    ensures Reassemble(FileFrames(content, draw)) == Some((FileNameFor(draw), content))
  {
    FileFramesCarryChunks(content, draw);
  }

  /** The first frame alone is not a whole transfer: its chunk is not marked last. */
  lemma FirstFrameAloneIncomplete(content: seq<byte>, draw: nat)
    ensures Reassemble([FileFrames(content, draw)[0]]) == None
  {
    var chunks := MakeChunks(FileNameFor(draw), content);
    var frames: seq<Frame> := [FileFrames(content, draw)[0]];
    FileFrameDecodes(content, draw, 0);
    assert DecodeFileFrames(frames[1..]) == Some([]);
    assert DecodeFileFrames(frames) == Some([chunks[0]] + []);
    assert !IsTransfer([chunks[0]] + [], chunks[0].fileName) by {
      assert ([chunks[0]] + [])[0] == chunks[0];
    }
  }

  /**
   The file producer writes chunk 1 before chunk 2 and stops at the first failed write; the
   peer gets the whole file exactly when both writes succeed.
   */
  lemma FileProducerOrder(content: seq<byte>, draw: nat, writeOk: seq<bool>)
    requires |writeOk| == 2
    ensures var out := FileProducer(content, draw, writeOk);
      && (out.0 == [] <==> !writeOk[0])
      && (|out.0| >= 1 ==> DecodeFileFrame(out.0[0]).Some? && DecodeFileFrame(out.0[0]).value.number == 1)
      && (|out.0| == 2 ==> DecodeFileFrame(out.0[1]).Some? && DecodeFileFrame(out.0[1]).value.number == 2)
      && (Reassemble(out.0) == Some((FileNameFor(draw), content)) <==> writeOk[0] && writeOk[1])
  {
    var out := FileProducer(content, draw, writeOk);
    var frames := FileFrames(content, draw);
    FileFrameDecodes(content, draw, 0);
    FileFrameDecodes(content, draw, 1);
    if writeOk[0] && writeOk[1] {
      assert out.0 == frames;
      TransferRoundTrip(content, draw);
    } else if writeOk[0] {
      assert out.0 == [frames[0]];
      FirstFrameAloneIncomplete(content, draw);
    } else {
      assert out.0 == [];
      assert Reassemble([]) == None;
    }
  }
}
