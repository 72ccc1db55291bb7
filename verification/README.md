# File-chunk framing of the Go websocket client

This project models the protocol core of a small Go websocket client. The client sends a file
to a peer in two chunks:

- It reads the file and splits it at the midpoint `len / 2`.
- It wraps each half in a `Message` record of type `CREATE`. The record holds a shared file
  name, the half's bytes as base64, a sequence number (1 or 2) and an `isLast` flag.
- It serializes each record to JSON and wraps it in a `MessageWrapper` envelope of type
  `FILE`. The envelope's `data` is the base64 of the serialized record, so chunk bytes are
  base64-encoded twice.
- It writes the two envelopes in order and stops at the first failed write.

Separately, a handshake producer writes one `INITIAL` envelope. Its data is the base64 of
the client's identity string.

The model is functional: immutable datatypes and pure functions over `seq<byte>` and `string`.

| file | module | contents |
|---|---|---|
| wrappers.dfy | `Wrappers` | `Option`, usable with `:-` |
| bytes.dfy | `Bytes` | bytes; ASCII text to bytes (Go's `[]byte(s)`) and back |
| base64.dfy | `Base64` | the "base64" encoding of section 4 of RFC 4648 (standard alphabet, `=` padding), with a strict decoder and both round trips |
| decimal.dfy | `Decimal` | `strconv.Itoa`, and a reader for the number it writes |
| json.dfy | `Json` | the JSON pieces of a flat record (string literal, `true`/`false`) and a reader for each |
| records.dfy | `Records` | `MessageWrapper` and `Message`, their JSON text in struct field order, and parsers proved to invert it |
| framing.dfy | `Framing` | split, chunks, envelopes, frames, in-order writing, and the peer's reading of the frames |

Nothing in the source decodes a frame. The receiver-side readers exist only so the model can
state what the framing promises the peer, as round trips:
- `Base64.Decode`, `Decimal.ReadInt` and `Bytes.BytesToAscii`;
- `Records.ParseWrapper` and `Records.ParseMessage`;
- `Framing.Payload`, `Framing.DecodeEnvelope`, `Framing.DecodeFileFrame`,
  `Framing.DecodeFileFrames`, `Framing.DecodeInitialFrame` and `Framing.Reassemble`.

A "## Model" row for one of them cites the lines whose output it reads back.

The two `rand.Intn(100)` draws are parameters named `draw`. The identity string
(`"Mein Go Client " + Itoa(draw)`) and the file name (`"test" + Itoa(draw) + ".txt"`) are
built from them exactly as the source builds them. The file content is a parameter. The
outcome of each write is a boolean parameter.

An empty file still yields two chunks. Both carry empty data, and only the second is marked
`isLast` (see `Framing.EmptyContent`).

The producers write to the connection concurrently, without mutual exclusion. That race is
not modelled (see below).

## Model

| member | source | states |
|---|---|---|
| `Framing.Split` | go-websocket/websocket.go:81-83 | the two parts concatenate, in order, to the file content; the first has `len/2` bytes and the second `len - len/2`, so the second is never shorter and at most one byte longer |
| `Framing.Chunk` | go-websocket/websocket.go:87-88 | a chunk record has type CREATE, the given file name, number and last flag, and its data decodes back to exactly its part's bytes |
| `Framing.MakeChunks` | go-websocket/websocket.go:81-88 | the producer's two chunks form a well-formed transfer (type CREATE, one shared file name, numbered 1 then 2, only the second last) whose decoded data, concatenated in order, is the file content; chunk i's data decodes to part i of the split |
| `Framing.Payload` | go-websocket/websocket.go:87-88 | the decoded bytes of a chunk sequence exist exactly when every chunk's data is valid base64 |
| `Framing.TransferLastIsMax` | go-websocket/websocket.go:87-88 | in a well-formed transfer exactly one chunk is marked last, it is the final one, and it carries the largest number |
| `Framing.EmptyContent` | go-websocket/websocket.go:81-88 | empty content still gives two chunks, both with empty data, the first not last and the second last |
| `Framing.ClientIdentity` | go-websocket/websocket.go:59 | the handshake identity is plain JSON-safe text that starts with `"Mein Go Client "` and, after that prefix, reads back as exactly the draw and nothing more |
| `Framing.FileNameFor` | go-websocket/websocket.go:85 | the file name is plain JSON-safe text that starts with `test` and ends with `.txt`; `Framing.FileNameDraw` adds what lies between |
| `Framing.FileNameDraw` | go-websocket/websocket.go:85 | after `test`, the file name reads back as the draw followed by `.txt` |
| `Framing.WrapFile` | go-websocket/websocket.go:90-91 | a FILE envelope has type FILE, plain JSON-safe fields, and data that decodes to exactly the serialized chunk record |
| `Framing.WrapInitial` | go-websocket/websocket.go:59 | the INITIAL envelope has type INITIAL and data that decodes to exactly the bytes of the identity string |
| `Framing.EnvelopeRoundTrip` | go-websocket/websocket.go:17-20 | any envelope with plain fields, serialized and written as a frame, reads back as that envelope |
| `Framing.FileFrameRoundTrip` | go-websocket/websocket.go:87-91 | a chunk record, serialized, base64-wrapped in a FILE envelope and serialized again, reads back through both base64 layers as that record |
| `Framing.InitialFrame` | go-websocket/websocket.go:59-67 | the handshake frame reads back as an INITIAL envelope, and its data decodes to exactly the identity string (`Framing.ClientIdentity` states what that string is) |
| `Framing.FileFrames` | go-websocket/websocket.go:87-91 | the producer's list `[wrapperOne, wrapperTwo]` has two frames; what they carry is stated by `Framing.FileFrameDecodes`, `Framing.FileFramesCarryChunks` and `Framing.TransferRoundTrip` |
| `Framing.FileFrameDecodes` | go-websocket/websocket.go:85-91 | frame i of the file producer reads back as chunk i + 1 of the transfer |
| `Framing.FileFramesCarryChunks` | go-websocket/websocket.go:81-91 | the producer's two frames, read in order, give back exactly the two chunks |
| `Framing.TransferRoundTrip` | go-websocket/websocket.go:81-91 | a peer reading both file frames recovers the file name `test<draw>.txt` and the exact file content |
| `Framing.FirstFrameAloneIncomplete` | go-websocket/websocket.go:87-98 | the first frame on its own is not a whole transfer, because its chunk is not marked last |
| `Framing.WriteInOrder` | go-websocket/websocket.go:93-105 | the frames on the wire are a prefix of the frames in order; every write up to that point succeeded; a shorter prefix means the next write failed and the producer stopped there |
| `Framing.FileProducer` | go-websocket/websocket.go:93-105 | nothing reaches the wire if the first write fails; only the first frame does if the second write fails; the producer succeeds exactly when both writes do, with both frames on the wire in order (`Framing.FileProducerOrder` adds what the peer reads from them) |
| `Framing.InitialProducer` | go-websocket/websocket.go:58-71 | the handshake producer puts the INITIAL frame on the wire exactly when its write succeeds |
| `Framing.FileProducerOrder` | go-websocket/websocket.go:93-105 | nothing is written if the first write fails; chunk 1's frame comes first and chunk 2's second; the peer gets the whole file exactly when both writes succeed |
| `Base64.Encode` | go-websocket/websocket.go:87-91 | base64 text has length `4 * ceil(n/3)`, uses only the standard alphabet and `=`, and has `=` only in the last two positions, a second-to-last `=` being followed by another |
| `Base64.CharOf` | go-websocket/websocket.go:87 | the value-to-character table of the alphabet is inverted by the character-to-value table |
| `Base64.DecodeEncode` | go-websocket/websocket.go:87-91 | decoding the encoding of any bytes gives those bytes back |
| `Base64.EncodeDecode` | go-websocket/websocket.go:87-91 | every text the strict decoder accepts is the encoding of what it decodes to |
| `Base64.DecodeIffEncode` | go-websocket/websocket.go:87-91 | the decoder yields `data` from `s` if and only if `s` is the encoding of `data` |
| `Base64.EncodeInjective` | go-websocket/websocket.go:87-91 | different byte strings never share a base64 text |
| `Base64.RfcTestVectors` | go-websocket/websocket.go:59 | the encoder reproduces the test vectors of section 10 of RFC 4648 |
| `Decimal.IntToString` | go-websocket/websocket.go:85 | `strconv.Itoa` writes at least one character, a leading `-` exactly for negative values, and digits after it |
| `Decimal.NatToString` | go-websocket/websocket.go:59 | the decimal text of a natural is non-empty, all digits, without a leading zero, and a single digit exactly below ten |
| `Decimal.NatRoundTrip` | go-websocket/websocket.go:85 | reading the digits written for `n` gives `n` |
| `Decimal.ReadIntRoundTrip` | go-websocket/websocket.go:26 | the JSON number written for the `Number` field, followed by a non-digit, reads back as that number |
| `Records.WrapperRoundTrip` | go-websocket/websocket.go:17-20 | for an envelope with plain fields, the parser returns it from a text exactly when that text is its serialization |
| `Records.SerializeWrapper` | go-websocket/websocket.go:59 | the JSON text of an envelope is ASCII, so its bytes are one per character; `Records.WrapperRoundTrip` shows the parser reads it back, and no other text, as that envelope |
| `Records.SerializeMessage` | go-websocket/websocket.go:87-88 | the JSON text of a chunk record is ASCII, so its bytes are one per character; `Records.MessageRoundTrip` shows it parses back to that record |
| `Records.MessageRoundTrip` | go-websocket/websocket.go:22-28 | the serialization of a chunk record with plain string fields parses back to that record |
| `Json.ReadQuotedRoundTrip` | go-websocket/websocket.go:18-19 | a plain string written as a JSON string literal reads back as itself, with what follows untouched |
| `Json.ReadBoolRoundTrip` | go-websocket/websocket.go:27 | the JSON text of the `IsLast` flag reads back as that flag |
| `Bytes.AsciiRoundTrip` | go-websocket/websocket.go:59 | the bytes of an ASCII string (Go's `[]byte(s)`) read back as that string |
| `Bytes.BytesToAscii` | go-websocket/websocket.go:67 | bytes read as ASCII text exactly when every byte is below 128, giving text of the same length |

## Left out

- Websocket dial, the read loop, `conn.Close` and the internals of `WriteMessage`
  (go-websocket/websocket.go:38-56): network I/O through gorilla/websocket, whose source is
  not part of this model. A write is modelled only as a frame appended to the wire, with a
  boolean outcome.
- Goroutines, the `done` channel, signal handling and the final `select`
  (go-websocket/websocket.go:45-47, 58, 74, 109-119): concurrency and OS signals. The two
  producer goroutines (go-websocket/websocket.go:58-72 and 74-107) write to the connection
  without mutual exclusion; the read goroutine (go-websocket/websocket.go:46-56) only reads.
  That is a real race, but it cannot be expressed in this sequential model. Only the order of writes within one producer
  is modelled.
- `ioutil.ReadFile` and its error path (go-websocket/websocket.go:75-79): file I/O. The
  content is a parameter, and a failed read means the file producer returns at line 78 and writes nothing.
- `rand.Intn(100)` (go-websocket/websocket.go:59, 85): ambient randomness. Each draw is a
  `nat` parameter. The model accepts any natural, not only values below 100.
- Logging (`log.Println`, `log.Printf`, `log.Fatal`).
- `Records.SerializeWrapper` and `Records.SerializeMessage`: JSON string escaping is not
  modelled. They are defined only for "plain" strings: printable ASCII without `"`, `\`, `<`,
  `>` or `&`, which `json.Marshal` copies verbatim. Every string the client puts into a
  record is plain. `INITIAL` and `FILE` are checked where `Framing.Base64Envelope` requires a
  plain kind. `CREATE` is checked where `Framing.ChunksPlain` shows each chunk record plain.
  Base64 text is plain by
  `Framing.Base64EncodePlain`. The ensures of `Framing.FileNameFor` give `test<n>.txt`. The
  identity is plain by the ensures of `Framing.ClientIdentity`, although it only needs to be
  ASCII, because it is base64-encoded before it reaches JSON.
- `Records.MessageRoundTrip`: proved in one direction only. The number reader also accepts
  texts `json.Marshal` never writes, such as `007` or `-0`, so not every accepted text is a
  serialization.
- `Framing.WrapInitial`: takes an ASCII identity. Go's `[]byte(s)` is the UTF-8 encoding, and
  UTF-8 of non-ASCII characters is not modelled. The identity the client builds is ASCII.
- The `json.Marshal` error checked for the INITIAL envelope (go-websocket/websocket.go:60-63),
  and those assigned but never checked at lines 87-91: marshalling a struct of strings, an
  int and a bool cannot fail, so serialization is total in the model and no error handling is
  invented.
- `Base64.Decode`: the strict decoder of section 3.5 of RFC 4648. It rejects non-canonical
  padding bits, unlike Go's lenient `StdEncoding` decoder. The source never decodes, and the
  strict decoder is the exact inverse of the encoder.
