# gocraft protocol codec in Dafny

A model of the `protocol` package of gocraft, a small Minecraft server
written in Go, with proofs about it. The package has two layers:

- `protocol/serialization.go` is the field codec. It has:
  - VarInt and VarLong: little-endian groups of 7 bits, with the high bit
    set on every byte except the last;
  - big-endian `int64` and `uint16`;
  - strings prefixed by a VarInt length;
  - structs, read and written field by field in declaration order.
- `protocol/packets.go` is the packet layer. It has:
  - the frame reader `ReadRawPacket`: a VarInt length, a VarInt id, then
    the payload;
  - the dispatcher `ParseRawPacket`: id 0 is a handshake, id 1 is a ping;
  - the writer `WritePacket`;
  - the packet types and their constants.

Layout:

| file | module | models |
|---|---|---|
| `ints.dfy` | `Ints` | bytes, Go's `int32(x)` and `int64(x)` conversions, `encoding/binary.BigEndian` |
| `streams.dfy` | `Streams` | `bytes.Reader` as a class with a cursor; `io.Writer` as a class with a byte budget; `io.CopyN` |
| `varnumber.dfy` | `VarNumber` | `readVarNumber` and `writeVarNumber` as loops; `ReadVarInt`, `ReadVarLong` |
| `marshal.dfy` | `Marshal` | `Read`, `Write`, `SizeOfSerializedData` |
| `packets.dfy` | `Packets` | the packet types, `ParseRawPacket`, `ReadRawPacket`, `WritePacket`, and a corrected writer `WriteFrame` |

Go's type switch and reflection become a closed datatype, `Marshal.Value`.
Its cases are `VarInt`, `VarLong`, `Int64`, `UInt16`, `Str` and
`Struct(fields)`. A Read target is the value it holds before the call; a
struct is the sequence of its fields.

Each imperative Go function is a Dafny `method` over the `Reader` or
`Writer` class. Its `ensures` ties the result and the new state to a pure
specification function (`ReadVarNumberSpec`, `ReadSpec`, `WriteSpec`,
`ReadRawSpec`, `ParseSpec`, `WritePacketSpec`). The lemmas state what
the source promises about those functions: round trips, error cases and
exact byte layouts.

The writer has a budget, `Room`:
- `Unlimited` stands for `bytes.Buffer` and `NullWritter`.
- `Left(n)` stands for a peer that takes `n` more bytes and then fails.
- A write that does not fit takes the prefix that fits and reports
  `WriteFailed`.

## Model

| member | source | states |
|---|---|---|
| Ints.ToInt32 | protocol/serialization.go:161-165 | `int32(res)` gives an int32, and leaves a value already in range unchanged |
| Ints.ToInt64 | protocol/serialization.go:29-33 | `int64(uint64)` gives an int64, and leaves a value already in range unchanged |
| Ints.ToInt32Wraps | protocol/serialization.go:161-165 | `int32(x)` keeps the low 32 bits: it differs from x by a multiple of 2^32 |
| Ints.Int32Unique | protocol/packets.go:95 | two int32 values with the same low 32 bits are equal, so with `ToInt32Wraps` the result of `int32(x)` is the only int32 congruent to x |
| Ints.ToInt64Wraps | protocol/serialization.go:29-33 | `int64(x)` keeps the low 64 bits: it differs from x by a multiple of 2^64 |
| Ints.BigEndian | protocol/serialization.go:29-45 | the value decoded from `s`, most significant byte first, is below 256^k for k bytes |
| Ints.PutBigEndian | protocol/serialization.go:78-81 | `PutUint16` / `PutUint64` fill exactly k bytes, the least significant byte last |
| Ints.BigEndianRoundTrip | protocol/serialization.go:78-81 | decoding the `k` big-endian bytes of `x` gives `x` modulo 256^k |
| Ints.Int64RoundTrip | protocol/serialization.go:29-33 | an int64 written by `PutUint64(uint64(v))` and read by `int64(Uint64(p))` is unchanged |
| Ints.UInt16RoundTrip | protocol/serialization.go:41-45 | two big-endian bytes of a uint16 read back as the same value |
| Streams.Available | protocol/serialization.go:25-26 | one `Read` into a `k`-byte buffer copies min(k, remaining) bytes, and exactly the bytes at the cursor |
| Streams.Reader.Read | protocol/serialization.go:116-121 | `bytes.Reader.Read` advances by min(k, remaining) bytes, leaves the rest of the buffer zero, and reports io.EOF only at the end of the data |
| Streams.Reader.CopyN | protocol/packets.go:95-101 | `io.CopyN` into an empty buffer copies the next min(k, remaining) bytes, and none when k <= 0 |
| Streams.Push | protocol/serialization.go:78-84 | one `Write` keeps the prefix that fits; the error is none exactly when all bytes fit |
| Streams.PushConcat | protocol/serialization.go:141-159 | writing `a` then `b` is writing `a + b` once, also when a write fails |
| Streams.Writer.Write | protocol/serialization.go:171-175 | a writer call changes the writer state as `Push` says |
| VarNumber.VarBytes | protocol/serialization.go:141-159 | `writeVarNumber` emits at least one byte, also for 0, because the loop writes before it tests |
| VarNumber.ScanVar | protocol/serialization.go:115-139 | the read loop ends on a byte inside both the data and the budget, or overruns the budget only when a byte follows it |
| VarNumber.VarBytesValue | protocol/serialization.go:141-159 | the groups of `writeVarNumber`'s bytes add up to the number, and the byte count is the smallest that holds it |
| VarNumber.VarBytesShape | protocol/serialization.go:143-147 | every byte but the last has the continuation bit |
| VarNumber.VarBytesLength | protocol/serialization.go:141-159 | the encoding of x fits in k bytes exactly when x < 128^k |
| VarNumber.ScanVarMeaning | protocol/serialization.go:115-139 | the scan stops at the first byte without the continuation bit; it is overlong when the first maxBytes bytes all have the bit; it runs out of data otherwise |
| VarNumber.ReadVarNumberSpec | protocol/serialization.go:115-139 | on success the value is an int64 read from 1..maxBytes bytes; on error the value and count are 0 |
| VarNumber.ReadVarNumber | protocol/serialization.go:115-139 | the byte-by-byte loop returns what `ReadVarNumberSpec` says and leaves the reader there |
| VarNumber.WriteVarNumber | protocol/serialization.go:141-159 | the byte-by-byte loop writes `VarBytes(number)` and returns what one `Push` of those bytes returns |
| VarNumber.ReadVarIntSpec | protocol/serialization.go:161-165 | ReadVarInt is readVarNumber with 5 bytes, truncated to int32 |
| VarNumber.ReadVarInt | protocol/serialization.go:161-165 | the method returns what `ReadVarIntSpec` says |
| VarNumber.ReadVarLongSpec | protocol/serialization.go:167-169 | ReadVarLong is readVarNumber with 10 bytes and gives an int64 |
| VarNumber.ReadVarLong | protocol/serialization.go:167-169 | the method returns what `ReadVarLongSpec` says |
| VarNumber.VarNumberRoundTrip | protocol/serialization.go:115-159 | `writeVarNumber`'s bytes read back as the number, its byte count and no error, whatever follows them |
| VarNumber.VarIntRoundTrip | protocol/serialization.go:161-165 | a VarInt in 0..2^31-1 round-trips in at most 5 bytes |
| VarNumber.VarLongRoundTrip | protocol/serialization.go:167-169 | a VarLong in 0..2^63-1 round-trips in at most 10 bytes |
| VarNumber.VarIntRoundTripSigned | protocol/serialization.go:161-165 | every int32 round-trips in at most 5 bytes; a negative one, sent as its 32-bit two's-complement pattern, reads back as itself through `int32(res)` |
| VarNumber.VarLongRoundTripSigned | protocol/serialization.go:167-169 | every int64 round-trips in at most 10 bytes; a negative one is sent as its 64-bit pattern |
| VarNumber.PatternFits | protocol/serialization.go:161-169 | every 32-bit pattern fits the 5-byte budget of ReadVarInt, every 64-bit pattern the 10-byte budget of ReadVarLong |
| VarNumber.OverlongFails | protocol/serialization.go:127-132 | maxBytes continuation bytes followed by one more byte fail with ErrVariableLengthDigit, value 0 and count 0 |
| VarNumber.ExhaustedFails | protocol/serialization.go:118-121 | data that ends inside a varint fails with io.EOF |
| VarNumber.VarBytesExamples | protocol/serialization.go:141-159 | 0, 127, 128, 2^21-1, 2^21 and 2^31-1 encode to 1, 1, 2, 3, 4 and 5 bytes |
| VarNumber.VarIntEdgeExamples | protocol/serialization.go:127-132 | six 0x80 bytes are too long for a VarInt; FF FF FF FF 0F reads as -1 |
| Marshal.ReadSpec | protocol/serialization.go:18-70 | Read only moves the reader forward, and never past the data; `ReadKeepsType` and `ReadLayout` state what it fills in |
| Marshal.ReadFields | protocol/serialization.go:53-65 | the field walk only moves the reader forward, within the data; `ReadFieldsAppend` and `ReadFieldsLayout` state its result |
| Marshal.ReadInt64Spec | protocol/serialization.go:29-33 | an int64 read reports 8 and no error, even when fewer bytes were left |
| Marshal.ReadUInt16Spec | protocol/serialization.go:41-45 | a uint16 read reports 2 and no error, even when fewer bytes were left |
| Marshal.ReadStringSpec | protocol/serialization.go:20-28 | a string read counts only its length prefix; on error the target is unchanged and the count is 0 |
| Marshal.Read | protocol/serialization.go:18-70 | the method returns what `ReadSpec` says: the new value, the count, the reader position and the error |
| Marshal.ReadStruct | protocol/serialization.go:53-65 | the field loop returns what `ReadFields` says; the first failing field stops it |
| Marshal.ReadKeepsType | protocol/serialization.go:18-70 | Read fills a target with a value of the same Go type, keeps it in range, and fails only with io.EOF, ErrVariableLengthDigit or the negative-length panic |
| Marshal.ReadFieldsAppend | protocol/serialization.go:57-64 | reading fields `a + b` reads `a`, then `b` from where `a` stopped, unless `a` failed |
| Marshal.WriteSpec | protocol/serialization.go:72-113 | Write only appends to the writer; it succeeds only on values without a uint16, and then returns the number of bytes it appended; its only errors are the writer's and "not supported" |
| Marshal.WriteFields | protocol/serialization.go:99-106 | the same for a struct's fields, written in order |
| Marshal.Layout | protocol/serialization.go:18-113 | every value but a struct takes at least one byte on the wire; `WriteEmitsLayout` and `ReadLayout` tie it to Write and Read |
| Marshal.Write | protocol/serialization.go:72-113 | the method changes the writer and returns what `WriteSpec` says |
| Marshal.SizeOfSerializedData | protocol/serialization.go:177-181 | the size is the count Write returns on a writer that takes everything; for a supported value it is the length of its encoding |
| Marshal.WriteEmitsLayout | protocol/serialization.go:72-113 | writing a supported value leaves the writer as one write of `Layout(v)` would, with the same error |
| Marshal.WriteUnlimited | protocol/serialization.go:72-113 | on a writer that takes everything, a supported value appends its layout and returns its length |
| Marshal.WriteUnsupported | protocol/serialization.go:108-110 | a value with a uint16 in it fails with the unsupported-type error |
| Marshal.WriteFieldsAppend | protocol/serialization.go:99-106 | writing fields `a + b` writes `a`, then `b`, unless `a` failed |
| Marshal.ReadLayout | protocol/serialization.go:18-113 | the layout of an encodable value (every int32 VarInt and int64 VarLong included, a negative one in its two's-complement pattern) reads back as that value, into any target of the same type |
| Marshal.ReadFieldsLayout | protocol/serialization.go:53-65 | the same for a sequence of struct fields |
| Marshal.ReadInt64Layout | protocol/serialization.go:29-33 | the 8 bytes of an int64 read back as the same int64 |
| Marshal.ReadUInt16Layout | protocol/serialization.go:41-45 | the 2 bytes of a uint16 read back as the same uint16 |
| Marshal.ReadStringLayout | protocol/serialization.go:20-28 | a length-prefixed string reads back as itself, with the prefix size as count |
| Packets.PongPacket.GetId | protocol/packets.go:41-43 | a pong is sent with id 1, the id a ping is read with |
| Packets.HandshakeOf | protocol/packets.go:26-31 | a value of the handshake's shape is the struct of the HandshakePacket it returns |
| Packets.HandshakeShape | protocol/packets.go:26-31 | a value Read fills in from a new HandshakePacket has its four fields' types |
| Packets.ParseSpec | protocol/packets.go:106-131 | a handshake, or the panic, comes only from id 0 with a non-empty payload; a ping only from id 1; any other id gives nil |
| Packets.ParseRawPacket | protocol/packets.go:106-131 | the method returns what `ParseSpec` says |
| Packets.HandshakeRoundTrip | protocol/packets.go:106-119 | a handshake's bytes, whatever follows them, parse back to the same handshake, for every int32 protocol version and next state (-1 included, in its five-byte pattern) |
| Packets.HandshakeTruncated | protocol/packets.go:113-118 | a handshake payload that stops before NextState hits io.EOF and parses to nil |
| Packets.PingAlwaysParses | protocol/packets.go:120-127 | any id-1 payload parses to a ping whose int64 is read from the first eight bytes, zero-filled |
| Packets.PingRoundTrip | protocol/packets.go:120-127 | a ping's eight bytes parse back to the same ping |
| Packets.ReadRawSpec | protocol/packets.go:83-104 | a failed length or id read gives the zero packet and the error; otherwise the id is an int32 and the payload is the bytes just before where the reader stops |
| Packets.ReadRawPacket | protocol/packets.go:83-104 | the method returns what `ReadRawSpec` says and leaves the reader there |
| Packets.ReadFrame | protocol/packets.go:83-104 | for every int32 length and id, after the two header VarInts the payload is the first min(`int32(length - k)`, available) bytes, and none when that int32 difference is not positive |
| Packets.ReadFrameWraps | protocol/packets.go:93-101 | the frame `80 80 80 80 08 01 AA BB` (length -2^31, id 1) reads as id 1 with payload `AA BB`: `int32(-2^31 - 1)` wraps to 2^31 - 1 |
| Packets.ReadRawRoundTrip | protocol/packets.go:83-104 | a frame whose length counts the id and the payload reads back as that id and payload, and stops at the frame's end |
| Packets.ReadRawShort | protocol/packets.go:95-101 | a frame whose length promises more bytes than the stream holds gives the bytes that are there, with no error |
| Packets.ReadRawEOF | protocol/packets.go:84-92 | a stream that ends before the length, or right after it, gives the zero packet and io.EOF |
| Packets.CopyBuffer | protocol/packets.go:79 | `io.Copy` from the scratch buffer is one write of its bytes, and none when it is empty |
| Packets.WritePacketSpec | protocol/packets.go:68-81 | WritePacket only appends to the writer, and the only error it returns is the writer's: a field's "not supported" error is dropped |
| Packets.WritePacket | protocol/packets.go:68-81 | the method changes the writer and returns what `WritePacketSpec` says |
| Packets.WritePacketBytes | protocol/packets.go:68-81 | on a writer that takes everything, WritePacket sends the fields, then VarInt(size of the encoded id), then the encoded id, and returns no error |
| Packets.WritePacketFits | protocol/packets.go:68-81 | on a writer with a budget, WritePacket returns no error exactly when all of its bytes fit |
| Packets.WritePacketDropsFieldError | protocol/packets.go:74-77 | a field error, such as a uint16 field, is only logged: WritePacket still returns no error |
| Packets.PongBytes | protocol/packets.go:68-81 | a pong is sent as its eight payload bytes followed by 1, 1 |
| Packets.WritePacketPongUnreadable | protocol/packets.go:68-81 | the bytes sent for PongPacket{42} read back as an empty id-0 frame and parse to nil |
| Packets.WriteFrameSpec | protocol/packets.go:68-81 | the corrected writer only appends, returns only the writer's error, and succeeds exactly when the length prefix, the id and the fields all fit |
| Packets.WriteFrame | protocol/packets.go:68-81 | the corrected writer changes the writer and returns what `WriteFrameSpec` says |
| Packets.WriteFrameBytes | protocol/packets.go:68-81 | the corrected writer sends VarInt(size of id and fields), then the id, then the fields |
| Packets.WriteFrameRoundTrip | protocol/packets.go:68-104 | what the corrected writer sends reads back through ReadRawPacket as the same id and field bytes |
| Packets.WriteFramePong | protocol/packets.go:41-43 | a pong sent by the corrected writer reaches ParseRawPacket as the ping with the same payload |

## Findings

| source | as written | input that shows it | evidently intended | confidence | as-written member | corrected member |
|---|---|---|---|---|---|---|
| protocol/packets.go:68-81 | WritePacket sends the fields first, then VarInt(size of the encoded id), then the id. The frame's length prefix counts only the id, and the id comes after the payload. | `PongPacket{42}` is sent as `00 00 00 00 00 00 00 2A 01 01`. ReadRawPacket reads length 0 and id 0, then a payload of no bytes. ParseRawPacket turns that into nil. | VarInt(size of the id and the fields), then the id, then the fields. This is the frame ReadRawPacket reads, and the layout `main.go` builds by hand for its replies. | not executed | Packets.WritePacketPongUnreadable | Packets.WriteFrameRoundTrip |

`Packets.WriteFrame` and `Packets.WriteFramePong` complete the corrected
half. `Packets.WriteFramePong` shows that a pong sent this way parses to
the ping with the same payload.

## Left out

- `main.go` is not part of this model. It holds the TCP listener, the per-connection loop and the hand-built status and pong replies.
- `ExampleJson`, `StatusResponse` and the `Packet` interface are not modelled. They carry no behaviour. `WritePacket` takes the id and the field values directly.
- Error texts, `errors.Wrap` and logging are not modelled. Errors are the kinds in `Streams.Error`, and a logged error is dropped.
- Reflection over arbitrary Go types is not modelled. The value kinds are the ones the type switches name, plus structs. A Read target of any other kind is not representable, so the "not supported for reading" error is not modelled.
- `make([]byte, n)` with a negative string length panics in Go. The model reports this as the error `NegativeLenPanic`, and `ParseSpec` maps it to `Panicked`.
- Readers are in-memory byte sequences with `bytes.Reader` semantics. A `net.Conn` can return fewer bytes than are available; that case is not modelled.
- Writers are append-only sequences with a byte budget. Concurrency and timeouts are not modelled.
- Marshal.Write: requires every VarInt and VarLong to be non-negative. On a negative number `number >>= 7` never reaches 0, so `writeVarNumber` keeps writing bytes: it never returns on a writer that takes everything, and on a writer with a budget it returns the count and the error once a one-byte write fails. That error path for negative numbers is not modelled, nor is `WritePacket` logging it.
- Packets.WritePacket: requires `int32(id)` to be non-negative for the same reason.
- Packets.WriteFrame: also requires a supported body (no uint16 field). The corrected writer encodes the fields into the scratch buffer before the length is known.
- The frame reader follows the code, not the intent. A payload shorter than the declared length is returned silently truncated, not as an error, because `io.CopyN`'s error is dropped. A stream that ends right after the header is not a distinct error either.
- The field reader follows the code, not the intent. An int64, uint16 or string read that hits the end of the data is zero-padded and reports no error, because the `r.Read` error is ignored.
- A uint16 field is reported as unsupported by Write, as in the code. So a `HandshakePacket` cannot be written, and only the read direction of handshakes is modelled.
- Packets.HandshakeRoundTrip: states the round trip for handshakes built from bytes laid out as the reader expects (`Layout`), not for bytes produced by `Write`, which cannot write the uint16 port.
