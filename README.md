# Pub/sub wire codec

This project models the binary wire format of the publish/subscribe broker.
Two frame types travel over its TCP streams:

- a **message** is `u32 topic_len | topic | u32 data_len | data`;
- a **subscription request** is `u32 topic_count`, followed by `topic_count`
  copies of `u32 topic_len | topic`.

Every `u32` is big-endian. Topics are Rust `String`s, so they must be valid
UTF-8. Message data is opaque bytes.

## How the model is organised

- `bytes.dfy` (`Bytes`): the byte type and big-endian `u32` encoding and
  decoding (`byteorder`'s `read_u32`/`write_u32`). It also defines `AsU32`,
  which models Rust's `len() as u32` cast: it keeps the low 32 bits.
- `utf8.dfy` (`Utf8`): well-formed UTF-8 as the syntax in section 4 of
  RFC 3629 defines it. This is the check `String::from_utf8` performs.
  `Utf8String` is the type of a Rust `String`'s bytes.
- `errors.dfy` (`Errors`): the codec's error cases and `Result`.
  - `Io` is an unexpected end of stream.
  - `FromUtf8` is an invalid topic.
  - `Result` is failure-compatible, so Dafny's `:-` stands for Rust's `?`.
- `streams.dfy` (`Streams`): the two streams.
  - `Reader` is a class. Its constant `data` is everything the peer sends
    before end of stream; `pos` is its cursor.
  - `Reader.ReadU32` models `read_u32`.
  - `Reader.ReadExact` models `read_exact`. It fills a caller-allocated
    `array<byte>` in place, like the `vec![0; n]` buffer of the source.
  - `Writer` is a class whose `written` sequence grows with `WriteU32` and
    `WriteAll`.
  - The pure functions `TakeU32` and `TakeExact` specify what one read does.
    A `Step` pairs a read's result with the number of bytes it took.
- `frames.dfy` (`Frames`): the length-prefixed field that both frames are
  built from, and the topic, which is a field checked as UTF-8.
  - The methods `ReadField`, `ReadText` and `WriteField` are the statement
    sequences that `read` and `write` repeat for each field. The source
    writes these sequences inline; here they are factored out.
- `message.dfy` (`MessageCodec`) and `subscription_request.dfy`
  (`SubscriptionRequestCodec`): the two frames.
  - `Message::new` and `SubscriptionRequest::new` only build the struct, so
    they are the datatype constructors.
  - `read` and `write` are methods over `Reader`/`Writer`. Each is proved
    equal to a pure specification: `Decode` for reads, `Encode` for writes.
  - The round trip and the other properties are lemmas about those
    specifications.
  - The request's `read` keeps its `for` loop. The loop invariant says the
    rest of the loop will do exactly what `DecodeTopics` says the whole loop
    does from that cursor, given the topics collected so far.

The properties proved:

- **Round trip.** `read` returns what `write` wrote.
- **Exact consumption.** `read` takes exactly the frame, so frames can be read
  back to back from one stream.
- **Converse of the round trip.** A frame that reads successfully is exactly
  the encoding of what was read, and that value fits its length headers.
- **When `read` succeeds.** It succeeds exactly when the stream starts with a
  complete frame of some well-sized value.
- **Byte layout and encoded length.**
- **Truncation.** A stream that ends anywhere inside a frame fails with `Io`.
  For a request this holds whatever the bytes of the cut topic are, valid
  UTF-8 or not: the stream ends before the topic's bytes can be checked.
- **Invalid topics.** The first topic that is not valid UTF-8 fails with
  `FromUtf8`, right after its bytes, before anything else is read.
- **Empty request.** A topic count of 0 reads as an empty request after
  exactly four bytes.
- **Topic list.** Order and duplicates are preserved.
- **Oversized topics.** A topic whose length does not fit in a `u32` is
  written with a truncated length header and never reads back
  (`OversizedTopicDoesNotRoundTrip`).

When `read` hits the end of the stream part-way (an `Io` failure), the reader
is left at the end of the stream. The standard library leaves the cursor
unspecified after a short `read_exact`. The model picks "everything left was
consumed", which is what a blocking stream at end of file does. A `FromUtf8`
failure happens after a topic was read in full, so the reader is left just
past that topic's bytes.

## Model

| member | source | states |
|---|---|---|
| `Bytes.AsU32` | src/message.rs:37 | the `as u32` cast yields a value below 2^32, and keeps any length below 2^32 unchanged |
| `Bytes.BeU32Value` | src/message.rs:20 | the value of four big-endian bytes is a `u32` (below 2^32) |
| `Bytes.BeU32` | src/message.rs:37 | the big-endian header of a `u32` is four bytes that read back as the same value |
| `Bytes.BeU32Bytes` | src/message.rs:37 | the header bytes are bits 31-24, 23-16, 15-8 and 7-0 of the value, most significant first |
| `Bytes.BeU32OfValue` | src/message.rs:20 | every four-byte header is the encoding of the value read from it, so the header encoding is a bijection |
| `Utf8.LeadingCharWidth` | src/message.rs:24 | a character takes at most four bytes and at most what is left; an ASCII byte is a one-byte character; the bytes after a multi-byte lead are continuation bytes |
| `Utf8.AsciiIsValid` | src/message.rs:24 | pure ASCII topics pass `String::from_utf8` |
| `Utf8.ValidUtf8` | src/message.rs:24 | the RFC 3629 well-formedness that `String::from_utf8` checks on every topic (also at src/subscription_request.rs line 32); a valid sequence never starts with a continuation byte, so such a topic is refused whatever follows |
| `Streams.TakeU32` | src/message.rs:20 | `read_u32` succeeds iff four bytes remain; it then takes exactly four and yields their big-endian value; otherwise it fails with `Io` |
| `Streams.TakeExact` | src/message.rs:23 | `read_exact` of `n` bytes succeeds iff `n` bytes remain; it then yields exactly the next `n`; otherwise it fails with `Io` |
| `Streams.Reader.ReadU32` | src/message.rs:20 | the method's result and its cursor movement are those of `TakeU32` on the unread bytes |
| `Streams.Reader.ReadExact` | src/message.rs:22-23 | fills the buffer with the next bytes, moves the cursor as `TakeExact` says, and fails with `Io` on a short read |
| `Streams.Writer.WriteU32` | src/message.rs:37 | appends the four big-endian bytes of the value |
| `Streams.Writer.WriteAll` | src/message.rs:38 | appends the bytes verbatim |
| `Frames.EncodeField` | src/message.rs:37-38 | a field is four bytes longer than its body |
| `Frames.DecodeField` | src/message.rs:27-30 | a field read takes exactly the header plus the body it yields (a body below 2^32 bytes); a failed read is `Io` and takes all that was left |
| `Frames.DecodeText` | src/message.rs:20-24 | a topic read never takes more than the stream holds |
| `Frames.ReadField` | src/message.rs:27-30 | the method's result and cursor movement are those of `DecodeField` |
| `Frames.ReadText` | src/message.rs:20-24 | the method's result and cursor movement are those of `DecodeText` |
| `Frames.WriteField` | src/message.rs:37-38 | appends exactly `EncodeField` of the bytes |
| `Frames.DecodeFieldRoundTrip` | src/message.rs:27-30 | a field whose body is below 2^32 bytes reads back as that body, taking exactly the field and leaving the rest |
| `Frames.DecodeFieldReencodes` | src/message.rs:27-30 | a field that reads successfully is the encoding of the body read |
| `Frames.DecodeFieldTruncated` | src/message.rs:27-30 | every proper prefix of a field fails with `Io`, taking all it was given |
| `Frames.DecodeTextRoundTrip` | src/message.rs:20-24 | a valid topic below 2^32 bytes reads back unchanged |
| `Frames.DecodeTextRejectsInvalid` | src/message.rs:24 | invalid topic bytes fail with `FromUtf8` after exactly the field, whatever follows |
| `Frames.DecodeTextTruncated` | src/message.rs:20-23 | every proper prefix of a topic field fails with `Io`, even when its bytes are not valid UTF-8 |
| `Frames.DecodeTextReencodes` | src/message.rs:20-24 | a topic that reads successfully is the encoding of the topic read |
| `MessageCodec.Encode` | src/message.rs:35-45 | the frame is `8 + len(topic) + len(data)` bytes long |
| `MessageCodec.Layout` | src/message.rs:35-45 | the frame is topic length, topic, data length, data, with lengths in big-endian order |
| `MessageCodec.Decode` | src/message.rs:18-33 | a message read never takes more than the stream holds |
| `MessageCodec.Read` | src/message.rs:18-33 | the method's result and cursor movement are those of `Decode` on the unread bytes |
| `MessageCodec.Write` | src/message.rs:35-45 | appends exactly `Encode(m)` to the stream |
| `MessageCodec.RoundTrip` | src/message.rs:18-45 | reading what `write` produced gives back the same topic and data, taking exactly the frame and leaving the rest |
| `MessageCodec.BackToBack` | src/message.rs:18-33 | two frames written one after the other read back one after the other |
| `MessageCodec.Reencodes` | src/message.rs:18-33 | a frame that reads successfully is well sized and is exactly the encoding of the message read |
| `MessageCodec.DecodeOkIffFramed` | src/message.rs:18-33 | `read` succeeds iff the stream starts with the frame of some well-sized message |
| `MessageCodec.Truncated` | src/message.rs:18-33 | a stream cut anywhere inside a frame fails with `Io`, taking all it was given (once the topic is complete it must be valid UTF-8, or `FromUtf8` fires first) |
| `MessageCodec.TruncatedInTopic` | src/message.rs:20-24 | a cut inside the topic field fails with `Io` |
| `MessageCodec.TruncatedInData` | src/message.rs:27-30 | a cut inside the data field, after a valid topic, fails with `Io` |
| `MessageCodec.TopicFails` | src/message.rs:20-24 | a failed topic read ends the message read with the same error and consumption |
| `MessageCodec.DataFails` | src/message.rs:27-30 | a valid topic followed by a short data field ends the read with `Io` at the end of the stream |
| `MessageCodec.InvalidTopic` | src/message.rs:24 | an invalid topic fails with `FromUtf8` right after the topic, before the data length is read, whatever follows |
| `MessageCodec.OversizedTopicDoesNotRoundTrip` | src/message.rs:37 | a topic of 2^32 bytes or more never reads back as the message written |
| `SubscriptionRequestCodec.EncodeTopics` | src/subscription_request.rs:43-46 | the topic fields take `sum(4 + len(topic))` bytes |
| `SubscriptionRequestCodec.Encode` | src/subscription_request.rs:38-49 | the request frame is `4 + sum(4 + len(topic))` bytes long |
| `SubscriptionRequestCodec.DecodeTopics` | src/subscription_request.rs:23-33 | the topic loop ends with its cursor between its start and the end of the stream; on success it holds the topics already collected followed by exactly `left` more |
| `SubscriptionRequestCodec.DecodeNextTopic` | src/subscription_request.rs:24-32 | one turn of the loop keeps the cursor between its start and the end of the stream |
| `SubscriptionRequestCodec.Decode` | src/subscription_request.rs:17-36 | a request read never takes more than the stream holds |
| `SubscriptionRequestCodec.Read` | src/subscription_request.rs:17-36 | the method's result and cursor movement are those of `Decode`; loop invariant: after `k` turns the remaining loop is `DecodeTopics` from the cursor with the `k` topics collected |
| `SubscriptionRequestCodec.EncodeTopicsAppend` | src/subscription_request.rs:43-46 | writing one more topic appends its field |
| `SubscriptionRequestCodec.Write` | src/subscription_request.rs:38-49 | appends exactly `Encode(r)` to the stream |
| `SubscriptionRequestCodec.TopicStep` | src/subscription_request.rs:24-32 | a valid topic field is collected and the cursor moves past it |
| `SubscriptionRequestCodec.InvalidTopicStep` | src/subscription_request.rs:32 | an invalid topic field ends the loop with `FromUtf8` just past it |
| `SubscriptionRequestCodec.DecodeTopicsRoundTrip` | src/subscription_request.rs:23-33 | the loop over the fields of `ts` collects exactly `ts`, in order and with duplicates, and stops just past them |
| `SubscriptionRequestCodec.RoundTrip` | src/subscription_request.rs:17-49 | reading what `write` produced gives back the same topic list, taking exactly the frame and leaving the rest |
| `SubscriptionRequestCodec.EmptyRequest` | src/subscription_request.rs:19-23 | a count of 0 reads as the empty request after exactly four bytes |
| `SubscriptionRequestCodec.ReencodeStep` | src/subscription_request.rs:24-32 | a successful turn of the loop reads a topic whose field is exactly the bytes it took |
| `SubscriptionRequestCodec.DecodeTopicsReencodes` | src/subscription_request.rs:23-33 | topics collected by a successful loop fit in `u32` lengths, and their fields are exactly the bytes the loop took |
| `SubscriptionRequestCodec.Reencodes` | src/subscription_request.rs:17-36 | a request that reads successfully is well sized and is exactly the encoding of the request read |
| `SubscriptionRequestCodec.DecodeOkIffFramed` | src/subscription_request.rs:17-36 | `read` succeeds iff the stream starts with the frame of some well-sized request |
| `SubscriptionRequestCodec.DecodeTopicsTruncated` | src/subscription_request.rs:23-33 | a stream that ends inside a topic field, after complete valid topics and before the loop is done, fails with `Io` at the end of the stream, whatever the cut topic's bytes are |
| `SubscriptionRequestCodec.TruncatedInTopic` | src/subscription_request.rs:17-36 | a request stream with count `n` that ends inside topic `i < n`, after `i` complete valid topics, fails with `Io` taking all it was given, whether or not the cut topic's bytes are valid UTF-8 |
| `SubscriptionRequestCodec.LocateCut` | src/subscription_request.rs:43-46 | every proper prefix of the topic fields is some complete fields followed by a proper prefix of the next field |
| `SubscriptionRequestCodec.Truncated` | src/subscription_request.rs:17-36 | a request frame cut anywhere (count, a length or a topic) fails with `Io`, taking all it was given |
| `SubscriptionRequestCodec.DecodeTopicsFirstInvalid` | src/subscription_request.rs:32 | the first invalid topic ends the loop with `FromUtf8` just past its field |
| `SubscriptionRequestCodec.LaterInvalid` | src/subscription_request.rs:23-32 | valid topics before the first invalid one are read over, then the invalid one fails |
| `SubscriptionRequestCodec.InvalidTopic` | src/subscription_request.rs:32 | a request whose first invalid topic is number `i` fails with `FromUtf8` right after that topic, whatever follows |

## Left out

- The broker is not part of this model: its handlers, listeners, threads,
  channels and TCP sockets. So is the `ChannelReceive` error, which only
  channel plumbing raises.
- Streams.Writer.WriteU32: always succeeds. Errors the transport reports on
  `write_u32`/`write_all` are not modelled.
- Streams.Writer.WriteAll: always succeeds, for the same reason.
- Streams.Reader.ReadExact: models a stream as the finite sequence of bytes
  sent before end of stream. Blocking, interrupted reads and transport
  errors other than end of stream are not modelled.
- `Vec::with_capacity` in the request's `read`: it only reserves memory, so
  it is not modelled. Allocation failure for huge declared lengths is not
  modelled either.
- Lengths of 2^32 bytes or more: the round-trip lemmas require lengths below
  2^32. The truncating cast itself is modelled (`AsU32`), and
  `OversizedTopicDoesNotRoundTrip` shows what it does to an oversized topic.
- `Debug` formatting and error messages are not modelled.
