/** The message frame: `u32 topic_len | topic (UTF-8) | u32 data_len | data`. */
module MessageCodec {
  import opened Bytes
  import opened Utf8
  import opened Errors
  import opened Streams
  import opened Frames

  /** A published message: a topic and an opaque payload. `Message::new` is
      the constructor. */
  datatype Message = Message(topic: Utf8String, data: seq<byte>)

  /** Both lengths fit in the `u32` headers, so the casts lose nothing. */
  predicate WellSized(m: Message) {
    |m.topic| < U32_LIMIT && |m.data| < U32_LIMIT
  }

  /** The bytes `write` emits for `m`. */
  function Encode(m: Message): (e: seq<byte>)
    ensures |e| == 8 + |m.topic| + |m.data|
  {
    EncodeField(m.topic) + EncodeField(m.data)
  }

  /** The exact byte layout of a well-sized frame: the topic length, the
      topic, the data length and the data, lengths in big-endian order. */
  lemma Layout(m: Message)
    requires WellSized(m)
    ensures Encode(m) == BeU32(|m.topic|) + m.topic + BeU32(|m.data|) + m.data
  {
    assert AsU32(|m.topic|) == |m.topic| && AsU32(|m.data|) == |m.data|;
  }

  /** What `read` does to the unread bytes `s`: the topic field (checked as
      UTF-8 before anything else is read), then the data field. */
  function Decode(s: seq<byte>): (st: Step<Message>)
    ensures st.consumed <= |s|
  {
    var topic := DecodeText(s);
    if topic.result.Err? then Step(Err(topic.result.error), topic.consumed)
    else
      var data := DecodeField(s[topic.consumed..]);
      if data.result.Err? then Step(Err(data.result.error), topic.consumed + data.consumed)
      else Step(Ok(Message(topic.result.value, data.result.value)), topic.consumed + data.consumed)
  }

  /** `Message::read`: reads one frame from `reader`, stopping at the first
      failure; on success the reader is left just past the frame. */
  method Read(reader: Reader) returns (r: Result<Message>)
    requires reader.Valid()
    modifies reader
    ensures reader.Valid()
    ensures var st := Decode(old(reader.Remaining()));
            r == st.result && reader.pos == old(reader.pos) + st.consumed
  {
    ghost var s := reader.Remaining();
    ghost var start := reader.pos;
    var topic :- ReadText(reader);
    assert reader.Remaining() == s[reader.pos - start..];
    var data :- ReadField(reader);
    return Ok(Message(topic, data));
  }

  /** `Message::write`: appends the frame for `m` to `writer`. */
  method Write(m: Message, writer: Writer)
    modifies writer
    ensures writer.written == old(writer.written) + Encode(m)
  {
    WriteField(m.topic, writer);
    WriteField(m.data, writer);
  }

  /** Round trip: reading what `write` produced gives back the same topic and
      the same data, consuming exactly the frame and leaving what follows. */
  lemma RoundTrip(m: Message, rest: seq<byte>)
    requires WellSized(m)
    ensures Decode(Encode(m) + rest) == Step(Ok(m), |Encode(m)|)
  {
    var s := Encode(m) + rest;
    assert s == EncodeField(m.topic) + (EncodeField(m.data) + rest);
    DecodeTextRoundTrip(m.topic, EncodeField(m.data) + rest);
    assert s[4 + |m.topic|..] == EncodeField(m.data) + rest;
    DecodeFieldRoundTrip(m.data, rest);
  }

  /** Frames can be read back to back from one stream: after the first frame
      is read, the rest of the stream starts with the second. */
  lemma BackToBack(m1: Message, m2: Message, rest: seq<byte>)
    requires WellSized(m1) && WellSized(m2)
    ensures var s := Encode(m1) + Encode(m2) + rest;
            var first := Decode(s);
            && first == Step(Ok(m1), |Encode(m1)|)
            && Decode(s[first.consumed..]) == Step(Ok(m2), |Encode(m2)|)
  {
    var s := Encode(m1) + Encode(m2) + rest;
    assert s == Encode(m1) + (Encode(m2) + rest);
    RoundTrip(m1, Encode(m2) + rest);
    assert s[|Encode(m1)|..] == Encode(m2) + rest;
    RoundTrip(m2, rest);
  }

  /** The converse of the round trip: a frame that reads successfully is
      exactly the encoding of the message read, and that message is well
      sized. */
  lemma Reencodes(s: seq<byte>)
    requires Decode(s).result.Ok?
    ensures WellSized(Decode(s).result.value)
    ensures Encode(Decode(s).result.value) == s[..Decode(s).consumed]
  {
    var topic := DecodeText(s);
    DecodeTextReencodes(s);
    var tail := s[topic.consumed..];
    DecodeFieldReencodes(tail);
    var data := DecodeField(tail);
    assert s[..topic.consumed + data.consumed] == s[..topic.consumed] + tail[..data.consumed];
  }

  /** `read` succeeds exactly when the stream starts with a complete frame of
      some well-sized message. */
  lemma DecodeOkIffFramed(s: seq<byte>)
    ensures Decode(s).result.Ok? <==> exists m: Message :: WellSized(m) && Encode(m) <= s
  {
    if Decode(s).result.Ok? {
      Reencodes(s);
      var m := Decode(s).result.value;
      assert WellSized(m) && Encode(m) <= s;
    }
    if m: Message :| WellSized(m) && Encode(m) <= s {
      assert s == Encode(m) + s[|Encode(m)|..];
      RoundTrip(m, s[|Encode(m)|..]);
    }
  }

  /** A stream that ends before the frame does fails with an I/O error and
      yields no message, wherever it is cut: inside either length or either
      body. If the topic bytes are all present they must be valid UTF-8,
      otherwise the `FromUtf8` check fires first. */
  lemma Truncated(topic: seq<byte>, data: seq<byte>, k: nat)
    requires |topic| < U32_LIMIT && |data| < U32_LIMIT
    requires k < 8 + |topic| + |data|
    requires k < 4 + |topic| || ValidUtf8(topic)
    ensures Decode((EncodeField(topic) + EncodeField(data))[..k]) == Step(Err(Io), k)
  {
    if k < 4 + |topic| {
      TruncatedInTopic(topic, data, k);
    } else {
      TruncatedInData(topic, data, k);
    }
  }

  /** The case of `Truncated` where the cut falls inside the topic field. */
  lemma TruncatedInTopic(topic: seq<byte>, data: seq<byte>, k: nat)
    requires |topic| < U32_LIMIT && k < 4 + |topic|
    ensures Decode((EncodeField(topic) + EncodeField(data))[..k]) == Step(Err(Io), k)
  {
    var head, tail := EncodeField(topic), EncodeField(data);
    assert (head + tail)[..k] == head[..k];
    DecodeTextTruncated(topic, k);
    TopicFails(head[..k]);
  }

  /** The case of `Truncated` where the topic is whole and the cut falls
      inside the data field. */
  lemma TruncatedInData(topic: Utf8String, data: seq<byte>, k: nat)
    requires |topic| < U32_LIMIT && |data| < U32_LIMIT
    requires 4 + |topic| <= k < 8 + |topic| + |data|
    ensures Decode((EncodeField(topic) + EncodeField(data))[..k]) == Step(Err(Io), k)
  {
    var head, tail := EncodeField(topic), EncodeField(data);
    var cut := tail[..k - |head|];
    assert (head + tail)[..k] == head + cut;
    DecodeTextRoundTrip(topic, cut);
    DecodeFieldTruncated(data, k - |head|);
    assert (head + cut)[|head|..] == cut;
    DataFails(head + cut, |head|);
  }

  /** A failed topic read ends the frame read with the same outcome. */
  lemma TopicFails(s: seq<byte>)
    requires DecodeText(s).result.Err?
    ensures Decode(s) == Step(Err(DecodeText(s).result.error), DecodeText(s).consumed)
  {
  }

  /** A topic that reads, followed by a data field that does not, ends the
      frame read with an I/O error that takes the rest of the stream. */
  lemma DataFails(s: seq<byte>, n: nat)
    requires n <= |s|
    requires DecodeText(s).result.Ok? && DecodeText(s).consumed == n
    requires DecodeField(s[n..]) == Step(Err(Io), |s| - n)
    ensures Decode(s) == Step(Err(Io), |s|)
  {
  }

  /** Topic bytes that are not valid UTF-8 fail with `FromUtf8` right after
      the topic, before the data length is read: the outcome is the same
      whatever follows, even nothing at all. */
  lemma InvalidTopic(topic: seq<byte>, rest: seq<byte>)
    requires |topic| < U32_LIMIT && !ValidUtf8(topic)
    ensures Decode(EncodeField(topic) + rest) == Step(Err(FromUtf8), 4 + |topic|)
  {
    DecodeTextRejectsInvalid(topic, rest);
  }

  /** The `as u32` cast: a topic of 2^32 bytes or more is written with a
      length header that is too small, so reading the frame back never gives
      the message that was written. */
  lemma OversizedTopicDoesNotRoundTrip(m: Message, rest: seq<byte>)
    requires |m.topic| >= U32_LIMIT
    ensures Decode(Encode(m) + rest).result != Ok(m)
  {
    var s := Encode(m) + rest;
    var topic := DecodeText(s);
    if topic.result.Ok? {
      assert s[..4] == BeU32(AsU32(|m.topic|));
      assert |topic.result.value| == AsU32(|m.topic|) < |m.topic|;
    }
  }
}
