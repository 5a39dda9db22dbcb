/** The length-prefixed field that both frame formats are built from: a
    `u32` big-endian byte count followed by that many bytes. A topic is such a
    field whose bytes must be valid UTF-8; a message's data is one whose bytes
    are taken verbatim. */
module Frames {
  import opened Bytes
  import opened Utf8
  import opened Errors
  import opened Streams

  /** The field holding `b`: `write_u32(b.len() as u32)` then `write_all(b)`.
      The cast keeps only the low 32 bits of the length. */
  function EncodeField(b: seq<byte>): (e: seq<byte>)
    ensures |e| == 4 + |b|
  {
    BeU32(AsU32(|b|)) + b
  }

  /** Reads one field of raw bytes: the length, then exactly that many bytes. */
  function DecodeField(s: seq<byte>): (st: Step<seq<byte>>)
    ensures st.consumed <= |s|
    ensures st.result.Ok? ==> st.consumed == 4 + |st.result.value| && |st.result.value| < U32_LIMIT
    ensures st.result.Err? ==> st == Step(Err(Io), |s|)
  {
    var size := TakeU32(s);
    if size.result.Err? then Step(Err(size.result.error), size.consumed)
    else
      var body := TakeExact(s[size.consumed..], size.result.value);
      Step(body.result, size.consumed + body.consumed)
  }

  /** Reads one topic: a field whose bytes are then checked as UTF-8. A topic
      that is not valid UTF-8 fails with `FromUtf8` after its bytes were read. */
  function DecodeText(s: seq<byte>): (st: Step<Utf8String>)
    ensures st.consumed <= |s|
  {
    var field := DecodeField(s);
    if field.result.Err? then Step(Err(field.result.error), field.consumed)
    else if !ValidUtf8(field.result.value) then Step(Err(FromUtf8), field.consumed)
    else Step(Ok(field.result.value), field.consumed)
  }

  /** The statements `read` runs for one field: `read_u32`, a zeroed buffer of
      that many bytes, then `read_exact` into it. */
  method ReadField(reader: Reader) returns (r: Result<seq<byte>>)
    requires reader.Valid()
    modifies reader
    ensures reader.Valid()
    ensures var st := DecodeField(old(reader.Remaining()));
            r == st.result && reader.pos == old(reader.pos) + st.consumed
  {
    ghost var s := reader.Remaining();
    var size :- reader.ReadU32();
    assert reader.Remaining() == s[4..];
    var buf := new byte[size];
    :- reader.ReadExact(buf);
    assert buf[..] == s[4..][..size];
    return Ok(buf[..]);
  }

  /** The statements `read` runs for one topic: a field, then
      `String::from_utf8` on its bytes. */
  method ReadText(reader: Reader) returns (r: Result<Utf8String>)
    requires reader.Valid()
    modifies reader
    ensures reader.Valid()
    ensures var st := DecodeText(old(reader.Remaining()));
            r == st.result && reader.pos == old(reader.pos) + st.consumed
  {
    var field := ReadField(reader);
    if field.Err? {
      return Err(field.error);
    }
    if !ValidUtf8(field.value) {
      return Err(FromUtf8);
    }
    return Ok(field.value);
  }

  /** The statements `write` runs for one field: `write_u32` of the length
      cast to `u32`, then `write_all` of the bytes. */
  method WriteField(b: seq<byte>, writer: Writer)
    modifies writer
    ensures writer.written == old(writer.written) + EncodeField(b)
  {
    writer.WriteU32(AsU32(|b|));
    writer.WriteAll(b);
  }

  /** A field whose length fits in a `u32` reads back as exactly its bytes,
      and whatever follows it is left unread. */
  lemma DecodeFieldRoundTrip(b: seq<byte>, rest: seq<byte>)
    requires |b| < U32_LIMIT
    ensures DecodeField(EncodeField(b) + rest) == Step(Ok(b), 4 + |b|)
  {
    var s := EncodeField(b) + rest;
    assert AsU32(|b|) == |b|;
    assert s[..4] == BeU32(|b|);
    var size := TakeU32(s);
    assert size == Step(Ok(|b|), 4);
    assert s[4..] == b + rest;
    assert s[4..][..|b|] == b;
  }

  /** A field that reads successfully is exactly the encoding of what it
      yields: decoding, then encoding, gives back the bytes consumed. */
  lemma DecodeFieldReencodes(s: seq<byte>)
    requires DecodeField(s).result.Ok?
    ensures EncodeField(DecodeField(s).result.value) == s[..DecodeField(s).consumed]
  {
    var st := DecodeField(s);
    var b := st.result.value;
    BeU32OfValue(s[..4]);
    assert BeU32(|b|) == s[..4];
    assert s[..st.consumed] == s[..4] + b;
  }

  /** Every proper prefix of a field fails with an I/O error and uses up the
      whole of what it was given. */
  lemma DecodeFieldTruncated(b: seq<byte>, k: nat)
    requires |b| < U32_LIMIT && k < 4 + |b|
    ensures DecodeField(EncodeField(b)[..k]) == Step(Err(Io), k)
  {
    var s := EncodeField(b)[..k];
    if k >= 4 {
      assert s[..4] == BeU32(|b|);
    }
  }

  /** A topic that is valid UTF-8 and fits in a `u32` reads back unchanged. */
  lemma DecodeTextRoundTrip(t: Utf8String, rest: seq<byte>)
    requires |t| < U32_LIMIT
    ensures DecodeText(EncodeField(t) + rest) == Step(Ok(t), 4 + |t|)
  {
    DecodeFieldRoundTrip(t, rest);
  }

  /** Topic bytes that are not valid UTF-8 fail with `FromUtf8` once they are
      read, whatever follows them in the stream. */
  lemma DecodeTextRejectsInvalid(b: seq<byte>, rest: seq<byte>)
    requires |b| < U32_LIMIT && !ValidUtf8(b)
    ensures DecodeText(EncodeField(b) + rest) == Step(Err(FromUtf8), 4 + |b|)
  {
    DecodeFieldRoundTrip(b, rest);
  }

  /** Every proper prefix of a topic field fails with an I/O error, even when
      the bytes present are not valid UTF-8: the length is checked first. */
  lemma DecodeTextTruncated(b: seq<byte>, k: nat)
    requires |b| < U32_LIMIT && k < 4 + |b|
    ensures DecodeText(EncodeField(b)[..k]) == Step(Err(Io), k)
  {
    DecodeFieldTruncated(b, k);
  }

  /** A topic that reads successfully is exactly the encoding of what it yields. */
  lemma DecodeTextReencodes(s: seq<byte>)
    requires DecodeText(s).result.Ok?
    ensures EncodeField(DecodeText(s).result.value) == s[..DecodeText(s).consumed]
  {
    DecodeFieldReencodes(s);
  }
}
