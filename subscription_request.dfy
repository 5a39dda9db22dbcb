/** The subscription request frame:
    `u32 topic_count | topic_count x (u32 topic_len | topic (UTF-8))`. */
module SubscriptionRequestCodec {
  import opened Bytes
  import opened Utf8
  import opened Errors
  import opened Streams
  import opened Frames

  /** The topics a subscriber asks for, in order; duplicates are kept.
      `SubscriptionRequest::new` is the constructor. */
  datatype SubscriptionRequest = SubscriptionRequest(topics: seq<Utf8String>)

  /** The count and every topic length fit in their `u32` headers. */
  predicate WellSized(r: SubscriptionRequest) {
    |r.topics| < U32_LIMIT && forall i :: 0 <= i < |r.topics| ==> |r.topics[i]| < U32_LIMIT
  }

  /** The number of bytes a list of topic fields takes: 4 + |t| per topic. */
  function TopicsWireSize(ts: seq<seq<byte>>): nat {
    if ts == [] then 0 else 4 + |ts[0]| + TopicsWireSize(ts[1..])
  }

  /** The topic fields, one after the other, in list order. */
  function EncodeTopics(ts: seq<seq<byte>>): (e: seq<byte>)
    ensures |e| == TopicsWireSize(ts)
  {
    if ts == [] then [] else EncodeField(ts[0]) + EncodeTopics(ts[1..])
  }

  /** The bytes `write` emits for `r`: the count, then each topic. */
  function Encode(r: SubscriptionRequest): (e: seq<byte>)
    ensures |e| == 4 + TopicsWireSize(r.topics)
  {
    BeU32(AsU32(|r.topics|)) + EncodeTopics(r.topics)
  }

  /** The topic loop of `read` on the stream `s`: with `read` topics already
      collected and the cursor at `pos`, reads `left` more topics, stopping at
      the first failure. The result's `consumed` is the final cursor. */
  function DecodeTopics(s: seq<byte>, pos: nat, left: nat, read: seq<Utf8String>): (st: Step<seq<Utf8String>>)
    requires pos <= |s|
    ensures pos <= st.consumed <= |s|
    ensures st.result.Ok? ==> |st.result.value| == |read| + left && st.result.value[..|read|] == read
    decreases left, 1
  {
    if left == 0 then Step(Ok(read), pos) else DecodeNextTopic(s, pos, left, read)
  }

  /** One turn of the topic loop, with `left > 0`: reads a topic, then
      continues with the others. */
  function DecodeNextTopic(s: seq<byte>, pos: nat, left: nat, read: seq<Utf8String>): (st: Step<seq<Utf8String>>)
    requires pos <= |s| && left > 0
    ensures pos <= st.consumed <= |s|
    decreases left, 0
  {
    var topic := DecodeText(s[pos..]);
    if topic.result.Err? then Step(Err(topic.result.error), pos + topic.consumed)
    else DecodeTopics(s, pos + topic.consumed, left - 1, read + [topic.result.value])
  }

  /** What `read` does to the unread bytes `s`: the count, then that many topics. */
  function Decode(s: seq<byte>): (st: Step<SubscriptionRequest>)
    ensures st.consumed <= |s|
  {
    var count := TakeU32(s);
    if count.result.Err? then Step(Err(count.result.error), count.consumed)
    else
      var topics := DecodeTopics(s, 4, count.result.value, []);
      Step(if topics.result.Ok? then Ok(SubscriptionRequest(topics.result.value))
           else Err(topics.result.error),
           topics.consumed)
  }

  /** `SubscriptionRequest::read`: reads the count, then loops that many
      times reading one topic each, stopping at the first failure. */
  method Read(reader: Reader) returns (r: Result<SubscriptionRequest>)
    requires reader.Valid()
    modifies reader
    ensures reader.Valid()
    ensures var st := Decode(old(reader.Remaining()));
            r == st.result && reader.pos == old(reader.pos) + st.consumed
  {
    ghost var s := reader.Remaining();
    ghost var start := reader.pos;

    var count :- reader.ReadU32();
    var topics: seq<Utf8String> := [];
    for k := 0 to count
      invariant reader.Valid() && start + 4 <= reader.pos
      invariant reader.Remaining() == s[reader.pos - start..]
      invariant |topics| == k
      invariant DecodeTopics(s, 4, count, []) == DecodeTopics(s, reader.pos - start, count - k, topics)
    {
      var topic :- ReadText(reader);
      topics := topics + [topic];
    }
    return Ok(SubscriptionRequest(topics));
  }

  /** Writing one more topic appends its field to the encoding. */
  lemma {:induction false} EncodeTopicsAppend(ts: seq<seq<byte>>, t: seq<byte>)
    ensures EncodeTopics(ts + [t]) == EncodeTopics(ts) + EncodeField(t)
  {
    if ts != [] {
      assert (ts + [t])[1..] == ts[1..] + [t];
      EncodeTopicsAppend(ts[1..], t);
    }
  }

  /** Writing topic `i` after the first `i` topics gives the encoding of the
      first `i + 1`. */
  lemma EncodePrefixStep(header: seq<byte>, ts: seq<seq<byte>>, i: nat)
    requires i < |ts|
    ensures header + EncodeTopics(ts[..i + 1]) == header + EncodeTopics(ts[..i]) + EncodeField(ts[i])
  {
    assert ts[..i + 1] == ts[..i] + [ts[i]];
    EncodeTopicsAppend(ts[..i], ts[i]);
  }

  /** `SubscriptionRequest::write`: appends the count, then loops over the
      topics appending each one's field. */
  method Write(r: SubscriptionRequest, writer: Writer)
    modifies writer
    ensures writer.written == old(writer.written) + Encode(r)
  {
    writer.WriteU32(AsU32(|r.topics|));
    ghost var header := writer.written;
    for i := 0 to |r.topics|
      invariant writer.written == header + EncodeTopics(r.topics[..i])
    {
      WriteField(r.topics[i], writer);
      EncodePrefixStep(header, r.topics, i);
    }
    assert r.topics[..|r.topics|] == r.topics;
    Regroup(old(writer.written), BeU32(AsU32(|r.topics|)), EncodeTopics(r.topics));
  }

  /** A non-empty topic list, and whatever follows it, starts with the field
      of its first topic. */
  lemma FirstField(ts: seq<seq<byte>>, rest: seq<byte>)
    requires ts != []
    ensures EncodeTopics(ts) + rest == EncodeField(ts[0]) + (EncodeTopics(ts[1..]) + rest)
  {
  }

  /** The fields of the first `j + 1` topics are the first topic's field
      followed by the fields of the next `j`. */
  lemma PrefixFields(ts: seq<seq<byte>>, j: nat)
    requires j < |ts|
    ensures EncodeTopics(ts[..j + 1]) == EncodeField(ts[0]) + EncodeTopics(ts[1..][..j])
  {
    assert ts[..j + 1][1..] == ts[1..][..j];
  }

  /** Moving the head of `ts` onto the end of `read` keeps `read + ts`. */
  lemma AppendHead<T>(read: seq<T>, ts: seq<T>)
    requires ts != []
    ensures read + [ts[0]] + ts[1..] == read + ts
  {
  }

  /** The fields of the topics of `v` from `n` on are the field of topic `n`
      followed by those of the topics after it. */
  lemma FieldsFrom(v: seq<seq<byte>>, n: nat)
    requires n < |v|
    ensures EncodeTopics(v[n..]) == EncodeField(v[n]) + EncodeTopics(v[n + 1..])
  {
    assert v[n..][1..] == v[n + 1..];
  }

  /** The bytes from `a` to `c` are those from `a` to `b` then from `b` to `c`. */
  lemma SliceSplit<T>(s: seq<T>, a: nat, b: nat, c: nat)
    requires a <= b <= c <= |s|
    ensures s[a..c] == s[a..b] + s[b..c]
  {
  }

  /** Skipping `a` bytes and then `b` more is skipping `a + b`. */
  lemma SuffixOfSuffix(s: seq<byte>, a: nat, b: nat)
    requires a + b <= |s|
    ensures s[a..][b..] == s[a + b..]
  {
  }

  /** A prefix of `a + b` that covers `a` is `a` followed by a prefix of `b`. */
  lemma PrefixPastFirst<T>(a: seq<T>, b: seq<T>, m: nat)
    requires |a| <= m <= |a| + |b|
    ensures (a + b)[..m] == a + b[..m - |a|]
  {
  }

  /** Concatenation is associative. */
  lemma Regroup<T>(a: seq<T>, b: seq<T>, c: seq<T>)
    ensures a + (b + c) == a + b + c
  {
  }

  /** One turn of the topic loop over a well-formed topic field: the topic is
      collected and the cursor moves past its field. */
  lemma TopicStep(s: seq<byte>, pos: nat, t: Utf8String, tail: seq<byte>, left: nat, read: seq<Utf8String>)
    requires pos <= |s| && s[pos..] == EncodeField(t) + tail
    requires |t| < U32_LIMIT && left > 0
    ensures pos + 4 + |t| <= |s| && s[pos + 4 + |t|..] == tail
    ensures DecodeTopics(s, pos, left, read) == DecodeTopics(s, pos + 4 + |t|, left - 1, read + [t])
  {
    DecodeTextRoundTrip(t, tail);
    SuffixOfSuffix(s, pos, 4 + |t|);
  }

  /** A topic field whose bytes are not valid UTF-8 ends the topic loop with
      `FromUtf8` just past the field. */
  lemma InvalidTopicStep(s: seq<byte>, pos: nat, t: seq<byte>, tail: seq<byte>, left: nat, read: seq<Utf8String>)
    requires pos <= |s| && s[pos..] == EncodeField(t) + tail
    requires |t| < U32_LIMIT && !ValidUtf8(t) && left > 0
    ensures DecodeTopics(s, pos, left, read) == Step(Err(FromUtf8), pos + 4 + |t|)
  {
    DecodeTextRejectsInvalid(t, tail);
  }

  /** Reading the topic fields of `ts` gives back `ts` itself, in order and
      with duplicates, and leaves the cursor just past them. */
  lemma {:induction false} DecodeTopicsRoundTrip(s: seq<byte>, pos: nat, ts: seq<Utf8String>, rest: seq<byte>, read: seq<Utf8String>)
    requires pos <= |s| && s[pos..] == EncodeTopics(ts) + rest
    requires forall i :: 0 <= i < |ts| ==> |ts[i]| < U32_LIMIT
    ensures DecodeTopics(s, pos, |ts|, read) == Step(Ok(read + ts), pos + |EncodeTopics(ts)|)
    decreases ts
  {
    if ts == [] {
      assert read + ts == read;
    } else {
      var tail := EncodeTopics(ts[1..]) + rest;
      FirstField(ts, rest);
      TopicStep(s, pos, ts[0], tail, |ts|, read);
      DecodeTopicsRoundTrip(s, pos + 4 + |ts[0]|, ts[1..], rest, read + [ts[0]]);
      AppendHead(read, ts);
    }
  }

  /** Round trip: reading what `write` produced gives back the same topic
      list, consuming exactly `4 + sum(4 + |t|)` bytes and leaving the rest. */
  lemma RoundTrip(r: SubscriptionRequest, rest: seq<byte>)
    requires WellSized(r)
    ensures Decode(Encode(r) + rest) == Step(Ok(r), |Encode(r)|)
  {
    var s := Encode(r) + rest;
    assert AsU32(|r.topics|) == |r.topics|;
    assert s[..4] == BeU32(|r.topics|);
    assert s[4..] == EncodeTopics(r.topics) + rest;
    DecodeTopicsRoundTrip(s, 4, r.topics, rest, []);
  }

  /** A count of 0 reads as the empty request after exactly four bytes. */
  lemma EmptyRequest(rest: seq<byte>)
    ensures Decode(BeU32(0) + rest) == Step(Ok(SubscriptionRequest([])), 4)
  {
    assert (BeU32(0) + rest)[..4] == BeU32(0);
  }

  /** One successful turn of the topic loop reads a topic whose field is
      exactly the bytes it took. */
  lemma ReencodeStep(s: seq<byte>, pos: nat, left: nat, read: seq<Utf8String>)
    requires pos <= |s| && left > 0 && DecodeTopics(s, pos, left, read).result.Ok?
    ensures var t := DecodeText(s[pos..]);
            && t.result.Ok? && |t.result.value| < U32_LIMIT
            && EncodeField(t.result.value) == s[pos..pos + t.consumed]
            && DecodeTopics(s, pos, left, read)
               == DecodeTopics(s, pos + t.consumed, left - 1, read + [t.result.value])
  {
    var t := DecodeText(s[pos..]);
    DecodeTextReencodes(s[pos..]);
    assert s[pos..][..t.consumed] == s[pos..pos + t.consumed];
  }

  /** Topic fields that read successfully are exactly the encoding of the
      topics read. */
  lemma {:induction false} DecodeTopicsReencodes(s: seq<byte>, pos: nat, left: nat, read: seq<Utf8String>)
    requires pos <= |s| && DecodeTopics(s, pos, left, read).result.Ok?
    ensures var st := DecodeTopics(s, pos, left, read);
            && EncodeTopics(st.result.value[|read|..]) == s[pos..st.consumed]
            && forall i :: |read| <= i < |st.result.value| ==> |st.result.value[i]| < U32_LIMIT
    decreases left
  {
    if left > 0 {
      ReencodeStep(s, pos, left, read);
      var topic := DecodeText(s[pos..]);
      var t, next := topic.result.value, pos + topic.consumed;
      var extended := read + [t];
      DecodeTopicsReencodes(s, next, left - 1, extended);
      var st := DecodeTopics(s, next, left - 1, extended);
      var v := st.result.value;
      assert v[|read|] == extended[|read|] == t;
      FieldsFrom(v, |read|);
      SliceSplit(s, pos, next, st.consumed);
    } else {
      assert s[pos..pos] == [];
    }
  }

  /** The converse of the round trip: a request that reads successfully is
      well sized and is exactly the encoding of the bytes consumed. */
  lemma Reencodes(s: seq<byte>)
    requires Decode(s).result.Ok?
    ensures WellSized(Decode(s).result.value)
    ensures Encode(Decode(s).result.value) == s[..Decode(s).consumed]
  {
    var count := TakeU32(s).result.value;
    BeU32OfValue(s[..4]);
    DecodeTopicsReencodes(s, 4, count, []);
    var topics := DecodeTopics(s, 4, count, []);
    var r := SubscriptionRequest(topics.result.value);
    assert Decode(s) == Step(Ok(r), topics.consumed);
    assert r.topics[0..] == r.topics;
    assert AsU32(|r.topics|) == count;
    calc {
      Encode(r);
      BeU32(count) + EncodeTopics(r.topics);
      s[..4] + s[4..topics.consumed];
      s[..topics.consumed];
    }
  }

  /** `read` succeeds exactly when the stream starts with a complete frame of
      some well-sized request. */
  lemma DecodeOkIffFramed(s: seq<byte>)
    ensures Decode(s).result.Ok? <==> exists r: SubscriptionRequest :: WellSized(r) && Encode(r) <= s
  {
    if Decode(s).result.Ok? {
      Reencodes(s);
      var r := Decode(s).result.value;
      assert WellSized(r) && Encode(r) <= s;
    }
    if r: SubscriptionRequest :| WellSized(r) && Encode(r) <= s {
      assert s == Encode(r) + s[|Encode(r)|..];
      RoundTrip(r, s[|Encode(r)|..]);
    }
  }

  /** A stream that ends inside a topic field, after some complete valid
      topics and before the loop is done, fails with an I/O error that takes
      all it was given. The bytes of the cut topic may be anything, UTF-8 or
      not: its length is read first and the stream ends before its bytes do. */
  lemma {:induction false} DecodeTopicsTruncated(s: seq<byte>, pos: nat, done: seq<Utf8String>, b: seq<byte>, k: nat, left: nat, read: seq<Utf8String>)
    requires |done| < left
    requires forall i :: 0 <= i < |done| ==> |done[i]| < U32_LIMIT
    requires |b| < U32_LIMIT && k < 4 + |b|
    requires pos <= |s| && s[pos..] == EncodeTopics(done) + EncodeField(b)[..k]
    ensures DecodeTopics(s, pos, left, read) == Step(Err(Io), |s|)
    decreases done
  {
    var cut := EncodeField(b)[..k];
    if done == [] {
      assert s[pos..] == cut;
      DecodeTextTruncated(b, k);
    } else {
      FirstField(done, cut);
      TopicStep(s, pos, done[0], EncodeTopics(done[1..]) + cut, left, read);
      DecodeTopicsTruncated(s, pos + 4 + |done[0]|, done[1..], b, k, left - 1, read + [done[0]]);
    }
  }

  /** A request stream cut inside topic `|done|` of `n`, after the complete
      valid topics `done`, fails with an I/O error and yields no request,
      whatever the bytes of the cut topic are. */
  lemma TruncatedInTopic(n: nat, done: seq<Utf8String>, b: seq<byte>, k: nat)
    requires |done| < n < U32_LIMIT
    requires forall i :: 0 <= i < |done| ==> |done[i]| < U32_LIMIT
    requires |b| < U32_LIMIT && k < 4 + |b|
    ensures Decode(BeU32(n) + EncodeTopics(done) + EncodeField(b)[..k])
            == Step(Err(Io), 4 + |EncodeTopics(done)| + k)
  {
    var s := BeU32(n) + EncodeTopics(done) + EncodeField(b)[..k];
    assert s[..4] == BeU32(n);
    assert s[4..] == EncodeTopics(done) + EncodeField(b)[..k];
    DecodeTopicsTruncated(s, 4, done, b, k, n, []);
  }

  /** Lifts a cut found among the topics after the first to the whole list:
      the first topic's field comes before it. */
  lemma CutAfterFirst(ts: seq<seq<byte>>, m: nat, j: nat, d: nat)
    requires ts != [] && 4 + |ts[0]| <= m <= |EncodeTopics(ts)|
    requires j < |ts| - 1 && d < 4 + |ts[j + 1]|
    requires EncodeTopics(ts[1..])[..m - 4 - |ts[0]|] == EncodeTopics(ts[1..][..j]) + EncodeField(ts[j + 1])[..d]
    ensures EncodeTopics(ts)[..m] == EncodeTopics(ts[..j + 1]) + EncodeField(ts[j + 1])[..d]
  {
    var head, tail := EncodeField(ts[0]), EncodeTopics(ts[1..]);
    var done, cut := EncodeTopics(ts[1..][..j]), EncodeField(ts[j + 1])[..d];
    assert EncodeTopics(ts) == head + tail;
    PrefixFields(ts, j);
    PrefixPastFirst(head, tail, m);
    Regroup(head, done, cut);
  }

  /** Every proper prefix of the topic fields of `ts` is the fields of its
      first `i` topics followed by a proper prefix of the field of topic `i`. */
  lemma {:induction false} LocateCut(ts: seq<seq<byte>>, m: nat) returns (i: nat, c: nat)
    requires m < |EncodeTopics(ts)|
    ensures i < |ts| && c < 4 + |ts[i]|
    ensures EncodeTopics(ts)[..m] == EncodeTopics(ts[..i]) + EncodeField(ts[i])[..c]
    decreases ts
  {
    var head := EncodeField(ts[0]);
    assert EncodeTopics(ts) == head + EncodeTopics(ts[1..]);
    if m < |head| {
      i, c := 0, m;
      assert ts[..0] == [];
    } else {
      var j, d := LocateCut(ts[1..], m - |head|);
      CutAfterFirst(ts, m, j, d);
      i, c := j + 1, d;
    }
  }

  /** A stream that ends before the request does fails with an I/O error and
      yields no request, wherever it is cut: inside the count, a length or a
      topic. */
  lemma Truncated(r: SubscriptionRequest, k: nat)
    requires WellSized(r) && k < |Encode(r)|
    ensures Decode(Encode(r)[..k]) == Step(Err(Io), k)
  {
    var s := Encode(r)[..k];
    if k >= 4 {
      var ts := r.topics;
      assert AsU32(|ts|) == |ts|;
      var i, c := LocateCut(ts, k - 4);
      PrefixPastFirst(BeU32(|ts|), EncodeTopics(ts), k);
      Regroup(BeU32(|ts|), EncodeTopics(ts[..i]), EncodeField(ts[i])[..c]);
      TruncatedInTopic(|ts|, ts[..i], ts[i], c);
    }
  }

  /** The first topic that is not valid UTF-8 ends the read with `FromUtf8`
      just after its bytes; the topics after it, and what follows the frame,
      are never looked at. */
  lemma {:induction false} DecodeTopicsFirstInvalid(s: seq<byte>, pos: nat, ts: seq<seq<byte>>, i: nat, rest: seq<byte>, left: nat, read: seq<Utf8String>)
    requires i < |ts| && i < left
    requires pos <= |s| && s[pos..] == EncodeTopics(ts) + rest
    requires forall j :: 0 <= j < |ts| ==> |ts[j]| < U32_LIMIT
    requires forall j :: 0 <= j < i ==> ValidUtf8(ts[j])
    requires !ValidUtf8(ts[i])
    ensures DecodeTopics(s, pos, left, read) == Step(Err(FromUtf8), pos + |EncodeTopics(ts[..i + 1])|)
    decreases i, 1
  {
    if i == 0 {
      FirstField(ts, rest);
      PrefixFields(ts, 0);
      InvalidTopicStep(s, pos, ts[0], EncodeTopics(ts[1..]) + rest, left, read);
    } else {
      LaterInvalid(s, pos, ts, i, rest, left, read);
    }
  }

  /** The case of `DecodeTopicsFirstInvalid` where a valid topic comes first:
      it is read, and the invalid one is found among the others. */
  lemma {:induction false} LaterInvalid(s: seq<byte>, pos: nat, ts: seq<seq<byte>>, i: nat, rest: seq<byte>, left: nat, read: seq<Utf8String>)
    requires 0 < i < |ts| && i < left
    requires pos <= |s| && s[pos..] == EncodeTopics(ts) + rest
    requires forall j :: 0 <= j < |ts| ==> |ts[j]| < U32_LIMIT
    requires forall j :: 0 <= j < i ==> ValidUtf8(ts[j])
    requires !ValidUtf8(ts[i])
    ensures DecodeTopics(s, pos, left, read) == Step(Err(FromUtf8), pos + |EncodeTopics(ts[..i + 1])|)
    decreases i, 0
  {
    var t: Utf8String := ts[0];
    FirstField(ts, rest);
    PrefixFields(ts, i);
    TopicStep(s, pos, t, EncodeTopics(ts[1..]) + rest, left, read);
    DecodeTopicsFirstInvalid(s, pos + 4 + |t|, ts[1..], i - 1, rest, left - 1, read + [t]);
  }

  /** A request whose topic `i` is the first that is not valid UTF-8 fails
      with `FromUtf8` and yields no request, whatever follows. */
  lemma InvalidTopic(ts: seq<seq<byte>>, i: nat, rest: seq<byte>)
    requires i < |ts| < U32_LIMIT
    requires forall j :: 0 <= j < |ts| ==> |ts[j]| < U32_LIMIT
    requires forall j :: 0 <= j < i ==> ValidUtf8(ts[j])
    requires !ValidUtf8(ts[i])
    ensures Decode(BeU32(|ts|) + EncodeTopics(ts) + rest)
            == Step(Err(FromUtf8), 4 + |EncodeTopics(ts[..i + 1])|)
  {
    var s := BeU32(|ts|) + EncodeTopics(ts) + rest;
    assert s[..4] == BeU32(|ts|);
    assert s[4..] == EncodeTopics(ts) + rest;
    DecodeTopicsFirstInvalid(s, 4, ts, i, rest, |ts|, []);
  }
}
