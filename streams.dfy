/** The byte streams the codec works on: a reader with a cursor over the
    bytes a peer sends (until end of stream), and a writer that appends. */
module Streams {
  import opened Bytes
  import opened Errors

  /** What one read does to a stream: its result and how many bytes it took. */
  datatype Step<T> = Step(result: Result<T>, consumed: nat)

  /** `read_u32::<BigEndian>` on the bytes `s` still unread. A short read
      takes whatever was left. */
  function TakeU32(s: seq<byte>): (st: Step<nat>)
    ensures st.result.Ok? <==> |s| >= 4
    ensures st.result.Ok? ==> st.consumed == 4 && st.result.value == BeU32Value(s[..4])
    ensures st.result.Err? ==> st == Step(Err(Io), |s|)
  {
    if |s| < 4 then Step(Err(Io), |s|)
    else Step(Ok(BeU32Value(s[..4])), 4)
  }

  /** `read_exact` of `n` bytes on the bytes `s` still unread. A short read
      takes whatever was left. */
  function TakeExact(s: seq<byte>, n: nat): (st: Step<seq<byte>>)
    ensures st.result.Ok? <==> n <= |s|
    ensures st.result.Ok? ==> st.consumed == n && st.result.value == s[..n]
    ensures st.result.Err? ==> st == Step(Err(Io), |s|)
  {
    if |s| < n then Step(Err(Io), |s|) else Step(Ok(s[..n]), n)
  }

  /** A readable byte stream: everything the peer sends before end of stream,
      and how far it has been read. */
  class Reader {
    const data: seq<byte>
    var pos: nat

    predicate Valid()
      reads this
    {
      pos <= |data|
    }

    /** The bytes not read yet. */
    function Remaining(): seq<byte>
      reads this
      requires Valid()
    {
      data[pos..]
    }

    constructor (data: seq<byte>)
      ensures Valid() && this.data == data && pos == 0
    {
      this.data := data;
      pos := 0;
    }

    /** `read_u32::<BigEndian>`. */
    method ReadU32() returns (r: Result<nat>)
      requires Valid()
      modifies this
      ensures Valid()
      ensures var st := TakeU32(old(Remaining()));
              r == st.result && pos == old(pos) + st.consumed
    {
      if |data| - pos < 4 {
        pos := |data|;
        return Err(Io);
      }
      assert data[pos..][..4] == data[pos..pos + 4];
      r := Ok(BeU32Value(data[pos..pos + 4]));
      pos := pos + 4;
    }

    /** `read_exact(&mut buf)`: fills `buf` from the stream, byte by byte, and
        fails if the stream ends first, in which case `buf` holds what was left. */
    method ReadExact(buf: array<byte>) returns (r: Status)
      requires Valid()
      modifies this, buf
      ensures Valid()
      ensures var st := TakeExact(old(Remaining()), buf.Length);
              && pos == old(pos) + st.consumed
              && (r == if st.result.Ok? then Done else Failed(st.result.error))
              && buf[..st.consumed] == old(Remaining())[..st.consumed]
              && buf[st.consumed..] == old(buf[st.consumed..])
    {
      var n := if |data| - pos < buf.Length then |data| - pos else buf.Length;
      var i := 0;
      while i < n
        invariant 0 <= i <= n && pos == old(pos) && pos + n <= |data|
        invariant forall j :: 0 <= j < i ==> buf[j] == data[pos + j]
        invariant forall j :: i <= j < buf.Length ==> buf[j] == old(buf[j])
      {
        buf[i] := data[pos + i];
        i := i + 1;
      }
      pos := pos + n;
      r := if n < buf.Length then Failed(Io) else Done;
    }
  }

  /** A writable byte stream: everything written so far. Transport failures
      are not part of this model, so writes always succeed. */
  class Writer {
    var written: seq<byte>

    constructor ()
      ensures written == []
    {
      written := [];
    }

    /** `write_u32::<BigEndian>`. */
    method WriteU32(n: nat)
      requires n < U32_LIMIT
      modifies this
      ensures written == old(written) + BeU32(n)
    {
      written := written + BeU32(n);
    }

    /** `write_all`. */
    method WriteAll(b: seq<byte>)
      modifies this
      ensures written == old(written) + b
    {
      written := written + b;
    }
  }
}
