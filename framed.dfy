/** `TFramedTransport`: every message goes out as one frame, a signed 32-bit
    big-endian length followed by that many payload bytes, and comes in the
    same way, one whole frame at a time. The frame format and the read and
    refill steps are also those of the SASL transport, which passes payloads
    through the mechanism's `unwrap`; here `unwrap` is `Identity`. */
module Framed {
  import opened Bytes
  import opened Errors
  import opened Wire
  import BufferIO
  import opened Transport

  /** A decoded frame: its payload and the input that follows it. */
  datatype Frame = Frame(payload: seq<byte>, rest: seq<byte>)

  function Identity(p: seq<byte>): seq<byte> { p }

  /** `pack("!i", len(payload)) + payload`. */
  function EncodeFrame(payload: seq<byte>): (r: Result<seq<byte>>)
    ensures r.Ok? <==> |payload| < TwoTo31
    ensures r.Fail? ==> r.error == StructError
    ensures r.Ok? ==> |r.value| == 4 + |payload| && r.value[4..] == payload
  {
    match PackI32(|payload|)
    case Fail(e) => Fail(e)
    case Ok(header) => Ok(header + payload)
  }

  /** What `readFrame` takes from `input`: `readAll(4)`, the signed length
      those bytes encode, then `readAll(length)`. A length of zero or less
      reads nothing and gives an empty payload; too few bytes give `EOFError`. */
  function DecodeFrame(input: seq<byte>): (r: Result<Frame>)
    ensures r.Fail? <==> |input| < 4 || UnpackI32(input[..4]) > |input| - 4
    ensures r.Fail? ==> r.error == EOFError
    ensures r.Ok? ==> |r.value.payload| == Max(UnpackI32(input[..4]), 0)
    ensures r.Ok? ==> r.value.payload == input[4..4 + |r.value.payload|] && r.value.rest == input[4 + |r.value.payload|..]
  {
    if |input| < 4 then Fail(EOFError)
    else
      var sz := UnpackI32(input[..4]);
      var body := input[4..];
      if sz <= 0 then Ok(Frame([], body))
      else if |body| < sz then Fail(EOFError)
      else Ok(Frame(body[..sz], body[sz..]))
  }

  /** A frame decodes to the payload it was encoded from, and decoding stops
      exactly at its end. */
  lemma FrameRoundTrip(payload: seq<byte>, rest: seq<byte>)
    requires |payload| < TwoTo31
    ensures DecodeFrame(EncodeFrame(payload).value + rest) == Ok(Frame(payload, rest))
  {
    var input := EncodeFrame(payload).value + rest;
    UnpackPackI32(|payload|);
    assert input[..4] == PackI32(|payload|).value;
    assert input[4..] == payload + rest;
    assert (payload + rest)[..|payload|] == payload;
    assert (payload + rest)[|payload|..] == rest;
  }

  /** A negative length field is not rejected: the frame is read as empty and
      the bytes after the field are left in place. */
  lemma NegativeLengthAccepted(n: int, rest: seq<byte>)
    requires -TwoTo31 <= n < 0
    ensures DecodeFrame(PackI32(n).value + rest) == Ok(Frame([], rest))
  {
    UnpackPackI32(n);
    assert (PackI32(n).value + rest)[..4] == PackI32(n).value;
  }

  /** The outcome of `read(sz)`: the answer, the read buffer afterwards and
      the inner input left. */
  datatype Served = Served(result: Result<seq<byte>>, rbuf: BufferIO.Buffer, rest: seq<byte>)

  /** `read(sz)`: served from the read buffer when that yields any bytes;
      only otherwise is the next frame read, its payload (through `unwrap`)
      becoming the read buffer the answer is taken from. */
  function ServeRead(rbuf: BufferIO.Buffer, sz: int, input: seq<byte>, unwrap: seq<byte> -> seq<byte>): (s: Served)
    ensures sz >= 0 && s.result.Ok? ==> |s.result.value| <= sz
    ensures BufferIO.Read(rbuf, sz).0 != [] ==>
      s == Served(Ok(BufferIO.Read(rbuf, sz).0), BufferIO.Read(rbuf, sz).1, input)
    ensures s.result.Fail? ==> s.result.error == EOFError && s.rest == []
  {
    var (ret, next) := BufferIO.Read(rbuf, sz);
    if ret != [] then Served(Ok(ret), next, input)
    else match DecodeFrame(input)
      case Fail(e) => Served(Fail(e), next, [])
      case Ok(f) =>
        var (fromFrame, after) := BufferIO.Read(BufferIO.New(unwrap(f.payload)), sz);
        Served(Ok(fromFrame), after, f.rest)
  }

  /** `read(0)` always finds the read buffer empty-handed, so it reads the
      next frame, whose payload replaces whatever was left of the current
      one: those bytes are lost. */
  lemma ZeroReadSkipsRest(rbuf: BufferIO.Buffer, input: seq<byte>, unwrap: seq<byte> -> seq<byte>)
    requires DecodeFrame(input).Ok?
    ensures var f := DecodeFrame(input).value;
      ServeRead(rbuf, 0, input, unwrap) == Served(Ok([]), BufferIO.New(unwrap(f.payload)), f.rest)
  {
  }

  /** Once the read buffer is exhausted, a read takes the next whole frame
      and answers from the start of its (unwrapped) payload. */
  lemma ReadNextFrame(rbuf: BufferIO.Buffer, sz: int, payload: seq<byte>, rest: seq<byte>, unwrap: seq<byte> -> seq<byte>)
    requires BufferIO.Remaining(rbuf) == [] && |payload| < TwoTo31
    ensures ServeRead(rbuf, sz, EncodeFrame(payload).value + rest, unwrap) ==
      Served(Ok(BufferIO.Read(BufferIO.New(unwrap(payload)), sz).0), BufferIO.Read(BufferIO.New(unwrap(payload)), sz).1, rest)
  {
    FrameRoundTrip(payload, rest);
  }

  /** A zero-length frame makes the read that reaches it return nothing,
      without blocking on the frame after it. */
  lemma EmptyFrameReadsNothing(rbuf: BufferIO.Buffer, sz: int, rest: seq<byte>)
    requires BufferIO.Remaining(rbuf) == []
    ensures ServeRead(rbuf, sz, EncodeFrame([]).value + rest, Identity) == Served(Ok([]), BufferIO.New([]), rest)
  {
    ReadNextFrame(rbuf, sz, [], rest, Identity);
  }

  /** The outcome of `cstringio_refill`: the new buffer contents (or the
      error), the payload of the last frame read if any (the read buffer
      after a failure), and the inner input left. */
  datatype Refill = Refill(result: Result<seq<byte>>, last: Option<seq<byte>>, rest: seq<byte>)

  /** `cstringio_refill(prefix, reqlen)`: append the (unwrapped) payloads of
      whole frames to `prefix` until it holds at least `reqlen` bytes. */
  function RefillFrames(prefix: seq<byte>, reqlen: int, input: seq<byte>, unwrap: seq<byte> -> seq<byte>): (t: Refill)
    ensures |prefix| >= reqlen ==> t == Refill(Ok(prefix), None, input)
    ensures t.result.Ok? ==> prefix <= t.result.value && |t.result.value| >= reqlen
    ensures t.result.Fail? ==> t.result.error == EOFError && t.rest == []
    decreases |input|
  {
    if |prefix| >= reqlen then Refill(Ok(prefix), None, input)
    else match DecodeFrame(input)
      case Fail(e) => Refill(Fail(e), None, [])
      case Ok(f) =>
        var p := unwrap(f.payload);
        var t := RefillFrames(prefix + p, reqlen, f.rest, unwrap);
        Refill(t.result, if t.last.Some? then t.last else Some(p), t.rest)
  }

  /** The frames `payloads` laid end to end on the wire. */
  function EncodeFrames(payloads: seq<seq<byte>>): seq<byte>
    requires forall i | 0 <= i < |payloads| :: |payloads[i]| < TwoTo31
  {
    if payloads == [] then [] else EncodeFrame(payloads[0]).value + EncodeFrames(payloads[1..])
  }

  function Unwrapped(payloads: seq<seq<byte>>, unwrap: seq<byte> -> seq<byte>): (us: seq<seq<byte>>)
    ensures |us| == |payloads|
  {
    if payloads == [] then [] else [unwrap(payloads[0])] + Unwrapped(payloads[1..], unwrap)
  }

  /** Below `reqlen`, refilling consumes the next whole frame and goes on
      with its payload appended. */
  lemma RefillStep(prefix: seq<byte>, reqlen: int, payload: seq<byte>, tail: seq<byte>, unwrap: seq<byte> -> seq<byte>)
    requires |prefix| < reqlen && |payload| < TwoTo31
    ensures var t := RefillFrames(prefix, reqlen, EncodeFrame(payload).value + tail, unwrap);
            var t' := RefillFrames(prefix + unwrap(payload), reqlen, tail, unwrap);
            t.result == t'.result && t.rest == t'.rest
  {
    FrameRoundTrip(payload, tail);
  }

  /** Dropping the first payload moves its bytes into the prefix: the
      bound on every shorter run of payloads still holds. */
  lemma ShiftBound(prefix: seq<byte>, reqlen: int, p: seq<byte>, us: seq<seq<byte>>)
    requires forall k | 0 <= k < |us| + 1 :: |prefix| + |Concat(([p] + us)[..k])| < reqlen
    ensures forall k | 0 <= k < |us| :: |prefix + p| + |Concat(us[..k])| < reqlen
  {
    forall k | 0 <= k < |us|
      ensures |prefix + p| + |Concat(us[..k])| < reqlen
    {
      assert ([p] + us)[..k + 1] == [p] + us[..k];
      assert Concat(([p] + us)[..k + 1]) == p + Concat(us[..k]);
    }
  }

  /** Refilling over successive whole frames yields `prefix` followed by
      their (unwrapped) payloads in order, and stops at the first frame after
      which the length reaches `reqlen`, leaving the later frames unread. */
  lemma {:induction false} RefillWholeFrames(prefix: seq<byte>, reqlen: int, payloads: seq<seq<byte>>, rest: seq<byte>, unwrap: seq<byte> -> seq<byte>)
    requires forall i | 0 <= i < |payloads| :: |payloads[i]| < TwoTo31
    requires forall k | 0 <= k < |payloads| :: |prefix| + |Concat(Unwrapped(payloads, unwrap)[..k])| < reqlen
    requires reqlen <= |prefix| + |Concat(Unwrapped(payloads, unwrap))|
    ensures RefillFrames(prefix, reqlen, EncodeFrames(payloads) + rest, unwrap).result == Ok(prefix + Concat(Unwrapped(payloads, unwrap)))
    ensures RefillFrames(prefix, reqlen, EncodeFrames(payloads) + rest, unwrap).rest == rest
    decreases |payloads|
  {
    if payloads == [] {
      assert EncodeFrames(payloads) + rest == rest;
      assert Unwrapped(payloads, unwrap) == [];
      assert prefix + Concat([]) == prefix;
    } else {
      var p := payloads[0];
      var us := Unwrapped(payloads, unwrap);
      var us' := Unwrapped(payloads[1..], unwrap);
      assert us == [unwrap(p)] + us';
      var tail := EncodeFrames(payloads[1..]) + rest;
      assert EncodeFrames(payloads) + rest == EncodeFrame(p).value + tail;
      assert us[..0] == [];
      RefillStep(prefix, reqlen, p, tail, unwrap);
      ShiftBound(prefix, reqlen, unwrap(p), us');
      assert forall i | 0 <= i < |payloads[1..]| :: |payloads[1..][i]| < TwoTo31;
      RefillWholeFrames(prefix + unwrap(p), reqlen, payloads[1..], rest, unwrap);
      assert Concat(us) == unwrap(p) + Concat(us');
      AppendAssoc(prefix, unwrap(p), Concat(us'));
    }
  }

  class FramedTransport {
    const trans: RawTransport
    var rbuf: BufferIO.Buffer
    var wbuf: BufferIO.Buffer

    ghost predicate Valid()
      reads this
    {
      BufferIO.AtEnd(wbuf)
    }

    constructor (trans: RawTransport)
      ensures Valid() && this.trans == trans
      ensures rbuf == BufferIO.New([]) && wbuf == BufferIO.Empty
    {
      this.trans := trans;
      rbuf := BufferIO.New([]);
      wbuf := BufferIO.Empty;
    }

    method IsOpen() returns (b: bool)
      ensures b == trans.isOpen
    {
      b := trans.IsOpen();
    }

    method Open()
      modifies trans
      ensures trans.isOpen && trans.sent == old(trans.sent) + [Opened]
      ensures trans.input == old(trans.input) && trans.calls == old(trans.calls)
    {
      trans.Open();
    }

    method Close()
      modifies trans
      ensures !trans.isOpen && trans.sent == old(trans.sent) + [Closed]
      ensures trans.input == old(trans.input) && trans.calls == old(trans.calls)
    {
      trans.Close();
    }

    /** `readFrame()`: the next frame's payload becomes the read buffer. */
    method ReadFrame() returns (r: Result<()>)
      modifies this, trans
      ensures wbuf == old(wbuf)
      ensures match DecodeFrame(old(trans.input))
        case Ok(f) => r == Ok(()) && rbuf == BufferIO.New(f.payload) && trans.input == f.rest
        case Fail(e) => r == Fail(e) && rbuf == old(rbuf) && trans.input == []
      ensures trans.sent == old(trans.sent) && trans.isOpen == old(trans.isOpen)
    {
      var header :- trans.ReadAll(4);
      var sz := UnpackI32(header);
      var payload :- trans.ReadAll(sz);
      rbuf := BufferIO.New(payload);
      return Ok(());
    }

    /** `read(sz)`, as `ServeRead` describes it. */
    method Read(sz: int) returns (r: Result<seq<byte>>)
      requires Valid()
      modifies this, trans
      ensures Valid() && wbuf == old(wbuf)
      ensures Served(r, rbuf, trans.input) == ServeRead(old(rbuf), sz, old(trans.input), Identity)
      ensures trans.sent == old(trans.sent) && trans.isOpen == old(trans.isOpen)
    {
      var (ret, next) := BufferIO.Read(rbuf, sz);
      rbuf := next;
      if |ret| != 0 {
        return Ok(ret);
      }
      var f :- ReadFrame();
      var (fromFrame, after) := BufferIO.Read(rbuf, sz);
      rbuf := after;
      return Ok(fromFrame);
    }

    /** `write(v)`: appends to the write buffer; a `str` raises `TypeError`
        and leaves the buffer as it was. */
    method Write(v: PyValue) returns (r: Result<()>)
      requires Valid()
      modifies this
      ensures Valid() && rbuf == old(rbuf)
      ensures v.Bytes? ==> r == Ok(()) && wbuf.data == old(wbuf.data) + v.bytes
      ensures v.Str? ==> r == Fail(TypeError) && wbuf == old(wbuf)
    {
      var b :- BufferIO.Write(wbuf, v);
      wbuf := b;
      return Ok(());
    }

    /** `flush()`: the write buffer is emptied first; then its contents go
        out as one frame in one inner write, followed by one inner flush. A
        buffer too long for the length field raises `struct.error`, and its
        contents are lost. */
    method Flush() returns (r: Result<()>)
      requires Valid()
      modifies this, trans
      ensures Valid() && wbuf == BufferIO.Empty && rbuf == old(rbuf)
      ensures match EncodeFrame(old(wbuf.data))
        case Ok(frame) => r == Ok(()) && trans.sent == old(trans.sent) + [Wrote(frame), Flushed]
        case Fail(e) => r == Fail(e) && trans.sent == old(trans.sent)
      ensures trans.input == old(trans.input) && trans.calls == old(trans.calls)
      ensures trans.isOpen == old(trans.isOpen)
    {
      var wout := wbuf.data;
      wbuf := BufferIO.Empty;
      var frame :- EncodeFrame(wout);
      trans.Write(frame);
      trans.Flush();
      return Ok(());
    }

    /** `cstringio_refill(prefix, reqlen)`, as `RefillFrames` describes it;
        on success the result becomes the read buffer, on failure the read
        buffer is the last frame read, if any. */
    method CStringIORefill(prefix: seq<byte>, reqlen: int) returns (r: Result<seq<byte>>)
      requires Valid()
      modifies this, trans
      ensures Valid() && wbuf == old(wbuf)
      ensures var t := RefillFrames(prefix, reqlen, old(trans.input), Identity);
        r == t.result && trans.input == t.rest &&
        rbuf == (if r.Ok? then BufferIO.New(r.value)
                 else if t.last.Some? then BufferIO.New(t.last.value) else old(rbuf))
      ensures trans.sent == old(trans.sent) && trans.isOpen == old(trans.isOpen)
    {
      ghost var t0 := RefillFrames(prefix, reqlen, trans.input, Identity);
      ghost var last: Option<seq<byte>> := None;
      var acc := prefix;
      while |acc| < reqlen
        invariant wbuf == old(wbuf)
        invariant trans.sent == old(trans.sent) && trans.isOpen == old(trans.isOpen)
        invariant var t := RefillFrames(acc, reqlen, trans.input, Identity);
          t0 == Refill(t.result, if t.last.Some? then t.last else last, t.rest)
        invariant rbuf == if last.Some? then BufferIO.New(last.value) else old(rbuf)
        decreases |trans.input|
      {
        var f := ReadFrame();
        if f.Fail? {
          return Fail(f.error);
        }
        acc := acc + rbuf.data;
        last := Some(rbuf.data);
      }
      rbuf := BufferIO.New(acc);
      return Ok(acc);
    }
  }

  /** `write(b"ping")` then `flush()` sends `\x00\x00\x00\x04ping`, and a
      framed reader on the other end reads `ping` back. */
  method PingScenario() returns (wire: seq<Event>, back: Result<seq<byte>>)
    ensures wire == [Wrote([0, 0, 0, 4, 112, 105, 110, 103]), Flushed]
    ensures back == Ok([112, 105, 110, 103])
  {
    var ping: seq<byte> := [112, 105, 110, 103];
    var out := new RawTransport([]);
    var writer := new FramedTransport(out);
    var w := writer.Write(Bytes(ping));
    assert writer.wbuf.data == ping;
    assert PackI32(|ping|) == Ok([0, 0, 0, 4]);
    var f := writer.Flush();
    wire := out.sent;
    assert [0, 0, 0, 4] + ping == [0, 0, 0, 4, 112, 105, 110, 103];
    var frame: seq<byte> := [0, 0, 0, 4] + ping;
    var peer := new RawTransport(frame);
    var reader := new FramedTransport(peer);
    back := reader.Read(10);
    ReadNextFrame(BufferIO.New([]), 10, ping, [], Identity);
    assert frame + [] == frame;
  }

  /** Flushing an empty write buffer sends a frame of length 0. */
  method EmptyFlushScenario() returns (wire: seq<Event>)
    ensures wire == [Wrote([0, 0, 0, 0]), Flushed]
  {
    var out := new RawTransport([]);
    var writer := new FramedTransport(out);
    var empty: seq<byte> := [];
    assert PackI32(|empty|) == Ok([0, 0, 0, 0]);
    assert [0, 0, 0, 0] + empty == [0, 0, 0, 0];
    var f := writer.Flush();
    wire := out.sent;
  }
}
