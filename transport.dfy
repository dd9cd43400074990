/** The transport contract's one piece of shared logic, `readAll`, and the
    transport every wrapper stacks on: a raw connection to a peer. The peer's
    bytes are fixed in advance (`input`); a `read` delivers some prefix of
    what is left, and for a positive size it returns nothing only once the
    peer has nothing left to send. What the wrappers send is logged in `sent`, and
    every `read` call, with the size asked for and the bytes it got, in `calls`. */
module Transport {
  import opened Bytes
  import opened Errors

  /** What reaches the peer, in order. */
  datatype Event = Opened | Closed | Wrote(bytes: seq<byte>) | Flushed

  /** One `read(size)` call and the bytes it returned. */
  datatype ReadCall = ReadCall(size: int, got: seq<byte>)

  /** The bytes returned by a run of `read` calls, in order. */
  function Received(calls: seq<ReadCall>): seq<byte>
  {
    if calls == [] then [] else Received(calls[..|calls| - 1]) + calls[|calls| - 1].got
  }

  lemma {:induction false} ReceivedFirst(calls: seq<ReadCall>)
    requires calls != []
    ensures Received(calls) == calls[0].got + Received(calls[1..])
    decreases |calls|
  {
    if |calls| > 1 {
      var front := calls[..|calls| - 1];
      ReceivedFirst(front);
      assert front[1..] == calls[1..][..|calls[1..]| - 1];
    }
  }

  /** The calls `made` by one `readAll(sz)`: each asks for exactly the bytes
      still missing, the first for `sz` and each later one for `sz` less what
      the earlier ones returned, and only while some are missing; the first
      call that returns nothing is the last, and it ends in `EOFError`
      (`eof`); otherwise every call returns bytes. */
  predicate ReadAllLog(made: seq<ReadCall>, sz: int, eof: bool)
    decreases |made|
  {
    if made == [] then !eof
    else
      0 < sz && made[0].size == sz &&
      if made[0].got == [] then eof && |made| == 1
      else ReadAllLog(made[1..], sz - |made[0].got|, eof)
  }

  /** A call asking for what is still missing extends a log without EOF;
      the log ends in EOF exactly when that call returns nothing. */
  lemma {:induction false} ReadAllLogSnoc(made: seq<ReadCall>, call: ReadCall, sz: int)
    requires ReadAllLog(made, sz, false) && 0 < call.size == sz - |Received(made)|
    ensures ReadAllLog(made + [call], sz, call.got == [])
    decreases |made|
  {
    if made != [] {
      ReceivedFirst(made);
      ReadAllLogSnoc(made[1..], call, sz - |made[0].got|);
      assert (made + [call])[1..] == made[1..] + [call];
    }
  }

  /** Every call of a `readAll(sz)` asks for at least one byte and at most `sz`. */
  lemma {:induction false} ReadAllLogSizes(made: seq<ReadCall>, sz: int, eof: bool)
    requires ReadAllLog(made, sz, eof)
    ensures forall i | 0 <= i < |made| :: 0 < made[i].size <= sz
    decreases |made|
  {
    if made != [] && made[0].got != [] {
      ReadAllLogSizes(made[1..], sz - |made[0].got|, eof);
      forall i | 0 <= i < |made| ensures 0 < made[i].size <= sz {
        if i > 0 {
          assert made[i] == made[1..][i - 1];
        }
      }
    }
  }

  class RawTransport {
    var input: seq<byte>
    var sent: seq<Event>
    var calls: seq<ReadCall>
    var isOpen: bool

    constructor (incoming: seq<byte>)
      ensures input == incoming && sent == [] && calls == [] && !isOpen
    {
      input := incoming;
      sent := [];
      calls := [];
      isOpen := false;
    }

    method IsOpen() returns (b: bool)
      ensures b == isOpen
    {
      b := isOpen;
    }

    method Open()
      modifies this
      ensures isOpen && sent == old(sent) + [Opened]
      ensures input == old(input) && calls == old(calls)
    {
      isOpen := true;
      sent := sent + [Opened];
    }

    method Close()
      modifies this
      ensures !isOpen && sent == old(sent) + [Closed]
      ensures input == old(input) && calls == old(calls)
    {
      isOpen := false;
      sent := sent + [Closed];
    }

    /** `read(n)`: at most `n` bytes, and at least one while the peer has
        bytes left and `n` is positive. How many is not determined. */
    method Read(n: int) returns (chunk: seq<byte>)
      modifies this
      ensures old(input) == chunk + input
      ensures |chunk| <= Max(n, 0)
      ensures n > 0 && old(input) != [] ==> chunk != []
      ensures calls == old(calls) + [ReadCall(n, chunk)]
      ensures sent == old(sent) && isOpen == old(isOpen)
    {
      var k: int;
      if n <= 0 || input == [] {
        k := 0;
      } else {
        k :| 1 <= k <= n && k <= |input|;
      }
      chunk := input[..k];
      input := input[k..];
      calls := calls + [ReadCall(n, chunk)];
    }

    method Write(bytes: seq<byte>)
      modifies this
      ensures sent == old(sent) + [Wrote(bytes)]
      ensures input == old(input) && calls == old(calls) && isOpen == old(isOpen)
    {
      sent := sent + [Wrote(bytes)];
    }

    method Flush()
      modifies this
      ensures sent == old(sent) + [Flushed]
      ensures input == old(input) && calls == old(calls) && isOpen == old(isOpen)
    {
      sent := sent + [Flushed];
    }

    /** `readAll(sz)`: calls `read` for the bytes still missing until `sz`
        bytes are held, and raises `EOFError` as soon as a read returns
        nothing. However the peer splits its bytes, the outcome is fixed by
        `sz` and the bytes available: the next `sz` bytes, or `EOFError` with
        every byte consumed; for `sz <= 0` nothing is read at all. */
    method ReadAll(sz: int) returns (r: Result<seq<byte>>)
      modifies this
      ensures sz <= 0 ==> r == Ok([]) && input == old(input) && calls == old(calls)
      ensures 0 < sz <= |old(input)| ==> r == Ok(old(input)[..sz]) && input == old(input)[sz..]
      ensures sz > |old(input)| ==> r == Fail(EOFError) && input == []
      ensures old(calls) <= calls
      ensures ReadAllLog(calls[|old(calls)|..], sz, r.Fail?)
      ensures r.Ok? ==> r.value == Received(calls[|old(calls)|..])
      ensures sent == old(sent) && isOpen == old(isOpen)
    {
      var buff: seq<byte> := [];
      var have := 0;
      ghost var made: seq<ReadCall> := [];
      while have < sz
        invariant 0 <= have == |buff|
        invariant sz > 0 ==> have <= sz
        invariant old(input) == buff + input
        invariant calls == old(calls) + made
        invariant sz <= 0 ==> made == []
        invariant ReadAllLog(made, sz, false)
        invariant buff == Received(made)
        invariant sent == old(sent) && isOpen == old(isOpen)
        decreases sz - have
      {
        var chunk := Read(sz - have);
        ghost var call := ReadCall(sz - have, chunk);
        ReadAllLogSnoc(made, call, sz);
        assert (made + [call])[..|made|] == made;
        made := made + [call];
        have := have + |chunk|;
        buff := buff + chunk;
        if |chunk| == 0 {
          assert calls[|old(calls)|..] == made;
          return Fail(EOFError);
        }
      }
      assert calls[|old(calls)|..] == made;
      return Ok(buff);
    }
  }
}
