/** `TBufferedTransport`: wraps a transport, holds every write until `flush`
    sends them in one inner write, and serves reads from a read buffer; on a
    miss the read buffer is refilled by one inner read that asks for
    `max(sz, rbufSize)` bytes, and holds whatever that read returns. */
module Buffered {
  import opened Bytes
  import opened Errors
  import BufferIO
  import opened Transport

  /** The read-buffer size used when none is given. */
  const DefaultBuffer: int := 4096

  class BufferedTransport {
    const trans: RawTransport
    const rbufSize: int
    var wbuf: BufferIO.Buffer
    var rbuf: BufferIO.Buffer
    /** The writes accepted since the last `flush` or failed `write`. */
    ghost var pending: seq<seq<byte>>

    ghost predicate Valid()
      reads this
    {
      BufferIO.AtEnd(wbuf) && wbuf.data == Concat(pending)
    }

    constructor (trans: RawTransport, rbufSize: int := DefaultBuffer)
      ensures Valid() && this.trans == trans && this.rbufSize == rbufSize
      ensures pending == [] && rbuf == BufferIO.New([])
    {
      this.trans := trans;
      this.rbufSize := rbufSize;
      wbuf := BufferIO.Empty;
      rbuf := BufferIO.New([]);
      pending := [];
    }

    method IsOpen() returns (b: bool)
      ensures b == trans.isOpen
    {
      b := trans.IsOpen();
    }

    method Open()
      modifies trans
      ensures trans.isOpen && trans.sent == old(trans.sent) + [Opened]
      ensures trans.input == old(trans.input) && trans.calls == old(trans.calls)
    {
      trans.Open();
    }

    method Close()
      modifies trans
      ensures !trans.isOpen && trans.sent == old(trans.sent) + [Closed]
      ensures trans.input == old(trans.input) && trans.calls == old(trans.calls)
    {
      trans.Close();
    }

    /** `read(sz)`: bytes from the read buffer when it yields any; otherwise
        one inner `read` of `max(sz, rbufSize)` bytes becomes the new read
        buffer and the answer comes from it. No byte is lost or reordered,
        except that `read(0)` drops what the old read buffer had left. */
    method Read(sz: int) returns (r: seq<byte>)
      requires Valid()
      modifies this, trans
      ensures Valid() && wbuf == old(wbuf) && pending == old(pending)
      ensures sz >= 0 ==> |r| <= sz
      ensures BufferIO.Read(old(rbuf), sz).0 != [] ==>
        r == BufferIO.Read(old(rbuf), sz).0 && rbuf == BufferIO.Read(old(rbuf), sz).1 &&
        trans.input == old(trans.input) && trans.calls == old(trans.calls)
      ensures BufferIO.Read(old(rbuf), sz).0 == [] ==>
        |trans.calls| == |old(trans.calls)| + 1 && trans.calls[..|old(trans.calls)|] == old(trans.calls) &&
        trans.calls[|old(trans.calls)|].size == Max(sz, rbufSize) &&
        old(trans.input) == trans.calls[|old(trans.calls)|].got + trans.input &&
        (r, rbuf) == BufferIO.Read(BufferIO.New(trans.calls[|old(trans.calls)|].got), sz)
      ensures sz != 0 ==>
        r + BufferIO.Remaining(rbuf) + trans.input == BufferIO.Remaining(old(rbuf)) + old(trans.input)
      ensures trans.sent == old(trans.sent) && trans.isOpen == old(trans.isOpen)
    {
      ghost var before := BufferIO.Remaining(rbuf);
      var (ret, next) := BufferIO.Read(rbuf, sz);
      rbuf := next;
      if |ret| != 0 {
        assert ret + BufferIO.Remaining(rbuf) == before;
        return ret;
      }
      assert sz != 0 ==> before == [];
      var chunk := trans.Read(Max(sz, rbufSize));
      rbuf := BufferIO.New(chunk);
      assert BufferIO.Remaining(rbuf) == chunk;
      var (served, rest) := BufferIO.Read(rbuf, sz);
      r, rbuf := served, rest;
      assert r + BufferIO.Remaining(rbuf) == chunk;
    }

    /** `write(v)`: appends to the write buffer and nothing else; when the
        append fails the write buffer is emptied and the error re-raised. */
    method Write(v: PyValue) returns (r: Result<()>)
      requires Valid()
      modifies this
      ensures Valid() && rbuf == old(rbuf)
      ensures v.Bytes? ==> r == Ok(()) && pending == old(pending) + [v.bytes]
      ensures v.Str? ==> r == Fail(TypeError) && pending == [] && wbuf == BufferIO.Empty
    {
      match BufferIO.Write(wbuf, v)
      case Ok(b) =>
        ConcatSnoc(pending, v.bytes);
        wbuf := b;
        pending := pending + [v.bytes];
        return Ok(());
      case Fail(e) =>
        wbuf := BufferIO.Empty;
        pending := [];
        return Fail(e);
    }

    /** `flush()`: one inner write carrying every write since the last flush,
        concatenated, then one inner flush; the write buffer is left empty. */
    method Flush()
      requires Valid()
      modifies this, trans
      ensures Valid() && pending == [] && wbuf == BufferIO.Empty && rbuf == old(rbuf)
      ensures trans.sent == old(trans.sent) + [Wrote(Concat(old(pending))), Flushed]
      ensures trans.input == old(trans.input) && trans.calls == old(trans.calls)
      ensures trans.isOpen == old(trans.isOpen)
    {
      var out := wbuf.data;
      wbuf := BufferIO.Empty;
      pending := [];
      trans.Write(out);
      trans.Flush();
    }

    /** `cstringio_refill(partial, reqlen)`: the new read buffer starts with
        `partial` and holds at least `reqlen` bytes. When `reqlen < rbufSize`
        one inner `read(rbufSize)` first over-reads opportunistically; any
        shortfall is then read exactly with `readAll`, whose `EOFError`
        propagates (leaving the read buffer as it was) exactly when the peer
        has too few bytes left. */
    method CStringIORefill(partial: seq<byte>, reqlen: int) returns (r: Result<seq<byte>>)
      requires Valid()
      modifies this, trans
      ensures Valid() && wbuf == old(wbuf) && pending == old(pending)
      ensures r.Ok? <==> |partial| + |old(trans.input)| >= reqlen
      ensures r.Ok? ==>
        |r.value| >= reqlen && partial <= r.value &&
        old(trans.input) == r.value[|partial|..] + trans.input && rbuf == BufferIO.New(r.value)
      ensures r.Ok? && reqlen >= rbufSize ==> |r.value| == Max(|partial|, reqlen)
      ensures r.Fail? ==> r.error == EOFError && trans.input == [] && rbuf == old(rbuf)
      ensures old(trans.calls) <= trans.calls
      ensures reqlen < rbufSize ==>
        |trans.calls| > |old(trans.calls)| && trans.calls[|old(trans.calls)|].size == rbufSize &&
        ReadAllLog(trans.calls[|old(trans.calls)| + 1..],
                   reqlen - |partial| - |trans.calls[|old(trans.calls)|].got|, r.Fail?) &&
        (r.Ok? ==> |r.value| == Max(|partial| + |trans.calls[|old(trans.calls)|].got|, reqlen))
      ensures reqlen >= rbufSize ==> ReadAllLog(trans.calls[|old(trans.calls)|..], reqlen - |partial|, r.Fail?)
      ensures trans.sent == old(trans.sent) && trans.isOpen == old(trans.isOpen)
    {
      var retstring := partial;
      if reqlen < rbufSize {
        var chunk := trans.Read(rbufSize);
        retstring := retstring + chunk;
      }
      ghost var before, mid := retstring, trans.calls;
      assert old(trans.input) == retstring[|partial|..] + trans.input;
      var topped := TopUp(retstring, reqlen);
      if topped.Fail? {
        return Fail(topped.error);
      }
      retstring := topped.value;
      assert retstring[|partial|..] == before[|partial|..] + retstring[|before|..];
      rbuf := BufferIO.New(retstring);
      return Ok(retstring);
    }

    /** The second half of `cstringio_refill`: when `have` falls short of
        `reqlen`, `readAll` reads exactly the shortfall, and its `EOFError`
        propagates; otherwise nothing is read. */
    method TopUp(have: seq<byte>, reqlen: int) returns (r: Result<seq<byte>>)
      modifies trans
      ensures r.Ok? <==> |have| + |old(trans.input)| >= reqlen
      ensures r.Ok? ==>
        have <= r.value && |r.value| == Max(|have|, reqlen) &&
        old(trans.input) == r.value[|have|..] + trans.input
      ensures r.Fail? ==> r.error == EOFError && trans.input == []
      ensures old(trans.calls) <= trans.calls
      ensures ReadAllLog(trans.calls[|old(trans.calls)|..], reqlen - |have|, r.Fail?)
      ensures trans.sent == old(trans.sent) && trans.isOpen == old(trans.isOpen)
    {
      if |have| >= reqlen {
        assert trans.calls[|trans.calls|..] == [];
        return Ok(have);
      }
      var more := trans.ReadAll(reqlen - |have|);
      if more.Fail? {
        return Fail(more.error);
      }
      assert (have + more.value)[|have|..] == more.value;
      return Ok(have + more.value);
    }
  }
}
