/** `TMemoryBuffer`: a transport over one in-memory buffer. Built from a seed
    value it is read from that value (from an optional offset on); built
    without one it collects what is written. It has no producer behind it, so
    it can never be refilled. */
module Memory {
  import opened Bytes
  import opened Errors
  import BufferIO

  class MemoryBuffer {
    var buffer: BufferIO.Buffer
    var closed: bool

    /** `TMemoryBuffer(value, offset)`: `None` gives an empty buffer to write
        to; a non-zero offset seeks there before anything is read or written. */
    constructor (value: Option<seq<byte>>, offset: nat)
      ensures buffer.data == (if value.Some? then value.value else [])
      ensures buffer.pos == offset && !closed
    {
      var b := if value.Some? then BufferIO.New(value.value) else BufferIO.Empty;
      if offset != 0 {
        b := BufferIO.Seek(b, offset);
      }
      buffer := b;
      closed := false;
    }

    method IsOpen() returns (b: bool)
      ensures b == !closed
    {
      b := !closed;
    }

    method Close()
      modifies this
      ensures closed && buffer == old(buffer)
    {
      closed := true;
    }

    /** `read(sz)`: the next `sz` bytes of the buffer, fewer (possibly none)
        at its end; a closed buffer raises `ValueError`. */
    method Read(sz: int) returns (r: Result<seq<byte>>)
      modifies this
      ensures closed == old(closed)
      ensures old(closed) ==> r == Fail(ValueError) && buffer == old(buffer)
      ensures !old(closed) ==> r == Ok(BufferIO.Read(old(buffer), sz).0) && buffer == BufferIO.Read(old(buffer), sz).1
    {
      if closed {
        return Fail(ValueError);
      }
      var (bytes, next) := BufferIO.Read(buffer, sz);
      buffer := next;
      return Ok(bytes);
    }

    /** `write(v)`: a closed buffer raises `ValueError`, a `str` raises
        `TypeError`; bytes are written at the position. */
    method Write(v: PyValue) returns (r: Result<()>)
      modifies this
      ensures closed == old(closed)
      ensures old(closed) ==> r == Fail(ValueError) && buffer == old(buffer)
      ensures !old(closed) && v.Str? ==> r == Fail(TypeError) && buffer == old(buffer)
      ensures !old(closed) && v.Bytes? ==> r == Ok(()) && buffer == BufferIO.Write(old(buffer), v).value
    {
      if closed {
        return Fail(ValueError);
      }
      var b :- BufferIO.Write(buffer, v);
      buffer := b;
      return Ok(());
    }

    /** `getvalue()`: everything the buffer holds, whatever the position. */
    method GetValue() returns (r: Result<seq<byte>>)
      ensures r == if closed then Fail(ValueError) else Ok(buffer.data)
    {
      if closed {
        return Fail(ValueError);
      }
      return Ok(buffer.data);
    }

    /** `cstringio_refill`: there is never more to read. */
    method CStringIORefill(partial: seq<byte>, reqlen: int) returns (r: Result<BufferIO.Buffer>)
      ensures r == Fail(EOFError)
    {
      return Fail(EOFError);
    }
  }

  /** A buffer seeded with "hello": reading 3, then 10, then 1 bytes gives
      "hel", then "lo", then nothing. */
  method HelloScenario() returns (first: Result<seq<byte>>, second: Result<seq<byte>>, third: Result<seq<byte>>)
    ensures first == Ok([104, 101, 108])
    ensures second == Ok([108, 111])
    ensures third == Ok([])
  {
    var hello: seq<byte> := [104, 101, 108, 108, 111];
    var m := new MemoryBuffer(Some(hello), 0);
    assert BufferIO.Remaining(m.buffer) == hello;
    first := m.Read(3);
    assert hello[..3] == [104, 101, 108];
    assert BufferIO.Remaining(m.buffer) == hello[3..] == [108, 111];
    second := m.Read(10);
    assert BufferIO.Remaining(m.buffer) == [];
    third := m.Read(1);
  }

  /** A buffer built for writing returns from `getvalue` exactly what was
      written, in order. */
  method WriteThenGetValue(writes: seq<seq<byte>>) returns (r: Result<seq<byte>>)
    ensures r == Ok(Concat(writes))
  {
    var m := new MemoryBuffer(None, 0);
    var i := 0;
    while i < |writes|
      invariant 0 <= i <= |writes|
      invariant !m.closed
      invariant m.buffer == BufferIO.Buffer(Concat(writes[..i]), |Concat(writes[..i])|)
    {
      var w := m.Write(Bytes(writes[i]));
      ConcatSnoc(writes[..i], writes[i]);
      assert writes[..i + 1] == writes[..i] + [writes[i]];
      i := i + 1;
    }
    assert writes[..i] == writes;
    r := m.GetValue();
  }

  /** A buffer seeded with a value returns the value unchanged when read in
      full, in one call of its length, and nothing after that. */
  method ReadSeed(value: seq<byte>) returns (r: Result<seq<byte>>, after: Result<seq<byte>>)
    ensures r == Ok(value)
    ensures after == Ok([])
  {
    var m := new MemoryBuffer(Some(value), 0);
    assert BufferIO.Remaining(m.buffer) == value;
    r := m.Read(|value|);
    assert BufferIO.Remaining(m.buffer) == [];
    after := m.Read(1);
  }
}
