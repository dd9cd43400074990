/** The in-memory byte file (`BufferIO`, Python's `io.BytesIO`) every
    transport uses for its buffers: the bytes held and a position into them.
    Reading advances the position; writing overwrites from the position on. */
module BufferIO {
  import opened Bytes
  import opened Errors

  datatype Buffer = Buffer(data: seq<byte>, pos: nat)

  /** `BufferIO(value)`: a buffer to read `value` from, positioned at its start. */
  function New(value: seq<byte>): Buffer
  {
    Buffer(value, 0)
  }

  /** `BufferIO()`: an empty buffer. */
  const Empty: Buffer := Buffer([], 0)

  /** A buffer in append position: each write goes to its end. */
  predicate AtEnd(b: Buffer)
  {
    b.pos == |b.data|
  }

  /** The bytes a read can still return. */
  function Remaining(b: Buffer): seq<byte>
  {
    if b.pos < |b.data| then b.data[b.pos..] else []
  }

  /** `b.read(n)`: the next `n` bytes, fewer at the end of the data, and all
      that is left when `n` is negative; the position moves past them. */
  function Read(b: Buffer, n: int): (r: (seq<byte>, Buffer))
    ensures r.0 + Remaining(r.1) == Remaining(b)
    ensures r.1.data == b.data && r.1.pos == b.pos + |r.0|
    ensures n >= 0 ==> |r.0| == Min(n, |Remaining(b)|)
    ensures n < 0 || n >= |Remaining(b)| ==> r.0 == Remaining(b)
  {
    var avail := Remaining(b);
    var k := if n < 0 || n > |avail| then |avail| else n;
    assert avail[..k] + avail[k..] == avail;
    (avail[..k], Buffer(b.data, b.pos + k))
  }

  function Zeros(n: nat): (z: seq<byte>)
    ensures |z| == n
    ensures forall i | 0 <= i < n :: z[i] == 0
  {
    if n == 0 then [] else [0] + Zeros(n - 1)
  }

  /** `b.write(v)`: a `str` raises `TypeError`; bytes overwrite the data from
      the position on (a position past the end is first padded with zero
      bytes), and the position moves past them. */
  function Write(b: Buffer, v: PyValue): (r: Result<Buffer>)
    ensures r.Ok? <==> v.Bytes?
    ensures r.Fail? ==> r.error == TypeError
    ensures r.Ok? && v.bytes != [] ==>
      r.value.pos == b.pos + |v.bytes| <= |r.value.data| && r.value.data[b.pos..r.value.pos] == v.bytes
    ensures r.Ok? && v.bytes != [] ==> |r.value.data| == Max(|b.data|, r.value.pos)
    ensures r.Ok? && v.bytes != [] ==>
      forall i | 0 <= i < |r.value.data| && !(b.pos <= i < r.value.pos) ::
        r.value.data[i] == if i < |b.data| then b.data[i] else 0
    ensures r.Ok? && v.bytes == [] ==> r.value == b
    ensures r.Ok? && AtEnd(b) ==> r.value == Buffer(b.data + v.bytes, |b.data| + |v.bytes|)
  {
    match v
    case Str(_) => Fail(TypeError)
    case Bytes(s) =>
      if s == [] then Ok(b)
      else
        var head := if b.pos <= |b.data| then b.data[..b.pos] else b.data + Zeros(b.pos - |b.data|);
        var tail := if b.pos + |s| < |b.data| then b.data[b.pos + |s|..] else [];
        Ok(Buffer(head + s + tail, b.pos + |s|))
  }

  /** `b.seek(offset)`: the data stays; a later read starts at `offset`,
      and returns nothing when `offset` is at or past the end. */
  function Seek(b: Buffer, offset: nat): (r: Buffer)
    ensures r.data == b.data && r.pos == offset
    ensures Remaining(r) == if offset < |b.data| then b.data[offset..] else []
  {
    Buffer(b.data, offset)
  }

  /** Writing each of `values` in turn, stopping at the first failure. */
  function WriteAll(b: Buffer, values: seq<PyValue>): Result<Buffer>
    decreases |values|
  {
    if values == [] then Ok(b)
    else match Write(b, values[0])
      case Fail(e) => Fail(e)
      case Ok(b') => WriteAll(b', values[1..])
  }

  function BytesOf(values: seq<PyValue>): seq<seq<byte>>
    requires forall i | 0 <= i < |values| :: values[i].Bytes?
  {
    if values == [] then [] else [values[0].bytes] + BytesOf(values[1..])
  }

  /** Successive byte writes to a buffer in append position leave it holding
      its old data followed by every write in order, and still in append position. */
  lemma {:induction false} WriteAllAppends(b: Buffer, values: seq<PyValue>)
    requires AtEnd(b)
    requires forall i | 0 <= i < |values| :: values[i].Bytes?
    ensures WriteAll(b, values).Ok?
    ensures WriteAll(b, values).value.data == b.data + Concat(BytesOf(values))
    ensures AtEnd(WriteAll(b, values).value)
    decreases |values|
  {
    if values != [] {
      var b' := Write(b, values[0]).value;
      WriteAllAppends(b', values[1..]);
      assert b.data + Concat(BytesOf(values)) == b'.data + Concat(BytesOf(values[1..]));
    }
  }

  /** A read that takes everything left stops at the end of the data, so the
      next write appends to it: `BytesIO(b"hello")`, `read(10)`, then
      `write(b"X")` holds `b"helloX"`. */
  lemma ReadToEndThenWrite(b: Buffer, n: int, s: seq<byte>)
    requires b.pos <= |b.data| && (n < 0 || n >= |Remaining(b)|)
    ensures Write(Read(b, n).1, Bytes(s)) == Ok(Buffer(b.data + s, |b.data| + |s|))
  {
  }

  /** Two successive reads of non-negative sizes return what one read of
      their total size returns. */
  lemma ReadSplits(b: Buffer, m: nat, n: nat)
    ensures var (first, b1) := Read(b, m);
            var (second, b2) := Read(b1, n);
            first + second == Read(b, m + n).0 && b2 == Read(b, m + n).1
  {
    var (first, b1) := Read(b, m);
    var (second, b2) := Read(b1, n);
    var all := Remaining(b);
    assert first == all[..|first|];
    assert Remaining(b1) == all[|first|..];
    assert first + second == all[..|first| + |second|];
  }
}
