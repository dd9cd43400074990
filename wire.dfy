/** The fixed-width integer fields of the wire formats, as Python's
    `struct.pack` and `struct.unpack` write and read them: `!i` (a signed
    32-bit big-endian frame length) and `>BI` (a status byte followed by an
    unsigned 32-bit big-endian length). */
module Wire {
  import opened Bytes
  import opened Errors

  const TwoTo31: int := 0x8000_0000
  const TwoTo32: int := 0x1_0000_0000

  /** The four bytes of an unsigned 32-bit value, most significant first. */
  function BigEndian32(n: int): (r: seq<byte>)
    requires 0 <= n < TwoTo32
    ensures |r| == 4
  {
    var q1 := n / 0x100;
    var q2 := q1 / 0x100;
    [q2 / 0x100, q2 % 0x100, q1 % 0x100, n % 0x100]
  }

  /** The unsigned value of four bytes, most significant first. */
  function FromBigEndian32(b: seq<byte>): (n: int)
    requires |b| == 4
    ensures 0 <= n < TwoTo32
  {
    ((b[0] as int * 0x100 + b[1]) * 0x100 + b[2]) * 0x100 + b[3]
  }

  lemma BigEndian32RoundTrip(n: int)
    requires 0 <= n < TwoTo32
    ensures FromBigEndian32(BigEndian32(n)) == n
  {
    var q1 := n / 0x100;
    var q2 := q1 / 0x100;
    assert n == q1 * 0x100 + n % 0x100;
    assert q1 == q2 * 0x100 + q1 % 0x100;
    assert q2 == (q2 / 0x100) * 0x100 + q2 % 0x100;
  }

  lemma FromBigEndian32RoundTrip(b: seq<byte>)
    requires |b| == 4
    ensures BigEndian32(FromBigEndian32(b)) == b
  {
    var q2 := b[0] as int * 0x100 + b[1];
    var q1 := q2 * 0x100 + b[2];
    var n := q1 * 0x100 + b[3];
    assert n / 0x100 == q1 && n % 0x100 == b[3];
    assert q1 / 0x100 == q2 && q1 % 0x100 == b[2];
    assert q2 / 0x100 == b[0] && q2 % 0x100 == b[1];
  }

  /** `pack("!i", n)`: two's complement, big-endian; a value outside the
      signed 32-bit range raises `struct.error`. */
  function PackI32(n: int): (r: Result<seq<byte>>)
    ensures r.Ok? <==> -TwoTo31 <= n < TwoTo31
    ensures r.Ok? ==> |r.value| == 4
    ensures r.Fail? ==> r.error == StructError
  {
    if -TwoTo31 <= n < TwoTo31 then
      Ok(BigEndian32(if n < 0 then n + TwoTo32 else n))
    else
      Fail(StructError)
  }

  /** `unpack("!i", b)` for four bytes. */
  function UnpackI32(b: seq<byte>): (n: int)
    requires |b| == 4
    ensures -TwoTo31 <= n < TwoTo31
    ensures n < 0 <==> b[0] >= 0x80
  {
    var u := FromBigEndian32(b);
    if u >= TwoTo31 then u - TwoTo32 else u
  }

  /** Unpacking inverts packing over the whole signed range ... */
  lemma UnpackPackI32(n: int)
    requires -TwoTo31 <= n < TwoTo31
    ensures UnpackI32(PackI32(n).value) == n
  {
    BigEndian32RoundTrip(if n < 0 then n + TwoTo32 else n);
  }

  /** ... and packing inverts unpacking for every four bytes. */
  lemma PackUnpackI32(b: seq<byte>)
    requires |b| == 4
    ensures PackI32(UnpackI32(b)) == Ok(b)
  {
    FromBigEndian32RoundTrip(b);
  }

  /** `pack(">BI", status, length)`: one status byte, then the length as an
      unsigned 32-bit big-endian value; out-of-range fields raise `struct.error`. */
  function PackStatusLength(status: int, length: int): (r: Result<seq<byte>>)
    ensures r.Ok? <==> 0 <= status < 256 && 0 <= length < TwoTo32
    ensures r.Ok? ==> |r.value| == 5 && r.value[0] == status
    ensures r.Fail? ==> r.error == StructError
  {
    if 0 <= status < 256 && 0 <= length < TwoTo32 then
      Ok([status as byte] + BigEndian32(length))
    else
      Fail(StructError)
  }

  /** `unpack(">BI", b)` for five bytes. */
  function UnpackStatusLength(b: seq<byte>): (r: (int, int))
    requires |b| == 5
    ensures 0 <= r.0 < 256 && 0 <= r.1 < TwoTo32
  {
    (b[0], FromBigEndian32(b[1..]))
  }

  lemma UnpackPackStatusLength(status: int, length: int)
    requires 0 <= status < 256 && 0 <= length < TwoTo32
    ensures UnpackStatusLength(PackStatusLength(status, length).value) == (status, length)
  {
    var h := PackStatusLength(status, length).value;
    assert h[1..] == BigEndian32(length);
    BigEndian32RoundTrip(length);
  }
}
