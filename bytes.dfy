/** Byte strings as the transport layer handles them. */
module Bytes {

  /** One octet of a Python `bytes` value. */
  type byte = b: int | 0 <= b < 256

  /** What a caller may hand to a `write` call. Python does not check the
      argument's type; the buffers accept only bytes-like values, and a `str`
      makes them raise `TypeError`. */
  datatype PyValue = Bytes(bytes: seq<byte>) | Str(text: string)

  function Max(a: int, b: int): int { if a < b then b else a }

  function Min(a: int, b: int): int { if a < b then a else b }

  /** The byte strings of `parts` joined in order. */
  function Concat(parts: seq<seq<byte>>): seq<byte>
  {
    if parts == [] then [] else parts[0] + Concat(parts[1..])
  }

  lemma {:induction false} ConcatSnoc(parts: seq<seq<byte>>, last: seq<byte>)
    ensures Concat(parts + [last]) == Concat(parts) + last
  {
    if parts == [] {
      assert parts + [last] == [last];
    } else {
      assert (parts + [last])[1..] == parts[1..] + [last];
      ConcatSnoc(parts[1..], last);
    }
  }

  lemma AppendAssoc<T>(a: seq<T>, b: seq<T>, c: seq<T>)
    ensures a + b + c == a + (b + c)
  {
  }
}
