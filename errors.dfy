/** The failures the transport layer raises, as values. */
module Errors {
  import opened Bytes

  datatype Option<+T> = None | Some(value: T)

  /** The `type` field of a `TTransportException`. */
  datatype ExceptionType =
    | Unknown | NotOpen | AlreadyOpen | TimedOut | EndOfFile | NegativeSize | SizeLimit

  /** The numeric code Python gives each exception type. */
  function Code(t: ExceptionType): (c: int)
    ensures 0 <= c <= 6
  {
    match t
    case Unknown => 0
    case NotOpen => 1
    case AlreadyOpen => 2
    case TimedOut => 3
    case EndOfFile => 4
    case NegativeSize => 5
    case SizeLimit => 6
  }

  /** The exception type a numeric code stands for, if any. */
  function TypeOfCode(c: int): (r: Option<ExceptionType>)
    ensures r.Some? <==> 0 <= c <= 6
    ensures r.Some? ==> Code(r.value) == c
  {
    if c == 0 then Some(Unknown)
    else if c == 1 then Some(NotOpen)
    else if c == 2 then Some(AlreadyOpen)
    else if c == 3 then Some(TimedOut)
    else if c == 4 then Some(EndOfFile)
    else if c == 5 then Some(NegativeSize)
    else if c == 6 then Some(SizeLimit)
    else None
  }

  /** Distinct exception types carry distinct codes, so a code identifies its type. */
  lemma CodeRoundTrip(t: ExceptionType)
    ensures TypeOfCode(Code(t)) == Some(t)
  {
    match t
    case Unknown =>
    case NotOpen =>
    case AlreadyOpen =>
    case TimedOut =>
    case EndOfFile =>
    case NegativeSize =>
    case SizeLimit =>
  }

  /** Why a `TTransportException` was raised: the SASL handshake raises
      `NOT_OPEN` either because the server claimed completion too early or
      because it answered with a status other than OK or COMPLETE. */
  datatype Reason = PrematureComplete | BadStatus(status: int, payload: seq<byte>)

  datatype Error =
    | EOFError                 // a read returned no bytes before the count was met
    | TypeError                // a `str` where bytes were expected
    | ValueError               // I/O on a closed in-memory buffer
    | StructError              // `struct.pack` given a value outside its field
    | TransportException(kind: ExceptionType, reason: Reason)

  datatype Result<+T> = Ok(value: T) | Fail(error: Error)
  {
    predicate IsFailure() { Fail? }

    function PropagateFailure<U>(): Result<U>
      requires Fail?
    {
      Fail(error)
    }

    function Extract(): T
      requires Ok?
    {
      value
    }
  }
}
