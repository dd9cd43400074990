/** `TSaslClientTransport`: a SASL (RFC 4422) client handshake carried in
    Thrift's own messages (a status byte, a 4-byte big-endian unsigned length,
    the body), after which traffic is framed as by the framed transport with
    every payload passed through the mechanism's `wrap` on the way out and
    `unwrap` on the way in. */
module Sasl {
  import opened Bytes
  import opened Errors
  import opened Wire
  import BufferIO
  import opened Transport
  import opened Framed

  /** The handshake status codes. */
  const START: int := 1
  const OK: int := 2
  const BAD: int := 3
  const ERROR: int := 4
  const COMPLETE: int := 5

  /** The challenges a mechanism has processed, oldest first; `None` is the
      first step, taken before any challenge arrives. */
  type Challenges = seq<Option<seq<byte>>>

  /** The SASL mechanism the transport drives. Its cryptography is not
      modelled: each response is some function of the challenges processed so
      far, `complete` likewise, and `wrap`/`unwrap` are fixed functions. */
  class SaslMechanism {
    const mechanism: seq<byte>
    const respond: Challenges -> seq<byte>
    const completeAfter: Challenges -> bool
    const wrap: seq<byte> -> seq<byte>
    const unwrap: seq<byte> -> seq<byte>
    var challenges: Challenges
    var disposed: bool

    constructor (mechanism: seq<byte>, respond: Challenges -> seq<byte>, completeAfter: Challenges -> bool,
                 wrap: seq<byte> -> seq<byte>, unwrap: seq<byte> -> seq<byte>)
      ensures this.mechanism == mechanism && this.respond == respond && this.completeAfter == completeAfter
      ensures this.wrap == wrap && this.unwrap == unwrap
      ensures challenges == [] && !disposed
    {
      this.mechanism := mechanism;
      this.respond := respond;
      this.completeAfter := completeAfter;
      this.wrap := wrap;
      this.unwrap := unwrap;
      challenges := [];
      disposed := false;
    }

    /** `complete`: whether negotiation has finished on the client's side. */
    function Complete(): bool
      reads this
    {
      completeAfter(challenges)
    }

    /** `process(challenge)`: the response to the next challenge. */
    method Process(challenge: Option<seq<byte>>) returns (response: seq<byte>)
      modifies this
      ensures challenges == old(challenges) + [challenge] && response == respond(challenges)
      ensures disposed == old(disposed)
    {
      challenges := challenges + [challenge];
      response := respond(challenges);
    }

    method Dispose()
      modifies this
      ensures disposed && challenges == old(challenges)
    {
      disposed := true;
    }
  }

  /** `pack(">BI", status, len(body)) + body`. */
  function SaslMessage(status: int, body: seq<byte>): (r: Result<seq<byte>>)
    ensures r.Ok? <==> 0 <= status < 256 && |body| < TwoTo32
    ensures r.Fail? ==> r.error == StructError
    ensures r.Ok? ==> |r.value| == 5 + |body| && r.value[0] == status && r.value[5..] == body
  {
    match PackStatusLength(status, |body|)
    case Fail(e) => Fail(e)
    case Ok(header) => Ok(header + body)
  }

  /** A received handshake message and the input after it. */
  datatype Message = Message(status: int, payload: seq<byte>, rest: seq<byte>)

  /** What `recv_sasl_msg` takes from `input`: `readAll(5)` for the header,
      then `readAll(length)` for a positive length, and an empty payload
      without any read for length 0. */
  function ParseSaslMessage(input: seq<byte>): (r: Result<Message>)
    ensures r.Fail? <==> |input| < 5 || UnpackStatusLength(input[..5]).1 > |input| - 5
    ensures r.Fail? ==> r.error == EOFError
    ensures r.Ok? ==> r.value.status == input[0] && |r.value.payload| == UnpackStatusLength(input[..5]).1
    ensures r.Ok? ==> r.value.payload == input[5..5 + |r.value.payload|] && r.value.rest == input[5 + |r.value.payload|..]
  {
    if |input| < 5 then Fail(EOFError)
    else
      var (status, length) := UnpackStatusLength(input[..5]);
      var body := input[5..];
      if length > 0 then
        if |body| < length then Fail(EOFError) else Ok(Message(status, body[..length], body[length..]))
      else
        Ok(Message(status, [], body))
  }

  /** A handshake message is received exactly as it was sent, whatever follows it. */
  lemma SaslMessageRoundTrip(status: int, body: seq<byte>, rest: seq<byte>)
    requires 0 <= status < 256 && |body| < TwoTo32
    ensures ParseSaslMessage(SaslMessage(status, body).value + rest) == Ok(Message(status, body, rest))
  {
    var input := SaslMessage(status, body).value + rest;
    assert input[..5] == PackStatusLength(status, |body|).value;
    UnpackPackStatusLength(status, |body|);
    assert input[5..] == body + rest;
    assert (body + rest)[..|body|] == body;
    assert (body + rest)[|body|..] == rest;
  }

  /** The client's move on a received status. */
  datatype Step = Respond | Finish | Reject(reason: Reason)

  /** OK asks for another response; COMPLETE ends the handshake if the
      mechanism agrees it is complete and is a protocol violation otherwise;
      every other status is a protocol violation. */
  function Decide(status: int, payload: seq<byte>, complete: bool): Step
  {
    if status == OK then Respond
    else if status == COMPLETE then (if complete then Finish else Reject(PrematureComplete))
    else Reject(BadStatus(status, payload))
  }

  /** The client answers OK, and only OK; it finishes on COMPLETE exactly when
      the mechanism is complete and rejects COMPLETE as premature exactly when
      it is not; any other status is rejected with that status and payload. */
  lemma DecideCases(status: int, payload: seq<byte>, complete: bool)
    ensures var s := Decide(status, payload, complete);
      (s == Respond <==> status == OK) &&
      (s == Finish <==> status == COMPLETE && complete) &&
      (s == Reject(PrematureComplete) <==> status == COMPLETE && !complete) &&
      (s.Reject? && status != COMPLETE ==> s.reason == BadStatus(status, payload))
  {
  }

  /** The course of a handshake: its outcome, the events it sent, the
      challenges the mechanism processed and the input left. */
  datatype Trace = Trace(outcome: Result<()>, sent: seq<Event>, challenges: Challenges, rest: seq<byte>)

  /** One turn of the loop in `open`: it either stops with an outcome or
      answers with an OK message, given the challenges processed so far. */
  datatype Round =
    | Stop(outcome: Result<()>, challenges: Challenges, rest: seq<byte>)
    | Answer(reply: seq<byte>, challenges: Challenges, rest: seq<byte>)

  /** One iteration of the `while True` loop of `open`: receive a message,
      then finish, fail, or process the challenge and answer it. */
  function PlayRound(m: SaslMechanism, input: seq<byte>, challenges: Challenges): (r: Round)
    ensures r.Answer? ==> |r.rest| + 5 <= |input|
  {
    match ParseSaslMessage(input)
    case Fail(e) => Stop(Fail(e), challenges, [])
    case Ok(msg) =>
      match Decide(msg.status, msg.payload, m.completeAfter(challenges))
      case Finish => Stop(Ok(()), challenges, msg.rest)
      case Reject(reason) => Stop(Fail(TransportException(NotOpen, reason)), challenges, msg.rest)
      case Respond =>
        var after := challenges + [Some(msg.payload)];
        match SaslMessage(OK, m.respond(after))
        case Fail(e) => Stop(Fail(e), after, msg.rest)
        case Ok(reply) => Answer(reply, after, msg.rest)
  }

  /** The `while True` loop of `open`, from the first received message on:
      rounds are played until one stops, each answer being written and flushed. */
  function Exchange(m: SaslMechanism, input: seq<byte>, challenges: Challenges): Trace
    decreases |input|
  {
    match PlayRound(m, input, challenges)
    case Stop(outcome, after, rest) => Trace(outcome, [], after, rest)
    case Answer(reply, after, rest) =>
      var t := Exchange(m, rest, after);
      Trace(t.outcome, [Wrote(reply), Flushed] + t.sent, t.challenges, t.rest)
  }

  /** The loop stops at a round that stops, with that round's outcome. */
  lemma ExchangeStops(m: SaslMechanism, input: seq<byte>, challenges: Challenges)
    requires PlayRound(m, input, challenges).Stop?
    ensures var p := PlayRound(m, input, challenges);
      Exchange(m, input, challenges) == Trace(p.outcome, [], p.challenges, p.rest)
  {
  }

  /** The loop goes on after a round that answers, the answer sent first. */
  lemma ExchangeGoesOn(m: SaslMechanism, input: seq<byte>, challenges: Challenges)
    requires PlayRound(m, input, challenges).Answer?
    ensures var p := PlayRound(m, input, challenges);
      var t := Exchange(m, p.rest, p.challenges);
      Exchange(m, input, challenges) == Trace(t.outcome, [Wrote(p.reply), Flushed] + t.sent, t.challenges, t.rest)
  {
  }

  /** A run of OK messages, each written and then flushed. */
  predicate OkAnswers(sent: seq<Event>)
    decreases |sent|
  {
    sent == [] ||
    (|sent| >= 2 && sent[0].Wrote? && |sent[0].bytes| >= 5 && sent[0].bytes[0] == OK &&
     sent[1] == Flushed && OkAnswers(sent[2..]))
  }

  /** The whole of `open` once the inner transport is open: START with the
      mechanism name, OK with the mechanism's first response, then the loop. */
  function Handshake(m: SaslMechanism, input: seq<byte>, challenges: Challenges): Trace
  {
    match SaslMessage(START, m.mechanism)
    case Fail(e) => Trace(Fail(e), [], challenges, input)
    case Ok(start) =>
      var first := challenges + [None];
      match SaslMessage(OK, m.respond(first))
      case Fail(e) => Trace(Fail(e), [Wrote(start), Flushed], first, input)
      case Ok(initial) =>
        var t := Exchange(m, input, first);
        Trace(t.outcome, [Wrote(start), Flushed, Wrote(initial), Flushed] + t.sent, t.challenges, t.rest)
  }

  /** One round reads a prefix of the input (all of it on `EOFError`), adds
      at most the one challenge it received, answers only with an OK
      message, and stops successfully only on a completed mechanism. */
  lemma PlayRoundShape(m: SaslMechanism, input: seq<byte>, challenges: Challenges)
    ensures var r := PlayRound(m, input, challenges);
      |r.rest| <= |input| && r.rest == input[|input| - |r.rest|..] &&
      challenges <= r.challenges && |r.challenges| <= |challenges| + 1 &&
      (|r.challenges| > |challenges| ==> r.challenges[|challenges|].Some?) &&
      (r.Answer? ==> |r.challenges| == |challenges| + 1 && |r.reply| >= 5 && r.reply[0] == OK) &&
      (r.Stop? && r.outcome.Ok? ==> r.challenges == challenges && m.completeAfter(challenges)) &&
      (r.Stop? && r.outcome == Fail(EOFError) ==> r.rest == [])
  {
  }

  /** Whatever the server sends, the loop reads its input front to back, and
      an `EOFError` means the input ran out. */
  lemma {:induction false} ExchangeReadsForward(m: SaslMechanism, input: seq<byte>, challenges: Challenges)
    ensures var t := Exchange(m, input, challenges);
      |t.rest| <= |input| && t.rest == input[|input| - |t.rest|..] &&
      (t.outcome == Fail(EOFError) ==> t.rest == [])
    decreases |input|
  {
    PlayRoundShape(m, input, challenges);
    var r := PlayRound(m, input, challenges);
    if r.Answer? {
      ExchangeReadsForward(m, r.rest, r.challenges);
    }
  }

  /** The loop only adds challenges the server sent, and sends only OK
      answers, each flushed; it succeeds only once the mechanism reports
      completion, having answered every challenge it processed. */
  lemma {:induction false} ExchangeAnswers(m: SaslMechanism, input: seq<byte>, challenges: Challenges)
    ensures var t := Exchange(m, input, challenges);
      challenges <= t.challenges &&
      (forall i | |challenges| <= i < |t.challenges| :: t.challenges[i].Some?) &&
      OkAnswers(t.sent) &&
      (t.outcome.Ok? ==> m.completeAfter(t.challenges) && |t.sent| == 2 * (|t.challenges| - |challenges|))
    decreases |input|
  {
    PlayRoundShape(m, input, challenges);
    var r := PlayRound(m, input, challenges);
    if r.Answer? {
      ExchangeAnswers(m, r.rest, r.challenges);
      var t := Exchange(m, r.rest, r.challenges);
      var sent: seq<Event> := [Wrote(r.reply), Flushed] + t.sent;
      assert sent[2..] == t.sent;
    }
  }

  /** `open` first sends START with the mechanism name and OK with the
      mechanism's first response, each flushed; a name too long for the
      length field fails before anything is sent. After that only OK answers
      go out, and success means the mechanism reports completion. */
  lemma HandshakeShape(m: SaslMechanism, input: seq<byte>, challenges: Challenges)
    ensures var t := Handshake(m, input, challenges);
      (SaslMessage(START, m.mechanism).Fail? ==> t == Trace(Fail(StructError), [], challenges, input)) &&
      (t.outcome.Ok? ==>
        SaslMessage(START, m.mechanism).Ok? && SaslMessage(OK, m.respond(challenges + [None])).Ok? &&
        t.sent[..4] == [Wrote(SaslMessage(START, m.mechanism).value), Flushed,
                        Wrote(SaslMessage(OK, m.respond(challenges + [None])).value), Flushed] &&
        OkAnswers(t.sent[2..]) && challenges + [None] <= t.challenges && m.completeAfter(t.challenges))
  {
    if SaslMessage(START, m.mechanism).Ok? && SaslMessage(OK, m.respond(challenges + [None])).Ok? {
      var first := challenges + [None];
      ExchangeAnswers(m, input, first);
      var t := Exchange(m, input, first);
      var initial: seq<Event> := [Wrote(SaslMessage(OK, m.respond(first)).value), Flushed];
      var sent := [Wrote(SaslMessage(START, m.mechanism).value), Flushed] + initial + t.sent;
      assert Handshake(m, input, challenges).sent == sent;
      assert sent[2..] == initial + t.sent;
      assert (initial + t.sent)[2..] == t.sent;
    }
  }

  function Somes(chs: seq<seq<byte>>): Challenges
  {
    if chs == [] then [] else [Some(chs[0])] + Somes(chs[1..])
  }

  predicate Fits(chs: seq<seq<byte>>)
  {
    forall i | 0 <= i < |chs| :: |chs[i]| < TwoTo32
  }

  /** The server's OK messages carrying the challenges `chs`, in order. */
  function OkMessages(chs: seq<seq<byte>>): seq<byte>
    requires Fits(chs)
  {
    if chs == [] then [] else SaslMessage(OK, chs[0]).value + OkMessages(chs[1..])
  }

  /** Whether each response the mechanism gives to `chs`, after `history`,
      fits the length field. */
  predicate RepliesFit(m: SaslMechanism, history: Challenges, chs: seq<seq<byte>>)
    decreases |chs|
  {
    chs == [] ||
    (|m.respond(history + [Some(chs[0])])| < TwoTo32 && RepliesFit(m, history + [Some(chs[0])], chs[1..]))
  }

  /** The client's OK replies to the challenges `chs`, each followed by a flush. */
  function Replies(m: SaslMechanism, history: Challenges, chs: seq<seq<byte>>): seq<Event>
    requires RepliesFit(m, history, chs)
    decreases |chs|
  {
    if chs == [] then []
    else
      var h := history + [Some(chs[0])];
      [Wrote(SaslMessage(OK, m.respond(h)).value), Flushed] + Replies(m, h, chs[1..])
  }

  /** One round of the loop: an OK challenge is answered by one OK message
      carrying the mechanism's response to it. */
  lemma ExchangeOkStep(m: SaslMechanism, history: Challenges, c: seq<byte>, later: seq<byte>)
    requires |c| < TwoTo32 && |m.respond(history + [Some(c)])| < TwoTo32
    ensures var t := Exchange(m, later, history + [Some(c)]);
            Exchange(m, SaslMessage(OK, c).value + later, history) ==
            Trace(t.outcome, [Wrote(SaslMessage(OK, m.respond(history + [Some(c)])).value), Flushed] + t.sent, t.challenges, t.rest)
  {
    SaslMessageRoundTrip(OK, c, later);
  }

  lemma FitsTail(chs: seq<seq<byte>>)
    requires Fits(chs) && chs != []
    ensures Fits(chs[1..]) && |chs[0]| < TwoTo32
  {
    forall i | 0 <= i < |chs[1..]| ensures |chs[1..][i]| < TwoTo32 {
      assert chs[1..][i] == chs[i + 1];
    }
  }

  /** Each OK message from the server is answered by exactly one OK message
      carrying the mechanism's response to that challenge, and the loop goes on. */
  lemma {:induction false} ExchangeOkRounds(m: SaslMechanism, history: Challenges, chs: seq<seq<byte>>, tail: seq<byte>)
    requires Fits(chs) && RepliesFit(m, history, chs)
    ensures var t := Exchange(m, tail, history + Somes(chs));
            Exchange(m, OkMessages(chs) + tail, history) == Trace(t.outcome, Replies(m, history, chs) + t.sent, t.challenges, t.rest)
    decreases |chs|
  {
    if chs == [] {
      assert OkMessages(chs) + tail == tail;
      assert history + Somes(chs) == history;
    } else {
      var c := chs[0];
      var after := history + [Some(c)];
      var later := OkMessages(chs[1..]) + tail;
      FitsTail(chs);
      AppendAssoc(SaslMessage(OK, c).value, OkMessages(chs[1..]), tail);
      ExchangeOkStep(m, history, c, later);
      ExchangeOkRounds(m, after, chs[1..], tail);
      AppendAssoc(history, [Some(c)], Somes(chs[1..]));
      var reply: seq<Event> := [Wrote(SaslMessage(OK, m.respond(after)).value), Flushed];
      var t := Exchange(m, tail, history + Somes(chs));
      AppendAssoc(reply, Replies(m, after, chs[1..]), t.sent);
    }
  }

  /** The handshake in full. `open` sends START with the mechanism name and
      OK with the first response, answers each OK challenge with one OK
      response, and sends nothing else; a final COMPLETE succeeds only if the
      mechanism reports completion (NOT_OPEN otherwise), and any other status
      fails with NOT_OPEN carrying that status and payload. */
  lemma HandshakeOutcome(m: SaslMechanism, history: Challenges, chs: seq<seq<byte>>,
                         status: int, payload: seq<byte>, rest: seq<byte>)
    requires |m.mechanism| < TwoTo32 && |m.respond(history + [None])| < TwoTo32
    requires Fits(chs) && RepliesFit(m, history + [None], chs)
    requires 0 <= status < 256 && status != OK && |payload| < TwoTo32
    ensures var final := history + [None] + Somes(chs);
      Handshake(m, OkMessages(chs) + SaslMessage(status, payload).value + rest, history) ==
      Trace(if status != COMPLETE then Fail(TransportException(NotOpen, BadStatus(status, payload)))
            else if m.completeAfter(final) then Ok(())
            else Fail(TransportException(NotOpen, PrematureComplete)),
            [Wrote(SaslMessage(START, m.mechanism).value), Flushed,
             Wrote(SaslMessage(OK, m.respond(history + [None])).value), Flushed] + Replies(m, history + [None], chs),
            final, rest)
  {
    var first := history + [None];
    var last := SaslMessage(status, payload).value + rest;
    assert OkMessages(chs) + SaslMessage(status, payload).value + rest == OkMessages(chs) + last;
    ExchangeOkRounds(m, first, chs, last);
    SaslMessageRoundTrip(status, payload, rest);
    var final := first + Somes(chs);
    assert history + [None] + Somes(chs) == final;
    assert PlayRound(m, last, final).Stop? && PlayRound(m, last, final).rest == rest;
  }

  /** A frame flushed through a mechanism whose `unwrap` inverts its `wrap`
      is read back by a peer as the original bytes. */
  lemma WrappedFrameRoundTrip(m: SaslMechanism, data: seq<byte>, rbuf: BufferIO.Buffer, sz: int, rest: seq<byte>)
    requires m.unwrap(m.wrap(data)) == data
    requires |m.wrap(data)| < TwoTo31 && BufferIO.Remaining(rbuf) == []
    ensures ServeRead(rbuf, sz, EncodeFrame(m.wrap(data)).value + rest, m.unwrap) ==
      Served(Ok(BufferIO.Read(BufferIO.New(data), sz).0), BufferIO.Read(BufferIO.New(data), sz).1, rest)
  {
    ReadNextFrame(rbuf, sz, m.wrap(data), rest, m.unwrap);
  }

  /** Python 3's `''.join(items)`: it accepts `str` items only; any other
      item raises `TypeError`. */
  function StrJoin(items: seq<PyValue>): (r: Result<string>)
    ensures r.Ok? <==> forall i | 0 <= i < |items| :: items[i].Str?
    ensures r.Fail? ==> r.error == TypeError
  {
    if items == [] then Ok("")
    else match items[0]
      case Bytes(_) => Fail(TypeError)
      case Str(s) =>
        match StrJoin(items[1..])
        case Fail(e) => Fail(e)
        case Ok(t) => Ok(s + t)
  }

  /** `flush` as written joins the packed length and the wrapped payload,
      both bytes, with `''.join`: under Python 3 that raises `TypeError` for
      every write buffer, so no frame is ever sent. */
  lemma FlushJoinAsWritten(m: SaslMechanism, data: seq<byte>)
    requires |m.wrap(data)| < TwoTo31
    ensures StrJoin([Bytes(PackI32(|m.wrap(data)|).value), Bytes(m.wrap(data))]) == Fail(TypeError)
  {
    var items := [Bytes(PackI32(|m.wrap(data)|).value), Bytes(m.wrap(data))];
    assert !items[0].Str?;
  }

  /** `send_sasl_msg` as written, for a body that may be a `str`: the header
      counts the body's length, then `header + body` raises `TypeError` under
      Python 3 unless the body is bytes. */
  function SaslMessageAsWritten(status: int, body: PyValue): (r: Result<seq<byte>>)
    ensures body.Bytes? ==> r == SaslMessage(status, body.bytes)
    ensures body.Str? ==> r.Fail?
    ensures body.Str? && 0 <= status < 256 && |body.text| < TwoTo32 ==> r == Fail(TypeError)
  {
    var length := if body.Bytes? then |body.bytes| else |body.text|;
    match PackStatusLength(status, length)
    case Fail(e) => Fail(e)
    case Ok(header) => if body.Bytes? then Ok(header + body.bytes) else Fail(TypeError)
  }

  /** Under Python 3 the mechanism's name is a `str`, so the first message
      of `open` as written is never sent: START fails with `TypeError`. */
  lemma StartAsWritten(name: string)
    requires |name| < TwoTo32
    ensures SaslMessageAsWritten(START, Str(name)) == Fail(TypeError)
  {
  }

  class SaslClientTransport {
    const trans: RawTransport
    const sasl: SaslMechanism
    var wbuf: BufferIO.Buffer
    var rbuf: BufferIO.Buffer

    ghost predicate Valid()
      reads this
    {
      BufferIO.AtEnd(wbuf)
    }

    constructor (transport: RawTransport, sasl: SaslMechanism)
      ensures Valid() && trans == transport && this.sasl == sasl
      ensures wbuf == BufferIO.Empty && rbuf == BufferIO.New([])
    {
      trans := transport;
      this.sasl := sasl;
      wbuf := BufferIO.Empty;
      rbuf := BufferIO.New([]);
    }

    /** `send_sasl_msg(status, body)`: one inner write of the message, then
        one inner flush; a body too long for the length field raises
        `struct.error` before anything is written. */
    method SendSaslMsg(status: int, body: seq<byte>) returns (r: Result<()>)
      modifies trans
      ensures match SaslMessage(status, body)
        case Ok(msg) => r == Ok(()) && trans.sent == old(trans.sent) + [Wrote(msg), Flushed]
        case Fail(e) => r == Fail(e) && trans.sent == old(trans.sent)
      ensures trans.input == old(trans.input) && trans.calls == old(trans.calls)
      ensures trans.isOpen == old(trans.isOpen)
    {
      var msg :- SaslMessage(status, body);
      trans.Write(msg);
      trans.Flush();
      return Ok(());
    }

    /** `recv_sasl_msg()`, as `ParseSaslMessage` describes it. */
    method RecvSaslMsg() returns (r: Result<(int, seq<byte>)>)
      modifies trans
      ensures match ParseSaslMessage(old(trans.input))
        case Ok(msg) => r == Ok((msg.status, msg.payload)) && trans.input == msg.rest
        case Fail(e) => r == Fail(e) && trans.input == []
      ensures trans.sent == old(trans.sent) && trans.isOpen == old(trans.isOpen)
    {
      var header :- trans.ReadAll(5);
      var (status, length) := UnpackStatusLength(header);
      var payload: seq<byte>;
      if length > 0 {
        payload :- trans.ReadAll(length);
      } else {
        payload := [];
      }
      return Ok((status, payload));
    }

    /** `open()`: opens the inner transport if it is not open yet, then runs
        the handshake as `Handshake` describes it. */
    method Open() returns (r: Result<()>)
      modifies trans, sasl
      ensures var t := Handshake(sasl, old(trans.input), old(sasl.challenges));
        r == t.outcome && trans.input == t.rest && sasl.challenges == t.challenges &&
        trans.sent == old(trans.sent) + (if old(trans.isOpen) then [] else [Opened]) + t.sent
      ensures trans.isOpen && sasl.disposed == old(sasl.disposed)
    {
      var wasOpen := trans.IsOpen();
      if !wasOpen {
        trans.Open();
      }
      ghost var pre, input, history := trans.sent, trans.input, sasl.challenges;
      assert pre == old(trans.sent) + (if old(trans.isOpen) then [] else [Opened]);
      var started := SendSaslMsg(START, sasl.mechanism);
      if started.Fail? {
        assert Handshake(sasl, input, history) == Trace(started, [], history, input);
        return started;
      }
      var initial := sasl.Process(None);
      var sentInitial := SendSaslMsg(OK, initial);
      if sentInitial.Fail? {
        assert Handshake(sasl, input, history) ==
          Trace(sentInitial, [Wrote(SaslMessage(START, sasl.mechanism).value), Flushed], history + [None], input);
        return sentInitial;
      }
      ghost var opening := [Wrote(SaslMessage(START, sasl.mechanism).value), Flushed,
                            Wrote(SaslMessage(OK, initial).value), Flushed];
      assert trans.sent == pre + opening;
      ghost var t := Exchange(sasl, input, history + [None]);
      assert Handshake(sasl, input, history) == Trace(t.outcome, opening + t.sent, t.challenges, t.rest);
      r := Negotiate();
      AppendAssoc(pre, opening, t.sent);
    }

    /** The `while True` loop of `open`: receive a message, then answer an
        OK challenge, finish on COMPLETE, or fail. */
    method Negotiate() returns (r: Result<()>)
      requires trans.isOpen
      modifies trans, sasl
      ensures var t := Exchange(sasl, old(trans.input), old(sasl.challenges));
        r == t.outcome && trans.input == t.rest && sasl.challenges == t.challenges &&
        trans.sent == old(trans.sent) + t.sent
      ensures trans.isOpen && sasl.disposed == old(sasl.disposed)
    {
      ghost var t0 := Exchange(sasl, trans.input, sasl.challenges);
      ghost var log: seq<Event> := [];
      while true
        invariant trans.sent == old(trans.sent) + log && trans.isOpen
        invariant sasl.disposed == old(sasl.disposed)
        invariant var t := Exchange(sasl, trans.input, sasl.challenges);
          t0 == Trace(t.outcome, log + t.sent, t.challenges, t.rest)
        decreases |trans.input|
      {
        ghost var before, input, history := trans.sent, trans.input, sasl.challenges;
        var stop, outcome := PlayTurn();
        if stop {
          AppendAssoc(old(trans.sent), log, Exchange(sasl, input, history).sent);
          return outcome;
        }
        ghost var reply := trans.sent[|before|..];
        assert trans.sent == before + reply;
        AppendAssoc(old(trans.sent), log, reply);
        AppendAssoc(log, reply, Exchange(sasl, trans.input, sasl.challenges).sent);
        log := log + reply;
      }
    }

    /** One iteration of the `while True` loop of `open`: it plays the round
        the input dictates, sending the answer if there is one. When the
        round stops, the loop ends as its specification does; otherwise the
        answer sent comes first in what the rest of the loop sends. */
    method PlayTurn() returns (stop: bool, r: Result<()>)
      requires trans.isOpen
      modifies trans, sasl
      ensures var t := Exchange(sasl, old(trans.input), old(sasl.challenges));
        stop ==> r == t.outcome && trans.input == t.rest && sasl.challenges == t.challenges && trans.sent == old(trans.sent) + t.sent
      ensures var t := Exchange(sasl, trans.input, sasl.challenges);
        !stop ==>
          |trans.input| < |old(trans.input)| && old(trans.sent) <= trans.sent &&
          Exchange(sasl, old(trans.input), old(sasl.challenges)) ==
          Trace(t.outcome, trans.sent[|old(trans.sent)|..] + t.sent, t.challenges, t.rest)
      ensures trans.isOpen && sasl.disposed == old(sasl.disposed)
    {
      ghost var input, history := trans.input, sasl.challenges;
      var received := RecvSaslMsg();
      if received.Fail? {
        assert PlayRound(sasl, input, history) == Stop(Fail(received.error), history, []);
        ExchangeStops(sasl, input, history);
        return true, Fail(received.error);
      }
      var (status, challenge) := received.value;
      match Decide(status, challenge, sasl.Complete())
      case Respond =>
        var response := sasl.Process(Some(challenge));
        var replied := SendSaslMsg(OK, response);
        if replied.Fail? {
          assert PlayRound(sasl, input, history) == Stop(replied, sasl.challenges, trans.input);
          ExchangeStops(sasl, input, history);
          return true, replied;
        }
        assert PlayRound(sasl, input, history) == Answer(SaslMessage(OK, response).value, sasl.challenges, trans.input);
        ExchangeGoesOn(sasl, input, history);
        return false, Ok(());
      case Finish =>
        assert PlayRound(sasl, input, history) == Stop(Ok(()), history, trans.input);
        ExchangeStops(sasl, input, history);
        return true, Ok(());
      case Reject(reason) =>
        assert PlayRound(sasl, input, history) == Stop(Fail(TransportException(NotOpen, reason)), history, trans.input);
        ExchangeStops(sasl, input, history);
        return true, Fail(TransportException(NotOpen, reason));
    }

    /** `write(data)`: appends to the write buffer; a `str` raises `TypeError`. */
    method Write(v: PyValue) returns (r: Result<()>)
      requires Valid()
      modifies this
      ensures Valid() && rbuf == old(rbuf)
      ensures v.Bytes? ==> r == Ok(()) && wbuf.data == old(wbuf.data) + v.bytes
      ensures v.Str? ==> r == Fail(TypeError) && wbuf == old(wbuf)
    {
      var b :- BufferIO.Write(wbuf, v);
      wbuf := b;
      return Ok(());
    }

    /** `flush()`: the wrapped write buffer goes out as one frame in one
        inner write, then one inner flush, and only then is the write buffer
        emptied; a failure before the write leaves it as it was. */
    method Flush() returns (r: Result<()>)
      requires Valid()
      modifies this, trans
      ensures Valid() && rbuf == old(rbuf)
      ensures match EncodeFrame(sasl.wrap(old(wbuf.data)))
        case Ok(frame) => r == Ok(()) && trans.sent == old(trans.sent) + [Wrote(frame), Flushed] && wbuf == BufferIO.Empty
        case Fail(e) => r == Fail(e) && trans.sent == old(trans.sent) && wbuf == old(wbuf)
      ensures trans.input == old(trans.input) && trans.calls == old(trans.calls)
      ensures trans.isOpen == old(trans.isOpen)
    {
      var data := wbuf.data;
      var encoded := sasl.wrap(data);
      var frame :- EncodeFrame(encoded);
      trans.Write(frame);
      trans.Flush();
      wbuf := BufferIO.Empty;
      return Ok(());
    }

    /** `_read_frame()`: the next frame's payload, unwrapped, becomes the read buffer. */
    method ReadFrame() returns (r: Result<()>)
      modifies this, trans
      ensures wbuf == old(wbuf)
      ensures match DecodeFrame(old(trans.input))
        case Ok(f) => r == Ok(()) && rbuf == BufferIO.New(sasl.unwrap(f.payload)) && trans.input == f.rest
        case Fail(e) => r == Fail(e) && rbuf == old(rbuf) && trans.input == []
      ensures trans.sent == old(trans.sent) && trans.isOpen == old(trans.isOpen)
    {
      var header :- trans.ReadAll(4);
      var length := UnpackI32(header);
      var encoded :- trans.ReadAll(length);
      rbuf := BufferIO.New(sasl.unwrap(encoded));
      return Ok(());
    }

    /** `read(sz)`, as `ServeRead` describes it with the mechanism's `unwrap`. */
    method Read(sz: int) returns (r: Result<seq<byte>>)
      requires Valid()
      modifies this, trans
      ensures Valid() && wbuf == old(wbuf)
      ensures Served(r, rbuf, trans.input) == ServeRead(old(rbuf), sz, old(trans.input), sasl.unwrap)
      ensures trans.sent == old(trans.sent) && trans.isOpen == old(trans.isOpen)
    {
      var (ret, next) := BufferIO.Read(rbuf, sz);
      rbuf := next;
      if |ret| != 0 {
        return Ok(ret);
      }
      var f :- ReadFrame();
      var (fromFrame, after) := BufferIO.Read(rbuf, sz);
      rbuf := after;
      return Ok(fromFrame);
    }

    /** `close()`: disposes of the mechanism, then closes the inner transport. */
    method Close()
      modifies sasl, trans
      ensures sasl.disposed && sasl.challenges == old(sasl.challenges)
      ensures !trans.isOpen && trans.sent == old(trans.sent) + [Closed]
      ensures trans.input == old(trans.input) && trans.calls == old(trans.calls)
    {
      sasl.Dispose();
      trans.Close();
    }

    /** `cstringio_refill(prefix, reqlen)`, as `RefillFrames` describes it
        with the mechanism's `unwrap`. */
    method CStringIORefill(prefix: seq<byte>, reqlen: int) returns (r: Result<seq<byte>>)
      requires Valid()
      modifies this, trans
      ensures Valid() && wbuf == old(wbuf)
      ensures var t := RefillFrames(prefix, reqlen, old(trans.input), sasl.unwrap);
        r == t.result && trans.input == t.rest &&
        rbuf == (if r.Ok? then BufferIO.New(r.value)
                 else if t.last.Some? then BufferIO.New(t.last.value) else old(rbuf))
      ensures trans.sent == old(trans.sent) && trans.isOpen == old(trans.isOpen)
    {
      ghost var t0 := RefillFrames(prefix, reqlen, trans.input, sasl.unwrap);
      ghost var last: Option<seq<byte>> := None;
      var acc := prefix;
      while |acc| < reqlen
        invariant wbuf == old(wbuf)
        invariant trans.sent == old(trans.sent) && trans.isOpen == old(trans.isOpen)
        invariant var t := RefillFrames(acc, reqlen, trans.input, sasl.unwrap);
          t0 == Refill(t.result, if t.last.Some? then t.last else last, t.rest)
        invariant rbuf == if last.Some? then BufferIO.New(last.value) else old(rbuf)
        decreases |trans.input|
      {
        var f := ReadFrame();
        if f.Fail? {
          return Fail(f.error);
        }
        acc := acc + rbuf.data;
        last := Some(rbuf.data);
      }
      rbuf := BufferIO.New(acc);
      return Ok(acc);
    }
  }
}
