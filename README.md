# Thrift's Python transport layer, modelled in Dafny

This project models the transport layer of Apache Thrift's Python library, as vendored in
`GENERATOR/riden.py`. A transport moves raw bytes between a Thrift protocol and a peer. The
model covers:

- `TTransportBase.readAll`: repeated `read` calls until exactly `sz` bytes arrive, or `EOFError`.
- `TMemoryBuffer`: a transport over one in-memory `BytesIO` buffer.
- `TBufferedTransport`: writes are held until `flush`, and reads go through a read buffer. On a
  miss, the read buffer is refilled by one inner read that asks for `max(sz, rbuf_size)` bytes.
- `TFramedTransport`: each flush sends one frame, a signed 32-bit big-endian length followed by
  the payload. Reads take one whole frame at a time.
- `TSaslClientTransport`: a SASL (RFC 4422) handshake made of status/length/body messages,
  followed by framed traffic whose payloads pass through the mechanism's `wrap` and `unwrap`.
- The `TTransportException` type codes.

Every wrapper sits on `Transport.RawTransport`, a connection to a peer whose bytes are fixed
in advance:

- `read(n)` delivers some prefix of what is left, of at most `n` bytes. For a positive `n` it
  returns nothing only once the peer is exhausted, and `read(n)` with `n <= 0` returns nothing.
  How the peer splits its bytes is left open.
- What the wrappers send is logged as events: opened, closed, wrote bytes, flushed.
- Every `read` call is logged with the size asked for and the bytes it got.

The model follows Python 3, where Thrift's `BufferIO` is `io.BytesIO`:

- `read` with a negative size reads to the end.
- `write` overwrites from the position, keeps every other byte, and pads with zeros past the end.
- A `str` argument raises `TypeError`.

Two places in the SASL transport work only under Python 2: the mechanism name sent as a `str`
and the `''.join` in `flush`. Both are listed under "## Findings", with their Python 3 behaviour
modelled as written, and the rest of the model uses the byte values they evidently mean. The
empty payload `""` of `recv_sasl_msg` is likewise taken as empty bytes.

Python exceptions are `Errors.Error` values returned in a `Result`.

The central results are:

- `readAll` has one outcome however the peer splits its bytes: the next `sz` bytes, or
  `EOFError` with the input used up.
- A frame decodes to the payload it was encoded from, and the SASL handshake message does too.
- A buffered `read(sz)` with `sz != 0` loses and reorders no byte. The framed and SASL reads
  answer from the current frame while it has bytes, then from the next frame in order.
- A refill over whole frames yields the prefix followed by their payloads, in order.
- A SASL handshake sends exactly START, the first response, and one OK reply per OK
  challenge. It ends as the final status dictates.

Source quirks are reproduced as written:

- A negative frame length is not rejected. It reads as an empty frame.
- `readAll(sz)` with `sz <= 0` reads nothing.
- The framed `flush` empties its write buffer before packing the length. The SASL `flush`
  empties it only after the frame is written.
- `recv_sasl_msg` answers a zero length with an empty payload and reads nothing more.
- The buffered `read(0)` discards what the read buffer had left.
- The framed and SASL `read(0)` read the next frame, and the rest of the current frame is lost.

## Model

| member | source | states |
|---|---|---|
| Errors.Code | GENERATOR/riden.py:9-15 | each exception type's code lies in 0..6 |
| Errors.TypeOfCode | GENERATOR/riden.py:9-15 | a code names an exception type exactly when it lies in 0..6, and then that type's code is the given code |
| Errors.CodeRoundTrip | GENERATOR/riden.py:9-15 | the seven exception types have distinct codes: each type is recovered from its code |
| Wire.PackI32 | GENERATOR/riden.py:258-264 | `pack("!i", n)` yields four bytes exactly for n in the signed 32-bit range and raises `struct.error` otherwise |
| Wire.UnpackI32 | GENERATOR/riden.py:250-253 | `unpack("!i", b)` lies in the signed 32-bit range and is negative exactly when the top bit of the first byte is set |
| Wire.UnpackPackI32 | GENERATOR/riden.py:250-264 | unpacking the packed length gives back every signed 32-bit value |
| Wire.PackUnpackI32 | GENERATOR/riden.py:250-264 | packing the unpacked value gives back every four bytes, so the `!i` field is a bijection |
| Wire.PackStatusLength | GENERATOR/riden.py:356-359 | `pack(">BI", status, length)` is five bytes led by the status, and raises `struct.error` for a status outside a byte or a length outside 32 bits |
| Wire.UnpackStatusLength | GENERATOR/riden.py:361-363 | the unpacked status is a byte and the length an unsigned 32-bit value |
| Wire.UnpackPackStatusLength | GENERATOR/riden.py:356-363 | a packed SASL header unpacks to the same status and length |
| BufferIO.Read | GENERATOR/riden.py:197-198 | a read returns a prefix of the unread bytes (min(n, remaining) of them, all of them for a negative n) and the rest stays unread; the position moves past exactly the bytes returned, so it stops at the end of the data, or stays where it was when already past it |
| BufferIO.Write | GENERATOR/riden.py:200-201 | a `str` raises `TypeError`; bytes land at the position, which moves past them; the data grows to the larger of its old length and the new position; every byte outside the written range is the old byte, or zero where the position lay past the end; empty bytes change nothing; on a buffer at its end a write appends |
| BufferIO.Seek | GENERATOR/riden.py:186 | `seek(offset)` keeps the data and moves the position to the offset, so later reads start there and return nothing past the end |
| BufferIO.WriteAllAppends | GENERATOR/riden.py:138-150 | successive byte writes to a buffer at its end leave it holding the old data followed by every write in order |
| BufferIO.ReadToEndThenWrite | GENERATOR/riden.py:197-201 | after a read that takes everything left, a write appends to the data: "hello", `read(10)`, then `write(b"X")` holds "helloX" |
| BufferIO.ReadSplits | GENERATOR/riden.py:197-198 | two reads of m and n bytes return what one read of m+n bytes returns, and leave the same position |
| Transport.RawTransport.ReadAll | GENERATOR/riden.py:37-49 | for sz <= 0 nothing is read and no call is made; otherwise the result is the next sz bytes, or `EOFError` with the input used up when fewer are left; each inner call asks for exactly the bytes still missing; the first call that returns nothing is the last and ends in `EOFError`, and on success every call returned bytes; the result is what the calls returned, in order |
| Transport.ReadAllLogSnoc | GENERATOR/riden.py:41-49 | one more call of the loop, asking for the bytes still missing, extends the log of calls, and ends it exactly when it returns nothing |
| Transport.ReadAllLogSizes | GENERATOR/riden.py:40-41 | every call that `readAll(sz)` makes asks for at least one byte and at most sz |
| Memory.MemoryBuffer.constructor | GENERATOR/riden.py:176-186 | the buffer holds the seed value (empty for `None`) positioned at the offset |
| Memory.MemoryBuffer.IsOpen | GENERATOR/riden.py:188-189 | open exactly while the buffer is not closed |
| Memory.MemoryBuffer.Close | GENERATOR/riden.py:194-195 | the buffer is closed and its contents kept |
| Memory.MemoryBuffer.Read | GENERATOR/riden.py:197-198 | a closed buffer raises `ValueError`; otherwise the read is the buffer's own read, and the position advances |
| Memory.MemoryBuffer.Write | GENERATOR/riden.py:200-201 | a closed buffer raises `ValueError`, a `str` raises `TypeError`, otherwise the bytes are written at the position |
| Memory.MemoryBuffer.GetValue | GENERATOR/riden.py:206-207 | all the bytes held, whatever the position; `ValueError` once closed |
| Memory.MemoryBuffer.CStringIORefill | GENERATOR/riden.py:213-214 | a memory buffer can never be refilled: always `EOFError` |
| Memory.HelloScenario | GENERATOR/riden.py:176-198 | a buffer seeded with "hello" reads "hel", then "lo" for a request of 10, then nothing |
| Memory.WriteThenGetValue | GENERATOR/riden.py:176-207 | a buffer built for writing returns from `getvalue` exactly the concatenation of all writes |
| Memory.ReadSeed | GENERATOR/riden.py:176-198 | reading a seeded buffer in full returns the seed, and the next read returns nothing |
| Buffered.BufferedTransport.constructor | GENERATOR/riden.py:116-120 | empty write and read buffers over the given transport, with the given read-buffer size (4096 by default) |
| Buffered.BufferedTransport.IsOpen | GENERATOR/riden.py:122-123 | delegates to the inner transport |
| Buffered.BufferedTransport.Open | GENERATOR/riden.py:125-126 | opens the inner transport and nothing else |
| Buffered.BufferedTransport.Close | GENERATOR/riden.py:128-129 | closes the inner transport and nothing else |
| Buffered.BufferedTransport.Read | GENERATOR/riden.py:131-136 | a read the buffer can answer makes no inner call; otherwise exactly one inner `read(max(sz, rbuf_size))` becomes the new buffer; never more than sz bytes; on a miss the peer's input loses exactly what that call got, whatever sz is; for sz != 0 the answer followed by what is still unread equals what was unread before |
| Buffered.BufferedTransport.Write | GENERATOR/riden.py:138-143 | bytes join the pending writes; a failed write (`str`) raises `TypeError` and empties the write buffer, dropping every pending write |
| Buffered.BufferedTransport.Flush | GENERATOR/riden.py:145-149 | one inner write of all pending writes concatenated, then one inner flush; the write buffer is left empty |
| Buffered.BufferedTransport.CStringIORefill | GENERATOR/riden.py:155-164 | succeeds exactly when the prefix and the peer's bytes reach reqlen; the result extends the prefix with the next peer bytes in order, has at least reqlen bytes (exactly max of both when reqlen >= rbuf_size), and becomes the read buffer; a request below rbuf_size makes exactly one opportunistic `read(rbuf_size)`, and the result then has exactly the larger of reqlen and what the prefix and that read gave; after it the only calls are those of one `readAll` of exactly the bytes still missing, none when nothing is missing; a failure is `EOFError` with the read buffer unchanged |
| Buffered.BufferedTransport.TopUp | GENERATOR/riden.py:160-161 | when the bytes held fall short of reqlen, exactly the shortfall is read with `readAll` and appended, and `EOFError` comes exactly when the peer has too few bytes; otherwise nothing is read |
| Framed.EncodeFrame | GENERATOR/riden.py:258-264 | a frame exists exactly for payloads shorter than 2^31 bytes: four length bytes followed by the payload; otherwise `struct.error` |
| Framed.DecodeFrame | GENERATOR/riden.py:250-253 | decoding fails, with `EOFError`, exactly when the input is shorter than four bytes or than four plus the length field; otherwise the payload has max(length, 0) bytes, taken right after the field, and the rest is everything after the payload |
| Framed.FrameRoundTrip | GENERATOR/riden.py:250-264 | decoding an encoded frame gives back its payload and stops exactly at its end |
| Framed.NegativeLengthAccepted | GENERATOR/riden.py:250-253 | a negative length field is not rejected: the frame reads as empty and the bytes after the field stay unread |
| Framed.ServeRead | GENERATOR/riden.py:242-248 | a read the buffer can answer touches no frame; never more than sz bytes; a failure is `EOFError` with the input used up |
| Framed.ZeroReadSkipsRest | GENERATOR/riden.py:242-253 | `read(0)` returns nothing, reads the next frame, and drops what was left of the current one |
| Framed.ReadNextFrame | GENERATOR/riden.py:242-253 | once the read buffer is exhausted, a read answers from the start of the next frame's payload and leaves the later input unread |
| Framed.EmptyFrameReadsNothing | GENERATOR/riden.py:242-253 | a zero-length frame makes the read that reaches it return nothing, without reading the frame after it |
| Framed.RefillFrames | GENERATOR/riden.py:270-275 | a refill leaves a long enough prefix alone; otherwise its result extends the prefix to at least reqlen; a failure is `EOFError` with the input used up |
| Framed.RefillStep | GENERATOR/riden.py:270-275 | below reqlen a refill consumes one whole frame and goes on with its payload appended |
| Framed.RefillWholeFrames | GENERATOR/riden.py:270-275 | over whole frames a refill yields the prefix followed by every payload in order, stopping at the first frame that reaches reqlen and leaving the rest unread |
| Framed.FramedTransport.constructor | GENERATOR/riden.py:228-231 | empty read and write buffers over the given transport |
| Framed.FramedTransport.IsOpen | GENERATOR/riden.py:233-234 | delegates to the inner transport |
| Framed.FramedTransport.Open | GENERATOR/riden.py:236-237 | opens the inner transport and nothing else |
| Framed.FramedTransport.Close | GENERATOR/riden.py:239-240 | closes the inner transport and nothing else |
| Framed.FramedTransport.ReadFrame | GENERATOR/riden.py:250-253 | the next frame's payload becomes the read buffer and the input moves past it, as the frame decoding says; `EOFError` otherwise |
| Framed.FramedTransport.Read | GENERATOR/riden.py:242-248 | the answer, the new read buffer and the input left are those of the read specification with no unwrapping |
| Framed.FramedTransport.Write | GENERATOR/riden.py:255-256 | bytes are appended to the write buffer; a `str` raises `TypeError` and changes nothing |
| Framed.FramedTransport.Flush | GENERATOR/riden.py:258-264 | the write buffer goes out as one frame in one inner write, then one inner flush; an oversized buffer raises `struct.error` and sends nothing; either way the write buffer ends up empty |
| Framed.FramedTransport.CStringIORefill | GENERATOR/riden.py:270-275 | result, input left and new read buffer are those of the refill specification; after a failure the read buffer is the last frame read |
| Framed.PingScenario | GENERATOR/riden.py:255-264 | writing "ping" and flushing sends `00 00 00 04 ping` in one write, and a framed reader on the other end reads "ping" back |
| Framed.EmptyFlushScenario | GENERATOR/riden.py:258-264 | flushing with nothing written still sends a frame, the four bytes of length zero |
| Sasl.SaslMessage | GENERATOR/riden.py:356-359 | a handshake message exists exactly for a status byte and a body shorter than 2^32: five header bytes led by the status, then the body; otherwise `struct.error` |
| Sasl.ParseSaslMessage | GENERATOR/riden.py:361-368 | receiving fails, with `EOFError`, exactly when the input is shorter than five bytes or than five plus the length field; otherwise the status is the first byte, the payload has exactly the length field's bytes, taken right after the header, and the rest is everything after the payload |
| Sasl.SaslMessageRoundTrip | GENERATOR/riden.py:356-368 | a handshake message is received with the status and body it was sent with, and reading stops at its end |
| Sasl.DecideCases | GENERATOR/riden.py:340-354 | `Decide`, the client's move on a received status: OK is answered, and only OK; COMPLETE ends the handshake exactly when the mechanism is complete and is rejected as premature exactly when it is not; any other status is rejected with that status and payload |
| Sasl.ExchangeReadsForward | GENERATOR/riden.py:338-354 | `Exchange`, the loop of `open` consumes its input front to back, leaving a suffix, and ends in `EOFError` only with the input used up |
| Sasl.ExchangeAnswers | GENERATOR/riden.py:338-354 | `Exchange`: the loop only adds challenges the server sent and sends only OK messages, each flushed; it succeeds only once the mechanism reports completion, having answered every challenge it processed |
| Sasl.HandshakeShape | GENERATOR/riden.py:331-354 | `Handshake`, the whole of `open`: a mechanism name too long for the length field fails before anything is sent; a successful `open` sent START with the name and OK with the first response, each flushed, then only OK answers, and ends with the mechanism complete |
| Sasl.PlayRound | GENERATOR/riden.py:337-354 | a round that answers consumes at least a five-byte header, so the loop of `open` ends |
| Sasl.ExchangeOkStep | GENERATOR/riden.py:337-340 | an OK challenge is answered by one OK message carrying the mechanism's response to it, and the loop goes on |
| Sasl.ExchangeOkRounds | GENERATOR/riden.py:337-340 | a run of OK challenges is answered by one OK reply each, in order, with each challenge recorded by the mechanism |
| Sasl.HandshakeOutcome | GENERATOR/riden.py:331-354 | `open` sends START with the mechanism name, OK with the first response, one OK reply per OK challenge and nothing else; a final COMPLETE succeeds exactly when the mechanism reports completion (NOT_OPEN otherwise), and any other status raises NOT_OPEN carrying that status and payload |
| Sasl.WrappedFrameRoundTrip | GENERATOR/riden.py:373-392 | when `unwrap` inverts `wrap`, a peer reading a flushed SASL frame reads back the original bytes |
| Sasl.StrJoin | GENERATOR/riden.py:376 | `''.join` succeeds exactly when every item is a `str` and raises `TypeError` otherwise |
| Sasl.FlushJoinAsWritten | GENERATOR/riden.py:373-378 | as written, `flush` joins two bytes values with `''.join`, which raises `TypeError` under Python 3 for every write buffer |
| Sasl.SaslMessageAsWritten | GENERATOR/riden.py:356-359 | as written, a message with a bytes body is the message of the corrected model, and one with a `str` body always fails, with `TypeError` when the header packs |
| Sasl.StartAsWritten | GENERATOR/riden.py:335 | as written under Python 3, START with a `str` mechanism name raises `TypeError`, so `open` sends nothing |
| Sasl.SaslClientTransport.constructor | GENERATOR/riden.py:311-329 | empty write and read buffers over the given transport and mechanism |
| Sasl.SaslClientTransport.SendSaslMsg | GENERATOR/riden.py:356-359 | one inner write of the whole message, then one inner flush; an out-of-range field raises `struct.error` before anything is written |
| Sasl.SaslClientTransport.RecvSaslMsg | GENERATOR/riden.py:361-368 | status and payload are those of the message at the head of the input, which moves past it; `EOFError` with the input used up otherwise |
| Sasl.SaslClientTransport.Open | GENERATOR/riden.py:331-354 | opens the inner transport only if it is closed, then outcome, events sent, challenges processed and input left are those of the handshake specification |
| Sasl.SaslClientTransport.Negotiate | GENERATOR/riden.py:338-354 | the receive-and-answer loop of `open` runs exactly as the exchange specification describes it |
| Sasl.SaslClientTransport.PlayTurn | GENERATOR/riden.py:339-354 | one turn of the loop: when it stops, the outcome, input left, challenges and events sent are those of the loop's specification; otherwise it consumed input and what it sent comes first in what the rest of the loop sends |
| Sasl.SaslClientTransport.Write | GENERATOR/riden.py:370-371 | bytes are appended to the write buffer; a `str` raises `TypeError` and changes nothing |
| Sasl.SaslClientTransport.Flush | GENERATOR/riden.py:373-378 | the wrapped write buffer goes out as one frame in one inner write, then one inner flush, and only then is the write buffer emptied; an oversized frame raises `struct.error`, sends nothing and keeps the write buffer |
| Sasl.SaslClientTransport.ReadFrame | GENERATOR/riden.py:388-392 | the next frame's unwrapped payload becomes the read buffer and the input moves past it; `EOFError` otherwise |
| Sasl.SaslClientTransport.Read | GENERATOR/riden.py:380-386 | the answer, new read buffer and input left are those of the read specification with the mechanism's `unwrap` |
| Sasl.SaslClientTransport.Close | GENERATOR/riden.py:394-396 | disposes of the mechanism, then closes the inner transport |
| Sasl.SaslClientTransport.CStringIORefill | GENERATOR/riden.py:402-407 | result, input left and new read buffer are those of the refill specification with the mechanism's `unwrap` |

## Left out

- `TFileObjectTransport` (lines 278-297) is left out. It only forwards each call to a Python file object, which is I/O.
- The server transport, the transport factories and the buffered and framed factories (lines 80-105 and 217-222) are left out. They hold no logic beyond constructing a transport.
- The no-op defaults of `TTransportBase` (`isOpen`, `open`, `close`, `read`, `write`, `flush`, which return `None`) are left out. `Transport.RawTransport` stands in for every inner transport.
- `TSaslClientTransport` defines no `isOpen` of its own and inherits the base's, which returns `None`. That is not modelled.
- The SASL mechanism, puresasl's `SASLClient` with its host, service and keyword arguments, is not part of this model. `Sasl.SaslMechanism` replaces it with fixed functions for the responses, completion, `wrap` and `unwrap`. Its cryptography is not modelled.
- Sasl.SaslClientTransport.Open: the mechanism name is taken as bytes. Under Python 3 puresasl gives a `str`, and `header + body` in `send_sasl_msg` then raises `TypeError` (see "## Findings").
- Sasl.ParseSaslMessage: the empty payload for length 0 is a `str` (`""`) in the source. The model gives empty bytes, which is what Python 2 produces and what the mechanism is evidently meant to receive.
- The `cstringio_buf` properties are not modelled as members. They only return the read buffer, and the model exposes that buffer as the `rbuf` field.
- `TMemoryBuffer.open` and `TMemoryBuffer.flush` are not modelled. They do nothing.
- Memory.MemoryBuffer.constructor: the offset is a natural number. The `ValueError` that `seek` raises for a negative offset is not modelled.
- Failures of the inner transport itself, such as socket errors and timeouts, are left out. `Transport.RawTransport` never fails, and a read of a positive size returns nothing only at the end of the peer's bytes.
- Each wrapper is modelled over a raw transport, not over another wrapper. `readAll` called on a wrapper, which goes through the wrapper's own `read`, is not modelled.
- The messages of `TTransportException` are left out. `Errors.Reason` records which of the two SASL failures occurred, with the status and payload, not the formatted text.
- Concurrency is left out. No transport here is safe for shared use, and the model is sequential.

## Findings

| source | as written | input that shows it | evidently intended | confidence | as-written member | corrected member |
|---|---|---|---|---|---|---|
| GENERATOR/riden.py:376 | the length prefix and the wrapped payload, both `bytes`, are joined with the `join` of the empty `str` | flushing any write buffer, `b"ping"` for one, under Python 3 raises `TypeError`, so no SASL frame is ever sent | byte concatenation of length and payload, as the framed transport's `flush` does; a peer then reads the original bytes back (`Sasl.WrappedFrameRoundTrip`) | medium, not executed; holds under Python 3 only, the code is correct under Python 2 | Sasl.FlushJoinAsWritten | Sasl.SaslClientTransport.Flush |
| GENERATOR/riden.py:335 | the mechanism's name, a `str` under Python 3, is sent as the body of START, and `send_sasl_msg` adds it to the packed header, which is `bytes` | `open` with the default mechanism `"GSSAPI"` raises `TypeError` before anything is written | the name encoded as bytes, so START goes out and the handshake runs (`Sasl.HandshakeOutcome`) | medium, not executed; holds under Python 3 only, where the mechanism name is a `str` | Sasl.StartAsWritten | Sasl.SaslClientTransport.Open |
