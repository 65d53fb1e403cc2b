# nebula-hook: the message codec and hook callbacks, in Dafny

nebula-hook registers a custom message hook (sub-type 99) on a Nebula mesh
node. In the default role it sends the counters 0 … 999 to a configured peer;
in the `-serve` role it answers every hook message it can decode with the
received counter plus one (wrapping as a 64-bit int), sent back to the address
and port found in the message's framing; a message it cannot decode gets its
decode error and no reply.
A hook message is 24 bytes of transport framing followed by the counter as
ASCII decimal text.

This project models that logic of `main.go` as pure functions over byte
sequences and proves what it does:

- `types.dfy` (`Types`): byte and machine-integer ranges, `Result`, and Go's
  64-bit `int(u)` conversion and `++` with their two's-complement wrap-around.
  Go's `int` is taken to be 64 bits wide.
- `strconv.dfy` (`Strconv`): `strconv.ParseUint(s, 10, 64)` as Go's own
  left-to-right digit loop, including which of `ErrSyntax`/`ErrRange` it
  reports, and `strconv.Itoa`; proved against a closed-form description
  (digit run and value) and against each other.
- `packet.dfy` (`Packet`): `packetNumber`, `binary.BigEndian.Uint32`,
  `ip2int` and the port read from bytes 20–21. The offsets 24, 12, 16, 20
  and 21 are named constants.
- `hook.dfy` (`Hook`): the callbacks returned by `serve` and
  `handleResponse`, and the send loop of `send`. The transport's `Send` is
  represented by the list of `SendCall` records a callback produces.
- `properties.dfy` (`Properties`): round trips, independence from the
  framing, the reply a served message gets, and the worked examples.

A successful decode needs at least one byte after the 24-byte framing, so
`Serve` can read `b[12..16]`, `b[20]` and `b[21]` without a bounds check
of its own. The contract of `PacketNumber` states this.

Bytes are `byte = x: int | 0 <= x < 256`; all integers are unbounded, and
every Go wrap-around is written out.

## Model

| member | source | states |
|---|---|---|
| Types.Int64OfUint64 | main.go:153 | `int(num)` keeps the 64 bits of `num` (equal modulo 2^64) and is `num` itself exactly when `num < 2^63` |
| Types.Int64Inc | main.go:133 | `num++` is congruent to `num + 1` modulo 2^64 and equals `num + 1` exactly when `num` is not the largest int |
| Strconv.ParseUint64 | main.go:148 | succeeds exactly on non-empty all-digit texts whose value is at most 2^64 − 1, returning that value; fails with a range error exactly when the digits before the first non-digit already exceed 2^64 − 1, and with a syntax error otherwise (empty text included) |
| Strconv.ScanFollowsDigitRun | main.go:148 | the digit loop, started on any fitting digit prefix, ends in the outcome fixed by the leading run of digits |
| Strconv.Decimal | main.go:107 | the decimal rendering of `n` is a non-empty digit string worth `n` with no leading zero |
| Strconv.Itoa | main.go:134 | a non-negative value renders as a canonical digit string worth that value; a negative one as '-' followed by the canonical digits of its magnitude |
| Strconv.ItoaParseUint64 | main.go:134 | parsing `Itoa(n)` gives back `n` for every `n >= 0` and a syntax error for every `n < 0` |
| Strconv.DecimalOfDigitsValue | main.go:148 | a digit string without superfluous leading zero is the rendering of its own value |
| Strconv.ParseUint64Decimal | main.go:148 | every canonical text ParseUint accepts is the rendering of the value it returns |
| Packet.PacketNumber | main.go:140-154 | under 24 bytes: length error carrying the length, whatever the content; otherwise success exactly when the bytes after offset 24 are a valid 64-bit decimal, any failure then being a parse error carrying ParseUint's syntax or range error; a success has at least 25 bytes and yields the parsed value as a 64-bit int |
| Packet.BigEndianUint32 | main.go:158-160 | the result splits back into the first four input bytes, most significant first |
| Packet.BigEndianOfUint32Bytes | main.go:158-160 | reading back the four bytes of a 32-bit value gives the value |
| Packet.Ip2Int | main.go:156-161 | a 16-byte address yields the big-endian value of its bytes 12–15, any other address of at least 4 bytes that of its first four |
| Packet.SourcePort | main.go:131 | the 16-bit sum never wraps: the port is 256·b[20] + b[21], and splits back into those two bytes |
| Hook.Serve | main.go:123-138 | on a decode error: that error and no send; on success: no error and exactly one send, to the address in bytes 12–15, the port in bytes 20–21, tag 99, payload the decimal of the wrapped successor of the counter |
| Hook.HandleResponse | main.go:111-121 | reports success exactly when the message has the framing and a valid 64-bit decimal after it, and otherwise the decoder's error; never sends |
| Hook.Send | main.go:101-109 | makes min(ticks, 1000) calls, the i-th to the fixed address and port with tag 99 and a canonical payload that parses to i |
| Properties.ExactHeaderIsParseError | main.go:141-151 | a message of exactly 24 bytes passes the length check and fails as a syntax error on its empty payload |
| Properties.HeaderNeverRead | main.go:145-148 | replacing the 24 framing bytes by any others never changes the decode outcome |
| Properties.DecodeDecimal | main.go:146-153 | any framing followed by the decimal of a 64-bit value decodes to that value as a 64-bit int |
| Properties.DecodeItoa | main.go:134 | round trip: any framing followed by `Itoa(n)` decodes to `n`, for `0 <= n < 2^63` |
| Properties.EncodeDecoded | main.go:148-153 | a canonical payload whose decoded value is non-negative is exactly `Itoa` of that value (a payload of 2^63 or more decodes to a negative int, whose `Itoa` starts with '-') |
| Properties.DecodeNegativeItoa | main.go:148-150 | the rendering of a negative counter is rejected by the decoder as a syntax error |
| Properties.LargestCounterDecodesToMinusOne | main.go:153 | the text of 2^64 − 1 decodes to -1 |
| Properties.Ip2IntMappedV4 | main.go:157-158 | a 16-byte address maps to the same value as its last four bytes, whatever the first twelve |
| Properties.Ip2IntExample | main.go:156-161 | 10.0.0.1 maps to 0x0A000001, alone or as the tail of 16 bytes |
| Properties.Ip2IntBijective | main.go:160 | on four bytes, `ip2int` and splitting into bytes are inverse |
| Properties.ServeRepliesSuccessor | main.go:124-136 | a framed counter `n < 2^63 - 1` gets exactly one reply, to the framing's address and port, carrying `n + 1`, which decodes as `n + 1` under any framing |
| Properties.ServeWrapsAtLargestInt | main.go:133-134 | the reply to 2^63 − 1 carries the text of −2^63, which the client's callback rejects |
| Properties.ServeRejectsUndecodable | main.go:125-127 | a message that does not decode is answered with an error and no send, and the client callback fails on it too |
| Properties.ServeExample | main.go:124-136 | a message from 192.168.1.5, port 8080, carrying "41" is answered with "42" sent to 0xC0A80105:8080 |

## Left out

- `main` (flag parsing, configuration loading, starting and stopping the Nebula node, exit codes): command-line and library plumbing with no logic of its own to prove.
- The `strconv.Atoi` of the configured port and `net.ParseIP` of the host in `main`: configuration handling; a nil address would make `ip2int` panic, which the model turns into the precondition `|ip| >= 4`.
- Packet.Ip2Int: Go panics on fewer than four bytes; the model states this as a precondition rather than as an outcome.
- The five-second sleep and the goroutine running `send`: timing and concurrency; `Hook.Send` takes the number of completed sleeps as a parameter instead.
- Logging through logrus: no observable behaviour; `handleResponse` reduces to decoding and returning the error or nil.
- The Nebula `Send` and `Hook` primitives: foreign calls; a send is a `SendCall` record in the returned list.
- The text of Go's error messages: errors are modelled by their kind (`TooShort` with the length, `Parse` with `ErrSyntax` or `ErrRange`).
- Platforms where Go's `int` is 32 bits: the model assumes a 64-bit `int`.
