# RCON client protocol engine, modelled in Dafny

This project models the core of `rcon-cli`, a command-line client for the
Source RCON protocol as Minecraft servers speak it (the "Basic Packet
Structure", "Packet Type" and "Multiple-packet Responses" parts of Valve's
Source RCON Protocol description). It covers four parts:

- **The packet codec** (`RconPacket`, `src/protocol.rs`). A frame is
  `[i32 size][i32 id][i32 type][payload][0x00][0x00]`, little-endian, and
  `size` counts everything after the size field. `Protocol.Encode` and
  `Protocol.Decode` are the value-level meaning. The methods
  `Protocol.ToBytes` and `Protocol.FromBytes` follow the source step by
  step: buffer appends, then a cursor and a payload array. Each is proved
  equal to its function.
- **The connection logic** (`RconClient`, `src/client.rs`).
  `Client.RconClient` is a class with the mutable request-id counter, a
  socket object and the configuration. The socket (`Client.Stream`) holds
  the bytes the server has sent and the client has not read yet, consumed
  in order by `read_exact`, and the log of buffers handed to `write_all`.
  The methods (`Authenticate`, `ReadPacket`, `ReadCommandResponse` with its
  loop, `ExecuteCommand`, `Ping`, `NextRequestId`) are proved against the
  specification functions `ReadFrame`, `AuthExchange`, `Reassemble` and
  `ExecExchange`. Module `Exchanges` proves the protocol properties about
  those functions over streams of well-formed frames.
- **The error type** (`src/error.rs`) is `Errors.RconError`. Messages that
  the source builds with `format!` are kept as structured reasons
  (`PacketFault`, `ProtocolFault`), one per message that can occur; the
  read-error messages of `from_bytes` and the write-error messages of
  `to_bytes` cannot, and have none (see "## Left out"). The one reason without
  a source message is `BodyTooShort`: it is the corrected decoder's refusal
  of a size below 10 (see "## Findings").
- **The argument checks** (`src/cli.rs`): `validate`, `log_level` and the
  localhost rewrite done by `parse_address`.

Files: `wire.dfy` (machine integers, little-endian words, the `as usize`
cast), `errors.dfy`, `protocol.dfy`, `client.dfy`, `exchanges.dfy`, `cli.dfy`.

Modelling choices:

- Strings sent to or received from the server are their UTF-8 bytes.
- `String::from_utf8_lossy` is the identity on those bytes.
- The outcome of `TcpStream::connect` under `tokio::time::timeout` is a
  parameter (`Client.ConnectAttempt`): timed out, failed with an I/O error,
  or established with a given socket.
- Whether the peer takes a write is decided per write: the socket counts
  the writes attempted (`Stream.writesTried`), and `Stream.writeAccepted(n)`
  says whether the n-th one goes through. A refused write fails with a
  broken pipe, so a connection can reset after any number of writes,
  including right after a successful handshake. A read past the end of the
  inbound bytes fails with `UnexpectedEof`.

## Model

| member | source | states |
|---|---|---|
| Wire.WrappingAdd | src/client.rs:226 | the `i32` result differs from the true sum by a multiple of 2^32 |
| Wire.AsUsize | src/client.rs:135 | `as usize` keeps non-negative values and sends every negative `i32` to at least 2^64 - 2^31 |
| Wire.LeBytes | src/protocol.rs:65-76 | four bytes, least significant first: their base-256 value is the unsigned reading of the word |
| Wire.LeInt32 | src/protocol.rs:97-99 | `read_i32`/`from_le_bytes`: the word is negative iff the top bit of the last byte is set, and its unsigned reading is the base-256 value of the bytes |
| Wire.LeInt32OfLeBytes | src/protocol.rs:97-99 | reading a little-endian word written by `write_i32` gives back the value |
| Wire.LeBytesOfLeInt32 | src/protocol.rs:65-76 | every 4 bytes are the encoding of exactly one `i32` |
| Wire.LeBytesInjective | src/protocol.rs:65-76 | different values have different encodings |
| Protocol.AuthPacket | src/protocol.rs:37-39 | an auth packet has type AUTH (3), the given id, and the password as payload |
| Protocol.CommandPacket | src/protocol.rs:42-44 | a command packet has type EXECCOMMAND (2), the given id, and the command as payload |
| Protocol.AuthSuccessfulIff | src/protocol.rs:142-154 | the predicates `IsAuthResponse` and `AuthSuccessful` spelled out: `auth_successful(e)` holds iff the type is 2 (not 3) and the id equals `e`; what this means for a handshake is in the Exchanges.Auth* rows |
| Protocol.SentinelNeverAuthenticates | src/protocol.rs:152-154 | a reply with id -1 never authenticates a request whose id is not -1 |
| Protocol.CommandResponseIff | src/protocol.rs:147-149 | the predicate `IsCommandResponse` spelled out: `is_command_response` holds iff the type is 0; its use in reassembly is Exchanges.WrongTypeAborts |
| Protocol.RawFrame | src/protocol.rs:59-81 | frame layout: length = payload + 14; bytes 0-3 are LE(payload + 10); then id, type, the payload verbatim, and two zero bytes |
| Protocol.Encode | src/protocol.rs:47-84 | fails iff the payload exceeds 1446 bytes, with PayloadTooLarge(its length); otherwise the frame of the layout above |
| Protocol.ToBytes | src/protocol.rs:47-84 | the step-by-step serialisation returns exactly `Encode(p)` |
| Protocol.TrimNul | src/protocol.rs:130-132 | the result is a prefix; every dropped byte is NUL; the result does not end in NUL |
| Protocol.TrimNulOfNoTrailingNul | src/protocol.rs:131 | trimming leaves a payload that does not end in NUL unchanged |
| Protocol.Decode | src/protocol.rs:87-139 | succeeds iff the buffer has at least 14 bytes and its size field equals length - 4; id and type are words 2 and 3; payload = bytes [12, len-2) NUL-trimmed; the terminators are not inspected; every failure is InvalidPacket |
| Protocol.FromBytes | src/protocol.rs:87-139 | the cursor-and-buffer decoding returns exactly `Decode(data)` |
| Protocol.DecodeAsWritten | src/protocol.rs:102-122 | the source as written panics exactly on 12- and 13-byte buffers whose size field (8 or 9) matches their length |
| Protocol.ShortBodyPanicsAsWritten | src/protocol.rs:121-122 | the 12-byte frame with size 8 panics as written and is refused with BodyTooShort(8) when corrected |
| Protocol.DecodeAgreesWithSource | src/protocol.rs:87-139 | wherever the source does not panic, the corrected decoder returns what it returns |
| Protocol.DecodeRawFrame | src/protocol.rs:87-139 | decoding a frame gives back its id, its type and its NUL-trimmed payload |
| Protocol.DecodeEncode | src/protocol.rs:47-139 | `from_bytes(to_bytes(p))` succeeds for every payload of at most 1446 bytes and loses only trailing NULs |
| Protocol.RoundTrip | src/protocol.rs:47-139 | the round trip is exact for payloads of at most 1446 bytes not ending in NUL |
| Protocol.TrailingNulIsLost | src/protocol.rs:130-132 | the payload "a\0" comes back as "a" |
| Protocol.DecodeRejectsShortBuffers | src/protocol.rs:88-92 | every buffer under 12 bytes is refused with PacketTooShort |
| Protocol.DecodeRejectsLengthMismatch | src/protocol.rs:101-109 | a buffer whose size field is not its length - 4 is refused with LengthMismatch |
| Client.NewConfig | src/client.rs:18-24 | the address and password are kept; the timeout defaults to 5 s |
| Client.RconConfig.WithTimeout | src/client.rs:26-29 | replaces the timeout and nothing else |
| Client.WithTimeoutLastWins | src/client.rs:26-29 | of two timeouts set, the last one counts |
| Client.Stream.ReadExact | src/client.rs:129-133 | fills the window from the front of the inbound bytes and consumes them; if too few remain, fails with UnexpectedEof |
| Client.Stream.WriteAll | src/client.rs:119-122 | counts one more attempt; if the peer takes this write, appends the buffer to the outbound log, otherwise fails with a network error and logs nothing |
| Client.Successor | src/client.rs:224-231 | the advanced counter is never -1, and never 0 unless it was -1 |
| Client.SuccessorCases | src/client.rs:226-229 | +1, except 2147483647 wraps to -2147483648 and -2 skips -1 to land on 1 |
| Client.WrapAroundExample | src/client.rs:226 | from 2147483646 two allocations give 2147483646 and 2147483647 and leave -2147483648 |
| Client.SuccessorAdvances | src/client.rs:224-231 | each allocation moves one step along the cycle 1, ..., 2^31-1, -2^31, ..., -2 |
| Client.IdAfterNeverSentinel | src/client.rs:49-53 | from a start other than 0 and -1 (such as 1), no number of allocations reaches -1 or 0 |
| Client.IdAfterPosition | src/client.rs:224-231 | from 1, the n-th counter value is the n-th value of the cycle |
| Client.IdCycleCloses | src/client.rs:224-231 | after 2^32 - 2 allocations the counter is back at 1 |
| Client.IdsDistinct | src/client.rs:224-231 | the first 2^32 - 2 ids of a connection are pairwise distinct |
| Client.ReadFrame | src/client.rs:127-171 | a successful read consumes at least a whole 14-byte frame, and never more than the input |
| Client.ReadFrameSizeWindow | src/client.rs:135-151 | a size below 8 is refused as too short and one above 4106 as too large, before the body is read; a negative size is too large through `as usize` |
| Client.ReadFrameOfSizedFrame | src/client.rs:153-162 | a frame whose size is in the window and matches its length is read whole and decoded; what follows is left unread |
| Client.ReadFrameOfRawFrame | src/client.rs:127-171 | a well-formed frame is read as one packet with its payload NUL-trimmed; the bytes after it stay unread |
| Client.ReadFrameAdmitsShortBody | src/client.rs:139-162 | the window admits the 12-byte frame with size 8, on which the source panics; the corrected decoder refuses it |
| Client.SendFrame | src/client.rs:110-124 | a frame is delivered iff the payload is at most 1446 bytes and the peer takes the write, and it is the encoding of the packet |
| Client.AuthExchange | src/client.rs:63-79 | `authenticate` after the id is allocated: one write is attempted iff the password fits; nothing is read unless a frame was delivered; success only after delivering exactly the AUTH frame for that id and password |
| Client.ExecExchange | src/client.rs:82-99 | `execute_command` after the id is allocated: one write is attempted iff the command fits; nothing is read unless a frame was delivered; success only after delivering exactly the EXECCOMMAND frame for that id and command |
| Client.ReassembleExtends | src/client.rs:174-221 | about `Reassemble`, the meaning of `read_command_response`: a successful reassembly returns the text gathered before followed by more, and consumes at least one whole frame |
| Client.RconClient.constructor | src/client.rs:49-53 | the counter starts at 1 |
| Client.RconClient.Connect | src/client.rs:41-60 | a timeout gives Timeout and a connect failure gives Network; otherwise one handshake with id 1, the client is returned iff it succeeds, and the counter is then 2 |
| Client.RconClient.NextRequestId | src/client.rs:224-231 | returns the old counter and stores its successor; the counter stays off -1 and 0 |
| Client.RconClient.SendPacket | src/client.rs:110-124 | serialises, then makes one write attempt of exactly that frame; fails without attempting a write on an oversized payload |
| Client.RconClient.ReadPacket | src/client.rs:127-171 | the result and the bytes left are exactly `ReadFrame` of the bytes before; nothing is written |
| Client.RconClient.Authenticate | src/client.rs:63-79 | one id allocated, then exactly `AuthExchange`: one AUTH frame written, one packet read |
| Client.RconClient.ReadCommandResponse | src/client.rs:174-221 | the loop computes exactly `Reassemble(inbound, id, 0, [])` and writes nothing |
| Client.RconClient.ExecuteCommand | src/client.rs:82-99 | one id allocated, then exactly `ExecExchange` for that id |
| Client.RconClient.Ping | src/client.rs:102-107 | runs "list" and keeps only success or the error |
| Client.RconClient.IsConnected | src/client.rs:239-242 | true iff the ping's command exchange succeeds |
| Client.NewBuilder | src/client.rs:253-259 | no address, no password, 5 s timeout |
| Client.RconClientBuilder.Address | src/client.rs:261-264 | sets the address and nothing else |
| Client.RconClientBuilder.Password | src/client.rs:266-269 | sets the password and nothing else |
| Client.RconClientBuilder.Timeout | src/client.rs:271-274 | sets the timeout and nothing else |
| Client.RconClientBuilder.Config | src/client.rs:276-285 | succeeds iff an address and a password are set; the address is checked first, and each has its own InvalidConfig message |
| Client.BuilderCompleteConfig | src/client.rs:276-285 | a password, an address and then a timeout give exactly that configuration; an address alone or a password alone is refused with its own message |
| Client.BuilderConnect | src/client.rs:276-287 | the presence checks run before any socket use; then `connect` |
| Exchanges.AuthWritesOnceReadsOnce | src/client.rs:63-79 | the handshake writes exactly one AUTH frame carrying the password and reads exactly one frame |
| Exchanges.AuthOutcome | src/client.rs:63-79 | against a well-formed reply, success iff the reply has type 2 and echoes the id; every other reply gives AuthenticationFailed |
| Exchanges.AuthSentinelRejected | src/client.rs:72-78 | a reply with id -1 fails the handshake whatever its type |
| Exchanges.AuthTypedReplyRejected | src/client.rs:72-78 | a reply typed 3 (AUTH) never authenticates |
| Exchanges.AuthRejectsLongPassword | src/client.rs:66-69 | a password over 1446 bytes is refused before anything is written or read |
| Exchanges.StaleSkipped | src/client.rs:183-189 | a packet for another id is counted as a read and leaves the gathered text unchanged |
| Exchanges.WrongTypeAborts | src/client.rs:192-197 | a packet with the expected id and a type other than 0 aborts with UnexpectedPacketType |
| Exchanges.ShortFragmentEnds | src/client.rs:199-210 | a matching fragment shorter than 4096 bytes after trimming ends the response with the text gathered so far plus it |
| Exchanges.FullFragmentContinues | src/client.rs:199-217 | a full matching fragment within the bound is appended and reading goes on |
| Exchanges.FullFragmentPastBound | src/client.rs:212-217 | a full matching fragment read once more than 100 packets were read aborts with TooManyResponsePackets |
| Exchanges.ReassembleThree | src/client.rs:174-221 | three frames forming a complete response reassemble to the payloads carrying the expected id, and nothing after them is read |
| Exchanges.ReassembleCompleteResponse | src/client.rs:174-221 | for a complete response (stale packets, full fragments within the bound, one short closing fragment) the result is the in-order concatenation of the matching payloads, and exactly its frames are consumed |
| Exchanges.ThreeFragments | src/client.rs:199-210 | fragments of 4096, 4096 and 120 bytes give their concatenation in three reads |
| Exchanges.SingleShortFragment | src/client.rs:199-210 | a single 4095-byte fragment is the whole response, in one read |
| Exchanges.InterleavedStaleDropped | src/client.rs:178-210 | a stale reply between two fragments is dropped from the text |
| Exchanges.FullFragmentsAccumulate | src/client.rs:199-217 | any run of full matching fragments within the bound is gathered in order, one read each |
| Exchanges.TooManyFragments | src/client.rs:212-217 | 101 full fragments with no short one abort on the 101st read |
| Exchanges.StaleFramesSkipped | src/client.rs:178-189 | any run of stale packets is skipped, each counted as a read |
| Exchanges.StaleOnlyReadsToEnd | src/client.rs:178-189 | stale packets alone never trip the bound: reading goes on until end of file |
| Exchanges.StaleCountTowardBound | src/client.rs:178-217 | after 100 stale packets, one full matching fragment already aborts |
| Exchanges.ExecWritesOneFrame | src/client.rs:82-99 | a command writes exactly one EXECCOMMAND frame with the allocated id and reassembles against that id |
| Exchanges.ExecRejectsLongCommand | src/client.rs:86-89 | a command over 1446 bytes is refused before anything is written or read |
| Exchanges.ExecOnBrokenSocket | src/client.rs:89 | a refused write gives a network error before any read |
| Exchanges.ResetAfterHandshake | src/client.rs:41-99 | a peer that takes the handshake's write and refuses the next one: `connect` succeeds, and the next `execute_command` fails with a network error |
| Cli.TrimStart | src/cli.rs:230 | `trim_start` drops a leading run of whitespace, and only whitespace, and stops at a non-whitespace character |
| Cli.TrimEnd | src/cli.rs:230 | `trim_end` drops a trailing run of whitespace, and only whitespace, and stops at a non-whitespace character |
| Cli.TrimIsInfix | src/cli.rs:230 | about `Trim`, the model of `str::trim`: the result is a substring of the input with only whitespace around it, and it neither starts nor ends with whitespace |
| Cli.TrimEmptyIff | src/cli.rs:229-232 | a command trims to nothing iff it is all (Unicode) whitespace |
| Cli.FirstFailure | src/cli.rs:216-253 | a list of checks passes iff none of them fails |
| Cli.FirstFailureIsFirst | src/cli.rs:216-253 | a failure carries the message of a failing check with no failing check before it |
| Cli.ValidateIsFirstFailure | src/cli.rs:216-253 | `Validate`, the model of `validate`, is the first failing check in source order: timeout, password, then the subcommand's own checks |
| Cli.ValidateOkIff | src/cli.rs:216-253 | Ok iff timeout > 0, the password is non-empty, an Exec command is not blank, an Interactive history size is > 0, and a Ping count and interval are > 0 |
| Cli.TimeoutCheckedFirst | src/cli.rs:218-220 | a zero timeout is reported whatever else is wrong |
| Cli.BlankCommandRejected | src/cli.rs:229-232 | a whitespace-only Exec command is refused with "Command cannot be empty" |
| Cli.PingCountBeforeInterval | src/cli.rs:239-247 | a zero ping count is reported before a zero interval |
| Cli.InfoAndPlayersUnchecked | src/cli.rs:249 | Info and Players pass iff the timeout and password checks pass |
| Cli.LogLevel | src/cli.rs:201-208 | the level is one of warn, info, debug, trace |
| Cli.LogLevelSteps | src/cli.rs:201-208 | 0, 1, 2 map to warn, info, debug; "trace" iff the count is 3 or more |
| Cli.LogLevelInjectiveBelowThree | src/cli.rs:202-206 | the counts 0, 1, 2 give three distinct levels |
| Cli.ReplaceAllLength | src/cli.rs:183 | about `ReplaceAll`, the model of `str::replace`: replacing by a string of the same length keeps the length |
| Cli.ReplaceAllIdentity | src/cli.rs:183 | a string without an occurrence of the pattern is unchanged |
| Cli.ReplaceLeavesNoOccurrence | src/cli.rs:183 | when the replacement cannot fake the pattern, no occurrence is left after `replace` |
| Cli.RewriteAddressCases | src/cli.rs:182-188 | about `RewriteAddress`, the text `parse_address` parses: a leading "localhost:" turns every "localhost:" into "127.0.0.1:" (same length, none left); exactly "localhost" becomes "127.0.0.1"; anything else is unchanged |
| Cli.RewriteAddressIdempotent | src/cli.rs:182-188 | rewriting a rewritten address changes nothing |
| Cli.ParseAddress | src/cli.rs:181-193 | the parser sees the rewritten text; a failure message quotes the address as typed, not as rewritten |

## Left out

- `src/main.rs`: the interactive loop, printing, timing, sleeps, process exit, and the floating-point ping statistics. This covers `connect_with_retry` (src/main.rs:351-381), a loop of sleeps and printing around `connect`.
- `src/lib.rs`: it only re-exports items and sets up logging.
- `OutputFormatter` and `Cli::use_colors`: they need regular expressions, the clock, JSON and terminal detection.
- `Cli::timeout_duration` and Duration arithmetic: a library conversion; `Duration` is only stored and copied here.
- `SocketAddr` parsing: the library parser is a parameter of `Cli.ParseAddress`.
- `RconClient::server_address`: a field read.
- Real sockets and time: connecting, the connect timeout, `read_exact` and `write_all` act on the `Client.Stream` object, and the connect outcome is a parameter. A read never times out.
- `String::from_utf8_lossy`: the identity on the payload bytes. Invalid UTF-8 is not replaced by U+FFFD, so the 4096-byte fragment test counts the bytes received.
- Error texts built with `format!`: each one that can occur is a structured reason that keeps the values its message is computed from. `PayloadTooLarge`, `FrameTooShort` and `FrameTooLarge` keep the number printed. `LengthMismatch` keeps the declared size and the buffer length; the message prints the declared size cast to `usize`, plus 4, and the buffer length.
- The write-error branches of `to_bytes` (src/protocol.rs:67-76): writing into a vector cannot fail.
- The read-error branches of `from_bytes` (src/protocol.rs:97-99, 112-118 and 125-126), with their messages "Failed to read packet length", "Failed to read request ID", "Failed to read packet type" and "Failed to read payload". They never fire: once the buffer has at least 12 bytes and its size field matches its length, the cursor always holds the bytes it reads. `Protocol.FromBytes` reads each slice within bounds.
- Client.Reassemble: the read counter `received` is an unbounded `nat`. In the source, `packets_received` (src/client.rs:176-180) is an `i32`. After 2^31 - 1 reads, `packets_received += 1` panics in a debug build; in a release build it wraps to -2^31, so `packets_received > 100` stays false for about 2^32 more reads. The model does neither.
- Client.RconClient.ReadCommandResponse: the same unbounded read counter as `Reassemble`, which the loop is proved equal to; the source's `i32` overflow after 2^31 - 1 reads is not modelled.
- Exchanges.StaleFramesSkipped: stated for runs of stale frames of any length. The source's `i32` read counter overflows after 2^31 - 1 reads, so only shorter runs are skipped as stated.
- Exchanges.StaleOnlyReadsToEnd: with 2^31 - 1 or more stale frames, a debug build panics on the counter instead of reading to end of file; that is not modelled.
- Exchanges.ReassembleCompleteResponse: allows any number of stale packets between fragments, while the source's `i32` read counter overflows after 2^31 - 1 reads.
- The `tracing` calls.
- Client.Stream.WriteAll: a refused write delivers nothing and always fails with a broken pipe. A real `write_all` can fail after part of the buffer reached the peer, and with other error kinds.
- Client.Stream.ReadExact: fails only when the server's bytes run out, always with UnexpectedEof. A connection reset in mid-read, and its error kind, are not distinguished from end of file.
- Protocol.DecodeAsWritten: models the release build, where `packet_length as usize + 4` wraps. A debug build instead panics on that addition for declared sizes -4 to -1. The release build refuses those buffers with LengthMismatch.
- Protocol.DecodeAgreesWithSource: holds for buffers shorter than 2^63 bytes, the largest a Rust slice of bytes can be.
- Exchanges.ReassembleCompleteResponse, Exchanges.FullFragmentsAccumulate and the other multi-frame lemmas: stated for server payloads that do not end in NUL, so that a payload is decoded as sent. `Client.Reassemble` itself covers every input.

## Findings

| source | as written | input that shows it | evidently intended | confidence | as-written member | corrected member |
|---|---|---|---|---|---|---|
| src/protocol.rs:121 | `packet_length as usize - 8 - 2` is computed for every size that passed the length check. `read_packet` (src/client.rs:139) admits sizes 8 and 9. For them the subtraction underflows: a debug build panics, and a release build asks `vec!` for about 2^64 bytes, which panics too. | the 12-byte frame `08 00 00 00 07 00 00 00 00 00 00 00` (size 8, id 7, type 0, no room for the terminators) | refuse a size below 10 with `InvalidPacket`, like every other malformed frame | not executed | Protocol.ShortBodyPanicsAsWritten | Protocol.Decode |
