/** The connection logic of the RCON client (`RconClient` in src/client.rs).

    The TCP socket is a `Stream`: the bytes the server has sent and the client
    has not read yet, consumed in order, and the log of frames the client has
    written. Whether the connect succeeds within the timeout, and whether
    writes reach the peer, are decided by the environment and passed in. */
module Client {
  import opened Wire
  import opened Errors
  import opened Protocol

  datatype Option<+T> = None | Some(value: T)

  /** `std::time::Duration`; the model only stores and copies it. */
  datatype Duration = Duration(secs: nat, nanos: nat)

  const DEFAULT_TIMEOUT: Duration := Duration(5, 0)

  /** `std::net::SocketAddr`, kept opaque. */
  datatype SocketAddr = SocketAddr(text: string)

  /** The smallest and largest size field `read_packet` lets through. */
  const MIN_FRAME_SIZE: nat := 8
  const MAX_FRAME_SIZE: nat := MAX_RESPONSE_PAYLOAD_SIZE + 10

  /** Reads after which a full-size fragment aborts reassembly. */
  const MAX_RESPONSE_PACKETS: nat := 100

  /** The command `ping` sends: "list". */
  const PING_COMMAND: seq<byte> := [0x6C, 0x69, 0x73, 0x74]

  // ------------------------------------------------------------ configuration

  datatype RconConfig = RconConfig(address: SocketAddr, password: seq<byte>, timeout: Duration) {
    /** `RconConfig::with_timeout`: replaces the timeout and nothing else. */
    function WithTimeout(t: Duration): (c: RconConfig)
      ensures c.timeout == t && c.address == address && c.password == password
    {
      this.(timeout := t)
    }
  }

  /** `RconConfig::new`: the timeout defaults to five seconds. */
  function NewConfig(address: SocketAddr, password: seq<byte>): (c: RconConfig)
    ensures c.address == address && c.password == password && c.timeout == DEFAULT_TIMEOUT
  {
    RconConfig(address, password, DEFAULT_TIMEOUT)
  }

  /** Only the last timeout set counts. */
  lemma WithTimeoutLastWins(c: RconConfig, a: Duration, b: Duration)
    ensures c.WithTimeout(a).WithTimeout(b) == c.WithTimeout(b)
  {
  }

  // ------------------------------------------------------------ the socket

  class Stream {
    /** Bytes sent by the server and not yet read, in arrival order. */
    var inbound: seq<byte>
    /** Every buffer `write_all` delivered, in order. */
    var outbound: seq<seq<byte>>
    /** How many times `write_all` has been called on this socket. */
    var writesTried: nat
    /** Whether the peer takes the n-th write, counting from 0. Each write is
        decided on its own: the connection can reset after any number of
        writes that went through. */
    const writeAccepted: nat -> bool

    constructor (incoming: seq<byte>, writeAccepted: nat -> bool)
      ensures inbound == incoming && outbound == [] && writesTried == 0
      ensures this.writeAccepted == writeAccepted
    {
      inbound := incoming;
      outbound := [];
      writesTried := 0;
      this.writeAccepted := writeAccepted;
    }

    /** `read_exact` into `buf[from..]`: fills the window from the front of the
        inbound bytes, or reaches end of file and consumes what is left. */
    method ReadExact(buf: array<byte>, from: nat) returns (r: Result<()>)
      requires from <= buf.Length
      modifies this`inbound, buf
      ensures buf[..from] == old(buf[..from])
      ensures buf.Length - from <= |old(inbound)| ==>
                r == Ok(()) && buf[from..] == old(inbound)[..buf.Length - from] &&
                inbound == old(inbound)[buf.Length - from..]
      ensures buf.Length - from > |old(inbound)| ==>
                r == Err(Network(UnexpectedEof)) && inbound == []
    {
      var n := buf.Length - from;
      if n <= |inbound| {
        forall i | from <= i < buf.Length {
          buf[i] := inbound[i - from];
        }
        inbound := inbound[n..];
        r := Ok(());
      } else {
        forall i | from <= i < from + |inbound| {
          buf[i] := inbound[i - from];
        }
        inbound := [];
        r := Err(Network(UnexpectedEof));
      }
    }

    /** `write_all`. */
    method WriteAll(bytes: seq<byte>) returns (r: Result<()>)
      modifies this`outbound, this`writesTried
      ensures writesTried == old(writesTried) + 1
      ensures writeAccepted(old(writesTried)) ==> r == Ok(()) && outbound == old(outbound) + [bytes]
      ensures !writeAccepted(old(writesTried)) ==> r == Err(Network(BrokenPipe)) && outbound == old(outbound)
    {
      var accepted := writeAccepted(writesTried);
      writesTried := writesTried + 1;
      if accepted {
        outbound := outbound + [bytes];
        r := Ok(());
      } else {
        r := Err(Network(BrokenPipe));
      }
    }
  }

  // ------------------------------------------------------------ request ids

  /** The counter after one allocation: `wrapping_add(1)`, then -1 becomes 1. */
  function Successor(x: int32): (y: int32)
    ensures y != -1
    ensures x != -1 ==> y != 0
  {
    var n := WrappingAdd(x, 1);
    if n == -1 then 1 else n
  }

  /** The counter after `n` allocations starting from `start`. */
  function IdAfter(start: int32, n: nat): int32
  {
    if n == 0 then start else Successor(IdAfter(start, n - 1))
  }

  /** Exactly where the counter departs from plain `+ 1`. */
  lemma SuccessorCases(x: int32)
    ensures x == 0x7FFF_FFFF ==> Successor(x) == -0x8000_0000
    ensures x == -2 ==> Successor(x) == 1
    ensures x != 0x7FFF_FFFF && x != -2 ==> Successor(x) == x + 1
  {
  }

  /** Starting from 2147483646, two allocations hand out 2147483646 and
      2147483647 and leave the counter at -2147483648. */
  lemma WrapAroundExample()
    ensures IdAfter(0x7FFF_FFFE, 0) == 0x7FFF_FFFE
    ensures IdAfter(0x7FFF_FFFE, 1) == 0x7FFF_FFFF
    ensures IdAfter(0x7FFF_FFFE, 2) == -0x8000_0000
  {
  }

  /** The number of values the counter cycles through: every `i32` but 0 and -1. */
  const ID_CYCLE: nat := TWO_32 - 2

  /** Where a counter value sits in the cycle 1, 2, ..., 2^31 - 1, -2^31, ..., -2. */
  function CyclePosition(x: int32): (k: nat)
    requires x != 0 && x != -1
    ensures k < ID_CYCLE
  {
    if x > 0 then x - 1 else x + TWO_32 - 1
  }

  lemma SuccessorAdvances(x: int32)
    requires x != 0 && x != -1 && CyclePosition(x) + 1 < ID_CYCLE
    ensures CyclePosition(Successor(x)) == CyclePosition(x) + 1
  {
  }

  /** From a value other than 0 and -1, no number of allocations reaches 0 or -1. */
  lemma {:induction false} IdAfterNeverSentinel(start: int32, n: nat)
    requires start != 0 && start != -1
    ensures IdAfter(start, n) != -1 && IdAfter(start, n) != 0
  {
    if n > 0 {
      IdAfterNeverSentinel(start, n - 1);
    }
  }

  /** From 1, the n-th id handed out is the n-th value of the cycle. */
  lemma {:induction false} IdAfterPosition(n: nat)
    requires n < ID_CYCLE
    ensures IdAfter(1, n) != -1 && IdAfter(1, n) != 0
    ensures CyclePosition(IdAfter(1, n)) == n
  {
    if n > 0 {
      IdAfterPosition(n - 1);
      SuccessorAdvances(IdAfter(1, n - 1));
    }
  }

  /** After 2^32 - 2 allocations the counter is back at 1. */
  lemma IdCycleCloses()
    ensures IdAfter(1, ID_CYCLE) == 1
  {
    IdAfterPosition(ID_CYCLE - 1);
    assert IdAfter(1, ID_CYCLE - 1) == -2;
  }

  /** The ids of one connection are pairwise distinct for 2^32 - 2 requests. */
  lemma IdsDistinct(i: nat, j: nat)
    requires i < j < ID_CYCLE
    ensures IdAfter(1, i) != IdAfter(1, j)
  {
    IdAfterPosition(i);
    IdAfterPosition(j);
  }

  // ------------------------------------------------------------ reading frames

  datatype ReadStep = ReadStep(result: Result<Packet>, rest: seq<byte>)

  /** What `read_packet` returns and what it leaves unread: the size field is
      checked against the window [8, 4106] before the body is read. Declared
      sizes 8 and 9 pass the window although a frame needs at least 10 to hold
      the two terminators; Decode refuses them. */
  function ReadFrame(inbound: seq<byte>): (s: ReadStep)
    ensures |s.rest| <= |inbound|
    ensures s.result.Ok? ==> |s.rest| + 14 <= |inbound|
  {
    if |inbound| < 4 then ReadStep(Err(Network(UnexpectedEof)), [])
    else
      var packetLength := AsUsize(LeInt32(inbound[..4]));
      if packetLength < MIN_FRAME_SIZE then
        ReadStep(Err(InvalidPacket(FrameTooShort(packetLength))), inbound[4..])
      else if packetLength > MAX_FRAME_SIZE then
        ReadStep(Err(InvalidPacket(FrameTooLarge(packetLength))), inbound[4..])
      else if |inbound| < 4 + packetLength then
        ReadStep(Err(Network(UnexpectedEof)), [])
      else
        ReadStep(Decode(inbound[..4 + packetLength]), inbound[4 + packetLength..])
  }

  /** A size field outside [8, 4106] is refused before the body is read; a
      negative size is "too large" through the `as usize` cast. */
  lemma ReadFrameSizeWindow(inbound: seq<byte>)
    requires |inbound| >= 4
    ensures var size := LeInt32(inbound[..4]);
            (0 <= size < 8 ==> ReadFrame(inbound) == ReadStep(Err(InvalidPacket(FrameTooShort(size))), inbound[4..])) &&
            (size < 0 || size > 4106 ==>
               ReadFrame(inbound) == ReadStep(Err(InvalidPacket(FrameTooLarge(AsUsize(size)))), inbound[4..]))
  {
  }

  /** A frame whose size field lies in the window and matches its length is
      read whole, and decoded, and what follows it is left unread. */
  lemma ReadFrameOfSizedFrame(f: seq<byte>, rest: seq<byte>)
    requires |f| >= 4 && MIN_FRAME_SIZE <= LeInt32(f[..4]) <= MAX_FRAME_SIZE && |f| == LeInt32(f[..4]) as int + 4
    ensures ReadFrame(f + rest) == ReadStep(Decode(f), rest)
  {
    var inbound := f + rest;
    assert inbound[..4] == f[..4];
    assert inbound[..|f|] == f;
    assert inbound[|f|..] == rest;
  }

  /** A well-formed frame is read as one packet and nothing after it is consumed. */
  lemma ReadFrameOfRawFrame(requestId: int32, packetType: int32, payload: seq<byte>, rest: seq<byte>)
    requires |payload| <= MAX_RESPONSE_PAYLOAD_SIZE
    ensures ReadFrame(RawFrame(requestId, packetType, payload) + rest)
            == ReadStep(Ok(Packet(requestId, packetType, TrimNul(payload))), rest)
  {
    var f := RawFrame(requestId, packetType, payload);
    LeInt32OfLeBytes(|payload| + 10);
    DecodeRawFrame(requestId, packetType, payload);
    ReadFrameOfSizedFrame(f, rest);
  }

  /** read_packet's window admits a 12-byte frame declaring size 8, which the
      source's from_bytes panics on. */
  lemma ReadFrameAdmitsShortBody(rest: seq<byte>)
    ensures var frame: seq<byte> := [8, 0, 0, 0, 7, 0, 0, 0, 0, 0, 0, 0];
            MIN_FRAME_SIZE <= AsUsize(LeInt32(frame[..4])) <= MAX_FRAME_SIZE &&
            DecodeAsWritten(frame) == Panics &&
            ReadFrame(frame + rest) == ReadStep(Err(InvalidPacket(BodyTooShort(8))), rest)
  {
    var frame: seq<byte> := [8, 0, 0, 0, 7, 0, 0, 0, 0, 0, 0, 0];
    ShortBodyPanicsAsWritten();
    assert (frame + rest)[..4] == frame[..4];
    assert (frame + rest)[..12] == frame;
    assert (frame + rest)[12..] == rest;
  }

  // ------------------------------------------------------------ exchanges

  /** The outcome of one exchange: the result, the frames delivered, the
      number of writes attempted, and the bytes left unread. */
  datatype Exchange<+T> = Exchange(result: Result<T>, written: seq<seq<byte>>, tried: nat, rest: seq<byte>)

  /** `send_packet`, given whether the peer takes the write: the frame
      delivered, or why nothing was. */
  function SendFrame(p: Packet, accepted: bool): (r: Result<seq<byte>>)
    ensures r.Ok? <==> |p.payload| <= MAX_REQUEST_PAYLOAD_SIZE && accepted
    ensures r.Ok? ==> r.value == RawFrame(p.requestId, p.packetType, p.payload)
  {
    match Encode(p)
    case Err(e) => Err(e)
    case Ok(frame) => if accepted then Ok(frame) else Err(Network(BrokenPipe))
  }

  /** `authenticate` with the id it allocated: one AUTH frame out, one packet
      in; `accepted` is whether the peer takes the write. */
  function AuthExchange(requestId: int32, password: seq<byte>, inbound: seq<byte>, accepted: bool): (x: Exchange<()>)
    ensures x.tried == (if |password| <= MAX_REQUEST_PAYLOAD_SIZE then 1 else 0)
    ensures |x.written| <= x.tried
    ensures x.written == [] ==> x.result.Err? && x.rest == inbound
    ensures x.result.Ok? ==> x.written == [RawFrame(requestId, AUTH, password)]
  {
    var tried := if |password| <= MAX_REQUEST_PAYLOAD_SIZE then 1 else 0;
    match SendFrame(AuthPacket(requestId, password), accepted)
    case Err(e) => Exchange(Err(e), [], tried, inbound)
    case Ok(frame) =>
      var s := ReadFrame(inbound);
      var result: Result<()> :=
        if s.result.Err? then Err(s.result.error)
        else if AuthSuccessful(s.result.value, requestId) then Ok(())
        else Err(AuthenticationFailed);
      Exchange(result, [frame], tried, s.rest)
  }

  datatype Reassembly = Reassembly(result: Result<seq<byte>>, rest: seq<byte>)

  /** `read_command_response` after `received` reads with `acc` gathered so far. */
  function Reassemble(inbound: seq<byte>, expected: int32, received: nat, acc: seq<byte>): (o: Reassembly)
    ensures |o.rest| <= |inbound|
    decreases |inbound|
  {
    var s := ReadFrame(inbound);
    if s.result.Err? then Reassembly(Err(s.result.error), s.rest)
    else
      var p := s.result.value;
      var n := received + 1;
      if p.requestId != expected then Reassemble(s.rest, expected, n, acc)
      else if !IsCommandResponse(p) then Reassembly(Err(Protocol(UnexpectedPacketType(p.packetType))), s.rest)
      else if |p.payload| < MAX_RESPONSE_PAYLOAD_SIZE then Reassembly(Ok(acc + p.payload), s.rest)
      else if n > MAX_RESPONSE_PACKETS then Reassembly(Err(Protocol(TooManyResponsePackets)), s.rest)
      else Reassemble(s.rest, expected, n, acc + p.payload)
  }

  /** A successful reassembly returns the text gathered before it followed by
      more, and consumes at least one whole frame. */
  lemma {:induction false} ReassembleExtends(inbound: seq<byte>, expected: int32, received: nat, acc: seq<byte>)
    ensures var o := Reassemble(inbound, expected, received, acc);
            o.result.Ok? ==> acc <= o.result.value && |o.rest| + 14 <= |inbound|
    decreases |inbound|
  {
    if Reassemble(inbound, expected, received, acc).result.Ok? {
      ReassembleGathers(inbound, expected, received, acc);
    }
    ReassembleConsumes(inbound, expected, received, acc);
  }

  /** Fragments are only ever appended to the text gathered so far. */
  lemma {:induction false} ReassembleGathers(inbound: seq<byte>, expected: int32, received: nat, acc: seq<byte>)
    requires Reassemble(inbound, expected, received, acc).result.Ok?
    ensures acc <= Reassemble(inbound, expected, received, acc).result.value
    decreases |inbound|
  {
    var s := ReadFrame(inbound);
    var p := s.result.value;
    if p.requestId != expected {
      ReassembleGathers(s.rest, expected, received + 1, acc);
    } else if |p.payload| >= MAX_RESPONSE_PAYLOAD_SIZE {
      ReassembleGathers(s.rest, expected, received + 1, acc + p.payload);
    }
  }

  /** A successful reassembly has read at least one frame of 14 bytes or more. */
  lemma {:induction false} ReassembleConsumes(inbound: seq<byte>, expected: int32, received: nat, acc: seq<byte>)
    ensures var o := Reassemble(inbound, expected, received, acc);
            o.result.Ok? ==> |o.rest| + 14 <= |inbound|
    decreases |inbound|
  {
    var s := ReadFrame(inbound);
    if s.result.Ok? {
      var p := s.result.value;
      if p.requestId != expected {
        ReassembleConsumes(s.rest, expected, received + 1, acc);
      } else if IsCommandResponse(p) && |p.payload| >= MAX_RESPONSE_PAYLOAD_SIZE && received + 1 <= MAX_RESPONSE_PACKETS {
        ReassembleConsumes(s.rest, expected, received + 1, acc + p.payload);
      }
    }
  }

  /** `execute_command` with the id it allocated: one EXECCOMMAND frame out,
      then reassembly against that id. */
  function ExecExchange(requestId: int32, command: seq<byte>, inbound: seq<byte>, accepted: bool): (x: Exchange<seq<byte>>)
    ensures x.tried == (if |command| <= MAX_REQUEST_PAYLOAD_SIZE then 1 else 0)
    ensures |x.written| <= x.tried
    ensures x.written == [] ==> x.result.Err? && x.rest == inbound
    ensures x.result.Ok? ==> x.written == [RawFrame(requestId, EXECCOMMAND, command)]
  {
    var tried := if |command| <= MAX_REQUEST_PAYLOAD_SIZE then 1 else 0;
    match SendFrame(CommandPacket(requestId, command), accepted)
    case Err(e) => Exchange(Err(e), [], tried, inbound)
    case Ok(frame) =>
      var o := Reassemble(inbound, requestId, 0, []);
      Exchange(o.result, [frame], tried, o.rest)
  }

  // ------------------------------------------------------------ the client

  class RconClient {
    const stream: Stream
    var nextRequestId: int32
    const config: RconConfig

    /** The counter never holds the auth-failure sentinel -1; starting from 1
        it never holds 0 either. */
    ghost predicate Valid()
      reads this
    {
      nextRequestId != -1 && nextRequestId != 0
    }

    /** The state `connect` builds once the socket is open. */
    constructor (stream: Stream, config: RconConfig)
      ensures this.stream == stream && this.config == config
      ensures nextRequestId == 1 && Valid()
    {
      this.stream := stream;
      this.config := config;
      nextRequestId := 1;
    }

    /** `RconClient::connect`: open the socket within the timeout (the outcome
        is `attempt`), start the counter at 1 and authenticate once. */
    static method Connect(config: RconConfig, attempt: ConnectAttempt) returns (r: Result<RconClient>)
      modifies if attempt.Established? then {attempt.stream} else {}
      ensures attempt.TimedOut? ==> r == Err(Timeout)
      ensures attempt.Failed? ==> r == Err(Network(attempt.error))
      ensures attempt.Established? ==>
                var x := AuthExchange(1, config.password, old(attempt.stream.inbound),
                                      attempt.stream.writeAccepted(old(attempt.stream.writesTried)));
                attempt.stream.inbound == x.rest &&
                attempt.stream.outbound == old(attempt.stream.outbound) + x.written &&
                attempt.stream.writesTried == old(attempt.stream.writesTried) + x.tried &&
                (x.result.Err? ==> r == Err(x.result.error)) &&
                (x.result.Ok? ==> r.Ok? && fresh(r.value) && r.value.Valid() &&
                                  r.value.stream == attempt.stream && r.value.config == config &&
                                  r.value.nextRequestId == 2)
    {
      match attempt
      case TimedOut => return Err(Timeout);
      case Failed(e) => return Err(Network(e));
      case Established(stream) =>
        var client := new RconClient(stream, config);
        var auth := client.Authenticate();
        if auth.Err? {
          return Err(auth.error);
        }
        return Ok(client);
    }

    /** `next_request_id`: hands out the counter and advances it. */
    method NextRequestId() returns (id: int32)
      requires Valid()
      modifies this`nextRequestId
      ensures Valid()
      ensures id == old(nextRequestId) && nextRequestId == Successor(old(nextRequestId))
    {
      id := nextRequestId;
      nextRequestId := WrappingAdd(nextRequestId, 1);
      if nextRequestId == -1 {
        nextRequestId := 1;
      }
    }

    /** `send_packet`: serialise, then one `write_all`. */
    method SendPacket(packet: Packet) returns (r: Result<()>)
      modifies stream
      ensures stream.inbound == old(stream.inbound)
      ensures stream.writesTried == old(stream.writesTried) + (if |packet.payload| <= MAX_REQUEST_PAYLOAD_SIZE then 1 else 0)
      ensures var s := SendFrame(packet, stream.writeAccepted(old(stream.writesTried)));
              (s.Err? ==> r == Err(s.error) && stream.outbound == old(stream.outbound)) &&
              (s.Ok? ==> r == Ok(()) && stream.outbound == old(stream.outbound) + [s.value])
    {
      var bytes := ToBytes(packet);
      if bytes.Err? {
        return Err(bytes.error);
      }
      r := stream.WriteAll(bytes.value);
    }

    /** `read_packet`: a 4-byte size, the window check, then the rest of the
        frame into a buffer that starts with the size bytes, then decoding. */
    method ReadPacket() returns (r: Result<Packet>)
      modifies stream
      ensures stream.outbound == old(stream.outbound) && stream.writesTried == old(stream.writesTried)
      ensures ReadStep(r, stream.inbound) == ReadFrame(old(stream.inbound))
    {
      var lengthBuffer := new byte[4];
      var got := stream.ReadExact(lengthBuffer, 0);
      if got.Err? {
        return Err(got.error);
      }
      var packetLength := AsUsize(LeInt32(lengthBuffer[..]));
      if packetLength < MIN_FRAME_SIZE {
        return Err(InvalidPacket(FrameTooShort(packetLength)));
      }
      if packetLength > MAX_FRAME_SIZE {
        return Err(InvalidPacket(FrameTooLarge(packetLength)));
      }
      var packetData := new byte[packetLength + 4];
      forall i | 0 <= i < 4 {
        packetData[i] := lengthBuffer[i];
      }
      ghost var afterSize := stream.inbound;
      got := stream.ReadExact(packetData, 4);
      if got.Err? {
        return Err(got.error);
      }
      assert packetData[..] == packetData[..4] + packetData[4..];
      assert packetData[..] == old(stream.inbound)[..4 + packetLength];
      r := FromBytes(packetData[..]);
    }

    /** `authenticate`: one AUTH frame with a fresh id, exactly one read. */
    method Authenticate() returns (r: Result<()>)
      requires Valid()
      modifies this`nextRequestId, stream
      ensures Valid() && nextRequestId == Successor(old(nextRequestId))
      ensures var x := AuthExchange(old(nextRequestId), config.password, old(stream.inbound),
                                 stream.writeAccepted(old(stream.writesTried)));
              r == x.result && stream.outbound == old(stream.outbound) + x.written && stream.inbound == x.rest &&
              stream.writesTried == old(stream.writesTried) + x.tried
    {
      var requestId := NextRequestId();
      var authPacket := AuthPacket(requestId, config.password);
      var sent := SendPacket(authPacket);
      if sent.Err? {
        return Err(sent.error);
      }
      var response := ReadPacket();
      if response.Err? {
        return Err(response.error);
      }
      if AuthSuccessful(response.value, requestId) {
        return Ok(());
      }
      return Err(AuthenticationFailed);
    }

    /** `read_command_response`: read until the first matching fragment shorter
        than 4096 bytes, skipping other ids, refusing other types, and giving
        up after a full fragment once more than 100 packets were read. */
    method ReadCommandResponse(expectedRequestId: int32) returns (r: Result<seq<byte>>)
      modifies stream
      ensures stream.outbound == old(stream.outbound) && stream.writesTried == old(stream.writesTried)
      ensures Reassembly(r, stream.inbound) == Reassemble(old(stream.inbound), expectedRequestId, 0, [])
    {
      var fullResponse: seq<byte> := [];
      var packetsReceived: nat := 0;
      while true
        invariant stream.outbound == old(stream.outbound) && stream.writesTried == old(stream.writesTried)
        invariant Reassemble(stream.inbound, expectedRequestId, packetsReceived, fullResponse)
                  == Reassemble(old(stream.inbound), expectedRequestId, 0, [])
        decreases |stream.inbound|
      {
        var packet := ReadPacket();
        if packet.Err? {
          return Err(packet.error);
        }
        packetsReceived := packetsReceived + 1;
        if packet.value.requestId != expectedRequestId {
          continue;
        }
        if !IsCommandResponse(packet.value) {
          return Err(Protocol(UnexpectedPacketType(packet.value.packetType)));
        }
        fullResponse := fullResponse + packet.value.payload;
        if |packet.value.payload| < MAX_RESPONSE_PAYLOAD_SIZE {
          break;
        }
        if packetsReceived > MAX_RESPONSE_PACKETS {
          return Err(Protocol(TooManyResponsePackets));
        }
      }
      return Ok(fullResponse);
    }

    /** `execute_command`: allocate an id, send the command, reassemble. */
    method ExecuteCommand(command: seq<byte>) returns (r: Result<seq<byte>>)
      requires Valid()
      modifies this`nextRequestId, stream
      ensures Valid() && nextRequestId == Successor(old(nextRequestId))
      ensures var x := ExecExchange(old(nextRequestId), command, old(stream.inbound),
                                 stream.writeAccepted(old(stream.writesTried)));
              r == x.result && stream.outbound == old(stream.outbound) + x.written && stream.inbound == x.rest &&
              stream.writesTried == old(stream.writesTried) + x.tried
    {
      var requestId := NextRequestId();
      var commandPacket := CommandPacket(requestId, command);
      var sent := SendPacket(commandPacket);
      if sent.Err? {
        return Err(sent.error);
      }
      r := ReadCommandResponse(requestId);
    }

    /** `ping`: runs "list" and keeps only success or failure. */
    method Ping() returns (r: Result<()>)
      requires Valid()
      modifies this`nextRequestId, stream
      ensures Valid() && nextRequestId == Successor(old(nextRequestId))
      ensures var x := ExecExchange(old(nextRequestId), PING_COMMAND, old(stream.inbound),
                                 stream.writeAccepted(old(stream.writesTried)));
              (x.result.Ok? ==> r == Ok(())) && (x.result.Err? ==> r == Err(x.result.error)) &&
              stream.outbound == old(stream.outbound) + x.written && stream.inbound == x.rest &&
              stream.writesTried == old(stream.writesTried) + x.tried
    {
      var response := ExecuteCommand(PING_COMMAND);
      if response.Err? {
        return Err(response.error);
      }
      return Ok(());
    }

    /** `is_connected`: whether a ping succeeds. */
    method IsConnected() returns (alive: bool)
      requires Valid()
      modifies this`nextRequestId, stream
      ensures Valid() && nextRequestId == Successor(old(nextRequestId))
      ensures var x := ExecExchange(old(nextRequestId), PING_COMMAND, old(stream.inbound),
                                 stream.writeAccepted(old(stream.writesTried)));
              alive == x.result.Ok? &&
              stream.outbound == old(stream.outbound) + x.written && stream.inbound == x.rest &&
              stream.writesTried == old(stream.writesTried) + x.tried
    {
      var pinged := Ping();
      alive := pinged.Ok?;
    }
  }

  /** The outcome of `tokio::time::timeout(config.timeout, TcpStream::connect(address))`. */
  datatype ConnectAttempt = TimedOut | Failed(error: IoError) | Established(stream: Stream)

  // ------------------------------------------------------------ the builder

  datatype RconClientBuilder = RconClientBuilder(address: Option<SocketAddr>, password: Option<seq<byte>>, timeout: Duration) {

    function Address(a: SocketAddr): (b: RconClientBuilder)
      ensures b.address == Some(a) && b.password == password && b.timeout == timeout
    {
      this.(address := Some(a))
    }

    function Password(p: seq<byte>): (b: RconClientBuilder)
      ensures b.password == Some(p) && b.address == address && b.timeout == timeout
    {
      this.(password := Some(p))
    }

    function Timeout(t: Duration): (b: RconClientBuilder)
      ensures b.timeout == t && b.address == address && b.password == password
    {
      this.(timeout := t)
    }

    /** The presence checks of `RconClientBuilder::connect`, address first. */
    function Config(): (r: Result<RconConfig>)
      ensures r.Ok? <==> address.Some? && password.Some?
      ensures address.None? ==> r == Err(InvalidConfig("Server address is required"))
      ensures address.Some? && password.None? ==> r == Err(InvalidConfig("Password is required"))
      ensures r.Ok? ==> r.value == RconConfig(address.value, password.value, timeout)
    {
      if address.None? then Err(InvalidConfig("Server address is required"))
      else if password.None? then Err(InvalidConfig("Password is required"))
      else Ok(NewConfig(address.value, password.value).WithTimeout(timeout))
    }
  }

  /** `RconClientBuilder::new`: nothing set, five-second timeout. */
  function NewBuilder(): (b: RconClientBuilder)
    ensures b.address.None? && b.password.None? && b.timeout == DEFAULT_TIMEOUT
  {
    RconClientBuilder(None, None, DEFAULT_TIMEOUT)
  }

  /** A builder given an address and a password always yields a configuration,
      whatever else was set, with the last timeout given. */
  lemma BuilderCompleteConfig(a: SocketAddr, p: seq<byte>, t: Duration)
    ensures NewBuilder().Password(p).Address(a).Timeout(t).Config() == Ok(RconConfig(a, p, t))
    ensures NewBuilder().Address(a).Config() == Err(InvalidConfig("Password is required"))
    ensures NewBuilder().Password(p).Config() == Err(InvalidConfig("Server address is required"))
  {
  }

  /** `RconClientBuilder::connect`: the presence checks, then `RconClient::connect`. */
  method BuilderConnect(builder: RconClientBuilder, attempt: ConnectAttempt) returns (r: Result<RconClient>)
    modifies if attempt.Established? then {attempt.stream} else {}
    ensures builder.Config().Err? ==> r == Err(builder.Config().error) &&
                                      (attempt.Established? ==> unchanged(attempt.stream))
    ensures builder.Config().Ok? && attempt.TimedOut? ==> r == Err(Timeout)
    ensures builder.Config().Ok? && attempt.Failed? ==> r == Err(Network(attempt.error))
    ensures builder.Config().Ok? && attempt.Established? ==>
              var x := AuthExchange(1, builder.Config().value.password, old(attempt.stream.inbound),
                                    attempt.stream.writeAccepted(old(attempt.stream.writesTried)));
              attempt.stream.inbound == x.rest &&
              attempt.stream.outbound == old(attempt.stream.outbound) + x.written &&
              attempt.stream.writesTried == old(attempt.stream.writesTried) + x.tried &&
              (x.result.Err? ==> r == Err(x.result.error)) &&
              (x.result.Ok? ==> r.Ok? && fresh(r.value) && r.value.Valid() &&
                                r.value.config == builder.Config().value && r.value.nextRequestId == 2)
  {
    var config := builder.Config();
    if config.Err? {
      return Err(config.error);
    }
    r := RconClient.Connect(config.value, attempt);
  }
}
