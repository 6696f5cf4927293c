/** The RCON packet and its byte-exact framing (`RconPacket` in src/protocol.rs).

    A frame on the wire is
      [i32 size][i32 request id][i32 type][payload bytes][0x00][0x00]
    with every integer little-endian and `size` counting everything after the
    size field itself. Payloads are kept as the bytes of the UTF-8 text. */
module Protocol {
  import opened Wire
  import opened Errors

  const AUTH: int32 := 3
  const EXECCOMMAND: int32 := 2
  const RESPONSE_VALUE: int32 := 0

  /** Largest payload the client will send. */
  const MAX_REQUEST_PAYLOAD_SIZE: nat := 1446
  /** Largest payload a server puts in one response fragment. */
  const MAX_RESPONSE_PAYLOAD_SIZE: nat := 4096

  /** `RconPacket::new` is this constructor. */
  datatype Packet = Packet(requestId: int32, packetType: int32, payload: seq<byte>)

  /** `RconPacket::auth`: the password travels as the payload of an AUTH packet. */
  function AuthPacket(requestId: int32, password: seq<byte>): (p: Packet)
    ensures p.packetType == AUTH && p.requestId == requestId && p.payload == password
  {
    Packet(requestId, AUTH, password)
  }

  /** `RconPacket::command`: a command is sent as an EXECCOMMAND packet. */
  function CommandPacket(requestId: int32, command: seq<byte>): (p: Packet)
    ensures p.packetType == EXECCOMMAND && p.requestId == requestId && p.payload == command
  {
    Packet(requestId, EXECCOMMAND, command)
  }

  /** The server answers AUTH with a packet of type EXECCOMMAND (2), not AUTH (3). */
  predicate IsAuthResponse(p: Packet) {
    p.packetType == EXECCOMMAND
  }

  predicate IsCommandResponse(p: Packet) {
    p.packetType == RESPONSE_VALUE
  }

  predicate AuthSuccessful(p: Packet, expectedRequestId: int32) {
    IsAuthResponse(p) && p.requestId == expectedRequestId
  }

  /** `auth_successful` spelled out with the wire numbers: type 2, not 3.
      What it means for a handshake is stated in the Exchanges module
      (AuthOutcome, AuthSentinelRejected, AuthTypedReplyRejected). */
  lemma AuthSuccessfulIff(p: Packet, e: int32)
    ensures AuthSuccessful(p, e) <==> p.packetType == 2 && p.requestId == e
  {
  }

  /** The server's "wrong password" answer carries id -1; it never authenticates
      a request whose id is not -1, whatever its type. */
  lemma SentinelNeverAuthenticates(p: Packet, e: int32)
    requires p.requestId == -1 && e != -1
    ensures !AuthSuccessful(p, e)
  {
  }

  /** `is_command_response` spelled out: type 0. The consequence for
      reassembly is Exchanges.WrongTypeAborts. */
  lemma CommandResponseIff(p: Packet)
    ensures IsCommandResponse(p) <==> p.packetType == 0
  {
  }

  // ---------------------------------------------------------------- encoding

  /** The frame for a payload short enough that its size fits an `i32`. */
  function RawFrame(requestId: int32, packetType: int32, payload: seq<byte>): (f: seq<byte>)
    requires |payload| + 10 < 0x8000_0000
    ensures |f| == |payload| + 14
    ensures f[..4] == LeBytes(|payload| + 10)
    ensures f[4..8] == LeBytes(requestId) && f[8..12] == LeBytes(packetType)
    ensures f[12..|f| - 2] == payload && f[|f| - 2..] == [0, 0]
  {
    LeBytes(|payload| + 10) + LeBytes(requestId) + LeBytes(packetType) + payload + [0, 0]
  }

  /** What `to_bytes` returns. */
  function Encode(p: Packet): (r: Result<seq<byte>>)
    ensures r.Err? <==> |p.payload| > MAX_REQUEST_PAYLOAD_SIZE
    ensures r.Err? ==> r.error == InvalidPacket(PayloadTooLarge(|p.payload|))
    ensures r.Ok? ==> r.value == RawFrame(p.requestId, p.packetType, p.payload)
  {
    if |p.payload| > MAX_REQUEST_PAYLOAD_SIZE then Err(InvalidPacket(PayloadTooLarge(|p.payload|)))
    else Ok(RawFrame(p.requestId, p.packetType, p.payload))
  }

  /** `RconPacket::to_bytes`: checks the payload limit, then appends the size,
      the id, the type, the payload and the two terminator bytes. Writing into
      a vector cannot fail, so the source's write-error branches never fire. */
  method ToBytes(p: Packet) returns (r: Result<seq<byte>>)
    ensures r == Encode(p)
  {
    var payloadBytes := p.payload;
    if |payloadBytes| > MAX_REQUEST_PAYLOAD_SIZE {
      return Err(InvalidPacket(PayloadTooLarge(|payloadBytes|)));
    }
    var packetSize := 4 + 4 + |payloadBytes| + 2;
    var buffer: seq<byte> := [];
    buffer := buffer + LeBytes(packetSize);
    buffer := buffer + LeBytes(p.requestId);
    buffer := buffer + LeBytes(p.packetType);
    buffer := buffer + payloadBytes;
    buffer := buffer + [0];   // terminator of the body
    buffer := buffer + [0];   // padding
    assert buffer == RawFrame(p.requestId, p.packetType, p.payload);
    return Ok(buffer);
  }

  // ---------------------------------------------------------------- decoding

  /** `trim_end_matches('\0')`: the longest prefix that does not end in NUL. */
  function TrimNul(b: seq<byte>): (t: seq<byte>)
    ensures |t| <= |b| && t == b[..|t|]
    ensures forall i :: |t| <= i < |b| ==> b[i] == 0
    ensures t == [] || t[|t| - 1] != 0
    decreases |b|
  {
    if |b| > 0 && b[|b| - 1] == 0 then TrimNul(b[..|b| - 1]) else b
  }

  /** True of payloads that survive NUL-trimming unchanged. */
  predicate NoTrailingNul(b: seq<byte>) {
    b == [] || b[|b| - 1] != 0
  }

  lemma TrimNulOfNoTrailingNul(b: seq<byte>)
    requires NoTrailingNul(b)
    ensures TrimNul(b) == b
  {
  }

  /** What `from_bytes` returns. The branch for a declared size below 10 is the
      corrected behaviour: the source computes `size - 8 - 2` in `usize` there
      and panics (see DecodeAsWritten). The two terminator bytes are never
      inspected. */
  function Decode(data: seq<byte>): (r: Result<Packet>)
    ensures r.Ok? <==> |data| >= 14 && LeInt32(data[..4]) == |data| - 4
    ensures r.Ok? ==> r.value.requestId == LeInt32(data[4..8])
    ensures r.Ok? ==> r.value.packetType == LeInt32(data[8..12])
    ensures r.Ok? ==> r.value.payload == TrimNul(data[12..|data| - 2])
    ensures r.Err? ==> r.error.InvalidPacket?
  {
    if |data| < 12 then Err(InvalidPacket(PacketTooShort))
    else
      var packetLength := LeInt32(data[..4]);
      if packetLength as int + 4 != |data| then Err(InvalidPacket(LengthMismatch(packetLength, |data|)))
      else if packetLength < 10 then Err(InvalidPacket(BodyTooShort(packetLength)))
      else Ok(Packet(LeInt32(data[4..8]), LeInt32(data[8..12]), TrimNul(data[12..|data| - 2])))
  }

  /** `RconPacket::from_bytes`: a cursor steps over the three words, then the
      payload is copied into a fresh buffer and NUL-trimmed. The lossy UTF-8
      conversion is the identity on the bytes in this model. Once the buffer
      has 12 bytes and a matching size, every read stays within it, so the
      source's read-error branches never fire. */
  method FromBytes(data: seq<byte>) returns (r: Result<Packet>)
    ensures r == Decode(data)
  {
    if |data| < 12 {
      return Err(InvalidPacket(PacketTooShort));
    }
    var cursor := 0;
    var packetLength := LeInt32(data[cursor..cursor + 4]);
    cursor := cursor + 4;
    if packetLength as int + 4 != |data| {
      return Err(InvalidPacket(LengthMismatch(packetLength, |data|)));
    }
    var requestId := LeInt32(data[cursor..cursor + 4]);
    cursor := cursor + 4;
    var packetType := LeInt32(data[cursor..cursor + 4]);
    cursor := cursor + 4;
    if packetLength < 10 {
      // The guard of read_packet admits sizes 8 and 9, so this is reachable.
      return Err(InvalidPacket(BodyTooShort(packetLength)));
    }
    var payloadLength := packetLength - 8 - 2;
    var payloadBytes := new byte[payloadLength];
    forall i | 0 <= i < payloadLength {
      payloadBytes[i] := data[cursor + i];
    }
    cursor := cursor + payloadLength;
    assert payloadBytes[..] == data[12..|data| - 2];
    return Ok(Packet(requestId, packetType, TrimNul(payloadBytes[..])));
  }

  /** How the source's `from_bytes` ends, panics included. */
  datatype Outcome = Returned(result: Result<Packet>) | Panics

  /** `from_bytes` exactly as written for a 64-bit `usize`: `size as usize + 4`
      wraps, and `size as usize - 8 - 2` underflows when the size is 8 or 9 –
      a panic in a debug build, and in a release build a request for about
      2^64 zeroed bytes, which panics with a capacity overflow. */
  function DecodeAsWritten(data: seq<byte>): (o: Outcome)
    ensures o.Panics? <==> (|data| == 12 || |data| == 13) && LeInt32(data[..4]) == |data| - 4
  {
    if |data| < 12 then Returned(Err(InvalidPacket(PacketTooShort)))
    else
      var packetLength := LeInt32(data[..4]);
      if |data| != (AsUsize(packetLength) + 4) % TWO_64 then
        Returned(Err(InvalidPacket(LengthMismatch(packetLength, |data|))))
      else if AsUsize(packetLength) < 8 + 2 then Panics
      else Returned(Ok(Packet(LeInt32(data[4..8]), LeInt32(data[8..12]), TrimNul(data[12..|data| - 2]))))
  }

  /** A 12-byte frame declaring size 8: the source panics on it, the corrected
      decoder refuses it. */
  lemma ShortBodyPanicsAsWritten()
    ensures var frame: seq<byte> := [8, 0, 0, 0, 7, 0, 0, 0, 0, 0, 0, 0];
            DecodeAsWritten(frame) == Panics &&
            Decode(frame) == Err(InvalidPacket(BodyTooShort(8)))
  {
    var frame: seq<byte> := [8, 0, 0, 0, 7, 0, 0, 0, 0, 0, 0, 0];
    assert frame[..4] == LeBytes(8);
    LeInt32OfLeBytes(8);
  }

  /** Outside the two panicking sizes the corrected decoder is the source's
      (for buffers a Rust slice can hold). */
  lemma DecodeAgreesWithSource(data: seq<byte>)
    requires |data| < 0x8000_0000_0000_0000
    requires DecodeAsWritten(data).Returned?
    ensures DecodeAsWritten(data).result == Decode(data)
  {
  }

  // ------------------------------------------------------------ round trips

  /** Decoding a frame gives back its id and type and the NUL-trimmed payload. */
  lemma DecodeRawFrame(requestId: int32, packetType: int32, payload: seq<byte>)
    requires |payload| + 10 < 0x8000_0000
    ensures Decode(RawFrame(requestId, packetType, payload)) == Ok(Packet(requestId, packetType, TrimNul(payload)))
  {
    var f := RawFrame(requestId, packetType, payload);
    LeInt32OfLeBytes(|payload| + 10);
    LeInt32OfLeBytes(requestId);
    LeInt32OfLeBytes(packetType);
  }

  /** `from_bytes(to_bytes(p))` for every sendable packet: only trailing NULs
      of the payload are lost. */
  lemma DecodeEncode(p: Packet)
    requires |p.payload| <= MAX_REQUEST_PAYLOAD_SIZE
    ensures Encode(p).Ok?
    ensures Decode(Encode(p).value) == Ok(Packet(p.requestId, p.packetType, TrimNul(p.payload)))
  {
    DecodeRawFrame(p.requestId, p.packetType, p.payload);
  }

  /** The round trip is exact when the payload does not end in NUL. */
  lemma RoundTrip(p: Packet)
    requires |p.payload| <= MAX_REQUEST_PAYLOAD_SIZE && NoTrailingNul(p.payload)
    ensures Encode(p).Ok? && Decode(Encode(p).value) == Ok(p)
  {
    DecodeEncode(p);
    TrimNulOfNoTrailingNul(p.payload);
  }

  /** A payload "a\0" comes back as "a". */
  lemma TrailingNulIsLost()
    ensures var p := Packet(5, EXECCOMMAND, [0x61, 0]);
            Encode(p).Ok? && Decode(Encode(p).value) == Ok(Packet(5, EXECCOMMAND, [0x61]))
  {
    var p := Packet(5, EXECCOMMAND, [0x61, 0]);
    DecodeEncode(p);
    assert TrimNul([0x61, 0]) == TrimNul([0x61]);
  }

  /** Every buffer shorter than the 12-byte header is refused. */
  lemma DecodeRejectsShortBuffers(data: seq<byte>)
    requires |data| < 12
    ensures Decode(data) == Err(InvalidPacket(PacketTooShort))
  {
  }

  /** A header-sized buffer whose length disagrees with its size field is refused. */
  lemma DecodeRejectsLengthMismatch(data: seq<byte>)
    requires |data| >= 12 && LeInt32(data[..4]) + 4 != |data|
    ensures Decode(data) == Err(InvalidPacket(LengthMismatch(LeInt32(data[..4]), |data|)))
  {
  }
}
