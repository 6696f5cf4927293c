/** Properties of the authentication handshake and of fragment reassembly,
    stated over streams of well-formed frames. */
module Exchanges {
  import opened Wire
  import opened Errors
  import opened Protocol
  import opened Client

  /** Packets a server can put in one frame. */
  predicate Framable(ps: seq<Packet>) {
    forall i :: 0 <= i < |ps| ==> |ps[i].payload| <= MAX_RESPONSE_PAYLOAD_SIZE
  }

  /** Packets that are decoded exactly as sent (no trailing NUL to trim). */
  predicate Untrimmed(ps: seq<Packet>) {
    forall i :: 0 <= i < |ps| ==> NoTrailingNul(ps[i].payload)
  }

  function Frame(p: Packet): (f: seq<byte>)
    requires |p.payload| <= MAX_RESPONSE_PAYLOAD_SIZE
  {
    RawFrame(p.requestId, p.packetType, p.payload)
  }

  /** The frames of `ps`, back to back. */
  function Frames(ps: seq<Packet>): (f: seq<byte>)
    requires Framable(ps)
  {
    if ps == [] then [] else Frame(ps[0]) + Frames(ps[1..])
  }

  /** The payloads of the packets carrying id `e`, in order. */
  function MatchingPayloads(ps: seq<Packet>, e: int32): seq<byte>
  {
    if ps == [] then []
    else (if ps[0].requestId == e then ps[0].payload else []) + MatchingPayloads(ps[1..], e)
  }

  lemma FramableAppend(xs: seq<Packet>, ys: seq<Packet>)
    requires Framable(xs) && Framable(ys)
    ensures Framable(xs + ys)
  {
  }

  /** Peeling the first frame off a stream of frames. */
  lemma FramesCons(ps: seq<Packet>, rest: seq<byte>)
    requires Framable(ps) && ps != []
    ensures Framable(ps[1..])
    ensures Frames(ps) + rest == Frame(ps[0]) + (Frames(ps[1..]) + rest)
  {
    assert Framable(ps[1..]);
  }

  lemma {:induction false} FramesAppend(xs: seq<Packet>, ys: seq<Packet>)
    requires Framable(xs) && Framable(ys)
    ensures Framable(xs + ys) && Frames(xs + ys) == Frames(xs) + Frames(ys)
  {
    FramableAppend(xs, ys);
    if xs == [] {
      assert xs + ys == ys;
    } else {
      assert (xs + ys)[1..] == xs[1..] + ys;
      assert Framable(xs[1..]);
      FramesAppend(xs[1..], ys);
      assert Frames(xs + ys) == Frame(xs[0]) + Frames(xs[1..] + ys);
    }
  }

  /** Adding one frame at the end of a stream of frames. */
  lemma FramesSnoc(ps: seq<Packet>, p: Packet, rest: seq<byte>)
    requires Framable(ps) && |p.payload| <= MAX_RESPONSE_PAYLOAD_SIZE
    ensures Framable(ps + [p]) && Frames(ps + [p]) + rest == Frames(ps) + (Frame(p) + rest)
  {
    assert Framable([p]) && Frames([p]) == Frame(p) by {
      assert [p][1..] == [];
    }
    FramesAppend(ps, [p]);
  }

  // ------------------------------------------------------------ handshake

  /** One AUTH frame is written and exactly one frame is read. */
  lemma AuthWritesOnceReadsOnce(id: int32, password: seq<byte>, inbound: seq<byte>)
    requires |password| <= MAX_REQUEST_PAYLOAD_SIZE
    ensures var x := AuthExchange(id, password, inbound, true);
            x.written == [RawFrame(id, AUTH, password)] && x.rest == ReadFrame(inbound).rest
  {
  }

  /** Against a well-formed reply the handshake succeeds exactly when the reply
      has type 2 and echoes the id; every other reply is AuthenticationFailed. */
  lemma AuthOutcome(id: int32, password: seq<byte>, reply: Packet, rest: seq<byte>)
    requires |password| <= MAX_REQUEST_PAYLOAD_SIZE && |reply.payload| <= MAX_RESPONSE_PAYLOAD_SIZE
    ensures var x := AuthExchange(id, password, Frame(reply) + rest, true);
            x.rest == rest &&
            (x.result == Ok(()) <==> reply.packetType == EXECCOMMAND && reply.requestId == id) &&
            (x.result.Err? ==> x.result.error == AuthenticationFailed)
  {
    ReadFrameOfRawFrame(reply.requestId, reply.packetType, reply.payload, rest);
  }

  /** A reply with id -1 fails the handshake whatever its type. */
  lemma AuthSentinelRejected(id: int32, password: seq<byte>, packetType: int32, payload: seq<byte>, rest: seq<byte>)
    requires id != -1
    requires |password| <= MAX_REQUEST_PAYLOAD_SIZE && |payload| <= MAX_RESPONSE_PAYLOAD_SIZE
    ensures AuthExchange(id, password, RawFrame(-1, packetType, payload) + rest, true).result == Err(AuthenticationFailed)
  {
    AuthOutcome(id, password, Packet(-1, packetType, payload), rest);
  }

  /** A reply typed AUTH (3) never authenticates: the success reply is typed 2. */
  lemma AuthTypedReplyRejected(id: int32, password: seq<byte>, payload: seq<byte>, rest: seq<byte>)
    requires |password| <= MAX_REQUEST_PAYLOAD_SIZE && |payload| <= MAX_RESPONSE_PAYLOAD_SIZE
    ensures AuthExchange(id, password, RawFrame(id, AUTH, payload) + rest, true).result == Err(AuthenticationFailed)
  {
    AuthOutcome(id, password, Packet(id, AUTH, payload), rest);
  }

  /** An oversized password is refused before anything is written or read. */
  lemma AuthRejectsLongPassword(id: int32, password: seq<byte>, inbound: seq<byte>, accepted: bool)
    requires |password| > MAX_REQUEST_PAYLOAD_SIZE
    ensures AuthExchange(id, password, inbound, accepted)
            == Exchange(Err(InvalidPacket(PayloadTooLarge(|password|))), [], 0, inbound)
  {
  }

  // ------------------------------------------------------------ one fragment

  /** A packet for another id is skipped: it is counted, and nothing is gathered. */
  lemma StaleSkipped(p: Packet, rest: seq<byte>, e: int32, received: nat, acc: seq<byte>)
    requires |p.payload| <= MAX_RESPONSE_PAYLOAD_SIZE && p.requestId != e
    ensures Reassemble(Frame(p) + rest, e, received, acc) == Reassemble(rest, e, received + 1, acc)
  {
    ReadFrameOfRawFrame(p.requestId, p.packetType, p.payload, rest);
  }

  /** A packet for the expected id that is not a RESPONSE_VALUE aborts. */
  lemma WrongTypeAborts(p: Packet, rest: seq<byte>, e: int32, received: nat, acc: seq<byte>)
    requires |p.payload| <= MAX_RESPONSE_PAYLOAD_SIZE && p.requestId == e && p.packetType != RESPONSE_VALUE
    ensures Reassemble(Frame(p) + rest, e, received, acc)
            == Reassembly(Err(Protocol(UnexpectedPacketType(p.packetType))), rest)
  {
    ReadFrameOfRawFrame(p.requestId, p.packetType, p.payload, rest);
  }

  /** A matching fragment shorter than 4096 bytes after trimming ends the response. */
  lemma ShortFragmentEnds(p: Packet, rest: seq<byte>, e: int32, received: nat, acc: seq<byte>)
    requires |p.payload| <= MAX_RESPONSE_PAYLOAD_SIZE && p.requestId == e && p.packetType == RESPONSE_VALUE
    requires |TrimNul(p.payload)| < MAX_RESPONSE_PAYLOAD_SIZE
    ensures Reassemble(Frame(p) + rest, e, received, acc) == Reassembly(Ok(acc + TrimNul(p.payload)), rest)
  {
    ReadFrameOfRawFrame(p.requestId, p.packetType, p.payload, rest);
  }

  /** A full matching fragment within the bound is gathered and reading goes on. */
  lemma FullFragmentContinues(p: Packet, rest: seq<byte>, e: int32, received: nat, acc: seq<byte>)
    requires p.requestId == e && p.packetType == RESPONSE_VALUE
    requires |p.payload| == MAX_RESPONSE_PAYLOAD_SIZE && NoTrailingNul(p.payload)
    requires received < MAX_RESPONSE_PACKETS
    ensures Reassemble(Frame(p) + rest, e, received, acc) == Reassemble(rest, e, received + 1, acc + p.payload)
  {
    ReadFrameOfRawFrame(p.requestId, p.packetType, p.payload, rest);
    TrimNulOfNoTrailingNul(p.payload);
  }

  /** A full matching fragment read after the hundredth packet aborts. */
  lemma FullFragmentPastBound(p: Packet, rest: seq<byte>, e: int32, received: nat, acc: seq<byte>)
    requires p.requestId == e && p.packetType == RESPONSE_VALUE
    requires |p.payload| == MAX_RESPONSE_PAYLOAD_SIZE && NoTrailingNul(p.payload)
    requires received >= MAX_RESPONSE_PACKETS
    ensures Reassemble(Frame(p) + rest, e, received, acc) == Reassembly(Err(Protocol(TooManyResponsePackets)), rest)
  {
    ReadFrameOfRawFrame(p.requestId, p.packetType, p.payload, rest);
    TrimNulOfNoTrailingNul(p.payload);
  }

  // ------------------------------------------------------------ whole responses

  /** `ps`, read after `received` packets, is one complete response for `e`:
      it ends with a short RESPONSE_VALUE for `e`, every earlier packet for `e`
      is a full RESPONSE_VALUE read no later than the hundredth read, and any
      other packets carry other ids. */
  predicate CompleteResponse(ps: seq<Packet>, e: int32, received: nat) {
    Framable(ps) && Untrimmed(ps) && |ps| > 0 &&
    ps[|ps| - 1].requestId == e && ps[|ps| - 1].packetType == RESPONSE_VALUE &&
    |ps[|ps| - 1].payload| < MAX_RESPONSE_PAYLOAD_SIZE &&
    forall i :: 0 <= i < |ps| - 1 && ps[i].requestId == e ==>
      ps[i].packetType == RESPONSE_VALUE && |ps[i].payload| == MAX_RESPONSE_PAYLOAD_SIZE &&
      received + i < MAX_RESPONSE_PACKETS
  }

  /** What is left of a complete response after its first packet is one too. */
  lemma CompleteResponseTail(ps: seq<Packet>, e: int32, received: nat)
    requires CompleteResponse(ps, e, received) && |ps| > 1
    ensures CompleteResponse(ps[1..], e, received + 1)
  {
    var tail := ps[1..];
    forall i | 0 <= i < |tail| - 1 && tail[i].requestId == e
      ensures tail[i].packetType == RESPONSE_VALUE && |tail[i].payload| == MAX_RESPONSE_PAYLOAD_SIZE &&
              received + 1 + i < MAX_RESPONSE_PACKETS
    {
      assert tail[i] == ps[i + 1];
    }
  }

  /** Reassembly returns `gathered`, the in-order concatenation of the
      matching payloads after `acc`, and reads exactly the frames of the
      response, nothing after them. */
  lemma {:induction false} ReassembleCompleteResponse(ps: seq<Packet>, e: int32, received: nat, acc: seq<byte>, gathered: seq<byte>, rest: seq<byte>)
    requires CompleteResponse(ps, e, received)
    requires gathered == acc + MatchingPayloads(ps, e)
    ensures Reassemble(Frames(ps) + rest, e, received, acc) == Reassembly(Ok(gathered), rest)
    decreases |ps|
  {
    var p, tail := ps[0], ps[1..];
    FramesCons(ps, rest);
    if tail == [] {
      assert MatchingPayloads(ps, e) == p.payload;
      TrimNulOfNoTrailingNul(p.payload);
      assert Frames(tail) + rest == rest;
      ShortFragmentEnds(p, rest, e, received, acc);
    } else {
      CompleteResponseTail(ps, e, received);
      if p.requestId != e {
        StaleSkipped(p, Frames(tail) + rest, e, received, acc);
        assert MatchingPayloads(ps, e) == MatchingPayloads(tail, e);
        ReassembleCompleteResponse(tail, e, received + 1, acc, gathered, rest);
      } else {
        FullFragmentContinues(p, Frames(tail) + rest, e, received, acc);
        assert MatchingPayloads(ps, e) == p.payload + MatchingPayloads(tail, e);
        assert gathered == (acc + p.payload) + MatchingPayloads(tail, e);
        ReassembleCompleteResponse(tail, e, received + 1, acc + p.payload, gathered, rest);
      }
    }
  }

  /** The frames of three packets. */
  lemma FramesOfThree(p: Packet, q: Packet, r: Packet)
    requires |p.payload| <= MAX_RESPONSE_PAYLOAD_SIZE && |q.payload| <= MAX_RESPONSE_PAYLOAD_SIZE
    requires |r.payload| <= MAX_RESPONSE_PAYLOAD_SIZE
    ensures Framable([p, q, r]) && Frames([p, q, r]) == Frame(p) + Frame(q) + Frame(r)
  {
    assert Framable([r]) && Frames([r]) == Frame(r) by {
      assert [r][1..] == [];
    }
    assert Framable([q, r]) && Frames([q, r]) == Frame(q) + Frame(r) by {
      assert [q, r][1..] == [r];
    }
    assert Framable([p, q, r]) && Frames([p, q, r]) == Frame(p) + (Frame(q) + Frame(r)) by {
      assert [p, q, r][1..] == [q, r];
    }
  }

  /** Three frames that form a complete response. */
  lemma ReassembleThree(p: Packet, q: Packet, r: Packet, e: int32, rest: seq<byte>)
    requires |p.payload| <= MAX_RESPONSE_PAYLOAD_SIZE && |q.payload| <= MAX_RESPONSE_PAYLOAD_SIZE
    requires |r.payload| <= MAX_RESPONSE_PAYLOAD_SIZE
    requires CompleteResponse([p, q, r], e, 0)
    ensures Reassemble(Frame(p) + Frame(q) + Frame(r) + rest, e, 0, [])
            == Reassembly(Ok(MatchingPayloads([p, q, r], e)), rest)
  {
    var ps := [p, q, r];
    assert ps[0] == p && ps[1] == q && ps[2] == r;
    FramesOfThree(p, q, r);
    ReassembleCompleteResponse(ps, e, 0, [], [] + MatchingPayloads(ps, e), rest);
    assert [] + MatchingPayloads(ps, e) == MatchingPayloads(ps, e);
    assert Frames(ps) + rest == Frame(p) + Frame(q) + Frame(r) + rest;
  }

  /** The payloads for `e` among three packets. */
  lemma MatchingOfThree(p: Packet, q: Packet, r: Packet, e: int32)
    ensures MatchingPayloads([p, q, r], e)
            == (if p.requestId == e then p.payload else []) + (if q.requestId == e then q.payload else []) +
               (if r.requestId == e then r.payload else [])
  {
    var ps := [p, q, r];
    assert ps[1..] == [q, r] && [q, r][1..] == [r] && [r][1..] == [];
    assert MatchingPayloads([r], e) == (if r.requestId == e then r.payload else []) + MatchingPayloads([], e);
    assert MatchingPayloads([q, r], e) == (if q.requestId == e then q.payload else []) + MatchingPayloads([r], e);
    assert MatchingPayloads(ps, e) == (if p.requestId == e then p.payload else []) + MatchingPayloads([q, r], e);
  }

  /** Fragments of 4096, 4096 and 120 bytes for id 7: their concatenation, in
      exactly three reads. */
  lemma ThreeFragments(a: seq<byte>, b: seq<byte>, c: seq<byte>, rest: seq<byte>)
    requires |a| == 4096 && |b| == 4096 && |c| == 120
    requires NoTrailingNul(a) && NoTrailingNul(b) && NoTrailingNul(c)
    ensures Reassemble(RawFrame(7, 0, a) + RawFrame(7, 0, b) + RawFrame(7, 0, c) + rest, 7, 0, [])
            == Reassembly(Ok(a + b + c), rest)
  {
    var p, q, r := Packet(7, 0, a), Packet(7, 0, b), Packet(7, 0, c);
    assert CompleteResponse([p, q, r], 7, 0) by {
      assert Framable([p, q, r]) && Untrimmed([p, q, r]);
    }
    MatchingOfThree(p, q, r, 7);
    ReassembleThree(p, q, r, 7, rest);
  }

  /** A single 4095-byte fragment is the whole response, in one read. */
  lemma SingleShortFragment(c: seq<byte>, rest: seq<byte>)
    requires |c| == 4095 && NoTrailingNul(c)
    ensures Reassemble(RawFrame(7, 0, c) + rest, 7, 0, []) == Reassembly(Ok(c), rest)
  {
    TrimNulOfNoTrailingNul(c);
    ShortFragmentEnds(Packet(7, 0, c), rest, 7, 0, []);
    assert [] + c == c;
  }

  /** A late reply for id 3 between two fragments for id 7 is dropped. */
  lemma InterleavedStaleDropped(a: seq<byte>, s: seq<byte>, c: seq<byte>, rest: seq<byte>)
    requires |a| == 4096 && |s| <= 4096 && |c| < 4096
    requires NoTrailingNul(a) && NoTrailingNul(s) && NoTrailingNul(c)
    ensures Reassemble(RawFrame(7, 0, a) + RawFrame(3, 0, s) + RawFrame(7, 0, c) + rest, 7, 0, [])
            == Reassembly(Ok(a + c), rest)
  {
    var p, q, r := Packet(7, 0, a), Packet(3, 0, s), Packet(7, 0, c);
    assert CompleteResponse([p, q, r], 7, 0) by {
      assert Framable([p, q, r]) && Untrimmed([p, q, r]);
    }
    MatchingOfThree(p, q, r, 7);
    assert a + [] + c == a + c;
    ReassembleThree(p, q, r, 7, rest);
  }

  /** Full RESPONSE_VALUE fragments for `e` that are decoded as sent. */
  predicate FullFragments(ps: seq<Packet>, e: int32) {
    forall i :: 0 <= i < |ps| ==>
      ps[i].requestId == e && ps[i].packetType == RESPONSE_VALUE &&
      |ps[i].payload| == MAX_RESPONSE_PAYLOAD_SIZE && NoTrailingNul(ps[i].payload)
  }

  lemma FullFragmentsTail(ps: seq<Packet>, e: int32)
    requires FullFragments(ps, e) && ps != []
    ensures FullFragments(ps[1..], e) && Framable(ps)
    ensures MatchingPayloads(ps, e) == ps[0].payload + MatchingPayloads(ps[1..], e)
  {
    assert forall i :: 0 <= i < |ps[1..]| ==> ps[1..][i] == ps[i + 1];
  }

  /** Full fragments within the bound are gathered one after another:
      reading resumes after `final` reads with `gathered` collected. */
  lemma {:induction false} FullFragmentsAccumulate(ps: seq<Packet>, e: int32, received: nat, final: nat,
                                                   acc: seq<byte>, gathered: seq<byte>, rest: seq<byte>)
    requires FullFragments(ps, e)
    requires final == received + |ps| <= MAX_RESPONSE_PACKETS
    requires gathered == acc + MatchingPayloads(ps, e)
    ensures Framable(ps)
    ensures Reassemble(Frames(ps) + rest, e, received, acc) == Reassemble(rest, e, final, gathered)
    decreases |ps|
  {
    if ps != [] {
      var p, tail := ps[0], ps[1..];
      FullFragmentsTail(ps, e);
      assert gathered == (acc + p.payload) + MatchingPayloads(tail, e);
      FullFragmentsAccumulate(tail, e, received + 1, final, acc + p.payload, gathered, rest);
      FramesCons(ps, rest);
      FullFragmentContinues(p, Frames(tail) + rest, e, received, acc);
    } else {
      assert Frames(ps) + rest == rest;
      assert gathered == acc;
    }
  }

  /** 101 full fragments and no short one: the hundred-and-first read aborts. */
  lemma TooManyFragments(ps: seq<Packet>, e: int32, rest: seq<byte>)
    requires |ps| == MAX_RESPONSE_PACKETS + 1 && FullFragments(ps, e)
    ensures Framable(ps)
    ensures Reassemble(Frames(ps) + rest, e, 0, []) == Reassembly(Err(Protocol(TooManyResponsePackets)), rest)
  {
    var front, last := ps[..MAX_RESPONSE_PACKETS], ps[MAX_RESPONSE_PACKETS];
    assert ps == front + [last];
    assert FullFragments(front, e) by {
      assert forall i :: 0 <= i < |front| ==> front[i] == ps[i];
    }
    FullFragmentsAccumulate(front, e, 0, MAX_RESPONSE_PACKETS, [], [] + MatchingPayloads(front, e), Frame(last) + rest);
    FramesSnoc(front, last, rest);
    FullFragmentPastBound(last, rest, e, MAX_RESPONSE_PACKETS, [] + MatchingPayloads(front, e));
  }

  /** Packets for other ids are skipped whatever their number; each one counts
      as a read, so reading resumes with `final` = `received` + |ps| reads done. */
  lemma {:induction false} StaleFramesSkipped(ps: seq<Packet>, e: int32, received: nat, final: nat, acc: seq<byte>, rest: seq<byte>)
    requires Framable(ps) && final == received + |ps|
    requires forall i :: 0 <= i < |ps| ==> ps[i].requestId != e
    ensures Reassemble(Frames(ps) + rest, e, received, acc) == Reassemble(rest, e, final, acc)
    decreases |ps|
  {
    if ps != [] {
      var p, tail := ps[0], ps[1..];
      FramesCons(ps, rest);
      assert forall i :: 0 <= i < |tail| ==> tail[i] == ps[i + 1];
      StaleSkipped(p, Frames(tail) + rest, e, received, acc);
      StaleFramesSkipped(tail, e, received + 1, final, acc, rest);
    } else {
      assert Frames(ps) + rest == rest;
    }
  }

  /** Stale packets alone never trip the bound: reading goes on until the
      stream ends. */
  lemma StaleOnlyReadsToEnd(ps: seq<Packet>, e: int32)
    requires Framable(ps)
    requires forall i :: 0 <= i < |ps| ==> ps[i].requestId != e
    ensures Reassemble(Frames(ps), e, 0, []) == Reassembly(Err(Network(UnexpectedEof)), [])
  {
    StaleFramesSkipped(ps, e, 0, |ps|, [], []);
    assert Frames(ps) + [] == Frames(ps);
  }

  /** Stale packets count toward the bound: after 100 of them a single full
      fragment for the expected id aborts the response. */
  lemma StaleCountTowardBound(ps: seq<Packet>, p: Packet, rest: seq<byte>)
    requires Framable(ps) && |ps| == MAX_RESPONSE_PACKETS
    requires forall i :: 0 <= i < |ps| ==> ps[i].requestId != p.requestId
    requires p.packetType == RESPONSE_VALUE && |p.payload| == MAX_RESPONSE_PAYLOAD_SIZE && NoTrailingNul(p.payload)
    ensures Reassemble(Frames(ps) + Frame(p) + rest, p.requestId, 0, [])
            == Reassembly(Err(Protocol(TooManyResponsePackets)), rest)
  {
    assert Frames(ps) + Frame(p) + rest == Frames(ps) + (Frame(p) + rest);
    StaleFramesSkipped(ps, p.requestId, 0, MAX_RESPONSE_PACKETS, [], Frame(p) + rest);
    FullFragmentPastBound(p, rest, p.requestId, MAX_RESPONSE_PACKETS, []);
  }

  // ------------------------------------------------------------ commands

  /** A command is one EXECCOMMAND frame with the allocated id, and the reply
      is reassembled against exactly that id. */
  lemma ExecWritesOneFrame(id: int32, command: seq<byte>, inbound: seq<byte>)
    requires |command| <= MAX_REQUEST_PAYLOAD_SIZE
    ensures var x := ExecExchange(id, command, inbound, true);
            x.written == [RawFrame(id, EXECCOMMAND, command)] &&
            Reassembly(x.result, x.rest) == Reassemble(inbound, id, 0, [])
  {
  }

  /** An oversized command is refused before anything is written or read. */
  lemma ExecRejectsLongCommand(id: int32, command: seq<byte>, inbound: seq<byte>, accepted: bool)
    requires |command| > MAX_REQUEST_PAYLOAD_SIZE
    ensures ExecExchange(id, command, inbound, accepted)
            == Exchange(Err(InvalidPacket(PayloadTooLarge(|command|))), [], 0, inbound)
  {
  }

  /** A broken socket fails the command with a network error before any read. */
  lemma ExecOnBrokenSocket(id: int32, command: seq<byte>, inbound: seq<byte>)
    requires |command| <= MAX_REQUEST_PAYLOAD_SIZE
    ensures ExecExchange(id, command, inbound, false) == Exchange(Err(Network(BrokenPipe)), [], 1, inbound)
  {
  }

  /** A peer that takes the handshake and then resets: the connection is
      established and authenticated, and the next command fails with a
      network error without reading anything. */
  method ResetAfterHandshake(password: seq<byte>, command: seq<byte>) returns (r: Result<seq<byte>>)
    requires |password| <= MAX_REQUEST_PAYLOAD_SIZE && |command| <= MAX_REQUEST_PAYLOAD_SIZE
    ensures r == Err(Network(BrokenPipe))
  {
    var reply := RawFrame(1, EXECCOMMAND, []);
    var stream := new Stream(reply, n => n == 0);
    ReadFrameOfRawFrame(1, EXECCOMMAND, [], []);
    assert reply + [] == reply;
    var connected := RconClient.Connect(NewConfig(SocketAddr("127.0.0.1:25575"), password), Established(stream));
    assert connected.Ok?;
    var client := connected.value;
    r := client.ExecuteCommand(command);
  }
}
