/** The session half of a JDWP connection (`JdwpState`): the serial
    counters, the DDMS and exit flags, the outbound send helpers and the
    bookkeeping around handling one incoming command packet. */
module Session {
  import opened Framing
  import opened Options
  import opened Transport

  /** First value handed out by each serial counter. */
  const kRequestSerialBase: u32 := 0x1000_0000
  const kEventSerialBase: u32 := 0x2000_0000

  /** The serial a counter seeded at `base` hands out on its `n`-th call
      (the first call being call 0), wrapping around at 32 bits. */
  function SerialAt(base: u32, n: nat): u32 {
    (base + n) % 0x1_0000_0000
  }

  /** The counter's value after one more call is the old value plus one,
      wrapped at 32 bits. */
  lemma SerialStep(base: u32, n: nat)
    ensures SerialAt(base, n + 1) == (SerialAt(base, n) + 1) % 0x1_0000_0000
  {
    var m := 0x1_0000_0000;
    var q, r := (base + n) / m, (base + n) % m;
    assert base + n == q * m + r;
    assert base + n + 1 == q * m + (r + 1);
    if r + 1 < m {
      assert (base + n + 1) % m == r + 1;
    } else {
      assert base + n + 1 == (q + 1) * m;
      assert (base + n + 1) % m == 0;
    }
  }

  /** The first 2^28 request serials never coincide with the first 2^28
      event serials. */
  lemma SerialsDisjoint(i: nat, j: nat)
    requires i < 0x1000_0000 && j < 0x1000_0000
    ensures SerialAt(kRequestSerialBase, i) != SerialAt(kEventSerialBase, j)
    ensures SerialAt(kRequestSerialBase, i) == kRequestSerialBase + i
    ensures SerialAt(kEventSerialBase, j) == kEventSerialBase + j
  {
  }

  /** Before it wraps, a counter hands out strictly increasing serials. */
  lemma SerialsIncrease(base: u32, i: nat, j: nat)
    requires i < j && base + j < 0x1_0000_0000
    ensures SerialAt(base, i) < SerialAt(base, j)
  {
  }

  /** Nothing keeps the two ranges apart for ever: the 2^28-th request serial
      is the first event serial. */
  lemma SerialsMeet()
    ensures SerialAt(kRequestSerialBase, 0x1000_0000) == SerialAt(kEventSerialBase, 0)
  {
  }

  /** What the reply write reported, as `HandlePacket` sees it: 0 when the
      reply is skipped, -1 when the connection is already closed, otherwise
      what the socket write returned. */
  function ReplyWriteResult(skipReply: bool, connected: bool, written: int): (cc: int)
    ensures skipReply ==> cc == 0
    ensures !skipReply && !connected ==> cc == -1
    ensures !skipReply && connected ==> cc == written
  {
    if skipReply then 0 else if connected then written else -1
  }

  class JdwpState {
    const options: JdwpOptions
    /** The transport, once one has been set up. */
    var netState: NetState?

    var requestSerial: u32
    var eventSerial: u32
    /** How many serials each counter has handed out. */
    ghost var requestsIssued: nat
    ghost var eventsIssued: nat

    var ddmIsActive: bool
    /** How many times the debug facade was told that DDMS connected. */
    ghost var ddmConnectedCalls: nat

    var shouldExit: bool
    var exitStatus: int

    /** True while a command is being handled; shutdown waits for it. */
    var processingRequest: bool
    /** Whether the command path holds the JDWP token. */
    ghost var tokenHeld: bool

    ghost predicate Valid()
      reads this
    {
      requestSerial == SerialAt(kRequestSerialBase, requestsIssued) &&
      eventSerial == SerialAt(kEventSerialBase, eventsIssued)
    }

    constructor (options: JdwpOptions)
      ensures Valid() && this.options == options && netState == null
      ensures requestSerial == kRequestSerialBase && eventSerial == kEventSerialBase
      ensures requestsIssued == 0 && eventsIssued == 0
      ensures !ddmIsActive && ddmConnectedCalls == 0
      ensures !shouldExit && exitStatus == 0
      ensures !processingRequest && !tokenHeld
    {
      this.options := options;
      netState := null;
      requestSerial := kRequestSerialBase;
      eventSerial := kEventSerialBase;
      requestsIssued := 0;
      eventsIssued := 0;
      ddmIsActive := false;
      ddmConnectedCalls := 0;
      shouldExit := false;
      exitStatus := 0;
      processingRequest := false;
      tokenHeld := false;
    }

    predicate IsConnected()
      reads this, netState
    {
      netState != null && netState.IsConnected()
    }

    /** Destruction waits while this holds (the loop on `processing_request_`). */
    predicate ShutdownMustWait()
      reads this
    {
      processingRequest
    }

    /** Hands out the next request serial. */
    method NextRequestSerial() returns (serial: u32)
      requires Valid()
      modifies this`requestSerial, this`requestsIssued
      ensures Valid()
      ensures serial == old(requestSerial) == SerialAt(kRequestSerialBase, old(requestsIssued))
      ensures requestSerial == (old(requestSerial) + 1) % 0x1_0000_0000
      ensures requestsIssued == old(requestsIssued) + 1
    {
      serial := requestSerial;
      SerialStep(kRequestSerialBase, requestsIssued);
      requestSerial := (requestSerial + 1) % 0x1_0000_0000;
      requestsIssued := requestsIssued + 1;
    }

    /** Hands out the next event serial. */
    method NextEventSerial() returns (serial: u32)
      requires Valid()
      modifies this`eventSerial, this`eventsIssued
      ensures Valid()
      ensures serial == old(eventSerial) == SerialAt(kEventSerialBase, old(eventsIssued))
      ensures eventSerial == (old(eventSerial) + 1) % 0x1_0000_0000
      ensures eventsIssued == old(eventsIssued) + 1
    {
      serial := eventSerial;
      SerialStep(kEventSerialBase, eventsIssued);
      eventSerial := (eventSerial + 1) % 0x1_0000_0000;
      eventsIssued := eventsIssued + 1;
    }

    /** Marks DDMS active, telling the debug facade only on the first call. */
    method NotifyDdmsActive()
      modifies this`ddmIsActive, this`ddmConnectedCalls
      ensures ddmIsActive
      ensures ddmConnectedCalls == old(ddmConnectedCalls) + (if old(ddmIsActive) then 0 else 1)
    {
      if !ddmIsActive {
        ddmIsActive := true;
        ddmConnectedCalls := ddmConnectedCalls + 1;
      }
    }

    /** Requests that the process exit with `status` once the current reply
        has gone out. */
    method ExitAfterReplying(status: int)
      modifies this`shouldExit, this`exitStatus
      ensures shouldExit && exitStatus == status
    {
      shouldExit := true;
      exitStatus := status;
    }

    /** Sends a packet to the debugger if one is connected; `written` is what
        the socket write reports. `sent` tells whether the whole packet went
        out (otherwise an error is logged). */
    method SendRequest(packet: seq<byte>, written: int) returns (sent: bool)
      requires -1 <= written <= |packet|
      modifies netState
      ensures !old(IsConnected()) ==> !sent && (netState != null ==> netState.wire == old(netState.wire))
      ensures old(IsConnected()) ==>
        netState.wire == old(netState.wire) + (if written < 0 then [] else packet[..written]) &&
        (sent <==> written == |packet|)
      ensures netState != null ==>
        netState.clientSock == old(netState.clientSock) && netState.inputCount == old(netState.inputCount) &&
        netState.awaitingHandshake == old(netState.awaitingHandshake) &&
        netState.inputBuffer == old(netState.inputBuffer)
    {
      if !IsConnected() {
        return false;
      }
      var actual := netState.WritePacket(packet, |packet|, written);
      sent := actual == |packet|;
    }

    /** Sends a packet given as byte ranges if a debugger is connected;
        `sent` tells whether as many bytes went out as the ranges hold. */
    method SendBufferedRequest(segments: seq<seq<byte>>, written: int) returns (sent: bool)
      requires -1 <= written <= |Flatten(segments)|
      modifies netState
      ensures !old(IsConnected()) ==> !sent && (netState != null ==> netState.wire == old(netState.wire))
      ensures old(IsConnected()) ==>
        netState.wire == old(netState.wire) + (if written < 0 then [] else Flatten(segments)[..written]) &&
        (sent <==> written == |Flatten(segments)|)
      ensures netState != null ==>
        netState.clientSock == old(netState.clientSock) && netState.inputCount == old(netState.inputCount) &&
        netState.awaitingHandshake == old(netState.awaitingHandshake) &&
        netState.inputBuffer == old(netState.inputBuffer)
    {
      if !IsConnected() {
        return false;
      }
      var expected := ExpectedLength(segments);
      var actual := netState.WriteBufferedPacket(segments, written);
      sent := actual == expected;
    }

    /** Handles the complete command packet at the front of the input buffer.
        The request processor is abstracted by its outputs: the reply bytes,
        the reply length and whether the reply is skipped; `written` is what
        the socket write of the reply reports, and `requestLength` the length
        of the parsed request. Returns false on a connection-fatal error. */
    method HandlePacket(requestLength: nat, reply: seq<byte>, replyLength: nat, skipReply: bool,
                        written: int) returns (ok: bool)
      requires netState != null && netState.Valid()
      requires 0 < requestLength <= netState.inputCount
      requires replyLength <= |reply| && -1 <= written <= replyLength
      modifies this`processingRequest, this`tokenHeld
      modifies netState`inputCount, netState.inputBuffer, netState`wire
      ensures netState == old(netState) && netState.Valid()
      ensures ok <==> ReplyWriteResult(skipReply, old(netState.IsConnected()), written) == replyLength
      ensures ok ==> netState.Held() == old(netState.Held())[requestLength..] && !processingRequest
      ensures !ok ==> netState.Held() == old(netState.Held()) && processingRequest
      ensures netState.wire == old(netState.wire) +
        (if skipReply || !old(netState.IsConnected()) || written < 0 then [] else reply[..written])
      ensures netState.clientSock == old(netState.clientSock) &&
        netState.awaitingHandshake == old(netState.awaitingHandshake)
      ensures !tokenHeld
    {
      processingRequest := true;
      // the request processor takes the token for the command
      tokenHeld := true;
      var cc := 0;
      if !skipReply {
        cc := netState.WritePacket(reply, replyLength, written);
      }
      // the reply has been dealt with, so the token is released
      tokenHeld := false;
      if cc != replyLength {
        return false;
      }
      netState.ConsumeBytes(requestLength);
      processingRequest := false;
      return true;
    }

    /** `HandlePacket` with the in-flight flag cleared on the failing path as
        well, so that a failed reply write cannot hold up shutdown. */
    method HandlePacketFixed(requestLength: nat, reply: seq<byte>, replyLength: nat, skipReply: bool,
                             written: int) returns (ok: bool)
      requires netState != null && netState.Valid()
      requires 0 < requestLength <= netState.inputCount
      requires replyLength <= |reply| && -1 <= written <= replyLength
      modifies this`processingRequest, this`tokenHeld
      modifies netState`inputCount, netState.inputBuffer, netState`wire
      ensures netState == old(netState) && netState.Valid()
      ensures ok <==> ReplyWriteResult(skipReply, old(netState.IsConnected()), written) == replyLength
      ensures ok ==> netState.Held() == old(netState.Held())[requestLength..]
      ensures !ok ==> netState.Held() == old(netState.Held())
      ensures !ShutdownMustWait() && !tokenHeld
      ensures netState.wire == old(netState.wire) +
        (if skipReply || !old(netState.IsConnected()) || written < 0 then [] else reply[..written])
      ensures netState.clientSock == old(netState.clientSock) &&
        netState.awaitingHandshake == old(netState.awaitingHandshake)
    {
      processingRequest := true;
      tokenHeld := true;
      var cc := 0;
      if !skipReply {
        cc := netState.WritePacket(reply, replyLength, written);
      }
      tokenHeld := false;
      if cc != replyLength {
        processingRequest := false;
        return false;
      }
      netState.ConsumeBytes(requestLength);
      processingRequest := false;
      return true;
    }
  }

  /** A connected session whose reply write comes up short is left with a
      request marked in flight, so destruction would wait for ever. */
  method ShortReplyBlocksShutdown() returns (blocked: bool)
    ensures blocked
  {
    var ns := new NetState(16);
    ns.clientSock := 3;
    ns.inputBuffer[0], ns.inputBuffer[1], ns.inputBuffer[2], ns.inputBuffer[3] := 0, 0, 0, 11;
    ns.inputCount := 11;
    var state := new JdwpState(JdwpOptions(TransportSocket, true, false, [], 8000));
    state.netState := ns;
    var ok := state.HandlePacket(11, [0, 0, 0, 11, 0, 0, 0, 1, 0x80, 0, 0], 11, false, -1);
    assert !ok;
    blocked := state.ShutdownMustWait();
  }

  /** With the fix, the same short write leaves nothing in flight. */
  method ShortReplyFixedAllowsShutdown() returns (blocked: bool)
    ensures !blocked
  {
    var ns := new NetState(16);
    ns.clientSock := 3;
    ns.inputCount := 11;
    var state := new JdwpState(JdwpOptions(TransportSocket, true, false, [], 8000));
    state.netState := ns;
    var ok := state.HandlePacketFixed(11, [0, 0, 0, 11, 0, 0, 0, 1, 0x80, 0, 0], 11, false, -1);
    assert !ok;
    blocked := state.ShutdownMustWait();
  }
}
