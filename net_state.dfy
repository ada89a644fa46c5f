/** The transport half of a JDWP connection (`JdwpNetStateBase`): the
    client socket, the input buffer that incoming bytes are read into and
    consumed from, and the write path. */
module Transport {
  import opened Framing

  class NetState {
    /** Client socket descriptor; negative when there is no connection. */
    var clientSock: int
    /** Fixed-size buffer of received bytes; the first `inputCount` are held. */
    var inputBuffer: array<byte>
    var inputCount: nat
    /** True until the handshake has been received on a fresh connection. */
    var awaitingHandshake: bool
    /** The bytes handed to the socket so far, in order. */
    ghost var wire: seq<byte>

    ghost predicate Valid()
      reads this
    {
      inputCount <= inputBuffer.Length
    }

    /** The bytes currently held. */
    ghost function Held(): seq<byte>
      reads this, inputBuffer
      requires Valid()
    {
      inputBuffer[..inputCount]
    }

    /** A fresh, unconnected transport with an empty buffer of the given size. */
    constructor (capacity: nat)
      ensures Valid() && fresh(inputBuffer) && inputBuffer.Length == capacity
      ensures clientSock == -1 && inputCount == 0 && !awaitingHandshake
      ensures Held() == [] && wire == []
    {
      clientSock := -1;
      inputBuffer := new byte[capacity];
      inputCount := 0;
      awaitingHandshake := false;
      wire := [];
    }

    /** Drops the first `count` held bytes, moving the rest to the front of
        the buffer; when every held byte goes, only the count is reset. */
    method ConsumeBytes(count: nat)
      requires Valid()
      requires 0 < count <= inputCount
      modifies this`inputCount, inputBuffer
      ensures Valid()
      ensures inputCount == old(inputCount) - count
      ensures Held() == old(Held())[count..]
      // the move writes only the destination range of the held bytes
      ensures forall k :: inputCount <= k < inputBuffer.Length ==> inputBuffer[k] == old(inputBuffer[k])
    {
      if count == inputCount {
        inputCount := 0;
        return;
      }
      var n := inputCount - count;
      var i := 0;
      while i < n
        invariant 0 <= i <= n
        invariant forall k :: 0 <= k < i ==> inputBuffer[k] == old(inputBuffer[k + count])
        invariant forall k :: i <= k < inputBuffer.Length ==> inputBuffer[k] == old(inputBuffer[k])
      {
        inputBuffer[i] := inputBuffer[i + count];
        i := i + 1;
      }
      inputCount := n;
    }

    /** Whether the buffer holds a complete unit: the handshake while one is
        awaited, otherwise a packet whose self-inclusive big-endian length is
        in its first four bytes. */
    function HaveFullPacket(): (full: bool)
      reads this, inputBuffer
      requires Valid()
      ensures awaitingHandshake ==> (full <==> inputCount >= kMagicHandshakeLen)
      ensures !awaitingHandshake && inputCount < kLengthFieldLen ==> !full
      ensures !awaitingHandshake && inputCount >= kLengthFieldLen ==>
                (full <==> inputCount >= Get4BE(Held()))
    {
      if awaitingHandshake then inputCount >= kMagicHandshakeLen
      else if inputCount < kLengthFieldLen then false
      else inputCount >= Get4BE(inputBuffer[..kLengthFieldLen])
    }

    function IsAwaitingHandshake(): (awaiting: bool)
      reads this, inputBuffer
      requires Valid()
      ensures awaiting ==> (HaveFullPacket() <==> |Held()| >= kMagicHandshakeLen)
    {
      awaitingHandshake
    }

    method SetAwaitingHandshake(newState: bool)
      modifies this`awaitingHandshake
      ensures awaitingHandshake == newState
    {
      awaitingHandshake := newState;
    }

    predicate IsConnected()
      reads this
    {
      clientSock >= 0
    }

    /** Drops the connection; does nothing if there is none. */
    method Close()
      modifies this`clientSock
      ensures !IsConnected()
      ensures old(clientSock) < 0 ==> clientSock == old(clientSock)
      ensures old(clientSock) >= 0 ==> clientSock == -1
    {
      if clientSock < 0 {
        return;
      }
      clientSock := -1;
    }

    /** Writes the first `length` bytes of `packet`. `written` is what the
        socket write reports (-1 on error, else the count it took). */
    method WritePacket(packet: seq<byte>, length: nat, written: int) returns (cc: int)
      requires length <= |packet|
      requires -1 <= written <= length
      modifies this`wire
      ensures !old(IsConnected()) ==> cc == -1 && wire == old(wire)
      ensures old(IsConnected()) ==>
        cc == written && wire == old(wire) + (if written < 0 then [] else packet[..written])
    {
      if !IsConnected() {
        return -1;
      }
      wire := wire + (if written < 0 then [] else packet[..written]);
      return written;
    }

    /** Writes a packet given as a list of byte ranges, in one gathered
        write. The caller is expected to have checked the connection. */
    method WriteBufferedPacket(segments: seq<seq<byte>>, written: int) returns (cc: int)
      requires IsConnected()
      requires -1 <= written <= |Flatten(segments)|
      modifies this`wire
      ensures cc == written
      ensures wire == old(wire) + (if written < 0 then [] else Flatten(segments)[..written])
    {
      wire := wire + (if written < 0 then [] else Flatten(segments)[..written]);
      return written;
    }
  }

  /** The byte ranges of a gathered write, one after the other. */
  function Flatten(segments: seq<seq<byte>>): seq<byte> {
    if segments == [] then [] else segments[0] + Flatten(segments[1..])
  }

  function TotalLength(segments: seq<seq<byte>>): nat {
    if segments == [] then 0 else |segments[0]| + TotalLength(segments[1..])
  }

  lemma {:induction false} FlattenLength(segments: seq<seq<byte>>)
    ensures |Flatten(segments)| == TotalLength(segments)
  {
    if segments != [] { FlattenLength(segments[1..]); }
  }

  lemma {:induction false} TotalLengthSnoc(segments: seq<seq<byte>>, s: seq<byte>)
    ensures TotalLength(segments + [s]) == TotalLength(segments) + |s|
  {
    if segments == [] {
      assert segments + [s] == [s];
    } else {
      assert (segments + [s])[1..] == segments[1..] + [s];
      TotalLengthSnoc(segments[1..], s);
    }
  }

  /** The loop that adds up the lengths of a gathered write's ranges: the
      number of bytes the whole write should report. */
  method ExpectedLength(segments: seq<seq<byte>>) returns (expected: nat)
    ensures expected == |Flatten(segments)|
  {
    expected := 0;
    var i := 0;
    while i < |segments|
      invariant 0 <= i <= |segments|
      invariant expected == TotalLength(segments[..i])
    {
      assert segments[..i + 1] == segments[..i] + [segments[i]];
      TotalLengthSnoc(segments[..i], segments[i]);
      expected := expected + |segments[i]|;
      i := i + 1;
    }
    assert segments[..i] == segments;
    FlattenLength(segments);
  }

  /** A complete framed packet at the front of the buffer is recognised. */
  lemma FramedPacketIsFull(ns: NetState, payload: seq<byte>)
    requires ns.Valid() && !ns.awaitingHandshake
    requires |payload| + kLengthFieldLen < 0x1_0000_0000
    requires Frame(payload) <= ns.Held()
    ensures ns.HaveFullPacket()
  {
    var f := Frame(payload);
    assert ns.Held()[..kLengthFieldLen] == f[..kLengthFieldLen];
    Get4BEPrefix(ns.Held(), f);
  }

  /** Any strict prefix of a framed packet is not yet a full packet. */
  lemma PartialPacketIsNotFull(ns: NetState, payload: seq<byte>)
    requires ns.Valid() && !ns.awaitingHandshake
    requires |payload| + kLengthFieldLen < 0x1_0000_0000
    requires ns.Held() < Frame(payload)
    ensures !ns.HaveFullPacket()
  {
    var f := Frame(payload);
    if ns.inputCount >= kLengthFieldLen {
      Get4BEPrefix(ns.Held(), f);
    }
  }

  lemma Get4BEPrefix(a: seq<byte>, b: seq<byte>)
    requires |a| >= kLengthFieldLen && |b| >= kLengthFieldLen
    requires a[..kLengthFieldLen] == b[..kLengthFieldLen]
    ensures Get4BE(a) == Get4BE(b)
  {
    assert a[0] == a[..kLengthFieldLen][0] && a[1] == a[..kLengthFieldLen][1];
    assert a[2] == a[..kLengthFieldLen][2] && a[3] == a[..kLengthFieldLen][3];
  }
}
