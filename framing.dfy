/** Byte-level vocabulary of the JDWP wire: bytes, the big-endian 32-bit
    length field that opens every packet, and the fixed handshake length. */
module Framing {

  type byte = b: int | 0 <= b < 0x100
  type u32 = n: int | 0 <= n < 0x1_0000_0000

  /** Length of the ASCII handshake magic "JDWP-Handshake". */
  const kMagicHandshakeLen: nat := 14

  /** Size of the length prefix of a framed packet. */
  const kLengthFieldLen: nat := 4

  /** The big-endian 32-bit value held in the first four bytes. */
  function Get4BE(b: seq<byte>): (n: u32)
    requires |b| >= 4
  {
    (b[0] as int) * 0x100_0000 + (b[1] as int) * 0x1_0000 + (b[2] as int) * 0x100 + b[3] as int
  }

  /** The four big-endian bytes of a 32-bit value. */
  function Put4BE(n: u32): (b: seq<byte>)
    ensures |b| == 4
  {
    [n / 0x100_0000, (n / 0x1_0000) % 0x100, (n / 0x100) % 0x100, n % 0x100]
  }

  /** Reading back a written length field gives the value, whatever follows it. */
  lemma Get4BEPut4BE(n: u32, rest: seq<byte>)
    ensures Get4BE(Put4BE(n) + rest) == n
  {
    var b := Put4BE(n) + rest;
    var q3, r3 := n / 0x100_0000, n % 0x100_0000;
    var q2, r2 := r3 / 0x1_0000, r3 % 0x1_0000;
    var q1, r1 := r2 / 0x100, r2 % 0x100;
    assert n == q3 * 0x100_0000 + r3;
    assert r3 == q2 * 0x1_0000 + r2;
    assert r2 == q1 * 0x100 + r1;
    DivMod(n, q3, r3, q2, r2);
    assert b[1] == q2 && b[2] == q1 && b[3] == r1;
  }

  lemma DivMod(n: u32, q3: int, r3: int, q2: int, r2: int)
    requires q3 == n / 0x100_0000 && r3 == n % 0x100_0000
    requires q2 == r3 / 0x1_0000 && r2 == r3 % 0x1_0000
    ensures (n / 0x1_0000) % 0x100 == q2
    ensures (n / 0x100) % 0x100 == r2 / 0x100
    ensures n % 0x100 == r2 % 0x100
  {
    var q1, r1 := r2 / 0x100, r2 % 0x100;
    assert n == q3 * 0x100_0000 + q2 * 0x1_0000 + q1 * 0x100 + r1;
    assert n / 0x1_0000 == q3 * 0x100 + q2;
    assert n / 0x100 == (q3 * 0x100 + q2) * 0x100 + q1;
  }

  /** Writing back a read length field reproduces the four bytes. */
  lemma {:induction false} Put4BEGet4BE(b: seq<byte>)
    requires |b| == 4
    ensures Put4BE(Get4BE(b)) == b
  {
    var n := Get4BE(b);
    var b0, b1, b2, b3: int := b[0], b[1], b[2], b[3];
    assert n == ((b0 * 0x100 + b1) * 0x100 + b2) * 0x100 + b3;
    assert n % 0x100 == b3;
    assert n / 0x100 == (b0 * 0x100 + b1) * 0x100 + b2;
    assert (n / 0x100) % 0x100 == b2;
    assert n / 0x1_0000 == (n / 0x100) / 0x100;
    assert n / 0x1_0000 == b0 * 0x100 + b1;
    assert (n / 0x1_0000) % 0x100 == b1;
    assert n / 0x100_0000 == (n / 0x1_0000) / 0x100;
    assert n / 0x100_0000 == b0;
  }

  /** A framed packet: its total length (prefix included), then the payload. */
  function Frame(payload: seq<byte>): (f: seq<byte>)
    requires |payload| + kLengthFieldLen < 0x1_0000_0000
    ensures |f| == |payload| + kLengthFieldLen
    ensures Get4BE(f) == |f|
    ensures f[kLengthFieldLen..] == payload
  {
    Get4BEPut4BE(|payload| + kLengthFieldLen, payload);
    Put4BE(|payload| + kLengthFieldLen) + payload
  }
}
