/** IPMI LAN messages: the checksum loop and the response built from a request. */
module IpmiMessage {
  import opened Bytes

  const HEADER_LENGTH := 6
  const BUFFER := 128

  // ----- Checksums -----

  /** _checksum: the running sum lives in an int8_t, each step going through int arithmetic and C's %. */
  method Checksum(buf: seq<byte>, initial: byte) returns (r: byte)
    ensures r == (initial + Sum(buf)) % 256
  {
    var checksum := ToInt8(initial);
    var i := 0;
    while i < |buf|
      invariant i <= |buf| && -128 <= checksum <= 127
      invariant ToUint8(checksum) == (initial + Sum(buf[..i])) % 256
    {
      assert buf[..i + 1][..i] == buf[..i];
      StepModulo(checksum, initial + Sum(buf[..i]), buf[i]);
      checksum := ToInt8(Rem(checksum + buf[i], 256));
      i := i + 1;
    }
    assert buf[..i] == buf;
    return ToUint8(checksum);
  }

  /** Wrapping into a signed byte at each step loses nothing modulo 256. */
  lemma StepModulo(checksum: int, total: nat, b: byte)
    requires -128 <= checksum <= 127 && checksum % 256 == total % 256
    ensures ToInt8(Rem(checksum + b, 256)) % 256 == (total + b) % 256
  {
    var x := checksum + b;
    var y := Rem(x, 256);
    assert y == if x < 256 then x else x - 256;
    assert ToInt8(y) == if y < 128 then y else y - 256;
    SameRemainder(ToInt8(y), x, if ToInt8(y) == x then 0 else if ToInt8(y) == x - 256 then -1 else -2);
    var q := total / 256 - checksum / 256;
    assert total + b == x + 256 * q;
    SameRemainder(total + b, x, q);
  }

  lemma SameRemainder(x: int, y: int, q: int)
    requires x == y + 256 * q
    ensures x % 256 == y % 256
  {
    var k := y / 256;
    assert x == 256 * (k + q) + y % 256;
  }

  /** The byte that brings a sum to a multiple of 256. */
  function Negated(s: nat): byte {
    (256 - s % 256) % 256
  }

  /** ipmi_checksum: the two's complement of the byte sum. */
  method IpmiChecksum(buf: seq<byte>) returns (r: byte)
    ensures r == Negated(Sum(buf))
    ensures (Sum(buf) + r) % 256 == 0
  {
    var c := Checksum(buf, 0);
    r := ToUint8(-(c as int));
    NegatedIs(c);
    NegatedBalances(Sum(buf));
  }

  lemma NegatedIs(c: byte)
    ensures ToUint8(-(c as int)) == if c == 0 then 0 else 256 - c
    ensures (256 - c) % 256 == if c == 0 then 0 else 256 - c
  {}

  lemma NegatedBalances(s: nat)
    ensures (s + Negated(s)) % 256 == 0
  {
    NegatedIs(s % 256);
    var q := s / 256;
    SameRemainder(s + Negated(s), 0, if s % 256 == 0 then q else q + 1);
  }

  // ----- The response -----

  /** What ipmi_handle leaves behind: a completion code, the response buffer and how much of it is used. */
  datatype Handled = Handled(cc: byte, buffer: seq<byte>, length: byte)

  predicate WithinBuffer(h: Handled) {
    |h.buffer| == BUFFER && (h.cc != 0xff && h.cc != 0xfe ==> 2 <= h.length <= BUFFER)
  }

  function NetFn(m: seq<byte>): nat requires |m| >= 6 { m[1] / 4 }
  function RsLun(m: seq<byte>): nat requires |m| >= 6 { m[1] % 4 }
  function RqSeq(m: seq<byte>): nat requires |m| >= 6 { m[4] / 4 }
  function RqLun(m: seq<byte>): nat requires |m| >= 6 { m[4] % 4 }

  /** The handler's input: function, command and the data between header and checksum. */
  function Request(m: seq<byte>): seq<byte>
    requires |m| >= 7
  {
    [NetFn(m), m[5]] + m[6..|m| - 1]
  }

  function Data(h: Handled): seq<byte>
    requires WithinBuffer(h)
  {
    if h.cc != 0xff && h.cc != 0xfe then h.buffer[2..h.length] else [h.cc]
  }

  /** The first two header bytes: the requester's address, the answering function and the requester's LUN. */
  function Connection(m: seq<byte>): seq<byte>
    requires |m| >= 7
  {
    [m[3], (NetFn(m) + 1) % 64 * 4 + RqLun(m)]
  }

  function Unsigned(m: seq<byte>, h: Handled): seq<byte>
    requires |m| >= 7 && WithinBuffer(h)
  {
    Connection(m) + [Negated(Sum(Connection(m)))] + [m[0], RqSeq(m) * 4 + RsLun(m), m[5]] + Data(h)
  }

  function Response(m: seq<byte>, h: Handled): seq<byte>
    requires |m| >= 7 && WithinBuffer(h)
  {
    Unsigned(m, h) + [Negated(Sum(Unsigned(m, h)))]
  }

  /** ipmi_msg_process_packet.  A request under 7 bytes, or one whose data overruns the 126 bytes left in req_buf,
      has no defined meaning there. */
  method MsgProcessPacket(packetIn: seq<byte>, handle: seq<byte> -> Handled) returns (packetOut: seq<byte>)
    requires 7 <= |packetIn| <= BUFFER + 5
    requires WithinBuffer(handle(Request(packetIn)))
    ensures packetOut == Response(packetIn, handle(Request(packetIn)))
  {
    var h := handle([packetIn[1] / 4, packetIn[5]] + packetIn[6..|packetIn| - 1]);
    var data := if h.cc != 0xff && h.cc != 0xfe then h.buffer[2..h.length] else [h.cc];
    var length := HEADER_LENGTH + |data| + 1;
    var out := new byte[length](_ => 0);
    FillHeader(packetIn, out);
    forall i | 0 <= i < |data| {
      out[HEADER_LENGTH + i] := data[i];
    }
    assert out[..length - 1] == out[..HEADER_LENGTH] + data == Unsigned(packetIn, h);
    var c := IpmiChecksum(out[..length - 1]);
    out[length - 1] := c;
    packetOut := out[..];
    assert packetOut == out[..length - 1] + [c] && out[..length - 1] == Unsigned(packetIn, h);
  }

  /** The fields of ipmi_msg_out up to cmd, copied to the front of the buffer. */
  method FillHeader(packetIn: seq<byte>, out: array<byte>)
    requires |packetIn| >= 7 && out.Length >= HEADER_LENGTH
    modifies out
    ensures out[..HEADER_LENGTH] == Connection(packetIn) + [Negated(Sum(Connection(packetIn)))]
                                    + [packetIn[0], RqSeq(packetIn) * 4 + RsLun(packetIn), packetIn[5]]
  {
    out[0] := packetIn[3];
    out[1] := (packetIn[1] / 4 + 1) % 64 * 4 + packetIn[4] % 4;
    assert out[..2] == Connection(packetIn);
    var c := IpmiChecksum(out[..2]);
    out[2] := c;
    out[3] := packetIn[0];
    out[4] := packetIn[4] / 4 * 4 + packetIn[1] % 4;
    out[5] := packetIn[5];
    assert out[..2] == Connection(packetIn);
    assert out[..HEADER_LENGTH] == out[..2] + [out[2]] + [out[3], out[4], out[5]];
  }

  /** Both checksums hold at the receiver, and the last byte, although taken over the whole message, is the one that
      section 13.8 of IPMI v2.0 takes over bytes 3 onward only: the header before it sums to zero. */
  lemma ResponseChecks(m: seq<byte>, h: Handled)
    requires |m| >= 7 && WithinBuffer(h)
    ensures var r := Response(m, h);
      && 7 <= |r| <= BUFFER + 5
      && Sum(r[..3]) % 256 == 0 && Sum(r) % 256 == 0
      && r[|r| - 1] == Negated(Sum(r[3..|r| - 1]))
  {
    var r, u, c := Response(m, h), Unsigned(m, h), Connection(m);
    assert r[..3] == c + [Negated(Sum(c))];
    SumBalances(c);
    assert r == u + [Negated(Sum(u))];
    SumBalances(u);
    assert u == r[..3] + r[3..|r| - 1] by { assert r[..|r| - 1] == u; }
    SumConcat(r[..3], r[3..|r| - 1]);
    SameNegated(Sum(r[..3]), Sum(r[3..|r| - 1]));
  }

  lemma SumBalances(c: seq<byte>)
    ensures Sum(c + [Negated(Sum(c))]) % 256 == 0
  {
    assert (c + [Negated(Sum(c))])[..|c|] == c;
    NegatedBalances(Sum(c));
  }

  lemma SameNegated(a: nat, b: nat)
    requires a % 256 == 0
    ensures Negated(a + b) == Negated(b)
  {
    SameRemainder(a + b, b, a / 256);
  }

  /** The response goes back where the request came from, with its sequence number, command and LUNs in place,
      under the function paired with the request's; the 6-bit function wraps from 63 to 0. */
  lemma ResponseAddress(m: seq<byte>, h: Handled)
    requires |m| >= 7 && WithinBuffer(h)
    ensures var r := Response(m, h);
      && r[0] == m[3] && r[3] == m[0] && r[5] == m[5]
      && NetFn(r) == (NetFn(m) + 1) % 64 && RqSeq(r) == RqSeq(m)
      && RsLun(r) == RqLun(m) && RqLun(r) == RsLun(m)
      && (NetFn(m) % 2 == 0 ==> NetFn(r) == NetFn(m) + 1)
      && r[6..|r| - 1] == Data(h)
  {}

  /** What the handler is given: the request's function and command, then the bytes between its header and its
      checksum. */
  lemma HandlerGets(m: seq<byte>)
    requires |m| >= 7
    ensures |Request(m)| == |m| - 5 && Request(m)[0] == m[1] / 4 && Request(m)[1] == m[5]
    ensures forall k :: 2 <= k < |m| - 5 ==> Request(m)[k] == m[k + 4]
  {}

  /** What of the handler's answer is sent: the bytes after the first two, or, for the two codes of a failure, the code
      alone. */
  lemma AnswerSent(m: seq<byte>, h: Handled)
    requires |m| >= 7 && WithinBuffer(h)
    ensures h.cc == 0xff || h.cc == 0xfe ==> |Response(m, h)| == 8 && Response(m, h)[6] == h.cc
    ensures h.cc != 0xff && h.cc != 0xfe ==> |Response(m, h)| == h.length + 5
    ensures h.cc != 0xff && h.cc != 0xfe ==> forall k :: 2 <= k < h.length ==> Response(m, h)[k + 4] == h.buffer[k]
  {}

  /** The packed bytes of the header: function above LUN, sequence number above LUN. */
  lemma PackedBytes(m: seq<byte>, h: Handled)
    requires |m| >= 7 && WithinBuffer(h)
    ensures var r := Response(m, h);
      && r[1] == (m[1] / 4 + 1) % 64 * 4 + m[4] % 4
      && r[4] == m[4] / 4 * 4 + m[1] % 4
  {}
}
