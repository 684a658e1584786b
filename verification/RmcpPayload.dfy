/** The encrypted RMCP+ payload: the confidentiality pad of section 13.29 of IPMI v2.0, built on send and removed on
    receive, with every length held in a uint8_t. */
module RmcpPayload {
  import opened Bytes
  import opened Cbc
  import IpmiMessage

  const HEAD := 14          // RMCP header, payload type, session id and sequence number
  const IV_AT := 16         // after the two length bytes
  const DATA_AT := 32
  const TRAILER := [0xff, 0xff, 0x02, 0x07]
  const LONGEST := 223
  const WORD := 0x1_0000_0000

  // ----- Sending -----

  function PadCount(psize: byte): byte {
    var pad := (psize + 1) % 16;
    if pad != 0 then 16 - pad else 0
  }

  function PadBytes(n: byte): (r: seq<byte>)
    ensures |r| == n
    ensures forall i :: 0 <= i < n ==> r[i] == i + 1
  {
    if n == 0 then [] else PadBytes(n - 1) + [n]
  }

  /** psize: a message's length as the sender sees it. */
  function SeenSize(message: seq<byte>): byte {
    ToUint8(|message|)
  }

  /** The part of a message that the sender sends. */
  function SeenPart(message: seq<byte>): (r: seq<byte>)
    ensures r <= message && |r| == SeenSize(message)
  {
    SeenPrefix(message);
    message[..SeenSize(message)]
  }

  /** The plaintext handed to AES: message, pad bytes 1, 2, 3 and so on, pad count. */
  function Padded(message: seq<byte>): seq<byte> {
    SeenPart(message) + PadBytes(PadCount(SeenSize(message))) + [PadCount(SeenSize(message))]
  }

  /** new_psize: the length byte of the packet. */
  function LengthByte(message: seq<byte>): byte {
    ToUint8(SeenSize(message) + PadCount(SeenSize(message)) + 17)
  }

  lemma SeenPrefix(message: seq<byte>)
    ensures SeenSize(message) <= |message|
    ensures |message| < 256 ==> SeenSize(message) == |message|
  {}

  function Blocks(psize: byte): nat {
    psize / 16 + 1
  }

  /** The padded message fills whole blocks. */
  lemma PaddedBlocks(message: seq<byte>)
    ensures |Padded(message)| == BLOCK * Blocks(SeenSize(message))
    ensures SeenSize(message) + PadCount(SeenSize(message)) + 1 == BLOCK * Blocks(SeenSize(message))
  {
    PadFills(SeenSize(message));
  }

  lemma PadFills(n: byte)
    ensures n + PadCount(n) + 1 == 16 * Blocks(n)
  {
    var q, r := n / 16, n % 16;
    assert n == 16 * q + r;
    if r == 15 {
      assert n + 1 == 16 * (q + 1);
    } else {
      assert n + 1 == 16 * q + (r + 1);
      assert (n + 1) % 16 == r + 1;
    }
  }

  /** The plaintext byte by byte: the message as far as it is seen, pad bytes counting up from 1, and their number,
      which is the least that fills the last block. */
  lemma PaddedBytes(message: seq<byte>)
    ensures var p, n := Padded(message), |message| % 256;
      var pad := 15 - n % 16;
      && |p| == n + pad + 1 && |p| % 16 == 0 && p[..n] == message[..n]
      && (forall k :: n <= k < n + pad ==> p[k] == k - n + 1)
      && p[|p| - 1] == pad
  {
    PadIs(|message| % 256);
  }

  lemma PadIs(n: byte)
    ensures PadCount(n) == 15 - n % 16 && (n + PadCount(n) + 1) % 16 == 0
  {
    var q, r := n / 16, n % 16;
    assert n == 16 * q + r;
    if r == 15 {
      assert n + 1 == 16 * (q + 1);
    } else {
      assert (n + 1) % 16 == r + 1;
    }
    assert n + PadCount(n) + 1 == 16 * (q + 1);
  }

  /** The building of aes_payload and new_psize. */
  method BuildPayload(message: seq<byte>) returns (payload: seq<byte>, newPsize: byte)
    ensures payload == Padded(message) && newPsize == LengthByte(message)
  {
    SeenPrefix(message);
    var psize: byte := |message| % 256;
    var pad: byte := (psize + 1) % 16;
    if pad != 0 {
      pad := 16 - pad;
    }
    newPsize := (psize + pad + 17) % 256;
    var currentLength := psize + 1;
    var neededPad: byte := currentLength % 16;
    if neededPad != 0 {
      neededPad := 16 - neededPad;
    }
    payload := message[..psize];
    var padval: byte := 1;
    while padval <= neededPad
      invariant 1 <= padval <= neededPad + 1
      invariant payload == message[..psize] + PadBytes(padval - 1)
      decreases neededPad + 1 - padval
    {
      payload := payload + [padval];
      padval := padval + 1;
    }
    payload := payload + [neededPad];
  }

  /** How many bytes of the ciphertext go out: aes_payload_len. */
  function SentLength(message: seq<byte>): byte {
    ToUint8(LengthByte(message) - 16)
  }

  ghost function Ciphertext(c: BlockCipher, iv: seq<byte>, message: seq<byte>): (r: seq<byte>)
    requires Invertible(c) && |iv| == BLOCK
    ensures |r| == BLOCK * Blocks(SeenSize(message))
  {
    PaddedBlocks(message);
    Encrypt(c, iv, Padded(message), Blocks(SeenSize(message)))
  }

  /** aes_out holds aes_payload_len bytes and AES stores all the blocks.  They fit, and fill it, exactly when the size
      the sender sees is below 240; from there on new_psize is 16, aes_out has no byte at all and 256 are stored. */
  lemma SentLengthFits(message: seq<byte>)
    ensures SentLength(message) == BLOCK * Blocks(SeenSize(message)) <==> SeenSize(message) < 240
    ensures SeenSize(message) >= 240 ==> SentLength(message) == 0 && BLOCK * Blocks(SeenSize(message)) == 256
    ensures SeenSize(message) <= LONGEST ==> LengthByte(message) == SentLength(message) + 16
    ensures SeenSize(message) > LONGEST ==> LengthByte(message) <= 16
  {
    var n := SeenSize(message);
    PadFills(n);
    LengthOf(n, Blocks(n));
  }

  lemma LengthOf(n: byte, k: nat)
    requires 16 * (k - 1) <= n < 16 * k
    ensures 1 <= k <= 16
    ensures ToUint8(16 * k + 16) == if k < 15 then 16 * k + 16 else if k == 15 then 0 else 16
  {
    assert k == 15 ==> 16 * k + 16 == 256;
    assert k == 16 ==> 16 * k + 16 == 272;
  }

  /** The sender's buffer in terms of the message: the size is seen modulo 256. */
  lemma SenderFits(c: BlockCipher, iv: seq<byte>, message: seq<byte>)
    requires Invertible(c) && |iv| == BLOCK
    ensures |Ciphertext(c, iv, message)| == SentLength(message) <==> |message| % 256 < 240
    ensures |message| % 256 >= 240 ==> |Ciphertext(c, iv, message)| == 256 && SentLength(message) == 0
  {
    SentLengthFits(message);
  }

  /** A packet's bytes: head, length byte and its high half, IV, ciphertext, pad and next-header bytes, auth code. */
  function Frame(head: seq<byte>, length: byte, iv: seq<byte>, sent: seq<byte>, auth: seq<byte>): seq<byte> {
    head + [length, 0] + iv + sent + (TRAILER + auth)
  }

  /** Where everything stands in a packet. */
  lemma FrameBytes(head: seq<byte>, length: byte, iv: seq<byte>, sent: seq<byte>, auth: seq<byte>)
    requires |head| == 14 && |iv| == 16
    ensures var p, n := Frame(head, length, iv, sent, auth), |sent|;
      && |p| == 36 + n + |auth| && p[..14] == head && p[14] == length && p[15] == 0 && p[16..32] == iv
      && p[32..32 + n] == sent && p[32 + n..36 + n] == [0xff, 0xff, 0x02, 0x07] && p[36 + n..] == auth
  {}

  /** The ciphertext that goes out. */
  ghost function Sent(c: BlockCipher, iv: seq<byte>, message: seq<byte>): seq<byte>
    requires Invertible(c) && |iv| == BLOCK
  {
    SentLengthFits(message);
    Ciphertext(c, iv, message)[..SentLength(message)]
  }

  /** The packet as sent. */
  ghost function Packet(c: BlockCipher, head: seq<byte>, iv: seq<byte>, message: seq<byte>, auth: seq<byte>): seq<byte>
    requires Invertible(c) && |iv| == BLOCK
  {
    Frame(head, LengthByte(message), iv, Sent(c, iv, message), auth)
  }

  // ----- Receiving -----

  /** WildRead is the program reading on from decrypt_out for a count far beyond the array; what it finds there, if it
      gets that far, is not known. */
  datatype Received = Unreadable | Message(bytes: seq<byte>) | WildRead(count: nat)

  /** encryption_length: the two length bytes, kept in a uint8_t. */
  function EncryptionLength(packet: seq<byte>): byte
    requires |packet| >= DATA_AT
  {
    ToUint8(packet[14] as int + packet[15] as int * 256)
  }

  /** How many bytes decrypt_out is declared with. */
  function DecryptRoom(length: byte): int {
    length - 16
  }

  /** The packet holds the whole blocks its length asks for, and decrypt_out has room for a pad count. */
  predicate Admissible(packet: seq<byte>) {
    && |packet| >= DATA_AT
    && EncryptionLength(packet) % BLOCK == 0 && DecryptRoom(EncryptionLength(packet)) >= 1
    && |packet| >= DATA_AT + EncryptionLength(packet)
  }

  /** What AES stores from decrypt_out on: as many bytes as the length says, although it counts the IV as well. */
  ghost function Decrypted(c: BlockCipher, packet: seq<byte>): (r: seq<byte>)
    requires Invertible(c) && Admissible(packet)
    ensures |r| == EncryptionLength(packet)
  {
    var length := EncryptionLength(packet);
    Decrypt(c, packet[IV_AT..DATA_AT], packet[DATA_AT..DATA_AT + length], length / BLOCK)
  }

  /** checksum_flag: the bytes before the pad, from the pad count at the last of the room, in an uint32_t. */
  function ChecksumFlag(room: nat, count: byte): nat
    requires 1 <= room <= 256
  {
    (room - 1 - count) % WORD
  }

  /** What a full decrypt_out is read as: its last byte counts the pad bytes before it, and nothing tests that count. */
  function Strip(out: seq<byte>): Received
    requires |out| <= 256
  {
    if out == [] then Unreadable
    else
      var n := ChecksumFlag(|out|, out[|out| - 1]);
      if n <= |out| then Message(out[..n]) else WildRead(n)
  }

  predicate PaddedWith(out: seq<byte>, message: seq<byte>, pad: seq<byte>) {
    |pad| < 256 && out == message + pad + [|pad|]
  }

  /** A message is found exactly where some pad and its count follow it. */
  lemma StripFinds(out: seq<byte>, message: seq<byte>)
    requires |out| <= 256
    ensures Strip(out) == Message(message) <==> exists pad :: PaddedWith(out, message, pad)
  {
    if Strip(out) == Message(message) {
      assert PaddedWith(out, message, out[|message|..|out| - 1]);
    }
  }

  /** What the receiver makes of a packet: the message in decrypt_out as far as that array reaches. */
  ghost function Receive(c: BlockCipher, packet: seq<byte>): Received
    requires Invertible(c)
  {
    if !Admissible(packet) then Unreadable
    else Strip(Decrypted(c, packet)[..DecryptRoom(EncryptionLength(packet))])
  }

  /** On every packet it can work on, the receiver stores 16 bytes more than decrypt_out has.  The pad count it reads
      back is the array's last byte, and a message, where there is one, lies before that. */
  lemma ReceiverOverruns(c: BlockCipher, packet: seq<byte>)
    requires Invertible(c) && Admissible(packet)
    ensures var length := EncryptionLength(packet);
      && length >= 32
      && |Decrypted(c, packet)| == DecryptRoom(length) + 16
      && 0 <= length - 17 == DecryptRoom(length) - 1
      && forall m :: Receive(c, packet) == Message(m) ==> |m| < DecryptRoom(length) && m == Decrypted(c, packet)[..|m|]
  {
    AtLeastTwoBlocks(EncryptionLength(packet));
  }

  /** It reads a message inside the array exactly when the pad count leaves room for one.  With any larger count the
      flag wraps, and the program reads on for nearly 2^32 bytes. */
  lemma ReadsInside(c: BlockCipher, packet: seq<byte>)
    requires Invertible(c) && Admissible(packet)
    ensures var length, r := EncryptionLength(packet), Receive(c, packet);
      var count := Decrypted(c, packet)[length - 17];
      && (r.Message? <==> count <= length - 17)
      && (r.WildRead? <==> count > length - 17)
      && (r.WildRead? ==> r.count == WORD + length - 17 - count && r.count >= WORD - 255)
  {
    var out := Decrypted(c, packet)[..DecryptRoom(EncryptionLength(packet))];
    StripCases(out);
  }

  lemma StripCases(out: seq<byte>)
    requires 1 <= |out| <= 256
    ensures var r, count := Strip(out), out[|out| - 1];
      && (r.Message? <==> count < |out|)
      && (r.WildRead? <==> count >= |out|)
      && (r.WildRead? ==> r.count == WORD + |out| - 1 - count)
  {
    var flag := |out| - 1 - out[|out| - 1] as int;
    assert flag < 0 ==> flag % WORD == flag + WORD;
  }

  lemma AtLeastTwoBlocks(length: byte)
    requires length % BLOCK == 0 && length >= 17
    ensures length >= 32
  {}

  /** AES_cbc_encrypt's output: bytes stored one after another. */
  method StoreBytes(memory: array<byte>, at: nat, bytes: seq<byte>)
    requires at + |bytes| <= memory.Length
    modifies memory
    ensures memory[..] == old(memory[..at]) + bytes + old(memory[at + |bytes|..])
  {
    forall i | 0 <= i < |bytes| {
      memory[at + i] := bytes[i];
    }
  }

  /** The receiving step in memory, where decrypt_out is the stretch of length - 16 bytes from at on: it is filled, the
      16 bytes after it are overwritten, and the outcome is Strip's.  The program has no branch at the end: a flag
      beyond the array makes it read there, where this method can only say so. */
  method StripPad(memory: array<byte>, at: nat, decrypted: seq<byte>, length: byte) returns (r: Received)
    requires DecryptRoom(length) >= 1 && |decrypted| == length && at + length <= memory.Length
    modifies memory
    ensures memory[..] == old(memory[..at]) + decrypted + old(memory[at + DecryptRoom(length) + 16..])
    ensures memory[at..at + DecryptRoom(length)] == decrypted[..DecryptRoom(length)]
    ensures r == Strip(memory[at..at + DecryptRoom(length)])
  {
    StoreBytes(memory, at, decrypted);
    ghost var out := memory[at..at + DecryptRoom(length)];
    var count := memory[at + length - 17];
    assert out[|out| - 1] == count;
    var flag := length - 17 - count as int;
    var checksumFlag := if flag < 0 then flag + WORD else flag;
    if checksumFlag <= length - 16 {
      r := Message(memory[at..at + checksumFlag]);
      assert memory[at..at + checksumFlag] == out[..checksumFlag];
    } else {
      r := WildRead(checksumFlag);
    }
  }

  // ----- The round trip -----

  lemma StripPadded(message: seq<byte>)
    requires SeenSize(message) <= LONGEST
    ensures |Padded(message)| <= 256 && Strip(Padded(message)) == Message(SeenPart(message))
  {
    SeenPrefix(message);
    PaddedBlocks(message);
    var n := SeenSize(message);
    assert PaddedWith(Padded(message), SeenPart(message), PadBytes(PadCount(n)));
    StripFinds(Padded(message), SeenPart(message));
  }

  lemma FrameLayout(head: seq<byte>, length: byte, iv: seq<byte>, sent: seq<byte>, auth: seq<byte>)
    requires |head| == HEAD && |iv| == BLOCK && |auth| >= 12
    ensures var p, after := Frame(head, length, iv, sent, auth), TRAILER + auth;
      && |after| >= 16 && |p| >= DATA_AT + |sent| + 16
      && EncryptionLength(p) == length
      && p[IV_AT..DATA_AT] == iv && p[DATA_AT..DATA_AT + |sent| + 16] == sent + after[..16]
  {
    var p, front, after := Frame(head, length, iv, sent, auth), head + [length, 0] + iv, TRAILER + auth;
    assert p == front + (sent + after);
    assert front[IV_AT..] == iv && front[14] == length && front[15] == 0;
    assert p[DATA_AT..DATA_AT + |sent| + 16] == (sent + after)[..|sent| + 16];
  }

  /** The receiver on a packet whose length byte counts IV and ciphertext: one block more than was sent is decrypted. */
  lemma DecryptedFrame(c: BlockCipher, head: seq<byte>, iv: seq<byte>, sent: seq<byte>, auth: seq<byte>, n: nat,
                       p: seq<byte>, tail: seq<byte>)
    requires Invertible(c) && |head| == HEAD && |iv| == BLOCK && |auth| >= 12
    requires 1 <= n <= 14 && |sent| == BLOCK * n
    requires p == Frame(head, |sent| + 16, iv, sent, auth) && tail == (TRAILER + auth)[..16]
    ensures Admissible(p) && EncryptionLength(p) == |sent| + 16
    ensures Decrypted(c, p) == Decrypt(c, iv, sent + tail, n + 1)
  {
    FrameLayout(head, |sent| + 16, iv, sent, auth);
    var q := sent + tail;
    assert |q| == 16 * (n + 1);
    WholeBlocks(n + 1);
    DecryptedIs(c, p, iv, q, n + 1);
  }

  lemma DecryptedIs(c: BlockCipher, p: seq<byte>, iv: seq<byte>, q: seq<byte>, n: nat)
    requires Invertible(c) && |p| >= DATA_AT && |q| >= 32 && EncryptionLength(p) == |q| && |p| >= DATA_AT + |q|
    requires |q| % BLOCK == 0 && |q| / BLOCK == n && |iv| == BLOCK
    requires p[IV_AT..DATA_AT] == iv && p[DATA_AT..DATA_AT + |q|] == q
    ensures Admissible(p) && |q| == BLOCK * n && Decrypted(c, p) == Decrypt(c, iv, q, n)
  {}

  lemma WholeBlocks(n: nat)
    ensures 16 * n % BLOCK == 0 && 16 * n / BLOCK == n
  {}

  /** decrypt_out comes to hold exactly the plaintext, whatever it is; what lands behind it does not matter. */
  lemma DecryptOutHolds(c: BlockCipher, head: seq<byte>, iv: seq<byte>, plain: seq<byte>, auth: seq<byte>, n: nat)
    requires Invertible(c) && |head| == HEAD && |iv| == BLOCK && |auth| >= 12
    requires 1 <= n <= 14 && |plain| == BLOCK * n
    ensures var p := Frame(head, |plain| + 16, iv, Encrypt(c, iv, plain, n), auth);
      Admissible(p) && Decrypted(c, p)[..DecryptRoom(EncryptionLength(p))] == plain && Receive(c, p) == Strip(plain)
  {
    var q, tail := Encrypt(c, iv, plain, n), (TRAILER + auth)[..16];
    var p := Frame(head, |plain| + 16, iv, q, auth);
    DecryptedFrame(c, head, iv, q, auth, n, p, tail);
    DecryptAhead(c, iv, plain, n, tail);
  }

  /** For every cipher and every IV a packet exists on which the receiver reads far outside the array: one block that
      ends in 255. */
  lemma WildPacket(c: BlockCipher, head: seq<byte>, iv: seq<byte>, auth: seq<byte>)
    requires Invertible(c) && |head| == HEAD && |iv| == BLOCK && |auth| >= 12
    ensures var plain: seq<byte> := [0, 0, 0, 0, 0, 0, 0, 0, 0, 0, 0, 0, 0, 0, 0, 255];
      Receive(c, Frame(head, 32, iv, Encrypt(c, iv, plain, 1), auth)) == WildRead(WORD - 240)
  {
    var plain: seq<byte> := [0, 0, 0, 0, 0, 0, 0, 0, 0, 0, 0, 0, 0, 0, 0, 255];
    DecryptOutHolds(c, head, iv, plain, auth, 1);
  }

  lemma ShortMessage(c: BlockCipher, head: seq<byte>, iv: seq<byte>, message: seq<byte>, auth: seq<byte>)
    requires Invertible(c) && |head| == HEAD && |iv| == BLOCK && |auth| >= 12 && SeenSize(message) <= LONGEST
    ensures Receive(c, Packet(c, head, iv, message, auth)) == Message(SeenPart(message))
  {
    var n := Blocks(SeenSize(message));
    SentLengthFits(message);
    PaddedBlocks(message);
    assert Sent(c, iv, message) == Encrypt(c, iv, Padded(message), n);
    DecryptOutHolds(c, head, iv, Padded(message), auth, n);
    StripPadded(message);
  }

  lemma LongMessage(c: BlockCipher, head: seq<byte>, iv: seq<byte>, message: seq<byte>, auth: seq<byte>)
    requires Invertible(c) && |head| == HEAD && |iv| == BLOCK && |auth| >= 12 && SeenSize(message) > LONGEST
    ensures Receive(c, Packet(c, head, iv, message, auth)) == Unreadable
  {
    FrameLayout(head, LengthByte(message), iv, Sent(c, iv, message), auth);
    SentLengthFits(message);
  }

  /** What the receiver makes of anything this sender sends: the part of the message the sender saw, or nothing it can
      read.  It is never led outside its array. */
  lemma SentReceived(c: BlockCipher, head: seq<byte>, iv: seq<byte>, message: seq<byte>, auth: seq<byte>)
    requires Invertible(c) && |head| == HEAD && |iv| == BLOCK && |auth| >= 12
    ensures Receive(c, Packet(c, head, iv, message, auth))
         == if SeenSize(message) <= LONGEST then Message(SeenPart(message)) else Unreadable
  {
    if SeenSize(message) <= LONGEST {
      ShortMessage(c, head, iv, message, auth);
    } else {
      LongMessage(c, head, iv, message, auth);
    }
  }

  /** A message comes back whole exactly when it has at most 223 bytes.  From 224 on the length byte wraps, and from 256
      on the sender itself sees a shorter message. */
  lemma PayloadRoundTrip(c: BlockCipher, head: seq<byte>, iv: seq<byte>, message: seq<byte>, auth: seq<byte>)
    requires Invertible(c) && |head| == HEAD && |iv| == BLOCK && |auth| >= 12
    ensures Receive(c, Packet(c, head, iv, message, auth)) == Message(message) <==> |message| <= LONGEST
  {
    SentReceived(c, head, iv, message, auth);
    SeenPrefix(message);
    assert SeenPart(message) == message <==> |SeenPart(message)| == |message|;
  }

  /** Every response the server can build fills its own buffer and is delivered to a console that runs this receiver. */
  lemma ResponseDelivered(c: BlockCipher, head: seq<byte>, iv: seq<byte>, auth: seq<byte>,
                          request: seq<byte>, h: IpmiMessage.Handled)
    requires Invertible(c) && |head| == HEAD && |iv| == BLOCK && |auth| >= 12
    requires |request| >= 7 && IpmiMessage.WithinBuffer(h)
    ensures var r := IpmiMessage.Response(request, h);
      |Ciphertext(c, iv, r)| == SentLength(r) && Receive(c, Packet(c, head, iv, r, auth)) == Message(r)
  {
    IpmiMessage.ResponseChecks(request, h);
    ShortFits(c, iv, IpmiMessage.Response(request, h));
    PayloadRoundTrip(c, head, iv, IpmiMessage.Response(request, h), auth);
  }

  /** A message that can be delivered fills aes_out exactly. */
  lemma ShortFits(c: BlockCipher, iv: seq<byte>, message: seq<byte>)
    requires Invertible(c) && |iv| == BLOCK && |message| <= LONGEST
    ensures |Ciphertext(c, iv, message)| == SentLength(message)
  {
    SeenPrefix(message);
    SentLengthFits(message);
  }
}
