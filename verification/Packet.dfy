/** Packet layout and the in-place packet operations of src/packet.c, src/encap.c and src/decap.c.
    A packet buffer holds the GRE header at 0, the IP header at 6, the TCP header at 26 and the
    payload at 46. */
module Packet {
  import opened Bytes
  import opened Checksum
  import opened Cipher
  import opened CStrings
  import opened Address

  const TCP: byte := 6
  const MAX_PAYLOAD: nat := 128
  const PACKET: nat := 174
  const SYN: byte := 0x02
  const ACK: byte := 0x16

  function GetPacketSize(ipProtocol: byte, payloadSize: byte): byte {
    if ipProtocol == TCP then (payloadSize as int + 46) % 0x100 else 0xff
  }

  lemma TcpPacketSize(payloadSize: byte)
    requires payloadSize as int + 46 < 0x100
    ensures GetPacketSize(TCP, payloadSize) == payloadSize as int + 46
  {
  }

  // ----- specification: what a freshly built packet looks like, byte by byte

  const GRE_HEADER: seq<byte> := [0x00, 0x01, 0x08, 0x00, 0xfe, 0xf7]

  /** Addresses are kept in host order. */
  function HostOrder(x: uint32): (s: seq<byte>)
    ensures |s| == 4 && Get32(s, 0) == x
  {
    Digits32Join(x);
    [x % 0x100, x / 0x100 % 0x100, x / 0x1_0000 % 0x100, x / 0x100_0000]
  }

  function IpUnsummed(src: uint32, dst: uint32, ipProtocol: byte, payloadSize: byte): (s: seq<byte>)
    ensures |s| == 20
  {
    [0x40, 0, (payloadSize as int + 20) / 0x100, (payloadSize as int + 20) % 0x100, 0, 0, 0, 0, 0, ipProtocol, 0, 0]
    + HostOrder(src) + HostOrder(dst)
  }

  function IpHeader(src: uint32, dst: uint32, ipProtocol: byte, payloadSize: byte): (s: seq<byte>)
    ensures |s| == 20
  {
    var h := IpUnsummed(src, dst, ipProtocol, payloadSize);
    Put16(h, 10, Swap16(CksumOf(h)))
  }

  function TcpUnsummed(flags: byte): (s: seq<byte>)
    ensures |s| == 20
  {
    [0x43, 0xc6, 0x43, 0xc6, 0, 0, 0, 0, 0, 0, 0, 0, 0, flags, 0, 0, 0, 0, 0, 0]
  }

  function TcpHeader(flags: byte): (s: seq<byte>)
    ensures |s| == 20
  {
    Put16(TcpUnsummed(flags), 16, Swap16(CksumOf(TcpUnsummed(flags))))
  }

  /** The part of a payload that survives the terminator written at offset 127 at the latest. */
  function Clip(payload: cstring): (c: cstring)
    ensures |c| < MAX_PAYLOAD
  {
    if |payload| > MAX_PAYLOAD - 1 then payload[..MAX_PAYLOAD - 1] else payload
  }

  function PlainPacket(src: uint32, dst: uint32, ipProtocol: byte, payload: cstring, flags: byte): (p: seq<byte>)
    ensures |p| == GetPacketSize(ipProtocol, 128) >= PACKET
    ensures ipProtocol == TCP ==> |p| == PACKET
  {
    GRE_HEADER + IpHeader(src, dst, ipProtocol, 128) + TcpHeader(flags)
    + Clip(payload) + Zeros(GetPacketSize(ipProtocol, 128) - 46 - |Clip(payload)|)
  }

  // ----- encapsulation

  /** The effect of `packet_encapsulate` on a buffer. */
  function Encapsulated(p: seq<byte>): (r: seq<byte>)
    requires |p| >= 6
    ensures |r| == |p|
  {
    var q := Put16(Put16(Put16(p, 0, Swap16(1)), 2, Swap16(0x0800)), 4, 0);
    Put16(q, 4, Swap16(CksumOf(q[..6])))
  }

  method PacketEncapsulate(packet: array<byte>)
    requires packet.Length >= 6
    modifies packet
    ensures packet[..] == Encapsulated(old(packet[..]))
  {
    hide Put16, Swap16, CksumOf;
    Store16(packet, 0, Swap16(1));
    Store16(packet, 2, Swap16(0x0800));
    Store16(packet, 4, 0);
    ghost var q := packet[..];
    var sum := Cksum(packet, 0, 6);
    assert packet[0..6] == q[..6];
    Store16(packet, 4, Swap16(sum));
  }

  lemma GreWordSum()
    ensures WordSum([0x00, 0x01, 0x08, 0x00, 0, 0]) == 0x801
  {
    var h: seq<byte> := [0x00, 0x01, 0x08, 0x00, 0, 0];
    assert h[2..] == [0x08, 0x00, 0, 0];
    assert h[2..][2..] == [0, 0];
  }

  lemma SwappedConstants()
    ensures Swap16(1) == 0x100 && Swap16(0x0800) == 8 && Swap16(0xf7fe) == 0xfef7 && Swap16(0xfef7) == 0xf7fe
  {
    hide Swap16;
    SwapOfDigits(1, 0);
    SwapOfDigits(0, 8);
    SwapOfDigits(0xfe, 0xf7);
    SwapOfDigits(0xf7, 0xfe);
  }

  lemma GreChecksum()
    ensures CksumOf([0x00, 0x01, 0x08, 0x00, 0, 0]) == 0xfef7
  {
    hide CksumOf, WordSum, Swap16;
    GreWordSum();
    SwappedConstants();
    AccumulatorNeverWraps([0x00, 0x01, 0x08, 0x00, 0, 0]);
  }

  /** Encapsulation writes one constant header and leaves the body alone. */
  lemma EncapsulatedIs(p: seq<byte>)
    requires |p| >= 6
    ensures Encapsulated(p) == GRE_HEADER + p[6..]
    ensures Encapsulated(p)[..6] == [0x00, 0x01, 0x08, 0x00, 0xfe, 0xf7]
  {
    hide CksumOf, Swap16;
    GreChecksum();
    SwappedConstants();
    Digits16(0xf7fe, 0xfe, 0xf7);
    var q := Put16(Put16(Put16(p, 0, Swap16(1)), 2, Swap16(0x0800)), 4, 0);
    assert q[..6] == [0x00, 0x01, 0x08, 0x00, 0, 0];
  }

  /** Encapsulation forgets the old header and nothing else: it is idempotent, and two buffers become
      equal exactly when their bodies are. */
  lemma EncapsulationKeepsBody(p: seq<byte>, q: seq<byte>)
    requires |p| >= 6 && |q| >= 6
    ensures Encapsulated(Encapsulated(p)) == Encapsulated(p)
    ensures Encapsulated(p) == Encapsulated(q) <==> p[PacketDecapsulate()..] == q[PacketDecapsulate()..]
  {
    hide Encapsulated;
    EncapsulatedIs(p);
    EncapsulatedIs(q);
    EncapsulatedIs(Encapsulated(p));
    assert Encapsulated(p)[6..] == p[6..] && Encapsulated(q)[6..] == q[6..];
  }

  /** `packet_decapsulate`: where the body of an encapsulated packet starts. */
  function PacketDecapsulate(): nat {
    6
  }

  // ----- header writers

  /** The fields `set_ip` writes, with the checksum field zeroed. */
  function IpFields(p: seq<byte>, dst: uint32, src: uint32, ipProtocol: byte, payloadSize: byte): (r: seq<byte>)
    requires |p| >= 26
    ensures |r| == |p|
  {
    var q := Put16(p[6 := p[6] % 0x10 + 0x40], 8, Swap16(payloadSize as int + 20))[15 := ipProtocol];
    Put16(Put32(Put32(q, 18, src), 22, dst), 16, 0)
  }

  function WithIp(p: seq<byte>, dst: uint32, src: uint32, ipProtocol: byte, payloadSize: byte): (r: seq<byte>)
    requires |p| >= 26
    ensures |r| == |p|
  {
    var q := IpFields(p, dst, src, ipProtocol, payloadSize);
    Put16(q, 16, Swap16(CksumOf(q[6..26])))
  }

  method SetIp(packet: array<byte>, ipDest: cstring, ipHost: cstring, ipProtocol: byte, payloadSize: byte)
    requires packet.Length >= 26
    modifies packet
    ensures packet[..] == WithIp(old(packet[..]), Parse(ipDest), Parse(ipHost), ipProtocol, payloadSize)
  {
    hide Put16, Put32, Swap16, CksumOf;
    packet[6] := packet[6] % 0x10 + 0x40;
    Store16(packet, 8, Swap16(payloadSize as int + 20));
    packet[15] := ipProtocol;
    var src := ParseIpAddr(ipHost);
    Store32(packet, 18, src);
    var dst := ParseIpAddr(ipDest);
    Store32(packet, 22, dst);
    Store16(packet, 16, 0);
    ghost var q := packet[..];
    assert q == IpFields(old(packet[..]), dst, src, ipProtocol, payloadSize);
    var sum := Cksum(packet, 6, 20);
    assert packet[6..26] == q[6..26];
    Store16(packet, 16, Swap16(sum));
  }

  function TcpFields(p: seq<byte>, flags: byte): (r: seq<byte>)
    requires |p| >= 46
    ensures |r| == |p|
  {
    Put16(Put16(p, 26, Swap16(17350)), 28, Swap16(17350))[39 := flags]
  }

  function WithTcp(p: seq<byte>, flags: byte): (r: seq<byte>)
    requires |p| >= 46
    ensures |r| == |p|
  {
    var q := TcpFields(p, flags);
    Put16(q, 42, Swap16(CksumOf(q[26..46])))
  }

  method SetTcp(packet: array<byte>, flags: byte)
    requires packet.Length >= 46
    modifies packet
    ensures packet[..] == WithTcp(old(packet[..]), flags)
  {
    hide Put16, Swap16, CksumOf;
    Store16(packet, 26, Swap16(17350));
    Store16(packet, 28, Swap16(17350));
    packet[39] := flags;
    ghost var q := packet[..];
    assert q == TcpFields(old(packet[..]), flags);
    var sum := Cksum(packet, 26, 20);
    assert packet[26..46] == q[26..46];
    Store16(packet, 42, Swap16(sum));
  }

  // ----- what the writers do to any buffer

  /** `set_ip` writes the version, the length in network order, the protocol and the two addresses, and
      keeps every other byte but the checksum; the checksum is that of the header as it then stands. */
  lemma IpWriterFrame(p: seq<byte>, dst: uint32, src: uint32, ipProtocol: byte, payloadSize: byte)
    requires |p| >= 26
    ensures var r := WithIp(p, dst, src, ipProtocol, payloadSize);
            && r[6] == 0x40 + p[6] % 0x10
            && Join16(r[9], r[8]) == payloadSize as int + 20
            && r[15] == ipProtocol && Get32(r, 18) == src && Get32(r, 22) == dst
            && (forall i :: 0 <= i < |p| && !(6 <= i < 26) ==> r[i] == p[i])
            && r[7] == p[7] && r[10..15] == p[10..15]
            && Get16(r, 16) == Swap16(CksumOf(r[6..16] + [0, 0] + r[18..26]))
  {
    hide CksumOf, Swap16;
    var q := IpFields(p, dst, src, ipProtocol, payloadSize);
    Swap16Bytes(payloadSize as int + 20);
    Digits32Join(src);
    Digits32Join(dst);
    var r := WithIp(p, dst, src, ipProtocol, payloadSize);
    assert q[6..26] == r[6..16] + [0, 0] + r[18..26];
  }

  /** `set_tcp` writes the ports and the flags, and keeps every other byte but the checksum; the checksum
      is that of the header with whatever the checksum field held. */
  lemma TcpWriterFrame(p: seq<byte>, flags: byte)
    requires |p| >= 46
    ensures var r := WithTcp(p, flags);
            && r[26..30] == [0x43, 0xc6, 0x43, 0xc6] && r[39] == flags
            && (forall i :: 0 <= i < |p| && !(26 <= i < 30) && i != 39 && i != 42 && i != 43 ==> r[i] == p[i])
            && Get16(r, 42) == Swap16(CksumOf(r[26..42] + p[42..44] + r[44..46]))
  {
    hide CksumOf, Swap16;
    SwapOfDigits(0xc6, 0x43);
    var q, r := TcpFields(p, flags), WithTcp(p, flags);
    assert q[26..46] == r[26..42] + p[42..44] + r[44..46];
  }

  // ----- the packet builders

  lemma IpHeaderOnZeros(p: seq<byte>, dst: uint32, src: uint32, ipProtocol: byte, payloadSize: byte)
    requires |p| >= 26 && forall i :: 6 <= i < 26 ==> p[i] == 0
    ensures WithIp(p, dst, src, ipProtocol, payloadSize)
         == p[..6] + IpHeader(src, dst, ipProtocol, payloadSize) + p[26..]
  {
    hide CksumOf, Swap16;
    var q := IpFields(p, dst, src, ipProtocol, payloadSize);
    Swap16Bytes(payloadSize as int + 20);
    assert q[6..26] == IpUnsummed(src, dst, ipProtocol, payloadSize);
  }

  lemma TcpHeaderOnZeros(p: seq<byte>, flags: byte)
    requires |p| >= 46 && forall i :: 26 <= i < 46 ==> p[i] == 0
    ensures WithTcp(p, flags) == p[..26] + TcpHeader(flags) + p[46..]
  {
    hide CksumOf, Swap16;
    SwapOfDigits(0xc6, 0x43);
    var q := TcpFields(p, flags);
    assert q[26..46] == TcpUnsummed(flags);
  }

  /** Building on a zeroed buffer lays the three headers out one after the other. */
  lemma HeadersOnZeros(n: nat, dst: uint32, src: uint32, ipProtocol: byte, payloadSize: byte, flags: byte)
    requires n >= 46
    ensures WithTcp(WithIp(Encapsulated(Zeros(n)), dst, src, ipProtocol, payloadSize), flags)
         == GRE_HEADER + IpHeader(src, dst, ipProtocol, payloadSize) + TcpHeader(flags) + Zeros(n - 46)
  {
    hide Encapsulated, WithIp, WithTcp, IpHeader, TcpHeader;
    EncapsulatedIs(Zeros(n));
    var p1 := Encapsulated(Zeros(n));
    IpHeaderOnZeros(p1, dst, src, ipProtocol, payloadSize);
    TcpHeaderOnZeros(WithIp(p1, dst, src, ipProtocol, payloadSize), flags);
  }

  /** The zeroed buffer with its three headers. */
  method BuildHeaders(ipSrc: cstring, ipDest: cstring, ipProtocol: byte, flags: byte) returns (newPacket: array<byte>)
    ensures fresh(newPacket) && newPacket.Length == GetPacketSize(ipProtocol, 128) >= PACKET
    ensures newPacket[..] == GRE_HEADER + IpHeader(Parse(ipSrc), Parse(ipDest), ipProtocol, 128) + TcpHeader(flags)
                             + Zeros(newPacket.Length - 46)
  {
    hide Encapsulated, WithIp, WithTcp, IpHeader, TcpHeader, Parse;
    var payloadSize := MAX_PAYLOAD;
    var packetSize := GetPacketSize(ipProtocol, payloadSize);
    newPacket := new byte[packetSize](_ => 0);
    assert newPacket[..] == Zeros(packetSize);
    PacketEncapsulate(newPacket);
    SetIp(newPacket, ipDest, ipSrc, ipProtocol, payloadSize);
    SetTcp(newPacket, flags);
    HeadersOnZeros(packetSize, Parse(ipDest), Parse(ipSrc), ipProtocol, payloadSize, flags);
  }

  /** The common part of `create_packets` and `create_packets_des`. */
  method BuildPlain(ipSrc: cstring, ipDest: cstring, ipProtocol: byte, payload: cstring, flags: byte)
    returns (newPacket: array<byte>, payloadLength: nat)
    requires |payload| <= MAX_PAYLOAD
    ensures fresh(newPacket)
    ensures newPacket[..] == PlainPacket(Parse(ipSrc), Parse(ipDest), ipProtocol, payload, flags)
    ensures payloadLength == |Clip(payload)|
  {
    hide IpHeader, TcpHeader, Parse, Clip, GetPacketSize;
    newPacket := BuildHeaders(ipSrc, ipDest, ipProtocol, flags);
    ghost var headers := GRE_HEADER + IpHeader(Parse(ipSrc), Parse(ipDest), ipProtocol, 128) + TcpHeader(flags);
    payloadLength := |payload|;
    CopyInto(newPacket, 46, payload);
    assert newPacket[..] == headers + payload + Zeros(newPacket.Length - 46 - |payload|);
    ClipLength(payload);
    payloadLength := if payloadLength > MAX_PAYLOAD - 1 then MAX_PAYLOAD - 1 else payloadLength;
    newPacket[46 + payloadLength] := 0;
    PayloadPlaced(headers, payload, newPacket.Length - 46);
  }

  lemma ClipLength(payload: cstring)
    ensures |Clip(payload)| == if |payload| > MAX_PAYLOAD - 1 then MAX_PAYLOAD - 1 else |payload|
  {
  }

  /** Copying a payload and terminating it leaves the clipped payload and zeros. */
  lemma PayloadPlaced(headers: seq<byte>, payload: cstring, room: nat)
    requires |payload| <= MAX_PAYLOAD <= room
    ensures (headers + payload + Zeros(room - |payload|))[|headers| + |Clip(payload)| := 0]
         == headers + Clip(payload) + Zeros(room - |Clip(payload)|)
  {
  }

  method CreatePacketsDes(ipSrc: cstring, ipDest: cstring, ipProtocol: byte, payload: cstring, flags: byte)
    returns (newPacket: array<byte>)
    requires |payload| <= MAX_PAYLOAD
    ensures fresh(newPacket)
    ensures newPacket[..] == PlainPacket(Parse(ipSrc), Parse(ipDest), ipProtocol, payload, flags)
  {
    var length;
    newPacket, length := BuildPlain(ipSrc, ipDest, ipProtocol, payload, flags);
  }

  /** A packet enciphered as a whole, with the ciphertext byte after the payload overwritten by NUL. */
  function Sealed(p: seq<byte>, payloadLength: nat): (r: seq<byte>)
    requires 46 + payloadLength < |p|
    ensures |r| == |p|
  {
    Crypt(p)[46 + payloadLength := 0]
  }

  method CreatePackets(ipSrc: cstring, ipDest: cstring, ipProtocol: byte, payload: cstring, flags: byte)
    returns (encryptPacket: array<byte>)
    requires |payload| <= MAX_PAYLOAD
    ensures fresh(encryptPacket)
    ensures encryptPacket[..] ==
            Sealed(PlainPacket(Parse(ipSrc), Parse(ipDest), ipProtocol, payload, flags), |Clip(payload)|)
  {
    hide PlainPacket, Parse, Crypt;
    var newPacket, payloadLength := BuildPlain(ipSrc, ipDest, ipProtocol, payload, flags);
    var packetSize := newPacket.Length;
    encryptPacket := new byte[packetSize](_ => 0);
    XorEncryptDecrypt(newPacket, encryptPacket, packetSize);
    assert newPacket[..packetSize] == newPacket[..];
    encryptPacket[46 + payloadLength] := 0;
  }

  // ----- sending and receiving; a link is the sequence of bytes `recv` finds on it

  /** The prefix of a fresh packet that `send_and_free_packet_vpn` hands to `send`. */
  method SendAndFreePacketVpn(packet: array<byte>, ipProtocol: byte, payloadSize: byte) returns (sent: seq<byte>)
    requires GetPacketSize(ipProtocol, payloadSize) <= packet.Length
    ensures sent == packet[..GetPacketSize(ipProtocol, payloadSize)]
    ensures |sent| == if ipProtocol != 6 then 255
                      else if payloadSize < 210 then 46 + payloadSize as int
                      else payloadSize - 210
  {
    var packLen := GetPacketSize(ipProtocol, payloadSize);
    sent := packet[..packLen];
  }

  /** The terminator goes to offset 46 + payloadSize, one past the bytes sent; the buffer has that
      one spare byte. */
  method ServCliEncryptFree(packet: array<byte>, ipProtocol: byte, payloadSize: byte) returns (sent: seq<byte>)
    requires 46 + payloadSize as int <= GetPacketSize(ipProtocol, payloadSize) <= packet.Length
    ensures var end, packLen := 46 + payloadSize as int, GetPacketSize(ipProtocol, payloadSize);
            sent == if end < packLen then Crypt(packet[..packLen])[end := 0] else Crypt(packet[..packLen])
  {
    hide Crypt, GetPacketSize;
    var packLen := GetPacketSize(ipProtocol, payloadSize);
    var encryptPacket := new byte[packLen + 1](_ => 0);
    XorEncryptDecrypt(packet, encryptPacket, packLen);
    ghost var before := encryptPacket[..];
    encryptPacket[46 + payloadSize as int] := 0;
    sent := encryptPacket[..packLen];
  }

  /** A zeroed buffer of `n` bytes after `recv`. */
  function Padded(received: seq<byte>, n: nat): (s: seq<byte>)
    ensures |s| == n
  {
    if |received| >= n then received[..n] else received + Zeros(n - |received|)
  }

  method Recv(n: nat, link: seq<byte>) returns (buf: array<byte>)
    ensures fresh(buf) && buf[..] == Padded(link, n)
  {
    buf := new byte[n](_ => 0);
    assert buf[..] == Zeros(n);
    CopyInto(buf, 0, if |link| >= n then link[..n] else link);
  }

  /** `serv_rec_from_cli`: the payload length is measured on the ciphertext, then everything is
      deciphered and the payload cut at that length. */
  function Opened(received: seq<byte>): (p: seq<byte>)
    ensures |p| == PACKET
  {
    var buf := Padded(received, PACKET);
    var len := StrLen(buf[46..]);
    Crypt(buf)[46 + (if len > MAX_PAYLOAD - 1 then MAX_PAYLOAD - 1 else len) := 0]
  }

  method ServRecFromCli(link: seq<byte>) returns (decryptPacket: array<byte>)
    requires StrLen(Padded(link, PACKET)[46..]) < MAX_PAYLOAD
    ensures fresh(decryptPacket) && decryptPacket[..] == Opened(link)
  {
    hide Crypt, StrLen, Padded;
    var newRecPkt := Recv(PACKET, link);
    var len := StrLen(newRecPkt[46..]);
    decryptPacket := new byte[PACKET](_ => 0);
    XorEncryptDecrypt(newRecPkt, decryptPacket, PACKET);
    assert newRecPkt[..PACKET] == newRecPkt[..] && newRecPkt[46..] == newRecPkt[..][46..];
    len := if len > MAX_PAYLOAD - 1 then MAX_PAYLOAD - 1 else len;
    decryptPacket[46 + len] := 0;
  }

  method ServRecFromDes(link: seq<byte>) returns (newRecPkt: array<byte>)
    ensures fresh(newRecPkt) && newRecPkt[..] == Padded(link, PACKET)
  {
    newRecPkt := Recv(PACKET, link);
  }

  method DestRecPkt(link: seq<byte>) returns (newRecPkt: array<byte>)
    ensures fresh(newRecPkt) && newRecPkt[..] == Padded(link, PACKET - 6)
  {
    newRecPkt := Recv(PACKET - 6, link);
  }

  // ----- rewriting

  /** The IP header as the handlers checksum it: the checksum field zeroed, and length, source and
      destination byte-swapped. */
  function NetHeader(p: seq<byte>): (h: seq<byte>)
    requires |p| >= 26
    ensures |h| == 20
  {
    [p[6], p[7], p[9], p[8], p[10], p[11], p[12], p[13], p[14], p[15], 0, 0,
     p[21], p[20], p[19], p[18], p[25], p[24], p[23], p[22]]
  }

  function Resummed(p: seq<byte>): (r: seq<byte>)
    requires |p| >= 26
    ensures |r| == |p|
  {
    Put16(p, 16, Swap16(CksumOf(NetHeader(p))))
  }

  /** What `serv_handle_pkt` does to a packet. */
  function SourceRewritten(p: seq<byte>, addr: uint32): (r: seq<byte>)
    requires |p| >= 26
    ensures |r| == |p|
  {
    Resummed(Put32(p, 18, addr))
  }

  /** What `serv_handle_pkt_dest` does to a packet. */
  function DestRewritten(p: seq<byte>, addr: uint32): (r: seq<byte>)
    requires |p| >= 26
    ensures |r| == |p|
  {
    Resummed(Put32(p, 22, addr))
  }

  method SaveClientIp(packet: array<byte>) returns (clientIp: uint32)
    requires packet.Length >= 26
    ensures clientIp == Get32(packet[..], 18)
  {
    clientIp := Join32(packet[18], packet[19], packet[20], packet[21]);
  }

  // The handlers' byte swaps of one field, and of all three at once

  function Flip16(s: seq<byte>, at: nat): (r: seq<byte>)
    requires at + 2 <= |s|
    ensures |r| == |s|
  {
    s[at := s[at + 1]][at + 1 := s[at]]
  }

  function Flip32(s: seq<byte>, at: nat): (r: seq<byte>)
    requires at + 4 <= |s|
    ensures |r| == |s|
  {
    s[at := s[at + 3]][at + 1 := s[at + 2]][at + 2 := s[at + 1]][at + 3 := s[at]]
  }

  function NetForm(p: seq<byte>): (r: seq<byte>)
    requires |p| >= 26
    ensures |r| == |p|
  {
    Flip32(Flip32(Flip16(p, 8), 18), 22)
  }

  lemma SwappingField16(s: seq<byte>, at: nat)
    requires at + 2 <= |s|
    ensures Put16(s, at, Swap16(Get16(s, at))) == Flip16(s, at)
  {
    hide Swap16;
    Swap16Bytes(Get16(s, at));
  }

  lemma SwappingValue32(s: seq<byte>, at: nat, v: uint32)
    requires at + 4 <= |s|
    ensures Put32(s, at, Swap32(v)) == Flip32(Put32(s, at, v), at)
  {
    Digits32(Swap32(v), v / 0x100_0000, v / 0x1_0000 % 0x100, v / 0x100 % 0x100, v % 0x100);
  }

  lemma SwappingField32(s: seq<byte>, at: nat)
    requires at + 4 <= |s|
    ensures Put32(s, at, Swap32(Get32(s, at))) == Flip32(s, at)
  {
    hide Swap32;
    SwappingValue32(s, at, Get32(s, at));
    Digits32(Get32(s, at), s[at], s[at + 1], s[at + 2], s[at + 3]);
    assert Put32(s, at, Get32(s, at)) == s;
  }

  /** The swapped header with its checksum field zeroed is the header the handlers checksum. */
  lemma NetFormHeader(p: seq<byte>)
    requires |p| >= 26
    ensures Put16(NetForm(p), 16, 0)[6..26] == NetHeader(p)
  {
  }

  /** Swapping back leaves only the checksum field changed, in whichever order the fields are taken. */
  lemma NetFormUndone(p: seq<byte>, sum: uint16)
    requires |p| >= 26
    ensures Flip16(Flip32(Flip32(Put16(Put16(NetForm(p), 16, 0), 16, sum), 18), 22), 8) == Put16(p, 16, sum)
    ensures Flip16(Flip32(Flip32(Put16(Put16(NetForm(p), 16, 0), 16, sum), 22), 18), 8) == Put16(p, 16, sum)
  {
  }

  lemma NetFormOfDest(p: seq<byte>, v: uint32)
    requires |p| >= 26
    ensures Flip32(Flip32(Put32(Flip16(p, 8), 22, v), 22), 18) == NetForm(Put32(p, 22, v))
    ensures Flip32(Flip32(Put32(Flip16(p, 8), 18, v), 18), 22) == NetForm(Put32(p, 18, v))
  {
  }

  /** The sources' `field = 0; field = v;`. */
  method Replace16(a: array<byte>, at: nat, v: uint16)
    requires at + 2 <= a.Length
    modifies a
    ensures a[..] == Put16(old(a[..]), at, v)
  {
    Store16(a, at, 0);
    Store16(a, at, v);
  }

  method Replace32(a: array<byte>, at: nat, v: uint32)
    requires at + 4 <= a.Length
    modifies a
    ensures a[..] == Put32(old(a[..]), at, v)
  {
    Store32(a, at, 0);
    Store32(a, at, v);
  }

  method ServHandlePkt(packet: array<byte>, serverIp: cstring) returns (fixedPkt: nat)
    requires packet.Length >= 26
    modifies packet
    ensures packet[..] == SourceRewritten(old(packet[..]), Parse(serverIp))
    ensures fixedPkt == PacketDecapsulate()
  {
    hide CksumOf, Swap16, Swap32, Put16, Put32, Get16, Get32, Flip16, Flip32, NetForm, NetHeader, Parse;
    ghost var p := packet[..];
    fixedPkt := PacketDecapsulate();
    var tempLen := Swap16(Get16(packet[..], 8));
    Replace16(packet, 8, tempLen);
    SwappingField16(p, 8);

    var tempAddr := ParseIpAddr(serverIp);
    SwappingValue32(packet[..], 18, tempAddr);
    Replace32(packet, 18, Swap32(tempAddr));

    tempAddr := Swap32(Get32(packet[..], 22));
    SwappingField32(packet[..], 22);
    Replace32(packet, 22, tempAddr);
    NetFormOfDest(p, Parse(serverIp));

    Store16(packet, 16, 0);
    ghost var fixed := Put32(p, 18, Parse(serverIp));
    NetFormHeader(fixed);
    var sum := Cksum(packet, 6, 20);
    assert packet[6..26] == packet[..][6..26];
    Store16(packet, 16, Swap16(sum));
    NetFormUndone(fixed, Swap16(sum));

    tempAddr := Swap32(Get32(packet[..], 18));
    SwappingField32(packet[..], 18);
    Replace32(packet, 18, tempAddr);

    tempAddr := Swap32(Get32(packet[..], 22));
    SwappingField32(packet[..], 22);
    Replace32(packet, 22, tempAddr);

    tempLen := Swap16(Get16(packet[..], 8));
    SwappingField16(packet[..], 8);
    Replace16(packet, 8, tempLen);
  }

  method ServHandlePktDest(packet: array<byte>, serverIp: cstring) returns (fixedPkt: nat)
    requires packet.Length >= 26
    modifies packet
    ensures packet[..] == DestRewritten(old(packet[..]), Parse(serverIp))
    ensures fixedPkt == PacketDecapsulate()
  {
    hide CksumOf, Swap16, Swap32, Put16, Put32, Get16, Get32, Flip16, Flip32, NetForm, NetHeader, Parse;
    ghost var p := packet[..];
    fixedPkt := PacketDecapsulate();
    var tempLen := Swap16(Get16(packet[..], 8));
    Replace16(packet, 8, tempLen);
    SwappingField16(p, 8);

    var tempAddr := ParseIpAddr(serverIp);
    SwappingValue32(packet[..], 22, tempAddr);
    Replace32(packet, 22, Swap32(tempAddr));

    tempAddr := Swap32(Get32(packet[..], 18));
    SwappingField32(packet[..], 18);
    Replace32(packet, 18, tempAddr);
    NetFormOfDest(p, Parse(serverIp));

    Store16(packet, 16, 0);
    ghost var fixed := Put32(p, 22, Parse(serverIp));
    NetFormHeader(fixed);
    var sum := Cksum(packet, 6, 20);
    assert packet[6..26] == packet[..][6..26];
    Store16(packet, 16, Swap16(sum));
    NetFormUndone(fixed, Swap16(sum));

    tempAddr := Swap32(Get32(packet[..], 22));
    SwappingField32(packet[..], 22);
    Replace32(packet, 22, tempAddr);

    tempAddr := Swap32(Get32(packet[..], 18));
    SwappingField32(packet[..], 18);
    Replace32(packet, 18, tempAddr);

    tempLen := Swap16(Get16(packet[..], 8));
    SwappingField16(packet[..], 8);
    Replace16(packet, 8, tempLen);
  }
}
