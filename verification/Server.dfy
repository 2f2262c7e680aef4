/** The packet part of src/server.c. */
module Server {
  import opened Bytes
  import opened Cipher
  import opened CStrings
  import opened Address
  import opened Packet
  import opened Rewriting
  import opened Wrappers

  /** The 168 bytes forwarded to the destination. */
  function Forwarded(link: seq<byte>, serverIp: cstring): (s: seq<byte>)
    ensures |s| == PACKET - 6
  {
    SourceRewritten(Opened(link), Parse(serverIp))[PacketDecapsulate()..]
  }

  /** The address text the server connects to. */
  function Dialed(link: seq<byte>): cstring {
    Print(Get32(Opened(link), 22))
  }

  /** What the server remembers of the client. */
  function SavedClient(link: seq<byte>): uint32 {
    Get32(Opened(link), 18)
  }

  /** `main` from the client's packet to the forwarded packet, or to the exit where `connect` fails. */
  method ServerMainForward(link: seq<byte>, serverIp: cstring, connects: bool)
    returns (clientIp: uint32, destIp: cstring, sent: Option<seq<byte>>)
    requires StrLen(Padded(link, PACKET)[46..]) < MAX_PAYLOAD
    ensures clientIp == SavedClient(link) && destIp == Dialed(link)
    ensures sent == if connects then Some(Forwarded(link, serverIp)) else None
  {
    hide Opened, SourceRewritten, Parse, Print, HeaderSound;
    var recPacket := ServRecFromCli(link);
    clientIp := SaveClientIp(recPacket);
    ghost var rec := recPacket[..];
    var fixedPkt := ServHandlePkt(recPacket, serverIp);
    SourceRewriteFrame(rec, Parse(serverIp));
    ghost var fixed := recPacket[..];
    destIp := DestinationText(recPacket, fixedPkt);
    if connects {
      var bytes := recPacket[fixedPkt..fixedPkt + (MAX_PAYLOAD + 20 + 20)];
      assert bytes == fixed[fixedPkt..];
      sent := Some(bytes);
    } else {
      sent := None;
    }
  }

  /** The text of the destination field of the decapsulated packet at `body`. */
  method DestinationText(packet: array<byte>, body: nat) returns (text: cstring)
    requires body + 20 <= packet.Length
    ensures text == Print(Get32(packet[..], body + 16))
  {
    hide Print;
    var ipDst := Get32(packet[..], body + 16);
    PrintIsCanonical(ipDst);
    var destStr := new byte[16](_ => 0);
    ParseIpAddrToStr(destStr, ipDst);
    text := CStr(destStr[..]);
  }

  /** The destination's reply, re-encapsulated. */
  function Reencapsulated(link: seq<byte>): (p: seq<byte>)
    ensures |p| == PACKET
  {
    GRE_HEADER + Padded(link, PACKET)[..PACKET - 6]
  }

  /** The destination's reply, re-encapsulated and addressed to the client. */
  function Returned(link: seq<byte>, clientIp: uint32): (p: seq<byte>)
    ensures |p| == PACKET
  {
    DestRewritten(Reencapsulated(link), clientIp)
  }

  /** The bytes sent for a packet, as far as its payload reaches. */
  function SentFor(p: seq<byte>): (s: seq<byte>)
    requires |p| == PACKET
    ensures |s| == 46 + StrLen(p[46..])
  {
    Crypt(p[..46 + StrLen(p[46..])])
  }

  /** The bytes sent back to the client. */
  function Response(link: seq<byte>, clientIp: uint32): (s: seq<byte>) {
    SentFor(Returned(link, clientIp))
  }

  method SendBack(encPkt: array<byte>) returns (sent: seq<byte>)
    requires encPkt.Length == PACKET && StrLen(encPkt[46..]) < MAX_PAYLOAD
    ensures sent == SentFor(encPkt[..])
  {
    hide Crypt, StrLen;
    var length := StrLen(encPkt[46..]);
    assert encPkt[46..] == encPkt[..][46..];
    assert encPkt[..46 + length] == encPkt[..][..46 + length];
    TcpPacketSize(length);
    sent := ServCliEncryptFree(encPkt, TCP, length);
  }

  /** The new packet around the body of the destination's reply. */
  method Reencapsulate(link: seq<byte>) returns (encPkt: array<byte>)
    ensures fresh(encPkt)
    ensures encPkt[..] == Reencapsulated(link)
  {
    hide Encapsulated, Padded;
    var recPacketDest := ServRecFromDes(link);
    var packetSize := (MAX_PAYLOAD + 20 + 6 + 20) % 0x100;
    encPkt := new byte[packetSize](_ => 0);
    assert encPkt[..] == Zeros(PACKET);
    PacketEncapsulate(encPkt);
    EncapsulatedIs(Zeros(PACKET));
    CopyInto(encPkt, 6, recPacketDest[..PACKET - 6]);
  }

  /** `main` from the destination's packet to the packet sent back. */
  method ServerMainReturn(link: seq<byte>, clientIp: uint32) returns (sent: seq<byte>)
    requires StrLen(Returned(link, clientIp)[46..]) < MAX_PAYLOAD
    ensures sent == Response(link, clientIp)
  {
    hide StrLen, SentFor, DestRewritten, Parse, Print, Reencapsulated;
    var encPkt := Reencapsulate(link);
    PrintIsCanonical(clientIp);
    ParseOfPrint(clientIp);
    var clientStr := new byte[16](_ => 0);
    ParseIpAddrToStr(clientStr, clientIp);
    var body := ServHandlePktDest(encPkt, CStr(clientStr[..]));
    assert encPkt[46..] == encPkt[..][46..];
    sent := SendBack(encPkt);
  }

  /** The 8-bit packet size does not wrap; the packet the server builds is encapsulated; and
      decapsulating it gives exactly the buffer a receiver of the bare reply would have. */
  lemma EncapsulationRoundTrip(link: seq<byte>)
    ensures (MAX_PAYLOAD + 20 + 6 + 20) % 0x100 == |Reencapsulated(link)|
    ensures Encapsulated(Reencapsulated(link)) == Reencapsulated(link)
    ensures Reencapsulated(link)[PacketDecapsulate()..] == Padded(link, PACKET - 6)
  {
    hide Encapsulated;
    EncapsulatedIs(Reencapsulated(link));
  }
}
