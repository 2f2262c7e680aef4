/** The packet part of src/destination.c. */
module Destination {
  import opened Bytes
  import opened CStrings
  import opened Address
  import opened Packet

  /** The longest reply whose bytes, sent from offset 6, still lie inside the packet. */
  const MAX_REPLY: nat := 122

  lemma LongestReply(n: byte)
    requires n <= 128
    ensures PacketDecapsulate() + GetPacketSize(TCP, n) <= PACKET <==> n <= MAX_REPLY
  {
  }

  /** The text the program answers with. */
  const RESPONSE_TEXT: cstring := Ascii("Hello from the other side!")

  function ReplyPacket(link: seq<byte>, hostIp: cstring, msg: cstring): (p: seq<byte>)
    ensures |p| == PACKET
  {
    PlainPacket(Parse(hostIp), Get32(Padded(link, PACKET - 6), 12), TCP, msg, ACK)
  }

  /** The bytes the destination answers with. */
  function Reply(link: seq<byte>, hostIp: cstring, msg: cstring): (s: seq<byte>)
    requires |msg| <= MAX_REPLY
    ensures |s| == 46 + |msg|
  {
    ReplyPacket(link, hostIp, msg)[PacketDecapsulate()..][..46 + |msg|]
  }

  method DestinationMain(link: seq<byte>, hostIp: cstring, responseMsg: cstring)
    returns (recPacket: array<byte>, sent: seq<byte>)
    requires |responseMsg| <= MAX_REPLY
    ensures fresh(recPacket) && recPacket[..] == Padded(link, PACKET - 6)
    ensures sent == Reply(link, hostIp, responseMsg)
  {
    hide PlainPacket, Parse, Print, Padded, Get32, StrLen, GetPacketSize;
    recPacket := DestRecPkt(link);
    var ipSrc := Get32(recPacket[..], 12);
    PrintIsCanonical(ipSrc);
    ParseOfPrint(ipSrc);
    var clientIpStr := new byte[16](_ => 0);
    ParseIpAddrToStr(clientIpStr, ipSrc);
    var responsePkt := CreatePacketsDes(hostIp, CStr(clientIpStr[..]), TCP, responseMsg, ACK);
    ghost var plain := responsePkt[..];
    assert plain == ReplyPacket(link, hostIp, responseMsg);
    var fixedPkt := PacketDecapsulate();
    var packLen := GetPacketSize(TCP, |responseMsg|);
    TcpPacketSize(|responseMsg|);
    hide ReplyPacket;
    sent := responsePkt[fixedPkt..fixedPkt + packLen];
    assert sent == plain[fixedPkt..][..packLen];
  }
}
