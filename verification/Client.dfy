/** The packet part of src/client.c. */
module Client {
  import opened Bytes
  import opened CStrings
  import opened Address
  import opened Hosts
  import opened Packet
  import opened Wrappers

  /** The text the program sends. */
  const REQUEST_TEXT: cstring := Ascii("payload")

  /** The guard: pairwise distinct strings. */
  predicate Distinct(clientIp: cstring, serverIp: cstring, destIp: cstring) {
    clientIp != serverIp && clientIp != destIp && serverIp != destIp
  }

  /** The packet built for a payload, before enciphering. */
  function RequestPacket(clientIp: cstring, destIp: cstring, payload: cstring): (p: seq<byte>)
    ensures |p| == PACKET
  {
    PlainPacket(Parse(clientIp), Parse(destIp), TCP, payload, SYN)
  }

  /** The bytes the client sends to the server. */
  function Request(clientIp: cstring, destIp: cstring, payload: cstring): (s: seq<byte>)
    requires |payload| <= MAX_PAYLOAD
    ensures |s| == 46 + |payload|
  {
    Sealed(RequestPacket(clientIp, destIp, payload), |Clip(payload)|)[..46 + |payload|]
  }

  /** `main` up to `send`; None where it returns without sending. */
  method ClientMainSend(hosts: seq<HostInfo>, clientName: cstring, serverName: cstring, destName: cstring,
                        payload: cstring)
    returns (sent: Option<seq<byte>>)
    requires |payload| <= MAX_PAYLOAD
    ensures var c, s, d := HostIp(hosts, clientName), HostIp(hosts, serverName), HostIp(hosts, destName);
            sent == if c.Some? && s.Some? && d.Some? && Distinct(c.value, s.value, d.value)
                    then Some(Request(c.value, d.value, payload))
                    else None
    ensures !Listed(hosts, clientName) || !Listed(hosts, serverName) || !Listed(hosts, destName) ==> sent == None
  {
    hide Sealed, PlainPacket, Parse, GetPacketSize, HostIp, Listed;
    HostIpIff(hosts, clientName);
    HostIpIff(hosts, serverName);
    HostIpIff(hosts, destName);
    var clientIp := GetHostIp(hosts, clientName);
    var serverIp := GetHostIp(hosts, serverName);
    var destIp := GetHostIp(hosts, destName);
    if clientIp.None? || serverIp.None? || destIp.None? {
      return None;
    }
    if clientIp == serverIp || clientIp == destIp || serverIp == destIp {
      return None;
    }
    var packet := CreatePackets(clientIp.value, destIp.value, TCP, payload, SYN);
    TcpPacketSize(|payload|);
    var bytes := SendAndFreePacketVpn(packet, TCP, |payload|);
    return Some(bytes);
  }

  /** `main` from `recv` on. */
  method ClientMainReceive(link: seq<byte>) returns (respPkt: array<byte>)
    requires StrLen(Padded(link, PACKET)[46..]) < MAX_PAYLOAD
    ensures fresh(respPkt) && respPkt[..] == Opened(link)
  {
    respPkt := ServRecFromCli(link);
  }

  /** For canonical address texts the string guard is a guard on the addresses themselves. */
  lemma GuardIsOnAddresses(clientIp: cstring, serverIp: cstring, destIp: cstring)
    requires Canonical(clientIp) && Canonical(serverIp) && Canonical(destIp)
    ensures Distinct(clientIp, serverIp, destIp)
            <==> && Parse(clientIp) != Parse(serverIp)
                 && Parse(clientIp) != Parse(destIp)
                 && Parse(serverIp) != Parse(destIp)
  {
    hide Canonical, Parse;
    CanonicalTextsAreAddresses(clientIp, serverIp);
    CanonicalTextsAreAddresses(clientIp, destIp);
    CanonicalTextsAreAddresses(serverIp, destIp);
  }
}
