/** What every run of a session guarantees. */
module SessionLaws {
  import opened Bytes
  import opened Checksum
  import opened CStrings
  import opened Address
  import opened Packet
  import opened Rewriting
  import opened SumConventions
  import opened Tunnel
  import opened Client
  import opened Server
  import opened Destination
  import opened Session

  // ----- fields of freshly built packets

  lemma HeaderAddresses(src: uint32, dst: uint32, ipProtocol: byte, payloadSize: byte)
    ensures Get32(IpHeader(src, dst, ipProtocol, payloadSize), 12) == src
    ensures Get32(IpHeader(src, dst, ipProtocol, payloadSize), 16) == dst
  {
    hide CksumOf, Swap16;
    var h := IpHeader(src, dst, ipProtocol, payloadSize);
    assert h[12..16] == HostOrder(src) && h[16..20] == HostOrder(dst);
  }

  /** Version 4, length 148, protocol TCP. */
  lemma HeaderFront(src: uint32, dst: uint32)
    ensures IpHeader(src, dst, TCP, 128)[..10] == [0x40, 0, 0, 148, 0, 0, 0, 0, 0, 6]
  {
    hide CksumOf, Swap16, HostOrder;
  }

  /** A built packet carries its addresses and its clipped payload, zeros behind it. */
  lemma PlainPacketFields(src: uint32, dst: uint32, payload: cstring, flags: byte)
    ensures var p := PlainPacket(src, dst, TCP, payload, flags);
            && p[..6] == [0x00, 0x01, 0x08, 0x00, 0xfe, 0xf7]
            && p[6..16] == [0x40, 0, 0, 148, 0, 0, 0, 0, 0, 6]
            && Get32(p, 18) == src && Get32(p, 22) == dst
            && p[26..46] == TcpHeader(flags)
            && Carries(p, Clip(payload))
            && forall i :: 46 + |Clip(payload)| <= i < PACKET ==> p[i] == 0
  {
    hide IpHeader, TcpHeader, Clip;
    HeaderAddresses(src, dst, TCP, 128);
    HeaderFront(src, dst);
    var p := PlainPacket(src, dst, TCP, payload, flags);
    assert p[6..26] == IpHeader(src, dst, TCP, 128);
    assert p[6..16] == p[6..26][..10];
    assert forall i :: 0 <= i < 20 ==> p[6 + i] == p[6..26][i];
  }

  // ----- the request reaching the server

  /** The packet the server ends up with when `n` bytes of the request arrive. */
  function Delivered(cfg: Settings, n: nat): (p: seq<byte>)
    ensures |p| == PACKET
  {
    ThroughTunnel(RequestPacket(cfg.clientIp, cfg.destIp, cfg.payload), Clip(cfg.payload), n)
  }

  /** The payload text in that packet: cut at the first collision, or at the last byte delivered. */
  function DeliveredText(payload: cstring, n: nat): (text: cstring)
    ensures |text| < MAX_PAYLOAD
  {
    Clip(payload)[..Surviving(Clip(payload), n)]
  }

  lemma RequestDelivered(cfg: Settings, n: nat)
    requires n <= 46 + |cfg.payload|
    ensures var link := Request(cfg.clientIp, cfg.destIp, cfg.payload)[..n];
            Opened(link) == Delivered(cfg, n) && StrLen(Padded(link, PACKET)[46..]) < MAX_PAYLOAD
  {
    hide PlainPacket, Opened, Padded, StrLen, Sealed, ThroughTunnel, Parse, Carries, TcpHeader, Clip, Get32;
    var p := RequestPacket(cfg.clientIp, cfg.destIp, cfg.payload);
    PlainPacketFields(Parse(cfg.clientIp), Parse(cfg.destIp), cfg.payload, SYN);
    FramingSafety(p, Clip(cfg.payload), n);
    TunnelExactly(p, Clip(cfg.payload), n);
    assert Request(cfg.clientIp, cfg.destIp, cfg.payload)[..n] == Sealed(p, |Clip(cfg.payload)|)[..n];
  }

  lemma Get32Agrees(s: seq<byte>, i: nat, t: seq<byte>, j: nat)
    requires i + 4 <= |s| && j + 4 <= |t|
    requires s[i..i + 4] == t[j..j + 4]
    ensures Get32(s, i) == Get32(t, j)
  {
    var u := s[i..i + 4];
    assert u[0] == t[j..j + 4][0] && u[1] == t[j..j + 4][1] && u[2] == t[j..j + 4][2] && u[3] == t[j..j + 4][3];
  }

  /** What the server reads, for every number of delivered bytes. */
  lemma DeliveredAddresses(cfg: Settings, n: nat)
    requires n <= 46 + |cfg.payload|
    ensures Get32(Delivered(cfg, n), 18) == ReadAddress(Parse(cfg.clientIp), 18, n)
    ensures Get32(Delivered(cfg, n), 22) == ReadAddress(Parse(cfg.destIp), 22, n)
    ensures n >= 16 ==> Delivered(cfg, n)[6..16] == [0x40, 0, 0, 148, 0, 0, 0, 0, 0, 6]
    ensures n >= 46 ==> Delivered(cfg, n)[26..46] == TcpHeader(SYN)
    ensures CStr(Delivered(cfg, n)[46..]) == DeliveredText(cfg.payload, n)
  {
    hide PlainPacket, StrLen, ThroughTunnel, Parse, Surviving, Carries, Get32, Clip, TcpHeader, ReadAddress;
    var p := RequestPacket(cfg.clientIp, cfg.destIp, cfg.payload);
    PlainPacketFields(Parse(cfg.clientIp), Parse(cfg.destIp), cfg.payload, SYN);
    TunnelDelivers(p, Clip(cfg.payload), n);
    TunnelReadsAddress(p, Clip(cfg.payload), n, 18);
    TunnelReadsAddress(p, Clip(cfg.payload), n, 22);
    if n >= 16 {
      assert Delivered(cfg, n)[6..16] == p[6..16];
    }
    if n >= 46 {
      assert Delivered(cfg, n)[26..46] == p[26..46];
    }
  }

  /** The text dialed after `n` bytes of the request, and exactly when it is the right one. */
  lemma DialedAfter(cfg: Settings, n: nat)
    requires ValidConfig(cfg) && n <= 46 + |cfg.payload|
    ensures var dialed := Dialed(Request(cfg.clientIp, cfg.destIp, cfg.payload)[..n]);
            && dialed == Print(ReadAddress(Parse(cfg.destIp), 22, n))
            && (dialed == cfg.destIp <==> ReadsRight(Parse(cfg.destIp), 22, n))
  {
    hide Parse, Print, Canonical, Opened, Delivered, ReadAddress, ReadsRight, Request, Padded, StrLen, Get32;
    RequestDelivered(cfg, n);
    DeliveredAddresses(cfg, n);
    PrintOfParse(cfg.destIp);
    ParseOfPrint(ReadAddress(Parse(cfg.destIp), 22, n));
    ReadsRightIff(Parse(cfg.destIp), 22, n);
  }

  lemma DialedExactly(cfg: Settings, s: State)
    requires ValidConfig(cfg) && Inv(cfg, s) && !s.server.ServerIdle?
    ensures s.server.dialed == Print(ReadAddress(Parse(cfg.destIp), 22, s.server.took))
    ensures s.server.dialed == cfg.destIp <==> ReadsRight(Parse(cfg.destIp), 22, s.server.took)
  {
    hide ValidConfig, Parse, Print, ReadAddress, ReadsRight, Request, Dialed, SavedClient, Forwarded, BackInv, DownInv;
    DialedAfter(cfg, s.server.took);
  }

  /** In every run, once the server has read: the text it dialed, and that it is the destination the
      client chose exactly when each address byte it did not read is the key byte at its place; in
      particular always when it read 26 bytes. */
  lemma DialsTheChosenDestination(cfg: Settings, acts: seq<Action>)
    requires ValidConfig(cfg)
    ensures var s := Run(cfg, acts);
            !s.server.ServerIdle? ==>
              && s.server.dialed == Print(ReadAddress(Parse(cfg.destIp), 22, s.server.took))
              && (s.server.dialed == cfg.destIp <==> ReadsRight(Parse(cfg.destIp), 22, s.server.took))
              && (s.server.took >= 26 ==> s.server.dialed == cfg.destIp)
  {
    hide Run, Inv, ValidConfig, Parse, Print, ReadAddress, ReadsRight;
    RunKeepsInv(cfg, acts);
    var s := Run(cfg, acts);
    if !s.server.ServerIdle? {
      DialedExactly(cfg, s);
      ReadsRightIff(Parse(cfg.destIp), 22, s.server.took);
    }
  }

  // ----- what the destination gets

  /** What is left of a text at offset 40 when `n` bytes are delivered. */
  function Cut(text: cstring, n: nat): (r: cstring)
    ensures |r| <= |text|
  {
    text[..if n <= 40 then 0 else if n - 40 < |text| then n - 40 else |text|]
  }

  /** The destination's buffer after `n` bytes of the packet forwarded for `rec` arrive. */
  function AtDestination(rec: seq<byte>, serverIp: uint32, n: nat): (pkt: seq<byte>)
    requires |rec| == PACKET && n <= PACKET - 6
    ensures |pkt| == PACKET - 6
  {
    Padded(SourceRewritten(rec, serverIp)[6..][..n], PACKET - 6)
  }

  lemma PaddedBytes(link: seq<byte>, n: nat)
    ensures forall i :: 0 <= i < n ==> Padded(link, n)[i] == if i < |link| then link[i] else 0
  {
  }

  /** The address field at `at` of a zeroed buffer in which `n` bytes have arrived. */
  function CutAddress(addr: uint32, at: nat, n: nat): uint32 {
    var h := HostOrder(addr);
    Join32(if at < n then h[0] else 0, if at + 1 < n then h[1] else 0,
           if at + 2 < n then h[2] else 0, if at + 3 < n then h[3] else 0)
  }

  lemma CutAddressWhole(addr: uint32, at: nat, n: nat)
    requires n >= at + 4
    ensures CutAddress(addr, at, n) == addr
  {
    hide HostOrder, Join32;
    JoinOfHostOrder(addr);
  }

  lemma PaddedReadsAddress(full: seq<byte>, n: nat, size: nat, at: nat)
    requires n <= |full| && at + 4 <= |full| && at + 4 <= size && n <= size
    ensures Get32(Padded(full[..n], size), at) == CutAddress(Get32(full, at), at, n)
  {
    hide Padded;
    PaddedBytes(full[..n], size);
    HostOrderOf(full, at);
    hide HostOrder, Join32;
    var r := Padded(full[..n], size);
    assert r[at] == if at < n then full[at] else 0;
    assert r[at + 1] == if at + 1 < n then full[at + 1] else 0;
    assert r[at + 2] == if at + 2 < n then full[at + 2] else 0;
    assert r[at + 3] == if at + 3 < n then full[at + 3] else 0;
  }

  /** Body bytes as the destination receives them. */
  lemma ForwardedBytes(rec: seq<byte>, serverIp: uint32, n: nat)
    requires |rec| == PACKET && n <= PACKET - 6
    ensures var pkt := AtDestination(rec, serverIp, n);
            && Get32(pkt, 12) == CutAddress(serverIp, 12, n)
            && Get32(pkt, 16) == CutAddress(Get32(rec, 22), 16, n)
            && (n >= 10 ==> pkt[..10] == rec[6..16])
            && (n >= 20 ==> HeaderSound(GRE_HEADER + pkt))
            && (n >= 40 ==> pkt[20..40] == rec[26..46])
            && (forall i :: 40 <= i < PACKET - 6 ==> pkt[i] == if i < n then rec[6 + i] else 0)
  {
    hide SourceRewritten, Get32, Padded, HeaderSound, CutAddress;
    SourceRewriteFrame(rec, serverIp);
    var full := SourceRewritten(rec, serverIp);
    var pkt := Padded(full[6..][..n], PACKET - 6);
    PaddedBytes(full[6..][..n], PACKET - 6);
    assert forall i :: 0 <= i < n ==> pkt[i] == full[6 + i];
    Get32Agrees(full[6..], 12, full, 18);
    Get32Agrees(full[6..], 16, full, 22);
    PaddedReadsAddress(full[6..], n, PACKET - 6, 12);
    PaddedReadsAddress(full[6..], n, PACKET - 6, 16);
    if n >= 10 {
      assert pkt[..10] == rec[6..16];
    }
    if n >= 20 {
      assert (GRE_HEADER + pkt)[6..26] == full[6..26];
      SoundnessIsInHeader(GRE_HEADER + pkt, full);
    }
    if n >= 40 {
      assert pkt[20..40] == rec[26..46];
    }
  }

  lemma ForwardedText(rec: seq<byte>, serverIp: uint32, n: nat, text: cstring)
    requires |rec| == PACKET && n <= PACKET - 6 && |text| < MAX_PAYLOAD
    requires CStr(rec[46..]) == text
    ensures CStr(AtDestination(rec, serverIp, n)[40..]) == Cut(text, n)
  {
    hide AtDestination, StrLen;
    ForwardedBytes(rec, serverIp, n);
    var pkt := AtDestination(rec, serverIp, n);
    var m := |Cut(text, n)|;
    assert forall i :: 0 <= i < |text| ==> rec[46..][i] == rec[46..][..|text|][i];
    assert rec[46..][|text|] == 0;
    forall i | 0 <= i < m
      ensures pkt[40..][i] == text[i]
    {
      assert rec[46..][i] == rec[46 + i];
    }
    assert rec[46 + |text|] == 0;
    StrLenIs(pkt[40..], m);
    assert pkt[40..][..m] == Cut(text, n);
  }

  /** A packet as the destination should see it after `n1` bytes of the request and `n2` bytes of the
      forwarded packet: from the server, to the destination, an IPv4 header for 148 bytes of TCP with a
      sound checksum, the client's TCP header, and the client's payload cut at the first collision or at
      the last byte delivered on either link. */
  ghost predicate DestinationView(cfg: Settings, n1: nat, n2: nat, packet: seq<byte>) {
    && |packet| == PACKET - 6
    && Get32(packet, 12) == CutAddress(Parse(cfg.serverIp), 12, n2)
    && Get32(packet, 16) == CutAddress(Parse(cfg.destIp), 16, n2)
    && (n1 >= 16 && n2 >= 10 ==> packet[..10] == [0x40, 0, 0, 148, 0, 0, 0, 0, 0, 6])
    && (n2 >= 20 ==> HeaderSound(GRE_HEADER + packet))
    && (n1 >= 46 && n2 >= 40 ==> packet[20..40] == TcpHeader(SYN))
    && CStr(packet[40..]) == Cut(DeliveredText(cfg.payload, n1), n2)
  }

  lemma ForwardedIsViewed(cfg: Settings, n1: nat, n2: nat)
    requires n1 <= 46 + |cfg.payload| && n2 <= PACKET - 6
    requires Print(Get32(Delivered(cfg, n1), 22)) == cfg.destIp
    ensures DestinationView(cfg, n1, n2, AtDestination(Delivered(cfg, n1), Parse(cfg.serverIp), n2))
  {
    hide Parse, Print, Opened, Delivered, Get32, AtDestination, DeliveredText, StrLen, Cut, HeaderSound, TcpHeader;
    hide CutAddress, ReadAddress;
    DeliveredAddresses(cfg, n1);
    var rec := Delivered(cfg, n1);
    ParseOfPrint(Get32(rec, 22));
    ForwardedBytes(rec, Parse(cfg.serverIp), n2);
    ForwardedText(rec, Parse(cfg.serverIp), n2, CStr(rec[46..]));
  }

  /** The destination's buffer, in closed form. */
  lemma DestinationBuffer(cfg: Settings, s: State)
    requires Inv(cfg, s) && s.dest.DestDone?
    ensures Connected(s) && s.server.took <= 46 + |cfg.payload| && s.dest.took <= PACKET - 6
    ensures Print(Get32(Delivered(cfg, s.server.took), 22)) == cfg.destIp
    ensures s.dest.packet == AtDestination(Delivered(cfg, s.server.took), Parse(cfg.serverIp), s.dest.took)
  {
    hide Parse, Print, Opened, Delivered, Get32, SourceRewritten, Padded, StrLen, Reply, SavedClient, DownInv;
    RequestDelivered(cfg, s.server.took);
  }

  /** In every run, whatever the destination has received is what it should see; the TCP header, in
      figures, has the port 17350 twice and the SYN flag. */
  lemma DestinationGets(cfg: Settings, acts: seq<Action>)
    ensures var s := Run(cfg, acts);
            s.dest.DestDone? ==>
              && Connected(s) && DestinationView(cfg, s.server.took, s.dest.took, s.dest.packet)
              && (s.server.took >= 46 && s.dest.took >= 40 ==>
                    s.dest.packet[20..40]
                    == [0x43, 0xc6, 0x43, 0xc6, 0, 0, 0, 0, 0, 0, 0, 0, 0, 0x02, 0, 0, 0x71, 0x78, 0, 0])
  {
    hide Run, Inv, AtDestination, Delivered, Parse, Print, Get32, TcpHeader, StrLen, HeaderSound, DeliveredText, Cut;
    hide CutAddress;
    RunKeepsInv(cfg, acts);
    TcpHeaderInFigures(SYN);
    var s := Run(cfg, acts);
    if s.dest.DestDone? {
      DestinationBuffer(cfg, s);
      ForwardedIsViewed(cfg, s.server.took, s.dest.took);
    }
  }
}
