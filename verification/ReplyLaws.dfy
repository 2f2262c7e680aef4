/** The way back: what every run guarantees to the client, and memory safety. */
module ReplyLaws {
  import opened Bytes
  import opened Bits
  import opened Cipher
  import opened CStrings
  import opened Address
  import opened Packet
  import opened Rewriting
  import opened SumConventions
  import opened Tunnel
  import opened Client
  import opened Server
  import opened Destination
  import opened Session
  import opened SessionLaws

  // ----- re-encapsulation at the server

  /** The reply packet the destination builds when `x` is the source it read. */
  function Answer(cfg: Settings, x: uint32): (p: seq<byte>)
    ensures |p| == PACKET
  {
    PlainPacket(Parse(cfg.destIp), x, TCP, cfg.reply, ACK)
  }

  /** The server's return packet when the first `n` bytes of that reply arrive. */
  function AtServer(p: seq<byte>, sent: nat, n: nat, clientIp: uint32): (r: seq<byte>)
    requires |p| == PACKET && n <= sent <= PACKET - 6
    ensures |r| == PACKET
  {
    Returned(p[6..][..sent][..n], clientIp)
  }

  lemma BodyBytes(p: seq<byte>, sent: nat, n: nat)
    requires |p| == PACKET && n <= sent <= PACKET - 6
    ensures var body := Padded(p[6..][..sent][..n], PACKET)[..PACKET - 6];
            forall i :: 0 <= i < PACKET - 6 ==> body[i] == if i < n then p[6 + i] else 0
  {
    hide Padded;
    PaddedBytes(p[6..][..sent][..n], PACKET);
  }

  lemma ReaddressedBytes(body: seq<byte>, clientIp: uint32)
    requires |body| == PACKET - 6
    ensures var r := DestRewritten(GRE_HEADER + body, clientIp);
            && Get32(r, 22) == clientIp
            && r[18..22] == body[12..16]
            && HeaderSound(r)
            && r[..6] == [0x00, 0x01, 0x08, 0x00, 0xfe, 0xf7]
            && r[6..16] == body[..10]
            && (forall i :: 26 <= i < PACKET ==> r[i] == body[i - 6])
  {
    hide DestRewritten, Get32, HeaderSound;
    var full := GRE_HEADER + body;
    DestRewriteFrame(full, clientIp);
    assert full[6..] == body;
    assert full[..6] == DestRewritten(full, clientIp)[..6];
    assert full[6..16] == DestRewritten(full, clientIp)[6..16];
  }

  lemma ReturnedBytes(p: seq<byte>, sent: nat, n: nat, clientIp: uint32)
    requires |p| == PACKET && n <= sent <= PACKET - 6 && sent >= 16
    ensures var r := AtServer(p, sent, n, clientIp);
            && Get32(r, 22) == clientIp
            && Get32(r, 18) == CutAddress(Get32(p, 18), 12, n)
            && HeaderSound(r)
            && r[..6] == [0x00, 0x01, 0x08, 0x00, 0xfe, 0xf7]
            && (n >= 10 ==> r[6..16] == p[6..16])
            && (n >= 40 ==> r[26..46] == p[26..46])
            && (forall i :: 46 <= i < PACKET ==> r[i] == if i - 6 < n then p[i] else 0)
  {
    hide DestRewritten, Get32, Padded, HeaderSound, CutAddress;
    var body := Padded(p[6..][..sent][..n], PACKET)[..PACKET - 6];
    BodyBytes(p, sent, n);
    ReaddressedBytes(body, clientIp);
    var link := p[6..][..sent];
    Get32Agrees(link, 12, p, 18);
    PaddedReadsAddress(link, n, PACKET, 12);
    Get32Agrees(AtServer(p, sent, n, clientIp), 18, body, 12);
    Get32Agrees(body, 12, Padded(link[..n], PACKET), 12);
    if n >= 10 {
      assert AtServer(p, sent, n, clientIp)[6..16] == p[6..16];
    }
    if n >= 40 {
      assert AtServer(p, sent, n, clientIp)[26..46] == p[26..46];
    }
  }

  /** What arrived of the reply is framed as a C string in the return packet. */
  lemma ReturnedCarries(p: seq<byte>, reply: cstring, n: nat, clientIp: uint32)
    requires Carries(p, reply) && |reply| <= MAX_REPLY && n <= 46 + |reply|
    requires forall i :: 46 + |reply| <= i < PACKET ==> p[i] == 0
    ensures var r := AtServer(p, 46 + |reply|, n, clientIp);
            Carries(r, Cut(reply, n)) && StrLen(r[46..]) == |Cut(reply, n)|
  {
    hide AtServer, StrLen;
    ReturnedBytes(p, 46 + |reply|, n, clientIp);
    var r := AtServer(p, 46 + |reply|, n, clientIp);
    var m := |Cut(reply, n)|;
    ghost var text := p[46..46 + |reply|];
    assert forall i :: 0 <= i < |reply| ==> text[i] == p[46 + i];
    forall i | 0 <= i < m
      ensures r[46 + i] == reply[i]
    {
    }
    assert r[46..46 + m] == Cut(reply, n);
    assert r[46 + m] == 0;
    StrLenIs(r[46..], m);
  }

  /** What the client opens, when `n` bytes of the return packet `r` arrive. */
  lemma ResponseOpened(r: seq<byte>, text: cstring, n: nat)
    requires Carries(r, text) && StrLen(r[46..]) == |text| && n <= 46 + |text|
    ensures Opened(SentFor(r)[..n]) == ThroughTunnel(r, text, n)
    ensures StrLen(Padded(SentFor(r)[..n], PACKET)[46..]) < MAX_PAYLOAD
  {
    hide Opened, Padded, Sealed, ThroughTunnel, Crypt, StrLen;
    SameCiphertext(r, text, n);
    FramingSafety(r, text, n);
    TunnelExactly(r, text, n);
  }

  // ----- what the client gets

  /** A packet as the client should see it after `n1`, `n3` and `n4` bytes on the first, third and
      fourth link. */
  ghost predicate ClientView(cfg: Settings, n1: nat, n3: nat, n4: nat, packet: seq<byte>) {
    var text := Cut(cfg.reply, n3);
    && |packet| == PACKET
    && Get32(packet, 22) == ReadAddress(ReadAddress(Parse(cfg.clientIp), 18, n1), 22, n4)
    && Get32(packet, 18) == ReadAddress(CutAddress(Parse(cfg.destIp), 12, n3), 18, n4)
    && (n4 >= 6 ==> packet[..6] == [0x00, 0x01, 0x08, 0x00, 0xfe, 0xf7])
    && (n3 >= 10 && n4 >= 16 ==> packet[6..16] == [0x40, 0, 0, 148, 0, 0, 0, 0, 0, 6])
    && (n4 >= 26 ==> HeaderSound(packet))
    && (n3 >= 40 && n4 >= 46 ==> packet[26..46] == TcpHeader(ACK))
    && CStr(packet[46..]) == text[..Surviving(text, n4)]
  }

  lemma OpenedIsViewed(cfg: Settings, n1: nat, x: uint32, n3: nat, n4: nat, clientIp: uint32)
    requires n3 <= 46 + |cfg.reply| && n4 <= 46 + |Cut(cfg.reply, n3)|
    requires clientIp == ReadAddress(Parse(cfg.clientIp), 18, n1)
    ensures var r := AtServer(Answer(cfg, x), 46 + |cfg.reply|, n3, clientIp);
            && |SentFor(r)| == 46 + |Cut(cfg.reply, n3)|
            && ClientView(cfg, n1, n3, n4, Opened(SentFor(r)[..n4]))
            && StrLen(r[46..]) < MAX_PAYLOAD
            && StrLen(Padded(SentFor(r)[..n4], PACKET)[46..]) < MAX_PAYLOAD
  {
    hide AtServer, PlainPacket, StrLen, Parse, Opened, ThroughTunnel, Get32, Surviving, Carries, SentFor, Cut, Padded;
    hide HeaderSound, TcpHeader, ReadAddress, CutAddress;
    var p := Answer(cfg, x);
    PlainPacketFields(Parse(cfg.destIp), x, cfg.reply, ACK);
    var r := AtServer(p, 46 + |cfg.reply|, n3, clientIp);
    var text := Cut(cfg.reply, n3);
    assert Clip(cfg.reply) == cfg.reply;
    ReturnedCarries(p, cfg.reply, n3, clientIp);
    ReturnedBytes(p, 46 + |cfg.reply|, n3, clientIp);
    ResponseOpened(r, text, n4);
    TunnelDelivers(r, text, n4);
    TunnelReadsAddress(r, text, n4, 18);
    TunnelReadsAddress(r, text, n4, 22);
    var packet := ThroughTunnel(r, text, n4);
    if n4 >= 6 {
      assert packet[..6] == r[..6];
    }
    if n4 >= 16 {
      assert packet[6..16] == r[6..16];
    }
    if n4 >= 26 {
      assert packet[6..26] == r[6..26];
      SoundnessIsInHeader(packet, r);
    }
    if n4 >= 46 {
      assert packet[26..46] == r[26..46];
    }
  }

  /** The bytes on the last two links, in closed form. */
  lemma LinksBack(cfg: Settings, s: State) returns (x: uint32)
    requires Inv(cfg, s) && s.dest.DestDone?
    ensures |s.back.sent| == 46 + |cfg.reply|
    ensures s.server.ServerDone? ==>
              && s.server.tookBack <= 46 + |cfg.reply|
              && var r := AtServer(Answer(cfg, x), 46 + |cfg.reply|, s.server.tookBack, s.server.clientIp);
                 s.down.sent == SentFor(r)
  {
    hide Returned, PlainPacket, Parse, SentFor, Padded, Forwarded, SavedClient, Dialed, Opened, Request;
    x := Get32(Padded(s.forward.sent[..s.dest.took], PACKET - 6), 12);
  }

  lemma SavedClientIs(cfg: Settings, s: State)
    requires Inv(cfg, s) && !s.server.ServerIdle?
    ensures s.server.clientIp == ReadAddress(Parse(cfg.clientIp), 18, s.server.took)
  {
    hide Parse, Delivered, Opened, Padded, StrLen, Get32, Forwarded, Dialed, ReadAddress;
    RequestDelivered(cfg, s.server.took);
    DeliveredAddresses(cfg, s.server.took);
  }

  /** The last link: its length, and what the client makes of any prefix of it. */
  lemma DownLink(cfg: Settings, s: State, n: nat)
    requires Inv(cfg, s) && s.server.ServerDone? && n <= |s.down.sent|
    ensures |s.down.sent| == 46 + |Cut(cfg.reply, s.server.tookBack)|
    ensures ClientView(cfg, s.server.took, s.server.tookBack, n, Opened(s.down.sent[..n]))
    ensures StrLen(Padded(s.down.sent[..n], PACKET)[46..]) < MAX_PAYLOAD
  {
    SavedClientIs(cfg, s);
    var x := LinksBack(cfg, s);
    hide *;
    PrefixViewed(cfg, s.server.took, x, s.server.tookBack, n, s.server.clientIp, s.down.sent);
  }

  lemma PrefixViewed(cfg: Settings, n1: nat, x: uint32, n3: nat, n: nat, clientIp: uint32, sent: seq<byte>)
    requires n3 <= 46 + |cfg.reply| && n <= |sent|
    requires clientIp == ReadAddress(Parse(cfg.clientIp), 18, n1)
    requires sent == SentFor(AtServer(Answer(cfg, x), 46 + |cfg.reply|, n3, clientIp))
    ensures |sent| == 46 + |Cut(cfg.reply, n3)|
    ensures ClientView(cfg, n1, n3, n, Opened(sent[..n]))
    ensures StrLen(Padded(sent[..n], PACKET)[46..]) < MAX_PAYLOAD
  {
    hide Parse, AtServer, Answer, SentFor, Opened, ClientView, Cut, Padded, StrLen, ReadAddress;
    OpenedIsViewed(cfg, n1, x, n3, 0, clientIp);
    OpenedIsViewed(cfg, n1, x, n3, n, clientIp);
  }

  /** The client has received part of a reply. */
  predicate Answered(s: State) {
    s.client.ClientDone? && s.client.took > 0
  }

  /** In every run, a client that is done either was answered, and then its packet is from the
      destination, for the client, and carries the destination's reply, cut at the first collision or
      at the last byte delivered, and the TCP header, in figures, has the port 17350 twice and the ACK
      flag; or the server failed to connect, and then it opened nothing. */
  lemma ClientGets(cfg: Settings, acts: seq<Action>)
    ensures var s := Run(cfg, acts);
            s.client.ClientDone? ==>
              if s.server.ServerDone? then
                && Answered(s)
                && ClientView(cfg, s.server.took, s.server.tookBack, s.client.took, s.client.packet)
                && (s.server.tookBack >= 40 && s.client.took >= 46 ==>
                      s.client.packet[26..46]
                      == [0x43, 0xc6, 0x43, 0xc6, 0, 0, 0, 0, 0, 0, 0, 0, 0, 0x16, 0, 0, 0x5d, 0x78, 0, 0])
              else
                s.server.ServerFailed? && s.client.took == 0 && s.client.packet == Opened([])
  {
    hide Run, Opened, Cut, Padded, StrLen, UpInv, ForwardInv, BackInv, Get32, HeaderSound, Surviving, TcpHeader;
    hide ReadAddress, CutAddress, Parse, Response;
    RunKeepsInv(cfg, acts);
    TcpHeaderInFigures(ACK);
    var s := Run(cfg, acts);
    if s.client.ClientDone? && s.server.ServerDone? {
      DownLink(cfg, s, s.client.took);
    }
  }

  /** Opening nothing gives key bytes and the empty text. */
  lemma NothingOpened()
    ensures StrLen(Padded([], PACKET)[46..]) == 0 && CStr(Opened([])[46..]) == []
    ensures forall i :: 0 <= i < 174 && i != 46 ==> Opened([])[i] == [0x12, 0x34, 0x56, 0x78][i % 4]
  {
    hide StrLen, XorByte;
    var buf := Padded([], PACKET);
    StrLenIs(buf[46..], 0);
    StrLenIs(Opened([])[46..], 0);
    forall i | 0 <= i < PACKET && i != 46
      ensures Opened([])[i] == [0x12, 0x34, 0x56, 0x78][i % 4]
    {
      XorOfZero(KeyByte(i));
    }
  }

  // ----- memory safety

  /** The `strlen` calls of the next action stop inside their buffers. */
  ghost predicate ReadsStayInside(s: State, a: Action)
    requires LinksValid(s)
  {
    match a
    case ServerForwards | ConnectFails => StrLen(Padded(s.up.Arrived(), PACKET)[46..]) < MAX_PAYLOAD
    case ServerReturns =>
      s.server.Relaying? ==> StrLen(Returned(s.back.Arrived(), s.server.clientIp)[46..]) < MAX_PAYLOAD
    case ClientReads => StrLen(Padded(s.down.Arrived(), PACKET)[46..]) < MAX_PAYLOAD
    case _ => true
  }

  lemma ReturnReadSafe(cfg: Settings, s: State)
    requires Inv(cfg, s) && s.dest.DestDone? && s.server.Relaying?
    ensures StrLen(Returned(s.back.Arrived(), s.server.clientIp)[46..]) < MAX_PAYLOAD
  {
    hide Returned, PlainPacket, Parse, SentFor, Padded, Forwarded, SavedClient, Dialed, Opened, Request;
    hide StrLen, Cut, ClientView, ReadAddress;
    SavedClientIs(cfg, s);
    var x := Get32(Padded(s.forward.sent[..s.dest.took], PACKET - 6), 12);
    assert s.back.Arrived() == Answer(cfg, x)[6..][..46 + |cfg.reply|][..s.back.arrived];
    OpenedIsViewed(cfg, s.server.took, x, s.back.arrived, 0, s.server.clientIp);
  }

  lemma RequestReadSafe(cfg: Settings, s: State)
    requires LinksValid(s) && UpInv(cfg, s) && s.up.arrived > 0
    ensures StrLen(Padded(s.up.Arrived(), PACKET)[46..]) < MAX_PAYLOAD
  {
    hide Opened, Delivered, StrLen, Padded;
    RequestDelivered(cfg, s.up.arrived);
  }

  lemma ClientReadSafe(cfg: Settings, s: State)
    requires Inv(cfg, s) && (s.down.arrived > 0 || s.server.ServerFailed?)
    ensures StrLen(Padded(s.down.Arrived(), PACKET)[46..]) < MAX_PAYLOAD
  {
    hide StrLen, Padded, Opened, ClientView, Cut, UpInv, ForwardInv, BackInv, Response;
    if s.server.ServerDone? {
      DownLink(cfg, s, s.down.arrived);
    } else {
      NothingOpened();
    }
  }

  /** In every run no enabled action reads past a buffer. */
  lemma EveryReadIsSafe(cfg: Settings, acts: seq<Action>, a: Action)
    requires Enabled(cfg, Run(cfg, acts), a)
    ensures ReadsStayInside(Run(cfg, acts), a)
  {
    RunKeepsInv(cfg, acts);
    var s := Run(cfg, acts);
    hide Run, StrLen, Padded, Returned, Opened, Request, Forwarded, SavedClient, Dialed, Response, Reply;
    hide ClientView, Cut;
    match a {
      case ServerForwards | ConnectFails => RequestReadSafe(cfg, s);
      case ServerReturns => ReturnReadSafe(cfg, s);
      case ClientReads => ClientReadSafe(cfg, s);
      case _ =>
    }
  }
}
