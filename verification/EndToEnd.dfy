/** The two promises of the VPN: exact end-to-end delivery, and that the destination learns nothing
    of the client's address. */
module EndToEnd {
  import opened Bytes
  import opened Checksum
  import opened Cipher
  import opened CStrings
  import opened Address
  import opened Packet
  import opened Rewriting
  import opened Tunnel
  import opened Client
  import opened Server
  import opened Destination
  import opened Session
  import opened SessionLaws
  import opened ReplyLaws
  import opened Progress

  // ----- delivery

  /** The part of a message before its first collision: what the tunnel keeps of it. */
  function Kept(text: cstring): (r: cstring)
    ensures r == text <==> CollisionFree(text)
  {
    var c := FirstCollision(text);
    assert c < |text| ==> Collides(text, c);
    assert text[..|text|] == text;
    text[..c]
  }

  lemma WholeTextArrives(text: cstring, n: nat)
    requires n >= 46 + |text|
    ensures text[..Surviving(text, n)] == Kept(text)
    ensures Cut(text, n) == text
  {
    hide Collides;
  }

  /** What the wholly read request leaves of the payload. */
  lemma PayloadArrives(payload: cstring)
    requires |payload| <= MAX_PAYLOAD
    ensures DeliveredText(payload, 46 + |payload|) == Kept(Clip(payload))
    ensures Kept(Clip(payload)) == payload <==> |payload| < MAX_PAYLOAD && CollisionFree(payload)
  {
    hide CollisionFree, Surviving, Kept;
    WholeTextArrives(Clip(payload), 46 + |payload|);
  }

  /** Whenever every message has been read whole: source and destination are translated as promised in
      both directions, each text is the one sent up to its first collision, and so it is the one sent
      exactly when none of its bytes meets its key byte. */
  lemma EndToEndDelivery(cfg: Settings, acts: seq<Action>)
    requires FullyRead(cfg, Run(cfg, acts))
    ensures var s := Run(cfg, acts);
            && |s.dest.packet| == PACKET - 6
            && Get32(s.dest.packet, 12) == Parse(cfg.serverIp)
            && Get32(s.dest.packet, 16) == Parse(cfg.destIp)
            && CStr(s.dest.packet[40..]) == Kept(Clip(cfg.payload))
            && (CStr(s.dest.packet[40..]) == cfg.payload
                <==> |cfg.payload| < MAX_PAYLOAD && CollisionFree(cfg.payload))
            && |s.client.packet| == PACKET
            && Get32(s.client.packet, 18) == Parse(cfg.destIp)
            && Get32(s.client.packet, 22) == Parse(cfg.clientIp)
            && CStr(s.client.packet[46..]) == Kept(cfg.reply)
            && (CStr(s.client.packet[46..]) == cfg.reply <==> CollisionFree(cfg.reply))
  {
    hide Run, CollisionFree, Surviving, StrLen, Get32, Parse, DeliveredText, HeaderSound, TcpHeader, Kept, Clip;
    hide ReadAddress, CutAddress, ReadsRight, Cut, Opened;
    WholeAddresses(cfg);
    DestinationGets(cfg, acts);
    ClientGets(cfg, acts);
    PayloadArrives(cfg.payload);
    WholeTextArrives(cfg.reply, 46 + |cfg.reply|);
    TextAtDestination(cfg);
  }

  lemma WholeAddresses(cfg: Settings)
    ensures CutAddress(Parse(cfg.serverIp), 12, PACKET - 6) == Parse(cfg.serverIp)
    ensures CutAddress(Parse(cfg.destIp), 16, PACKET - 6) == Parse(cfg.destIp)
    ensures ReadAddress(ReadAddress(Parse(cfg.clientIp), 18, 46 + |cfg.payload|), 22, 46 + |cfg.reply|)
         == Parse(cfg.clientIp)
    ensures ReadAddress(CutAddress(Parse(cfg.destIp), 12, 46 + |cfg.reply|), 18, 46 + |cfg.reply|)
         == Parse(cfg.destIp)
  {
    hide ReadAddress, CutAddress, ReadsRight, Parse;
    CutAddressWhole(Parse(cfg.serverIp), 12, PACKET - 6);
    CutAddressWhole(Parse(cfg.destIp), 16, PACKET - 6);
    CutAddressWhole(Parse(cfg.destIp), 12, 46 + |cfg.reply|);
    ReadsRightIff(Parse(cfg.clientIp), 18, 46 + |cfg.payload|);
    ReadsRightIff(Parse(cfg.clientIp), 22, 46 + |cfg.reply|);
    ReadsRightIff(Parse(cfg.destIp), 18, 46 + |cfg.reply|);
  }

  lemma TextAtDestination(cfg: Settings)
    ensures Cut(DeliveredText(cfg.payload, 46 + |cfg.payload|), PACKET - 6) == Kept(Clip(cfg.payload))
  {
    hide CollisionFree, Surviving, DeliveredText, Kept;
    PayloadArrives(cfg.payload);
  }

  // ----- independence from the client's address

  predicate SameButClient(c1: Config, c2: Config) {
    c1.(clientIp := c2.clientIp) == c2
  }

  /** Equal outside the source address and the checksum. */
  predicate SameButSource(p: seq<byte>, q: seq<byte>) {
    |p| == |q| && forall i :: 0 <= i < |p| && !(16 <= i < 22) ==> p[i] == q[i]
  }

  lemma PlainDiffersInSource(src1: uint32, src2: uint32, dst: uint32, payload: cstring, flags: byte)
    ensures SameButSource(PlainPacket(src1, dst, TCP, payload, flags), PlainPacket(src2, dst, TCP, payload, flags))
  {
    hide CksumOf, Swap16, TcpHeader, Clip, HostOrder;
    var h1, h2 := IpHeader(src1, dst, TCP, 128), IpHeader(src2, dst, TCP, 128);
    assert forall i :: 0 <= i < 20 && !(10 <= i < 16) ==> h1[i] == h2[i];
    hide IpHeader;
  }

  lemma DeliveredDiffersInSource(c1: Settings, c2: Settings, n: nat)
    requires SameButClient(c1, c2)
    ensures SameButSource(Delivered(c1, n), Delivered(c2, n))
  {
    hide PlainPacket, Parse, KeyByte, Surviving, Clip;
    PlainDiffersInSource(Parse(c1.clientIp), Parse(c2.clientIp), Parse(c1.destIp), c1.payload, SYN);
  }

  /** A source rewrite erases every trace of the previous source. */
  lemma RewriteErasesSource(p: seq<byte>, q: seq<byte>, addr: uint32)
    requires SameButSource(p, q) && |p| >= 26
    ensures SourceRewritten(p, addr) == SourceRewritten(q, addr)
  {
    hide CksumOf, Swap16;
    assert NetHeader(Put32(p, 18, addr)) == NetHeader(Put32(q, 18, addr));
  }

  /** For every number of bytes delivered to it, the server forwards the same 168 bytes to the same
      place whoever the client is. */
  lemma ForwardedIndependent(c1: Settings, c2: Settings, n: nat)
    requires SameButClient(c1, c2) && n <= 46 + |c1.payload|
    ensures var l1 := Request(c1.clientIp, c1.destIp, c1.payload)[..n];
            var l2 := Request(c2.clientIp, c2.destIp, c2.payload)[..n];
            Forwarded(l1, c1.serverIp) == Forwarded(l2, c2.serverIp) && Dialed(l1) == Dialed(l2)
  {
    hide Opened, Delivered, Parse, Padded, StrLen, SourceRewritten, Print;
    RequestDelivered(c1, n);
    RequestDelivered(c2, n);
    DeliveredDiffersInSource(c1, c2, n);
    RewriteErasesSource(Delivered(c1, n), Delivered(c2, n), Parse(c1.serverIp));
  }

  /** The amount sent back does not depend on the client either. */
  lemma ResponseLengthIndependent(link: seq<byte>, client1: uint32, client2: uint32)
    ensures |Response(link, client1)| == |Response(link, client2)|
  {
    hide DestRewritten, StrLen, Padded, Crypt;
    var p := GRE_HEADER + Padded(link, PACKET)[..PACKET - 6];
    DestRewriteFrame(p, client1);
    DestRewriteFrame(p, client2);
    assert Returned(link, client1)[46..] == Returned(link, client2)[46..];
  }

  /** Two states that look alike from outside the tunnel. */
  predicate SameView(s: State, t: State) {
    && s.dest == t.dest && s.forward == t.forward && s.back == t.back
    && |s.up.sent| == |t.up.sent| && s.up.arrived == t.up.arrived
    && |s.down.sent| == |t.down.sent| && s.down.arrived == t.down.arrived
    && SameClientPhase(s.client, t.client)
    && SameServerPhase(s.server, t.server)
  }

  predicate SameClientPhase(s: ClientState, t: ClientState) {
    if s.ClientDone? then t.ClientDone? && s.took == t.took else s == t
  }

  predicate SameServerPhase(s: ServerState, t: ServerState) {
    match s
    case ServerIdle => t.ServerIdle?
    case Relaying(n, _, d) => t.Relaying? && t.took == n && t.dialed == d
    case ServerDone(n, _, d, m) => t.ServerDone? && t.took == n && t.dialed == d && t.tookBack == m
    case ServerFailed(n, _, d) => t.ServerFailed? && t.took == n && t.dialed == d
  }

  lemma StepKeepsView(c1: Settings, c2: Settings, s: State, t: State, a: Action)
    requires SameButClient(c1, c2)
    requires Distinct(c1.clientIp, c1.serverIp, c1.destIp) && Distinct(c2.clientIp, c2.serverIp, c2.destIp)
    requires Inv(c1, s) && Inv(c2, t) && SameView(s, t)
    ensures SameView(Step(c1, s, a), Step(c2, t, a))
  {
    hide SavedClient, Dialed, Forwarded, Reply, Response, Opened, Padded, Request, Distinct, BackInv, DownInv;
    match a {
      case ServerForwards | ConnectFails => ForwardingKeepsView(c1, c2, s, t, a);
      case ServerReturns => ReturningKeepsView(c1, c2, s, t);
      case Delivers(w, k) =>
      case DestReplies =>
      case ClientStarts =>
      case ClientReads =>
    }
  }

  lemma ForwardingKeepsView(c1: Settings, c2: Settings, s: State, t: State, a: Action)
    requires a == ServerForwards || a == ConnectFails
    requires SameButClient(c1, c2) && LinksValid(s) && LinksValid(t) && SameView(s, t)
    requires UpInv(c1, s) && UpInv(c2, t)
    ensures SameView(Step(c1, s, a), Step(c2, t, a))
  {
    hide SavedClient, Dialed, Forwarded, Reply, Response, Opened, Padded, Request, Distinct;
    if s.server.ServerIdle? && s.up.arrived > 0 {
      ForwardedIndependent(c1, c2, s.up.arrived);
    }
  }

  lemma ReturningKeepsView(c1: Settings, c2: Settings, s: State, t: State)
    requires LinksValid(s) && LinksValid(t) && SameView(s, t)
    ensures SameView(Step(c1, s, ServerReturns), Step(c2, t, ServerReturns))
  {
    hide SavedClient, Dialed, Forwarded, Reply, Response, Opened, Padded, Request, Distinct;
    if Enabled(c1, s, ServerReturns) {
      ResponseLengthIndependent(s.back.Arrived(), s.server.clientIp, t.server.clientIp);
    }
  }

  /** Two sessions that differ only in the client's address: under every schedule the destination, the
      address dialed, and all bytes on the links to and from the destination are the same. */
  lemma {:induction false} DestinationCannotTell(c1: Settings, c2: Settings, acts: seq<Action>)
    requires SameButClient(c1, c2)
    requires Distinct(c1.clientIp, c1.serverIp, c1.destIp) && Distinct(c2.clientIp, c2.serverIp, c2.destIp)
    ensures SameView(Run(c1, acts), Run(c2, acts))
  {
    if acts != [] {
      hide Step, Inv, SameView, Distinct;
      var init, last := acts[..|acts| - 1], acts[|acts| - 1];
      DestinationCannotTell(c1, c2, init);
      RunKeepsInv(c1, init);
      RunKeepsInv(c2, init);
      StepKeepsView(c1, c2, Run(c1, init), Run(c2, init), last);
    }
  }
}
