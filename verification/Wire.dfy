/** The bytes on the four links, in figures. */
module Wire {
  import opened Bytes
  import opened Checksum
  import opened Cipher
  import opened CStrings
  import opened Address
  import opened Hosts
  import opened Packet
  import opened Rewriting
  import opened SumConventions
  import opened Tunnel
  import opened Client
  import opened Server
  import opened Destination
  import opened Session
  import opened SessionLaws
  import opened ReplyLaws
  import opened Progress
  import opened EndToEnd
  import opened Programs

  // ----- the two packets the programs build, in every run

  /** Deciphering the request gives back the packet it was built from. */
  lemma RequestDeciphers(cfg: Settings)
    ensures var sent, k := Request(cfg.clientIp, cfg.destIp, cfg.payload), 46 + |Clip(cfg.payload)|;
            |sent| >= k && Crypt(sent)[..k] == RequestPacket(cfg.clientIp, cfg.destIp, cfg.payload)[..k]
  {
    hide RequestPacket, Crypt;
    var p := RequestPacket(cfg.clientIp, cfg.destIp, cfg.payload);
    var sent, k := Request(cfg.clientIp, cfg.destIp, cfg.payload), 46 + |Clip(cfg.payload)|;
    assert sent[..k] == Crypt(p)[..k];
    CryptOfPrefix(sent, k);
    CryptOfPrefix(p, k);
    CryptInvolution(p[..k]);
  }

  /** In every run, whatever the client has sent is, deciphered, a GRE header, an IPv4 header for 148
      bytes of TCP from the client to the destination, a TCP header with the SYN flag, and the payload
      as far as 127 characters. */
  lemma RequestOnTheWire(cfg: Settings, acts: seq<Action>)
    ensures var s := Run(cfg, acts);
            s.client.ClientWaiting? || s.client.ClientDone? ==>
              var p, k := Crypt(s.up.sent), if |cfg.payload| < 128 then |cfg.payload| else 127;
              && |p| == 46 + |cfg.payload|
              && p[..6] == [0x00, 0x01, 0x08, 0x00, 0xfe, 0xf7]
              && p[6..16] == [0x40, 0, 0, 148, 0, 0, 0, 0, 0, 6]
              && Get32(p, 18) == Parse(cfg.clientIp)
              && Get32(p, 22) == Parse(cfg.destIp)
              && SummedAsBuilt(p)
              && p[26..46] == [0x43, 0xc6, 0x43, 0xc6, 0, 0, 0, 0, 0, 0, 0, 0, 0, 0x02, 0, 0, 0x71, 0x78, 0, 0]
              && p[46..46 + k] == cfg.payload[..k]
  {
    hide Run, Crypt, Request, PlainPacket, Get32, Parse, TcpHeader, Forwarded, Reply, Response, Opened, Padded;
    hide SummedAsBuilt, Distinct;
    RunKeepsInv(cfg, acts);
    var s := Run(cfg, acts);
    if s.client.ClientWaiting? || s.client.ClientDone? {
      RequestDeciphers(cfg);
      PlainPacketFields(Parse(cfg.clientIp), Parse(cfg.destIp), cfg.payload, SYN);
      PlainPacketSummedAsBuilt(Parse(cfg.clientIp), Parse(cfg.destIp), TCP, cfg.payload, SYN);
      TcpHeaderInFigures(SYN);
      PrefixFields(Crypt(s.up.sent), RequestPacket(cfg.clientIp, cfg.destIp, cfg.payload), 46 + |Clip(cfg.payload)|);
    }
  }

  /** Packets that agree in their first `k` bytes agree in their headers and their first bytes of text. */
  lemma PrefixFields(p: seq<byte>, q: seq<byte>, k: nat)
    requires 46 <= k <= |p| && k <= |q| && p[..k] == q[..k]
    ensures p[..6] == q[..6] && p[6..16] == q[6..16] && p[26..46] == q[26..46] && p[46..k] == q[46..k]
    ensures Get32(p, 18) == Get32(q, 18) && Get32(p, 22) == Get32(q, 22)
    ensures SummedAsBuilt(p) == SummedAsBuilt(q)
  {
    hide Get32, CksumOf, Swap16;
    assert forall i :: 0 <= i < k ==> p[i] == p[..k][i] && q[i] == q[..k][i];
    Get32Agrees(p, 18, q, 18);
    Get32Agrees(p, 22, q, 22);
    assert Put16(p, 16, 0)[6..26] == Put16(q, 16, 0)[6..26];
  }

  /** In every run, whatever the destination has answered is an IPv4 header for 148 bytes of TCP from the
      destination to the source address it read, which is the server's once 16 bytes have arrived; a TCP
      header with the ACK flag; the reply; and six zeros. */
  lemma ReplyOnTheWire(cfg: Settings, acts: seq<Action>)
    ensures var s := Run(cfg, acts);
            s.dest.DestDone? ==>
              var r := s.back.sent;
              && |r| == 46 + |cfg.reply|
              && r[..10] == [0x40, 0, 0, 148, 0, 0, 0, 0, 0, 6]
              && Get32(r, 12) == Parse(cfg.destIp)
              && Get32(r, 16) == CutAddress(Parse(cfg.serverIp), 12, s.dest.took)
              && (s.dest.took >= 16 ==> Get32(r, 16) == Parse(cfg.serverIp))
              && SummedAsBuilt(GRE_HEADER + r)
              && r[20..40] == [0x43, 0xc6, 0x43, 0xc6, 0, 0, 0, 0, 0, 0, 0, 0, 0, 0x16, 0, 0, 0x5d, 0x78, 0, 0]
              && r[40..] == cfg.reply + [0, 0, 0, 0, 0, 0]
  {
    hide Run, PlainPacket, Get32, Parse, TcpHeader, Request, Forwarded, Response, Opened, Padded, Crypt, Clip;
    hide SummedAsBuilt, StrLen, HeaderSound, CutAddress, DeliveredText, Cut;
    RunKeepsInv(cfg, acts);
    DestinationGets(cfg, acts);
    var s := Run(cfg, acts);
    if s.dest.DestDone? {
      AnswerFields(cfg, Get32(s.dest.packet, 12));
      if s.dest.took >= 16 {
        CutAddressWhole(Parse(cfg.serverIp), 12, s.dest.took);
      }
    }
  }

  lemma AnswerFields(cfg: Settings, x: uint32)
    ensures var r := Answer(cfg, x)[6..][..46 + |cfg.reply|];
            && r[..10] == [0x40, 0, 0, 148, 0, 0, 0, 0, 0, 6]
            && Get32(r, 12) == Parse(cfg.destIp) && Get32(r, 16) == x
            && SummedAsBuilt(GRE_HEADER + r)
            && r[20..40] == [0x43, 0xc6, 0x43, 0xc6, 0, 0, 0, 0, 0, 0, 0, 0, 0, 0x16, 0, 0, 0x5d, 0x78, 0, 0]
            && r[40..] == cfg.reply + [0, 0, 0, 0, 0, 0]
  {
    hide PlainPacket, Get32, Parse, TcpHeader, SummedAsBuilt;
    var p := Answer(cfg, x);
    var r := p[6..][..46 + |cfg.reply|];
    PlainPacketFields(Parse(cfg.destIp), x, cfg.reply, ACK);
    PlainPacketSummedAsBuilt(Parse(cfg.destIp), x, TCP, cfg.reply, ACK);
    TcpHeaderInFigures(ACK);
    Get32Agrees(r, 12, p, 18);
    Get32Agrees(r, 16, p, 22);
    assert (GRE_HEADER + r)[..46] == p[..46];
    PrefixFields(GRE_HEADER + r, p, 46);
    assert r[..10] == p[6..16] && r[20..40] == p[26..46];
    assert r[40..40 + |cfg.reply|] == p[46..46 + |cfg.reply|];
    assert r[40 + |cfg.reply|..] == [0, 0, 0, 0, 0, 0];
  }

  // ----- all four links between hosts of the table

  /** The header built for a packet from host `a` to host `b`. */
  lemma TableIpHeader(a: byte, b: byte)
    requires 1 <= a <= 7 && 1 <= b <= 7
    ensures IpHeader(HostNumber(a), HostNumber(b), TCP, 128)
         == [0x40, 0, 0, 148, 0, 0, 0, 0, 0, 6, 0x51, 0xbf - a - b, a, 0, 0, 10, b, 0, 0, 10]
  {
    hide CksumOf, WordSum, Swap16;
    TableWordSum(a, b);
    HostBytes(a);
    HostBytes(b);
    hide HostOrder, HostNumber;
    var h := IpUnsummed(HostNumber(a), HostNumber(b), TCP, 128);
    var sum := 0xbf51 - 0x100 * (a as int + b);
    AccumulatorNeverWraps(h);
    Swap16Involution(sum);
    Digits16(sum, 0x51, 0xbf - a - b);
  }

  /** The checksum after a rewrite. */
  lemma TableSoundSum(p: seq<byte>, a: byte, b: byte)
    requires |p| >= 26 && HeaderSound(p) && 1 <= a <= 7 && 1 <= b <= 7
    requires p[6..16] == [0x40, 0, 0, 148, 0, 0, 0, 0, 0, 6]
    requires p[18..26] == [a, 0, 0, 10, b, 0, 0, 10]
    ensures p[6..26] == [0x40, 0, 0, 148, 0, 0, 0, 0, 0, 6, 0xf9 - a - b, 0x17, a, 0, 0, 10, b, 0, 0, 10]
  {
    hide CksumOf, WordSum, Swap16;
    var h: seq<byte> := [0x40, 0, 148, 0, 0, 0, 0, 0, 0, 6, 0, 0, 10, 0, 0, a, 10, 0, 0, b];
    var sum := 0x17f9 - (a as int) - b;
    assert forall i :: 0 <= i < 10 ==> p[6 + i] == p[6..16][i];
    assert forall i :: 0 <= i < 8 ==> p[18 + i] == p[18..26][i];
    assert NetHeader(p) == h;
    RewrittenWordSum(h, a, b);
    AccumulatorNeverWraps(h);
    Swap16Involution(sum);
    Swap16Involution(Get16(p, 16));
    Digits16(sum, 0xf9 - a - b, 0x17);
    Digits16(Get16(p, 16), p[16], p[17]);
  }

  lemma RewrittenWordSum(h: seq<byte>, a: byte, b: byte)
    requires 1 <= a <= 7 && 1 <= b <= 7
    requires h == [0x40, 0, 148, 0, 0, 0, 0, 0, 0, 6, 0, 0, 10, 0, 0, a, 10, 0, 0, b]
    ensures WordSum(h) == 0xe806 + a as int + b
  {
    hide WordSum;
    WordSumOf20(h);
  }

  lemma HostField(s: seq<byte>, at: nat, k: byte)
    requires at + 4 <= |s| && 1 <= k <= 7 && Get32(s, at) == Parse(Host(k).ip)
    ensures s[at..at + 4] == [k, 0, 0, 10]
  {
    hide Parse, Host;
    HostNumberIs(k);
    Digits32(Get32(s, at), s[at], s[at + 1], s[at + 2], s[at + 3]);
    Digits32(HostNumber(k), k, 0, 0, 10);
  }

  /** A packet built for host `b` by host `a`, without the zeros at its end. */
  lemma TablePlain(a: byte, b: byte, text: cstring, flags: byte)
    requires 1 <= a <= 7 && 1 <= b <= 7 && |text| < 128
    ensures var p, sum := PlainPacket(Parse(Host(a).ip), Parse(Host(b).ip), TCP, text, flags), 0x7873 - flags as int;
            && p[..46 + |text|]
               == [0x00, 0x01, 0x08, 0x00, 0xfe, 0xf7]
                + [0x40, 0, 0, 148, 0, 0, 0, 0, 0, 6, 0x51, 0xbf - a - b, a, 0, 0, 10, b, 0, 0, 10]
                + [0x43, 0xc6, 0x43, 0xc6, 0, 0, 0, 0, 0, 0, 0, 0, 0, flags, 0, 0, sum % 0x100, sum / 0x100, 0, 0]
                + text
            && forall i :: 46 + |text| <= i < PACKET ==> p[i] == 0
  {
    hide Parse, Host, IpHeader, TcpHeader, HostNumber;
    HostNumberIs(a);
    HostNumberIs(b);
    TableIpHeader(a, b);
    TcpHeaderInFigures(flags);
  }

  lemma UpLinkInFigures(c: byte, d: byte, payload: cstring)
    requires 1 <= c <= 7 && 1 <= d <= 7 && |payload| < 128
    ensures Crypt(Request(Host(c).ip, Host(d).ip, payload))
         == [0x00, 0x01, 0x08, 0x00, 0xfe, 0xf7]
          + [0x40, 0, 0, 148, 0, 0, 0, 0, 0, 6, 0x51, 0xbf - c - d, c, 0, 0, 10, d, 0, 0, 10]
          + [0x43, 0xc6, 0x43, 0xc6, 0, 0, 0, 0, 0, 0, 0, 0, 0, 0x02, 0, 0, 0x71, 0x78, 0, 0]
          + payload
  {
    hide PlainPacket, Parse, Host, Crypt, Request;
    TablePlain(c, d, payload, SYN);
    RequestDeciphers(Config(Host(c).ip, Host(c).ip, Host(d).ip, payload, []));
  }

  /** A whole packet after a rewrite, between hosts `a` and `b`. */
  lemma TableRewritten(p: seq<byte>, a: byte, b: byte, flags: byte, text: cstring)
    requires |p| >= 46 + |text| && HeaderSound(p) && 1 <= a <= 7 && 1 <= b <= 7
    requires p[6..16] == [0x40, 0, 0, 148, 0, 0, 0, 0, 0, 6]
    requires Get32(p, 18) == Parse(Host(a).ip) && Get32(p, 22) == Parse(Host(b).ip)
    requires p[26..46] == TcpHeader(flags) && p[46..46 + |text|] == text
    ensures var sum := 0x7873 - flags as int;
            p[6..46 + |text|]
            == [0x40, 0, 0, 148, 0, 0, 0, 0, 0, 6, 0xf9 - a - b, 0x17, a, 0, 0, 10, b, 0, 0, 10]
             + [0x43, 0xc6, 0x43, 0xc6, 0, 0, 0, 0, 0, 0, 0, 0, 0, flags, 0, 0, sum % 0x100, sum / 0x100, 0, 0]
             + text
  {
    hide HeaderSound, Get32, Parse, Host, TcpHeader;
    HostField(p, 18, a);
    HostField(p, 22, b);
    assert p[18..26] == p[18..22] + p[22..26];
    TableSoundSum(p, a, b);
    TcpHeaderInFigures(flags);
    assert p[6..46 + |text|] == p[6..26] + p[26..46] + p[46..46 + |text|];
  }

  /** What a wholly read request leaves behind its headers. */
  lemma WholeRequestOpened(cfg: Settings, i: nat)
    requires |cfg.payload| < 128 && CollisionFree(cfg.payload) && 46 <= i < 174
    ensures Delivered(cfg, 46 + |cfg.payload|)[i]
         == if i < 46 + |cfg.payload| then cfg.payload[i - 46]
            else if i == 46 + |cfg.payload| then 0
            else [0x12, 0x34, 0x56, 0x78][i % 4]
  {
    hide PlainPacket, Parse, TcpHeader, Get32, CollisionFree, Surviving, Kept;
    WholeTextArrives(cfg.payload, 46 + |cfg.payload|);
    PlainPacketFields(Parse(cfg.clientIp), Parse(cfg.destIp), cfg.payload, SYN);
    var p := RequestPacket(cfg.clientIp, cfg.destIp, cfg.payload);
    if i < 46 + |cfg.payload| {
      assert p[i] == p[46..46 + |cfg.payload|][i - 46];
    }
  }

  /** The forwarded packet, behind a GRE header. */
  function ForwardedWhole(cfg: Settings): (q: seq<byte>)
    ensures |q| == PACKET
  {
    GRE_HEADER + AtDestination(Delivered(cfg, 46 + |cfg.payload|), Parse(cfg.serverIp), PACKET - 6)
  }

  lemma ForwardLinkIs(cfg: Settings, acts: seq<Action>)
    requires FullyRead(cfg, Run(cfg, acts))
    ensures GRE_HEADER + Run(cfg, acts).forward.sent == ForwardedWhole(cfg)
    ensures DestinationView(cfg, 46 + |cfg.payload|, PACKET - 6, ForwardedWhole(cfg)[6..])
  {
    hide Run, Parse, AtDestination, Delivered, StrLen, DestinationView, Get32, Print, Distinct, Canonical;
    hide Forwarded, Dialed, SavedClient, Reply, Response, Opened, Request;
    RunKeepsInv(cfg, acts);
    var s := Run(cfg, acts);
    DestinationGets(cfg, acts);
    DestinationBuffer(cfg, s);
    assert s.dest.packet == s.forward.sent;
    assert ForwardedWhole(cfg)[6..] == s.dest.packet;
  }

  lemma ForwardedFields(cfg: Settings)
    requires DestinationView(cfg, 46 + |cfg.payload|, PACKET - 6, ForwardedWhole(cfg)[6..])
    ensures var q := ForwardedWhole(cfg);
            && HeaderSound(q) && q[..6] == [0x00, 0x01, 0x08, 0x00, 0xfe, 0xf7]
            && q[6..16] == [0x40, 0, 0, 148, 0, 0, 0, 0, 0, 6]
            && Get32(q, 18) == Parse(cfg.serverIp) && Get32(q, 22) == Parse(cfg.destIp)
            && q[26..46] == TcpHeader(SYN)
  {
    hide Parse, TcpHeader, Get32, HeaderSound, CutAddress, StrLen, DeliveredText, Cut, ForwardedWhole;
    WholeAddresses(cfg);
    var q := ForwardedWhole(cfg);
    ForwardedFront(cfg);
    assert q == GRE_HEADER + q[6..];
    Get32Agrees(q, 18, q[6..], 12);
    Get32Agrees(q, 22, q[6..], 16);
    assert q[26..46] == q[6..][20..40] && q[6..16] == q[6..][..10];
  }

  lemma ForwardedFront(cfg: Settings)
    ensures ForwardedWhole(cfg)[..6] == GRE_HEADER
  {
    hide AtDestination, Delivered, Parse;
  }

  /** Behind its headers: the payload, a NUL, and key bytes. */
  lemma ForwardedRest(cfg: Settings)
    requires |cfg.payload| < 128 && CollisionFree(cfg.payload)
    ensures var q := ForwardedWhole(cfg);
            && q[46..46 + |cfg.payload|] == cfg.payload && q[46 + |cfg.payload|] == 0
            && forall i :: 47 + |cfg.payload| <= i < 174 ==> q[i] == [0x12, 0x34, 0x56, 0x78][i % 4]
  {
    hide Parse, CollisionFree, AtDestination, Delivered, CutAddress, Get32, HeaderSound;
    var rec, q := Delivered(cfg, 46 + |cfg.payload|), ForwardedWhole(cfg);
    ForwardedBytes(rec, Parse(cfg.serverIp), PACKET - 6);
    assert forall i :: 46 <= i < 174 ==> q[i] == rec[i];
    forall i | 46 <= i < 174
      ensures q[i] == if i < 46 + |cfg.payload| then cfg.payload[i - 46]
                      else if i == 46 + |cfg.payload| then 0
                      else [0x12, 0x34, 0x56, 0x78][i % 4]
    {
      WholeRequestOpened(cfg, i);
    }
  }

  lemma BackLinkIs(cfg: Settings, acts: seq<Action>)
    requires FullyRead(cfg, Run(cfg, acts))
    ensures Run(cfg, acts).back.sent
         == PlainPacket(Parse(cfg.destIp), Parse(cfg.serverIp), TCP, cfg.reply, ACK)[6..][..46 + |cfg.reply|]
  {
    hide Run, Parse, TcpHeader, Get32, HeaderSound, PlainPacket, CutAddress, StrLen, DeliveredText, Cut;
    hide Forwarded, Dialed, SavedClient, Response, Opened, Request, Distinct, Padded;
    RunKeepsInv(cfg, acts);
    DestinationGets(cfg, acts);
    WholeAddresses(cfg);
  }

  lemma DownLinkIs(cfg: Settings, acts: seq<Action>)
    requires FullyRead(cfg, Run(cfg, acts))
    ensures var q := Crypt(Run(cfg, acts).down.sent);
            && |q| == 46 + |cfg.reply| && HeaderSound(q)
            && q[..6] == [0x00, 0x01, 0x08, 0x00, 0xfe, 0xf7]
            && q[6..16] == [0x40, 0, 0, 148, 0, 0, 0, 0, 0, 6]
            && Get32(q, 18) == Parse(cfg.destIp) && Get32(q, 22) == Parse(cfg.clientIp)
            && q[26..46] == TcpHeader(ACK) && q[46..] == cfg.reply
  {
    hide Run, Inv, Parse, TcpHeader, Get32, HeaderSound, PlainPacket, CutAddress, ReadAddress, StrLen, Crypt, AtServer;
    hide Cut, Carries;
    RunKeepsInv(cfg, acts);
    var s := Run(cfg, acts);
    SavedClientIs(cfg, s);
    ServerWasAnswered(cfg, s);
    var x := LinksBack(cfg, s);
    var p, n := Answer(cfg, x), 46 + |cfg.reply|;
    PlainPacketFields(Parse(cfg.destIp), x, cfg.reply, ACK);
    CutAddressWhole(Parse(cfg.destIp), 12, n);
    ReadsRightIff(Parse(cfg.clientIp), 18, 46 + |cfg.payload|);
    var r := AtServer(p, n, n, s.server.clientIp);
    ReturnedBytes(p, n, n, s.server.clientIp);
    ReturnedCarriesWhole(p, cfg.reply, s.server.clientIp);
    CryptInvolution(r[..n]);
    assert s.down.sent == Crypt(r[..n]);
    PrefixSound(r[..n], r, n);
  }

  lemma ServerWasAnswered(cfg: Settings, s: State)
    requires Inv(cfg, s) && FullyRead(cfg, s)
    ensures s.dest.DestDone? && !s.server.ServerIdle?
  {
  }

  lemma ReturnedCarriesWhole(p: seq<byte>, reply: cstring, clientIp: uint32)
    requires Carries(p, reply) && |reply| <= MAX_REPLY
    requires forall i :: 46 + |reply| <= i < PACKET ==> p[i] == 0
    ensures var r := AtServer(p, 46 + |reply|, 46 + |reply|, clientIp);
            StrLen(r[46..]) == |reply| && r[46..46 + |reply|] == reply
  {
    hide AtServer, StrLen;
    ReturnedCarries(p, reply, 46 + |reply|, clientIp);
    assert Cut(reply, 46 + |reply|) == reply;
  }

  lemma PrefixSound(p: seq<byte>, q: seq<byte>, k: nat)
    requires 46 <= k <= |q| && p == q[..k]
    ensures HeaderSound(p) == HeaderSound(q)
    ensures p[..6] == q[..6] && p[6..16] == q[6..16] && p[26..46] == q[26..46] && p[46..k] == q[46..k]
    ensures Get32(p, 18) == Get32(q, 18) && Get32(p, 22) == Get32(q, 22)
  {
    hide Get32, HeaderSound, SummedAsBuilt;
    PrefixFields(p, q, k);
    assert p[6..26] == q[6..26];
    SoundnessIsInHeader(p, q);
  }

  lemma ForwardLinkInFigures(cfg: Settings, s: byte, d: byte)
    requires |cfg.payload| < 128 && CollisionFree(cfg.payload)
    requires 1 <= s <= 7 && 1 <= d <= 7 && cfg.serverIp == Host(s).ip && cfg.destIp == Host(d).ip
    requires DestinationView(cfg, 46 + |cfg.payload|, PACKET - 6, ForwardedWhole(cfg)[6..])
    ensures ForwardedWhole(cfg)[6..]
         == [0x40, 0, 0, 148, 0, 0, 0, 0, 0, 6, 0xf9 - s - d, 0x17, s, 0, 0, 10, d, 0, 0, 10]
          + [0x43, 0xc6, 0x43, 0xc6, 0, 0, 0, 0, 0, 0, 0, 0, 0, 0x02, 0, 0, 0x71, 0x78, 0, 0]
          + cfg.payload + [0]
          + seq(127 - |cfg.payload|, i requires 0 <= i => [0x12, 0x34, 0x56, 0x78][(47 + |cfg.payload| + i) % 4])
  {
    hide ForwardedWhole, Parse, Host, CollisionFree, HeaderSound, Get32, TcpHeader, DestinationView;
    var q, n := ForwardedWhole(cfg), |cfg.payload|;
    ForwardedFields(cfg);
    ForwardedRest(cfg);
    TableRewritten(q, s, d, SYN, cfg.payload);
    Tail(q, n);
  }

  lemma Tail(q: seq<byte>, n: nat)
    requires |q| == 174 && n < 128 && q[46 + n] == 0
    requires forall i :: 47 + n <= i < 174 ==> q[i] == [0x12, 0x34, 0x56, 0x78][i % 4]
    ensures q[6..] == q[6..46 + n] + [0]
                    + seq(127 - n, i requires 0 <= i => [0x12, 0x34, 0x56, 0x78][(47 + n + i) % 4])
  {
  }

  lemma BackLinkInFigures(s: byte, d: byte, reply: cstring)
    requires 1 <= s <= 7 && 1 <= d <= 7 && |reply| <= MAX_REPLY
    ensures PlainPacket(Parse(Host(d).ip), Parse(Host(s).ip), TCP, reply, ACK)[6..][..46 + |reply|]
         == [0x40, 0, 0, 148, 0, 0, 0, 0, 0, 6, 0x51, 0xbf - d - s, d, 0, 0, 10, s, 0, 0, 10]
          + [0x43, 0xc6, 0x43, 0xc6, 0, 0, 0, 0, 0, 0, 0, 0, 0, 0x16, 0, 0, 0x5d, 0x78, 0, 0]
          + reply + [0, 0, 0, 0, 0, 0]
  {
    hide PlainPacket, Parse, Host;
    TablePlain(d, s, reply, ACK);
    var p := PlainPacket(Parse(Host(d).ip), Parse(Host(s).ip), TCP, reply, ACK);
    SixZeros(p, 46 + |reply|);
    assert p[6..46 + |reply|] == p[..46 + |reply|][6..];
  }

  lemma SixZeros(p: seq<byte>, k: nat)
    requires |p| == PACKET && 6 <= k <= PACKET - 6 && forall i :: k <= i < PACKET ==> p[i] == 0
    ensures p[6..][..k] == p[6..k] + [0, 0, 0, 0, 0, 0]
  {
  }

  lemma DownLinkInFigures(cfg: Settings, c: byte, d: byte, acts: seq<Action>)
    requires FullyRead(cfg, Run(cfg, acts))
    requires 1 <= c <= 7 && 1 <= d <= 7 && cfg.clientIp == Host(c).ip && cfg.destIp == Host(d).ip
    ensures Crypt(Run(cfg, acts).down.sent)
         == [0x00, 0x01, 0x08, 0x00, 0xfe, 0xf7]
          + [0x40, 0, 0, 148, 0, 0, 0, 0, 0, 6, 0xf9 - d - c, 0x17, d, 0, 0, 10, c, 0, 0, 10]
          + [0x43, 0xc6, 0x43, 0xc6, 0, 0, 0, 0, 0, 0, 0, 0, 0, 0x16, 0, 0, 0x5d, 0x78, 0, 0]
          + cfg.reply
  {
    hide Run, Parse, Host, HeaderSound, Get32, TcpHeader, Crypt;
    DownLinkIs(cfg, acts);
    var q := Crypt(Run(cfg, acts).down.sent);
    TableRewritten(q, d, c, ACK, cfg.reply);
    assert q == q[..6] + q[6..46 + |cfg.reply|];
  }

  /** What hosts `c`, `s` and `d` of the table put on the four links in any run in which every message
      is read whole: the request and the response, deciphered, and the two packets in the clear. The
      forwarded packet ends in a NUL and in key bytes, where nothing arrived at the server. */
  lemma TableSessionOnTheWire(c: byte, s: byte, d: byte, payload: cstring, reply: cstring, acts: seq<Action>)
    requires ThreeHosts(c, s, d)
    requires |payload| < 128 && |reply| <= MAX_REPLY && CollisionFree(payload)
    requires FullyRead(TableConfig(c, s, d, payload, reply), Run(TableConfig(c, s, d, payload, reply), acts))
    ensures Crypt(Run(TableConfig(c, s, d, payload, reply), acts).up.sent)
         == [0x00, 0x01, 0x08, 0x00, 0xfe, 0xf7]
          + [0x40, 0, 0, 148, 0, 0, 0, 0, 0, 6, 0x51, 0xbf - c - d, c, 0, 0, 10, d, 0, 0, 10]
          + [0x43, 0xc6, 0x43, 0xc6, 0, 0, 0, 0, 0, 0, 0, 0, 0, 0x02, 0, 0, 0x71, 0x78, 0, 0]
          + payload
    ensures Run(TableConfig(c, s, d, payload, reply), acts).forward.sent
         == [0x40, 0, 0, 148, 0, 0, 0, 0, 0, 6, 0xf9 - s - d, 0x17, s, 0, 0, 10, d, 0, 0, 10]
          + [0x43, 0xc6, 0x43, 0xc6, 0, 0, 0, 0, 0, 0, 0, 0, 0, 0x02, 0, 0, 0x71, 0x78, 0, 0]
          + payload + [0]
          + seq(127 - |payload|, i requires 0 <= i => [0x12, 0x34, 0x56, 0x78][(47 + |payload| + i) % 4])
    ensures Run(TableConfig(c, s, d, payload, reply), acts).back.sent
         == [0x40, 0, 0, 148, 0, 0, 0, 0, 0, 6, 0x51, 0xbf - d - s, d, 0, 0, 10, s, 0, 0, 10]
          + [0x43, 0xc6, 0x43, 0xc6, 0, 0, 0, 0, 0, 0, 0, 0, 0, 0x16, 0, 0, 0x5d, 0x78, 0, 0]
          + reply + [0, 0, 0, 0, 0, 0]
    ensures Crypt(Run(TableConfig(c, s, d, payload, reply), acts).down.sent)
         == [0x00, 0x01, 0x08, 0x00, 0xfe, 0xf7]
          + [0x40, 0, 0, 148, 0, 0, 0, 0, 0, 6, 0xf9 - d - c, 0x17, d, 0, 0, 10, c, 0, 0, 10]
          + [0x43, 0xc6, 0x43, 0xc6, 0, 0, 0, 0, 0, 0, 0, 0, 0, 0x16, 0, 0, 0x5d, 0x78, 0, 0]
          + reply
  {
    hide Run, Parse, Host, FullyRead, CollisionFree, Crypt, PlainPacket, Request, ForwardedWhole, DestinationView;
    var cfg := TableConfig(c, s, d, payload, reply);
    RequestWasSent(cfg, acts);
    UpLinkInFigures(c, d, payload);
    ForwardLinkIs(cfg, acts);
    ForwardLinkInFigures(cfg, s, d);
    assert Run(cfg, acts).forward.sent == (GRE_HEADER + Run(cfg, acts).forward.sent)[6..];
    BackLinkIs(cfg, acts);
    BackLinkInFigures(s, d, reply);
    DownLinkInFigures(cfg, c, d, acts);
  }

  lemma RequestWasSent(cfg: Settings, acts: seq<Action>)
    requires FullyRead(cfg, Run(cfg, acts))
    ensures Run(cfg, acts).up.sent == Request(cfg.clientIp, cfg.destIp, cfg.payload)
  {
    hide Run, Request, Distinct, Forwarded, Reply, Response, Opened, Padded, Dialed, SavedClient;
    RunKeepsInv(cfg, acts);
  }
}
