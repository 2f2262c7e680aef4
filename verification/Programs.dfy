/** The sessions the three programs actually hold: hosts of the table, the two fixed texts, and what
    becomes of other texts and of the headers in use. */
module Programs {
  import opened Bytes
  import opened Checksum
  import opened ChecksumLaws
  import opened Cipher
  import opened CStrings
  import opened Address
  import opened Hosts
  import opened Packet
  import opened SumConventions
  import opened Tunnel
  import opened Client
  import opened Server
  import opened Destination
  import opened Session
  import opened SessionLaws
  import opened ReplyLaws
  import opened Progress
  import opened EndToEnd
  import opened Wrappers

  // ----- table hosts

  /** Where the client program sends a request, the configuration is one to which all the laws apply. */
  lemma SendingClientsQualify(clientName: cstring, serverName: cstring, destName: cstring,
                              payload: cstring, reply: cstring)
    requires |payload| <= MAX_PAYLOAD && |reply| <= MAX_REPLY
    ensures var c, s, d := HostIp(HOSTS, clientName), HostIp(HOSTS, serverName), HostIp(HOSTS, destName);
            c.Some? && s.Some? && d.Some? ==> ValidConfig(Config(c.value, s.value, d.value, payload, reply))
  {
    hide Canonical, HOSTS, HostIp;
    HostIpsAreCanonical(clientName);
    HostIpsAreCanonical(serverName);
    HostIpsAreCanonical(destName);
  }

  predicate ThreeHosts(c: byte, s: byte, d: byte) {
    1 <= c <= 7 && 1 <= s <= 7 && 1 <= d <= 7 && c != s && c != d && s != d
  }

  /** A session between three hosts of the table. */
  function TableConfig(c: byte, s: byte, d: byte, payload: cstring, reply: cstring): Settings
    requires ThreeHosts(c, s, d)
    requires |payload| <= MAX_PAYLOAD && |reply| <= MAX_REPLY
  {
    Config(Host(c).ip, Host(s).ip, Host(d).ip, payload, reply)
  }

  /** Any three different hosts of the table are found by name, pass the client's guard and form a
      valid configuration. */
  lemma TableSessionsQualify(c: byte, s: byte, d: byte, payload: cstring, reply: cstring)
    requires ThreeHosts(c, s, d)
    requires |payload| <= MAX_PAYLOAD && |reply| <= MAX_REPLY
    ensures var cfg := TableConfig(c, s, d, payload, reply);
            && HostIp(HOSTS, Host(c).name) == Some(cfg.clientIp)
            && HostIp(HOSTS, Host(s).name) == Some(cfg.serverIp)
            && HostIp(HOSTS, Host(d).name) == Some(cfg.destIp)
            && Distinct(cfg.clientIp, cfg.serverIp, cfg.destIp)
            && ValidConfig(cfg)
  {
    hide Canonical, HOSTS, HostIp;
    TableLookup(c);
    TableLookup(s);
    TableLookup(d);
    assert Host(c).ip[7] != Host(s).ip[7] && Host(c).ip[7] != Host(d).ip[7] && Host(s).ip[7] != Host(d).ip[7];
    SendingClientsQualify(Host(c).name, Host(s).name, Host(d).name, payload, reply);
  }

  // ----- the texts

  /** A text without any key character has no collision. */
  lemma NoKeyCharacterNoCollision(s: string)
    requires forall i :: 0 <= i < |s| ==> 0 < s[i] as int < 0x80
    requires forall i :: 0 <= i < |s| ==> s[i] != 'V' && s[i] != 'x' && s[i] != '4' && s[i] as int != 0x12
    ensures CollisionFree(Ascii(s))
  {
    forall i | 0 <= i < |s|
      ensures !Collides(Ascii(s), i)
    {
      assert KeyByte(46 + i) == 0x12 || KeyByte(46 + i) == 0x34 || KeyByte(46 + i) == 0x56 || KeyByte(46 + i) == 0x78;
      assert Ascii(s)[i] == s[i] as int;
    }
  }

  lemma ProgramTextsAreFree()
    ensures CollisionFree(REQUEST_TEXT) && CollisionFree(RESPONSE_TEXT)
    ensures |REQUEST_TEXT| == 7 && |RESPONSE_TEXT| == 26
    ensures REQUEST_TEXT == Ascii("payload") && RESPONSE_TEXT == Ascii("Hello from the other side!")
  {
    hide CollisionFree;
    NoKeyCharacterNoCollision("payload");
    NoKeyCharacterNoCollision("Hello from the other side!");
  }

  /** Any three different hosts of the table exchange exactly the two texts of the programs, in every
      run in which each message is read whole; and there is such a run. */
  lemma TableHostsExchangeTexts(c: byte, s: byte, d: byte, acts: seq<Action>)
    requires ThreeHosts(c, s, d)
    ensures |REQUEST_TEXT| <= MAX_PAYLOAD && |RESPONSE_TEXT| <= MAX_REPLY
    ensures REQUEST_TEXT == Ascii("payload") && RESPONSE_TEXT == Ascii("Hello from the other side!")
    ensures var cfg := TableConfig(c, s, d, REQUEST_TEXT, RESPONSE_TEXT);
            && FullyRead(cfg, Run(cfg, FULL_RUN))
            && (FullyRead(cfg, Run(cfg, acts)) ==>
                  TextsRead(Run(cfg, acts), REQUEST_TEXT, RESPONSE_TEXT))
  {
    hide CollisionFree, Run, FULL_RUN, FullyRead, Distinct, StrLen, Kept, ValidConfig, HOSTS, HostIp;
    hide REQUEST_TEXT, RESPONSE_TEXT;
    ProgramTextsAreFree();
    TableSessionsQualify(c, s, d, REQUEST_TEXT, RESPONSE_TEXT);
    var cfg := TableConfig(c, s, d, REQUEST_TEXT, RESPONSE_TEXT);
    FullRunCompletes(cfg);
    if FullyRead(cfg, Run(cfg, acts)) {
      ReadTexts(cfg, acts);
    }
  }

  /** The texts the destination and the client end up with. */
  predicate TextsRead(s: State, atDestination: cstring, atClient: cstring) {
    && s.dest.DestDone? && |s.dest.packet| == PACKET - 6 && CStr(s.dest.packet[40..]) == atDestination
    && s.client.ClientDone? && |s.client.packet| == PACKET && CStr(s.client.packet[46..]) == atClient
  }

  lemma ReadTexts(cfg: Settings, acts: seq<Action>)
    requires FullyRead(cfg, Run(cfg, acts))
    ensures TextsRead(Run(cfg, acts), Kept(Clip(cfg.payload)), Kept(cfg.reply))
    ensures |cfg.payload| < MAX_PAYLOAD && CollisionFree(cfg.payload) ==> Kept(Clip(cfg.payload)) == cfg.payload
    ensures CollisionFree(cfg.reply) ==> Kept(cfg.reply) == cfg.reply
  {
    hide CollisionFree, Run, StrLen, Kept;
    EndToEndDelivery(cfg, acts);
  }

  // ----- a text that is lost

  /** A message starting with `V`, the key byte at the first payload offset, arrives as nothing. */
  lemma LeadingVKeepsNothing(text: cstring)
    requires |text| > 0 && text[0] == 0x56
    ensures !CollisionFree(text) && Kept(text) == []
  {
    assert Collides(text, 0);
  }

  /** Any three different hosts of the table, the payload "V", everything delivered: the destination
      ends up with the empty text. */
  lemma PayloadVIsLost(c: byte, s: byte, d: byte)
    requires ThreeHosts(c, s, d)
    ensures var cfg := TableConfig(c, s, d, [0x56], RESPONSE_TEXT);
            && FullyRead(cfg, Run(cfg, FULL_RUN))
            && TextsRead(Run(cfg, FULL_RUN), [], RESPONSE_TEXT)
  {
    hide CollisionFree, Run, FULL_RUN, FullyRead, Distinct, StrLen, Kept, ValidConfig, HOSTS, HostIp;
    hide RESPONSE_TEXT;
    ProgramTextsAreFree();
    TableSessionsQualify(c, s, d, [0x56], RESPONSE_TEXT);
    var cfg := TableConfig(c, s, d, [0x56], RESPONSE_TEXT);
    FullRunCompletes(cfg);
    ReadTexts(cfg, FULL_RUN);
    LeadingVKeepsNothing([0x56]);
  }

  // ----- the headers in use

  /** The number of the table's host `k`. */
  function HostNumber(k: byte): uint32
    requires 1 <= k <= 7
  {
    0x0a00_0000 + k as int
  }

  lemma HostNumberIs(k: byte)
    requires 1 <= k <= 7
    ensures Parse(Host(k).ip) == HostNumber(k)
  {
    var ten, zero, last := Decimal(10), Decimal(0), Decimal(k);
    DecimalIsOctetText(10);
    DecimalIsOctetText(0);
    DecimalIsOctetText(k);
    hide IsOctetText, Parse, OctetValue;
    assert Host(k).ip == Dotted(ten, zero, zero, last);
    ParseOfDotted(ten, zero, zero, last);
  }

  lemma HostBytes(k: byte)
    requires 1 <= k <= 7
    ensures HostOrder(HostNumber(k)) == [k, 0, 0, 10]
  {
    Digits32(HostNumber(k), k, 0, 0, 10);
  }

  lemma TableWordSum(c: byte, d: byte)
    requires 1 <= c <= 7 && 1 <= d <= 7
    ensures WordSum(IpUnsummed(HostNumber(c), HostNumber(d), TCP, 128)) == 16558 + 0x100 * (c as int + d)
    ensures WordSum(HostOrder(HostNumber(c)) + HostOrder(HostNumber(d))) == 20 + 0x100 * (c as int + d)
  {
    HostBytes(c);
    HostBytes(d);
    hide HostOrder, HostNumber;
    WordSumOf20(IpUnsummed(HostNumber(c), HostNumber(d), TCP, 128));
    var a: seq<byte> := [c, 0, 0, 10] + [d, 0, 0, 10];
    assert a[2..] == [0, 10, d, 0, 0, 10] && a[2..][2..] == [d, 0, 0, 10] && a[2..][2..][2..] == [0, 10];
    WordSumStep(a);
    WordSumStep(a[2..]);
    WordSumStep(a[2..][2..]);
    WordSumStep(a[2..][2..][2..]);
    WordSumOfNothing(a[2..][2..][2..][2..]);
  }

  lemma NeverMultiple(n: nat)
    requires n <= 14
    ensures (16558 + 0x100 * n) % 257 != 0 && (168 + 0x100 * n) % 257 != 0
  {
  }

  /** No IP header the programs build between hosts of the table verifies as stored. */
  lemma TableHeadersNeverVerify(c: byte, d: byte)
    requires 1 <= c <= 7 && 1 <= d <= 7
    ensures CksumOf(IpHeader(Parse(Host(c).ip), Parse(Host(d).ip), TCP, 128)) != 0xffff
  {
    hide Parse, Host, HostNumber, CksumOf, WordSum, IpHeader, IpUnsummed, HostOrder, PlainPacket, Get32;
    hide SourceRewritten;
    HostNumberIs(c);
    HostNumberIs(d);
    TableWordSum(c, d);
    NeverMultiple(c as int + d);
    BuiltHeaderVerifiesIff(Parse(Host(c).ip), Parse(Host(d).ip), TCP, 128);
  }

  /** No packet the programs build between hosts of the table survives a rewrite to its own source
      unchanged. */
  lemma TableRewritesNeverNeutral(c: byte, d: byte, payload: cstring, flags: byte)
    requires 1 <= c <= 7 && 1 <= d <= 7
    ensures var src, dst := Parse(Host(c).ip), Parse(Host(d).ip);
            var p := PlainPacket(src, dst, TCP, payload, flags);
            Get32(p, 18) == src && SourceRewritten(p, src) != p
  {
    hide Parse, Host, HostNumber, CksumOf, WordSum, IpHeader, IpUnsummed, HostOrder, PlainPacket, Get32;
    hide SourceRewritten;
    HostNumberIs(c);
    HostNumberIs(d);
    TableWordSum(c, d);
    NeverMultiple(c as int + d);
    NeutralRewriteOfBuiltIff(Parse(Host(c).ip), Parse(Host(d).ip), payload, flags);
  }

  // ----- sessions that go astray

  /** The address whose stored bytes are the key bytes at offsets 22 to 25. */
  const KEY_ADDRESS: uint32 := 0x3412_7856

  /** A read of at most 22 bytes takes the key for the address, whatever the address. */
  lemma UnreadAddressIsKey(addr: uint32, n: nat)
    requires n <= 22
    ensures ReadAddress(addr, 22, n) == KEY_ADDRESS
    ensures ReadsRight(addr, 22, n) <==> addr == KEY_ADDRESS
  {
    hide HostOrder, ReadsRight;
    ReadsRightIff(addr, 22, n);
  }

  /** In every run in which the server read no byte of the destination address it dialed the key; that
      is right exactly for the destination with that address. */
  lemma ShortReadDialsKey(cfg: Settings, acts: seq<Action>)
    requires ValidConfig(cfg)
    ensures var s := Run(cfg, acts);
            !s.server.ServerIdle? && s.server.took <= 22 ==>
              && s.server.dialed == Ascii("52.18.120.86")
              && (s.server.dialed == cfg.destIp <==> Parse(cfg.destIp) == KEY_ADDRESS)
  {
    hide Run, Parse, Print, ReadAddress, ReadsRight, ValidConfig;
    var s := Run(cfg, acts);
    DialsTheChosenDestination(cfg, acts);
    PrintInFigures(52, 18, 120, 86);
    KeyText();
    if !s.server.ServerIdle? && s.server.took <= 22 {
      UnreadAddressIsKey(Parse(cfg.destIp), s.server.took);
    }
  }

  lemma KeyText()
    ensures Figures(52) + [0x2e] + Figures(18) + [0x2e] + Figures(120) + [0x2e] + Figures(86) == Ascii("52.18.120.86")
  {
  }

  /** A host of the table is read right exactly when its whole address has arrived. */
  lemma HostReadsRightIff(d: byte, n: nat)
    requires 1 <= d <= 7
    ensures ReadsRight(Parse(Host(d).ip), 22, n) <==> n >= 26
  {
    hide Parse, Host, HostOrder, HostNumber;
    HostNumberIs(d);
    HostBytes(d);
    if n < 26 {
      assert HostOrder(HostNumber(d))[3] == 10 && KeyByte(22 + 3) == 0x34;
    }
  }

  /** Between hosts of the table, after any run, the full schedule gets the client answered exactly when
      the server has not read yet, or has read at least 26 bytes and connected. */
  lemma TableProgressIff(c: byte, s: byte, d: byte, payload: cstring, reply: cstring, acts: seq<Action>)
    requires ThreeHosts(c, s, d)
    requires |payload| <= MAX_PAYLOAD && |reply| <= MAX_REPLY
    ensures var cfg := TableConfig(c, s, d, payload, reply);
            var r := Run(cfg, acts);
            Answered(Run(cfg, acts + FULL_RUN)) <==> r.server.ServerIdle? || (Connected(r) && r.server.took >= 26)
  {
    hide Run, FULL_RUN, ReadsRight, Parse, Host, ValidConfig, Distinct, HOSTS, HostIp;
    var cfg := TableConfig(c, s, d, payload, reply);
    var r := Run(cfg, acts);
    TableSessionsQualify(c, s, d, payload, reply);
    NoScheduleWedges(cfg, acts);
    if !r.server.ServerIdle? {
      HostReadsRightIff(d, r.server.took);
    }
  }

  /** And after a shorter read no continuation whatever does. */
  lemma ShortReadNeverCompletes(c: byte, s: byte, d: byte, payload: cstring, reply: cstring,
                                acts: seq<Action>, more: seq<Action>)
    requires ThreeHosts(c, s, d)
    requires |payload| <= MAX_PAYLOAD && |reply| <= MAX_REPLY
    ensures var cfg := TableConfig(c, s, d, payload, reply);
            var r := Run(cfg, acts);
            !r.server.ServerIdle? && r.server.took < 26 ==>
              var t := Run(cfg, acts + more); !Answered(t) && t.down.sent == [] && t.dest.DestIdle?
  {
    hide Run, ReadsRight, Parse, Host, ValidConfig, Distinct, HOSTS, HostIp;
    var cfg := TableConfig(c, s, d, payload, reply);
    var r := Run(cfg, acts);
    TableSessionsQualify(c, s, d, payload, reply);
    OffCourseIsFinal(cfg, acts, more);
    if !r.server.ServerIdle? {
      HostReadsRightIff(d, r.server.took);
    }
  }

  /** Every short read happens: the network may have delivered any number of bytes when the server reads. */
  lemma ShortReadHappens(cfg: Settings, n: nat)
    requires Distinct(cfg.clientIp, cfg.serverIp, cfg.destIp)
    requires 1 <= n <= 46 + |cfg.payload|
    ensures var s := Run(cfg, [ClientStarts, Delivers(Up, n), ServerForwards]);
            !s.server.ServerIdle? && s.server.took == n
  {
    hide Step, Distinct, Request, SavedClient, Dialed, Forwarded, Reply, Response, Opened, Padded, RunFrom;
    var acts := [ClientStarts, Delivers(Up, n), ServerForwards];
    assert acts == ([] + [ClientStarts] + [Delivers(Up, n)]) + [ServerForwards];
    RunFromSnoc(cfg, START, [], ClientStarts);
    RunFromSnoc(cfg, START, [] + [ClientStarts], Delivers(Up, n));
    RunFromSnoc(cfg, START, [] + [ClientStarts] + [Delivers(Up, n)], ServerForwards);
    BytesRead(cfg, n);
    RunFromNothing(cfg, START);
  }

  lemma BytesRead(cfg: Settings, n: nat)
    requires Distinct(cfg.clientIp, cfg.serverIp, cfg.destIp)
    requires 1 <= n <= 46 + |cfg.payload|
    ensures var s := Step(cfg, Step(cfg, Step(cfg, START, ClientStarts), Delivers(Up, n)), ServerForwards);
            !s.server.ServerIdle? && s.server.took == n
  {
    hide Distinct, Request, SavedClient, Dialed, Forwarded, Reply, Response, Opened, Padded;
  }
}
