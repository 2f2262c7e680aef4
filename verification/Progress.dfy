/** Progress: which runs can be completed, and one schedule that completes all of them. */
module Progress {
  import opened CStrings
  import opened Address
  import opened Packet
  import opened Tunnel
  import opened Client
  import opened Server
  import opened Destination
  import opened Session
  import opened SessionLaws
  import opened ReplyLaws

  /** Every program moves once, and the network delivers everything in between: to the destination,
      and back to the client. */
  const THERE: seq<Action> :=
    [ClientStarts, Delivers(Up, PACKET), ServerForwards, Delivers(Forward, PACKET), DestReplies]
  const AND_BACK: seq<Action> := [Delivers(Back, PACKET), ServerReturns, Delivers(Down, PACKET), ClientReads]
  const FULL_RUN: seq<Action> := THERE + AND_BACK

  /** The server has not read yet; or its `connect` succeeded and every destination address byte it did
      not read is the key byte at its place. */
  predicate OnCourse(cfg: Settings, s: State) {
    s.server.ServerIdle? || (Connected(s) && ReadsRight(Parse(cfg.destIp), 22, s.server.took))
  }

  // ----- the server reads and connects once

  lemma StepKeepsRead(cfg: Settings, s: State, a: Action)
    requires LinksValid(s) && !s.server.ServerIdle?
    ensures var t := Step(cfg, s, a);
            !t.server.ServerIdle? && t.server.took == s.server.took && Connected(t) == Connected(s)
  {
    hide Request, SavedClient, Dialed, Forwarded, Reply, Response, Opened, Padded, Distinct;
  }

  lemma {:induction false} RunKeepsRead(cfg: Settings, s: State, acts: seq<Action>)
    requires LinksValid(s) && !s.server.ServerIdle?
    ensures var t := RunFrom(cfg, s, acts);
            !t.server.ServerIdle? && t.server.took == s.server.took && Connected(t) == Connected(s)
    decreases |acts|
  {
    hide Step;
    if acts != [] {
      RunKeepsRead(cfg, s, acts[..|acts| - 1]);
      StepKeepsRead(cfg, RunFrom(cfg, s, acts[..|acts| - 1]), acts[|acts| - 1]);
    }
  }

  // ----- the full schedule from any reachable state

  lemma RunFromFour(cfg: Settings, s: State, a: Action, b: Action, c: Action, d: Action)
    requires LinksValid(s)
    ensures RunFrom(cfg, s, [a, b, c, d]) == Step(cfg, Step(cfg, Step(cfg, Step(cfg, s, a), b), c), d)
  {
    hide Step;
    assert [a, b, c, d] == [a, b, c] + [d] && [a, b, c] == [a, b] + [c] && [a, b] == [a] + [b] && [a] == [] + [a];
    RunFromSnoc(cfg, s, [a, b, c], d);
    RunFromSnoc(cfg, s, [a, b], c);
    RunFromSnoc(cfg, s, [a], b);
    RunFromSnoc(cfg, s, [], a);
  }

  /** The client has sent its request. */
  predicate Started(s: State) {
    s.client.ClientWaiting? || s.client.ClientDone?
  }

  lemma StartsOrStarted(cfg: Settings, s: State)
    requires LinksValid(s) && Inv(cfg, s) && Distinct(cfg.clientIp, cfg.serverIp, cfg.destIp)
    ensures var t := Step(cfg, s, ClientStarts);
            && Inv(cfg, t) && Started(t) && t.server == s.server && t.dest == s.dest
            && (s.client.ClientIdle? ==> t.client.ClientWaiting?)
  {
    hide Request, SavedClient, Dialed, Forwarded, Reply, Response, Opened, Padded, Distinct;
    hide ForwardInv, BackInv, DownInv;
    StepKeepsInv(cfg, s, ClientStarts);
  }

  lemma RequestArrives(cfg: Settings, s: State)
    requires LinksValid(s) && Inv(cfg, s) && Started(s)
    ensures var t := Step(cfg, s, Delivers(Up, PACKET));
            && Inv(cfg, t) && t.client == s.client && t.server == s.server && t.dest == s.dest
            && t.up.arrived == 46 + |cfg.payload|
  {
    hide Request, SavedClient, Dialed, Forwarded, Reply, Response, Opened, Padded, Distinct;
    hide ForwardInv, BackInv, DownInv;
    StepKeepsInv(cfg, s, Delivers(Up, PACKET));
  }

  lemma ServerConnects(cfg: Settings, s: State)
    requires ValidConfig(cfg) && LinksValid(s) && Inv(cfg, s) && OnCourse(cfg, s) && s.up.arrived == 46 + |cfg.payload|
    ensures var t := Step(cfg, s, ServerForwards);
            && Inv(cfg, t) && t.client == s.client && t.dest == s.dest
            && Connected(t) && t.server.dialed == cfg.destIp
            && (s.server.ServerIdle? ==> t.server.Relaying? && t.server.took == 46 + |cfg.payload|)
  {
    hide Inv, ValidConfig, Request, SavedClient, Dialed, Forwarded, Reply, Response, Opened, Padded, Distinct;
    hide ReadsRight, ReadAddress, Parse, Print;
    StepKeepsInv(cfg, s, ServerForwards);
    var t := Step(cfg, s, ServerForwards);
    DialedExactly(cfg, t);
    ReadsRightIff(Parse(cfg.destIp), 22, t.server.took);
  }

  lemma ForwardedArrives(cfg: Settings, s: State)
    requires LinksValid(s) && Inv(cfg, s) && Connected(s)
    ensures var t := Step(cfg, s, Delivers(Forward, PACKET));
            && Inv(cfg, t) && t.client == s.client && t.server == s.server && t.dest == s.dest
            && t.forward.arrived == PACKET - 6
            && (s.dest.DestIdle? ==> s.server.Relaying?)
  {
    hide Request, SavedClient, Dialed, Forwarded, Reply, Response, Opened, Padded, Distinct;
    hide UpInv, BackInv;
    StepKeepsInv(cfg, s, Delivers(Forward, PACKET));
  }

  lemma DestinationReplies(cfg: Settings, s: State)
    requires LinksValid(s) && Inv(cfg, s) && Connected(s) && s.server.dialed == cfg.destIp
    requires s.forward.arrived == PACKET - 6 && (s.dest.DestIdle? ==> s.server.Relaying?)
    ensures var t := Step(cfg, s, DestReplies);
            && Inv(cfg, t) && t.client == s.client && t.server == s.server && t.dest.DestDone?
            && (s.dest.DestIdle? ==> t.dest.took == PACKET - 6)
  {
    hide Inv, Request, SavedClient, Dialed, Forwarded, Reply, Response, Opened, Padded, Distinct;
    StepKeepsInv(cfg, s, DestReplies);
  }

  /** The first half brings the request to the destination. */
  lemma ReachesDestination(cfg: Settings, s: State)
    requires ValidConfig(cfg) && Distinct(cfg.clientIp, cfg.serverIp, cfg.destIp)
    requires LinksValid(s) && Inv(cfg, s) && OnCourse(cfg, s)
    ensures var t := RunFrom(cfg, s, THERE);
            && Inv(cfg, t) && t.dest.DestDone? && Started(t)
            && (s.server.ServerIdle? ==> t.server.Relaying? && t.server.took == 46 + |cfg.payload|)
            && (s.dest.DestIdle? ==> t.dest.took == PACKET - 6)
            && (s.client.ClientIdle? ==> t.client.ClientWaiting?)
  {
    hide Inv, Step, RunFrom, Distinct, ValidConfig;
    var four := [ClientStarts, Delivers(Up, PACKET), ServerForwards, Delivers(Forward, PACKET)];
    RunFromFour(cfg, s, ClientStarts, Delivers(Up, PACKET), ServerForwards, Delivers(Forward, PACKET));
    assert THERE == four + [DestReplies];
    RunFromSnoc(cfg, s, four, DestReplies);
    var s1 := Step(cfg, s, ClientStarts);
    var s2 := Step(cfg, s1, Delivers(Up, PACKET));
    var s3 := Step(cfg, s2, ServerForwards);
    StartsOrStarted(cfg, s);
    RequestArrives(cfg, s1);
    ServerConnects(cfg, s2);
    ForwardedArrives(cfg, s3);
    DestinationReplies(cfg, Step(cfg, s3, Delivers(Forward, PACKET)));
  }

  lemma ReplyArrives(cfg: Settings, s: State)
    requires LinksValid(s) && Inv(cfg, s) && s.dest.DestDone?
    ensures var t := Step(cfg, s, Delivers(Back, PACKET));
            && Inv(cfg, t) && t.client == s.client && t.server == s.server && t.dest == s.dest
            && t.back.arrived == 46 + |cfg.reply| && Connected(t)
  {
    hide Request, SavedClient, Dialed, Forwarded, Reply, Response, Opened, Padded, Distinct;
    hide UpInv, DownInv;
    StepKeepsInv(cfg, s, Delivers(Back, PACKET));
  }

  lemma ServerResponds(cfg: Settings, s: State)
    requires LinksValid(s) && Inv(cfg, s) && Connected(s) && s.back.arrived == 46 + |cfg.reply|
    ensures var t := Step(cfg, s, ServerReturns);
            && Inv(cfg, t) && t.client == s.client && t.dest == s.dest && t.server.ServerDone?
            && (s.server.Relaying? ==> t.server.took == s.server.took && t.server.tookBack == 46 + |cfg.reply|)
  {
    hide Inv, Request, SavedClient, Dialed, Forwarded, Reply, Response, Opened, Padded, Distinct;
    StepKeepsInv(cfg, s, ServerReturns);
  }

  lemma ResponseArrives(cfg: Settings, s: State)
    requires LinksValid(s) && Inv(cfg, s) && s.server.ServerDone?
    ensures var t := Step(cfg, s, Delivers(Down, PACKET));
            && t.client == s.client && t.server == s.server && t.dest == s.dest
            && t.down.arrived == 46 + |Cut(cfg.reply, s.server.tookBack)|
  {
    hide Inv, Request, SavedClient, Dialed, Forwarded, Response, Opened, Padded, Distinct, StrLen, ClientView;
    DownLink(cfg, s, 0);
  }

  lemma DoneMeansAnswered(cfg: Settings, s: State)
    requires Inv(cfg, s) && s.server.ServerDone? && s.client.ClientDone?
    ensures s.client.took > 0
  {
    hide Request, SavedClient, Dialed, Forwarded, Reply, Response, Opened, Padded, Distinct;
  }

  lemma ClientFinishes(cfg: Settings, s: State)
    requires LinksValid(s) && Started(s) && s.down.arrived > 0
    requires s.client.ClientDone? ==> s.client.took > 0
    ensures var t := Step(cfg, s, ClientReads);
            && Answered(t) && t.server == s.server && t.dest == s.dest
            && (s.client.ClientWaiting? ==> t.client.took == s.down.arrived)
  {
    hide Request, SavedClient, Dialed, Forwarded, Reply, Response, Opened, Padded, Distinct;
  }

  /** The second half brings the reply to the client. */
  lemma ReachesClient(cfg: Settings, s: State)
    requires LinksValid(s) && Inv(cfg, s) && s.dest.DestDone? && Started(s)
    ensures var t := RunFrom(cfg, s, AND_BACK);
            && Answered(t) && t.server.ServerDone? && t.dest == s.dest
            && (s.server.Relaying? ==> t.server.took == s.server.took && t.server.tookBack == 46 + |cfg.reply|)
            && (s.client.ClientWaiting? ==> t.client.took == 46 + |Cut(cfg.reply, t.server.tookBack)|)
  {
    hide Inv, Step, RunFrom, Cut;
    RunFromFour(cfg, s, Delivers(Back, PACKET), ServerReturns, Delivers(Down, PACKET), ClientReads);
    var s1 := Step(cfg, s, Delivers(Back, PACKET));
    var s2 := Step(cfg, s1, ServerReturns);
    ReplyArrives(cfg, s);
    ServerResponds(cfg, s1);
    ResponseArrives(cfg, s2);
    if s2.client.ClientDone? {
      DoneMeansAnswered(cfg, s2);
    }
    ClientFinishes(cfg, Step(cfg, s2, Delivers(Down, PACKET)));
  }

  // ----- the laws

  /** Once the server has read a wrong address or failed to connect, no continuation whatever brings the
      destination or the client a byte. */
  lemma OffCourseIsFinal(cfg: Settings, acts: seq<Action>, more: seq<Action>)
    requires ValidConfig(cfg)
    ensures !OnCourse(cfg, Run(cfg, acts)) ==>
              var t := Run(cfg, acts + more); !Answered(t) && t.down.sent == [] && t.dest.DestIdle?
  {
    hide Run, RunFrom, Inv, ValidConfig, ReadsRight, Parse, ReadAddress, Print;
    var s, t := Run(cfg, acts), Run(cfg, acts + more);
    if !OnCourse(cfg, s) {
      RunContinues(cfg, acts, more);
      RunKeepsInv(cfg, acts + more);
      RunKeepsRead(cfg, s, more);
      DialedExactly(cfg, t);
      NothingWithoutDestination(cfg, t);
    }
  }

  lemma NothingWithoutDestination(cfg: Settings, s: State)
    requires Inv(cfg, s) && !s.server.ServerIdle? && (s.server.dialed != cfg.destIp || !Connected(s))
    ensures s.dest.DestIdle? && s.down.sent == [] && !Answered(s)
  {
    hide Request, SavedClient, Dialed, Forwarded, Reply, Response, Opened, Padded, Distinct;
  }

  /** Whatever has happened so far, the full schedule gets the client answered exactly when the server is
      on course; in particular always when it is connected and has read at least 26 bytes of the
      request. */
  lemma NoScheduleWedges(cfg: Settings, acts: seq<Action>)
    requires ValidConfig(cfg) && Distinct(cfg.clientIp, cfg.serverIp, cfg.destIp)
    ensures Answered(Run(cfg, acts + FULL_RUN)) <==> OnCourse(cfg, Run(cfg, acts))
    ensures var s := Run(cfg, acts); Connected(s) && s.server.took >= 26 ==> OnCourse(cfg, s)
  {
    hide Inv, ValidConfig, Distinct, Run, RunFrom, THERE, AND_BACK, ReadsRight, Parse, ReadAddress;
    var s := Run(cfg, acts);
    if !s.server.ServerIdle? {
      ReadsRightIff(Parse(cfg.destIp), 22, s.server.took);
    }
    OffCourseIsFinal(cfg, acts, FULL_RUN);
    if OnCourse(cfg, s) {
      RunKeepsInv(cfg, acts);
      ReachesDestination(cfg, s);
      RunContinues(cfg, acts, THERE);
      ReachesClient(cfg, RunFrom(cfg, s, THERE));
      RunContinues(cfg, acts + THERE, AND_BACK);
      assert acts + (THERE + AND_BACK) == (acts + THERE) + AND_BACK;
    }
  }

  // ----- every combination of byte counts happens

  /** Each link brings exactly this many bytes before it is read. */
  function ReadsOf(n1: nat, n2: nat, n3: nat, n4: nat): seq<Action> {
    [ClientStarts, Delivers(Up, n1), ServerForwards, Delivers(Forward, n2)]
    + ([DestReplies, Delivers(Back, n3), ServerReturns, Delivers(Down, n4)] + [ClientReads])
  }

  lemma UpReadHappens(cfg: Settings, n: nat)
    requires Distinct(cfg.clientIp, cfg.serverIp, cfg.destIp) && 1 <= n <= 46 + |cfg.payload|
    ensures var s := Step(cfg, Step(cfg, Step(cfg, START, ClientStarts), Delivers(Up, n)), ServerForwards);
            && s.client.ClientWaiting? && s.server.Relaying? && s.server.took == n && s.dest.DestIdle?
            && |s.forward.sent| == PACKET - 6 && s.forward.arrived == 0
  {
    hide Distinct, Request, SavedClient, Dialed, Forwarded, Reply, Response, Opened, Padded;
  }

  lemma ForwardReadHappens(cfg: Settings, s: State, n: nat)
    requires LinksValid(s) && s.server.Relaying? && s.server.dialed == cfg.destIp && s.dest.DestIdle?
    requires |s.forward.sent| == PACKET - 6 && s.forward.arrived == 0 && 1 <= n <= PACKET - 6
    ensures var t := Step(cfg, Step(cfg, s, Delivers(Forward, n)), DestReplies);
            && t.client == s.client && t.server == s.server && t.dest.DestDone? && t.dest.took == n
            && |t.back.sent| == 46 + |cfg.reply| && t.back.arrived == 0
  {
    hide Distinct, Request, SavedClient, Dialed, Forwarded, Reply, Response, Opened, Padded;
  }

  lemma BackReadHappens(cfg: Settings, s: State, n: nat)
    requires LinksValid(s) && s.server.Relaying? && |s.back.sent| == 46 + |cfg.reply| && s.back.arrived == 0
    requires 1 <= n <= 46 + |cfg.reply|
    ensures var t := Step(cfg, Step(cfg, s, Delivers(Back, n)), ServerReturns);
            && t.client == s.client && t.dest == s.dest && t.server.ServerDone?
            && t.server.took == s.server.took && t.server.tookBack == n && t.down.arrived == 0
  {
    hide Distinct, Request, SavedClient, Dialed, Forwarded, Reply, Response, Opened, Padded;
  }

  lemma DownReadHappens(cfg: Settings, s: State, n: nat)
    requires LinksValid(s) && s.client.ClientWaiting? && s.down.arrived == 0 && 1 <= n <= |s.down.sent|
    ensures var t := Step(cfg, Step(cfg, s, Delivers(Down, n)), ClientReads);
            t.server == s.server && t.dest == s.dest && t.client.ClientDone? && t.client.took == n
  {
    hide Distinct, Request, SavedClient, Dialed, Forwarded, Reply, Response, Opened, Padded;
  }

  lemma RunOfNine(cfg: Settings, a: seq<Action>, b: seq<Action>, last: Action)
    requires |a| == 4 && |b| == 4
    ensures var s := Step(cfg, Step(cfg, Step(cfg, Step(cfg, START, a[0]), a[1]), a[2]), a[3]);
            Run(cfg, a + (b + [last]))
            == Step(cfg, Step(cfg, Step(cfg, Step(cfg, Step(cfg, s, b[0]), b[1]), b[2]), b[3]), last)
  {
    hide Step, RunFrom;
    assert a == [a[0], a[1], a[2], a[3]] && b == [b[0], b[1], b[2], b[3]];
    RunContinues(cfg, a, b + [last]);
    RunFromFour(cfg, START, a[0], a[1], a[2], a[3]);
    RunFromFour(cfg, Run(cfg, a), b[0], b[1], b[2], b[3]);
    RunFromSnoc(cfg, Run(cfg, a), b, last);
  }

  /** The laws about byte counts speak of runs that exist: any number of bytes may be read from each link
      in turn, as long as the server reads the right address. */
  lemma EveryReadHappens(cfg: Settings, n1: nat, n2: nat, n3: nat, n4: nat)
    requires ValidConfig(cfg) && Distinct(cfg.clientIp, cfg.serverIp, cfg.destIp)
    requires 1 <= n1 <= 46 + |cfg.payload| && ReadsRight(Parse(cfg.destIp), 22, n1)
    requires 1 <= n2 <= 168 && 1 <= n3 <= 46 + |cfg.reply| && 1 <= n4 <= 46 + |Cut(cfg.reply, n3)|
    ensures var s := Run(cfg, ReadsOf(n1, n2, n3, n4));
            && s.server.ServerDone? && s.server.took == n1 && s.dest.DestDone? && s.dest.took == n2
            && s.server.tookBack == n3 && s.client.ClientDone? && s.client.took == n4
  {
    hide Step, Run, RunFrom, Inv, ValidConfig, Distinct, ReadsRight, Parse, ReadAddress, Print, Cut, ClientView;
    hide StrLen, Padded, Opened;
    RunOfNine(cfg, [ClientStarts, Delivers(Up, n1), ServerForwards, Delivers(Forward, n2)],
              [DestReplies, Delivers(Back, n3), ServerReturns, Delivers(Down, n4)], ClientReads);
    var s2 := Step(cfg, Step(cfg, START, ClientStarts), Delivers(Up, n1));
    var s3 := Step(cfg, s2, ServerForwards);
    StartInv(cfg);
    StepKeepsInv(cfg, START, ClientStarts);
    StepKeepsInv(cfg, Step(cfg, START, ClientStarts), Delivers(Up, n1));
    StepKeepsInv(cfg, s2, ServerForwards);
    UpReadHappens(cfg, n1);
    DialedExactly(cfg, s3);
    var s4 := Step(cfg, s3, Delivers(Forward, n2));
    var s5 := Step(cfg, s4, DestReplies);
    StepKeepsInv(cfg, s3, Delivers(Forward, n2));
    StepKeepsInv(cfg, s4, DestReplies);
    ForwardReadHappens(cfg, s3, n2);
    var s6 := Step(cfg, s5, Delivers(Back, n3));
    var s7 := Step(cfg, s6, ServerReturns);
    StepKeepsInv(cfg, s5, Delivers(Back, n3));
    StepKeepsInv(cfg, s6, ServerReturns);
    BackReadHappens(cfg, s5, n3);
    DownLink(cfg, s7, 0);
    DownReadHappens(cfg, s7, n4);
  }

  // ----- a server that fails to connect, and a client that refuses

  lemma {:induction false} ClientMoves(cfg: Settings, acts: seq<Action>)
    ensures var s := Run(cfg, acts);
            && (s.client.ClientIdle? <==> ClientStarts !in acts)
            && (s.client.ClientRefused? ==> !Distinct(cfg.clientIp, cfg.serverIp, cfg.destIp))
            && (Started(s) ==> Distinct(cfg.clientIp, cfg.serverIp, cfg.destIp))
    decreases |acts|
  {
    hide Step, Distinct;
    if acts != [] {
      var init, last := acts[..|acts| - 1], acts[|acts| - 1];
      ClientMoves(cfg, init);
      assert acts == init + [last];
      ClientStep(cfg, Run(cfg, init), last);
    }
  }

  lemma ClientStep(cfg: Settings, s: State, a: Action)
    requires LinksValid(s)
    ensures var t, d := Step(cfg, s, a), Distinct(cfg.clientIp, cfg.serverIp, cfg.destIp);
            && (t.client.ClientIdle? <==> s.client.ClientIdle? && a != ClientStarts)
            && (t.client.ClientRefused?
                <==> s.client.ClientRefused? || (s.client.ClientIdle? && a == ClientStarts && !d))
            && (Started(t) <==> Started(s) || (s.client.ClientIdle? && a == ClientStarts && d))
  {
    hide Request, SavedClient, Dialed, Forwarded, Reply, Response, Opened, Padded, Distinct;
  }

  /** A client whose addresses are not pairwise different refuses once it starts: in no run is a byte sent
      on any link. */
  lemma RefusedSendsNothing(cfg: Settings, acts: seq<Action>)
    requires cfg.clientIp == cfg.serverIp || cfg.clientIp == cfg.destIp || cfg.serverIp == cfg.destIp
    ensures var s := Run(cfg, acts);
            && s.up.sent == [] && s.forward.sent == [] && s.back.sent == [] && s.down.sent == []
            && s.server.ServerIdle? && s.dest.DestIdle?
            && s.client == if ClientStarts in acts then ClientRefused else ClientIdle
  {
    hide Run, Request, SavedClient, Dialed, Forwarded, Reply, Response, Opened, Padded;
    RunKeepsInv(cfg, acts);
    ClientMoves(cfg, acts);
  }

  /** Wherever the server could forward, its `connect` can fail instead. */
  lemma ConnectCanFail(cfg: Settings, acts: seq<Action>)
    ensures var s := Run(cfg, acts);
            s.server.ServerIdle? && s.up.arrived > 0 ==>
              var t := Run(cfg, acts + [ConnectFails]);
              t.server.ServerFailed? && t.server.took == s.up.arrived && t.client == s.client && t.forward.sent == []
  {
    hide Run, RunFrom, Inv;
    var s := Run(cfg, acts);
    RunKeepsInv(cfg, acts + [ConnectFails]);
    RunContinues(cfg, acts, [ConnectFails]);
    RunFromSnoc(cfg, s, [], ConnectFails);
    RunFromNothing(cfg, s);
    assert [] + [ConnectFails] == [ConnectFails];
    if s.server.ServerIdle? && s.up.arrived > 0 {
      QuietBeforeForwarding(cfg, Run(cfg, acts + [ConnectFails]));
    }
  }

  lemma QuietBeforeForwarding(cfg: Settings, s: State)
    requires Inv(cfg, s) && !Connected(s)
    ensures s.forward.sent == []
  {
    hide Request, SavedClient, Dialed, Forwarded, Reply, Response, Opened, Padded, Distinct;
  }

  /** A client whose server failed to connect reads the end of the stream, and with it the empty text. */
  lemma FailedConnectEndsEmpty(cfg: Settings, acts: seq<Action>)
    ensures var s := Run(cfg, acts);
            s.server.ServerFailed? && s.client.ClientWaiting? ==>
              var t := Run(cfg, acts + [ClientReads]);
              && t.client == ClientDone(0, Opened([])) && CStr(Opened([])[46..]) == []
  {
    hide Run, RunFrom, Inv, StrLen, Opened;
    var s := Run(cfg, acts);
    RunKeepsInv(cfg, acts);
    RunContinues(cfg, acts, [ClientReads]);
    RunFromSnoc(cfg, s, [], ClientReads);
    RunFromNothing(cfg, s);
    assert [] + [ClientReads] == [ClientReads];
    NothingOpened();
    if s.server.ServerFailed? && s.client.ClientWaiting? {
      QuietAfterFailure(cfg, s);
      assert s.down.Arrived() == [];
    }
  }

  lemma RunFromNothing(cfg: Settings, s: State)
    requires LinksValid(s)
    ensures RunFrom(cfg, s, []) == s
  {
  }

  lemma QuietAfterFailure(cfg: Settings, s: State)
    requires Inv(cfg, s) && s.server.ServerFailed?
    ensures s.down == QUIET
  {
    hide Request, SavedClient, Dialed, Forwarded, Reply, Response, Opened, Padded, Distinct;
  }

  /** Every party has finished, and every read took all that was sent. */
  predicate FullyRead(cfg: Settings, s: State) {
    && s.client.ClientDone? && s.dest.DestDone? && s.server.ServerDone?
    && s.server.took == 46 + |cfg.payload| && s.dest.took == PACKET - 6
    && s.server.tookBack == 46 + |cfg.reply| && s.client.took == 46 + |cfg.reply|
  }

  /** From the start, the full schedule has every message read whole. */
  lemma FullRunCompletes(cfg: Settings)
    requires ValidConfig(cfg) && Distinct(cfg.clientIp, cfg.serverIp, cfg.destIp)
    ensures FullyRead(cfg, Run(cfg, FULL_RUN))
  {
    hide Inv, ValidConfig, Distinct, RunFrom, THERE, AND_BACK, Cut;
    StartInv(cfg);
    ReachesDestination(cfg, START);
    ReachesClient(cfg, RunFrom(cfg, START, THERE));
    RunContinues(cfg, THERE, AND_BACK);
    CutWhole(cfg.reply);
  }

  lemma CutWhole(text: cstring)
    ensures Cut(text, 46 + |text|) == text
  {
  }
}
