/** One VPN session as a state machine: three parties, four links, any interleaving. */
module Session {
  import opened Bytes
  import opened CStrings
  import opened Address
  import opened Packet
  import opened Client
  import opened Server
  import opened Destination

  datatype Config = Config(clientIp: cstring, serverIp: cstring, destIp: cstring, payload: cstring, reply: cstring)

  ghost predicate ValidConfig(cfg: Config) {
    && Canonical(cfg.clientIp) && Canonical(cfg.serverIp) && Canonical(cfg.destIp)
    && SizesFit(cfg)
  }

  predicate SizesFit(cfg: Config) {
    |cfg.payload| <= MAX_PAYLOAD && |cfg.reply| <= MAX_REPLY
  }

  type Settings = cfg: Config | SizesFit(cfg) witness Config([], [], [], [], [])

  /** A byte stream: what was sent, and how many of those bytes have arrived. */
  datatype Link = Link(sent: seq<byte>, arrived: nat) {
    predicate Valid() {
      arrived <= |sent|
    }

    function Arrived(): seq<byte>
      requires Valid()
    {
      sent[..arrived]
    }

    /** The network brings up to `k` more bytes. */
    function Advance(k: nat): (l: Link)
      ensures l.sent == sent && (Valid() ==> l.Valid())
    {
      Link(sent, if arrived + k <= |sent| then arrived + k else if arrived <= |sent| then |sent| else arrived)
    }
  }

  const QUIET: Link := Link([], 0)

  /** Each party remembers how many bytes its `recv` took. A server whose `connect` fails exits, which
      ends the client's stream without a byte. */
  datatype ClientState = ClientIdle | ClientRefused | ClientWaiting | ClientDone(took: nat, packet: seq<byte>)
  datatype ServerState =
    | ServerIdle
    | Relaying(took: nat, clientIp: uint32, dialed: cstring)
    | ServerDone(took: nat, clientIp: uint32, dialed: cstring, tookBack: nat)
    | ServerFailed(took: nat, clientIp: uint32, dialed: cstring)
  datatype DestState = DestIdle | DestDone(took: nat, packet: seq<byte>)

  datatype State = State(
    client: ClientState, server: ServerState, dest: DestState,
    up: Link, forward: Link, back: Link, down: Link)

  datatype Wire = Up | Forward | Back | Down

  /** The programs' moves are the methods ClientMainSend, ServerMainForward, DestinationMain,
      ServerMainReturn and ClientMainReceive; `ConnectFails` is the branch of the server that exits
      before sending. The network delivers bytes at any time. */
  datatype Action =
    | ClientStarts
    | Delivers(wire: Wire, k: nat)
    | ServerForwards
    | ConnectFails
    | DestReplies
    | ServerReturns
    | ClientReads

  const START: State := State(ClientIdle, ServerIdle, DestIdle, QUIET, QUIET, QUIET, QUIET)

  predicate LinksValid(s: State) {
    s.up.Valid() && s.forward.Valid() && s.back.Valid() && s.down.Valid()
  }

  /** `recv` blocks until a byte is there or the stream has ended. Any `connect` of the server may fail;
      one that succeeds reaches the destination when the address text dialed is the destination's, and
      otherwise some host that does not answer. */
  predicate Enabled(cfg: Settings, s: State, a: Action)
    requires LinksValid(s)
  {
    match a
    case ClientStarts => s.client.ClientIdle?
    case Delivers(_, _) => true
    case ServerForwards | ConnectFails => s.server.ServerIdle? && s.up.arrived > 0
    case DestReplies =>
      s.dest.DestIdle? && s.server.Relaying? && s.server.dialed == cfg.destIp && s.forward.arrived > 0
    case ServerReturns => s.server.Relaying? && s.back.arrived > 0
    case ClientReads => s.client.ClientWaiting? && (s.down.arrived > 0 || s.server.ServerFailed?)
  }

  /** One action; a disabled one changes nothing. */
  function Step(cfg: Settings, s: State, a: Action): (t: State)
    requires LinksValid(s)
    ensures LinksValid(t)
  {
    if !Enabled(cfg, s, a) then s else
    match a
    case ClientStarts =>
      if Distinct(cfg.clientIp, cfg.serverIp, cfg.destIp)
      then s.(client := ClientWaiting, up := Link(Request(cfg.clientIp, cfg.destIp, cfg.payload), 0))
      else s.(client := ClientRefused)
    case Delivers(w, k) => (
      match w
      case Up => s.(up := s.up.Advance(k))
      case Forward => s.(forward := s.forward.Advance(k))
      case Back => s.(back := s.back.Advance(k))
      case Down => s.(down := s.down.Advance(k)))
    case ServerForwards =>
      var link := s.up.Arrived();
      s.(server := Relaying(s.up.arrived, SavedClient(link), Dialed(link)),
         forward := Link(Forwarded(link, cfg.serverIp), 0))
    case ConnectFails =>
      var link := s.up.Arrived();
      s.(server := ServerFailed(s.up.arrived, SavedClient(link), Dialed(link)))
    case DestReplies =>
      var link := s.forward.Arrived();
      s.(dest := DestDone(s.forward.arrived, Padded(link, PACKET - 6)),
         back := Link(Reply(link, cfg.destIp, cfg.reply), 0))
    case ServerReturns =>
      s.(server := ServerDone(s.server.took, s.server.clientIp, s.server.dialed, s.back.arrived),
         down := Link(Response(s.back.Arrived(), s.server.clientIp), 0))
    case ClientReads =>
      s.(client := ClientDone(s.down.arrived, Opened(s.down.Arrived())))
  }

  /** The state after any sequence of actions from a given state. */
  function RunFrom(cfg: Settings, s: State, acts: seq<Action>): (t: State)
    requires LinksValid(s)
    ensures LinksValid(t)
    decreases |acts|
  {
    if acts == [] then s
    else Step(cfg, RunFrom(cfg, s, acts[..|acts| - 1]), acts[|acts| - 1])
  }

  /** The state after any sequence of actions. */
  function Run(cfg: Settings, acts: seq<Action>): (s: State)
    ensures LinksValid(s)
  {
    RunFrom(cfg, START, acts)
  }

  lemma RunFromSnoc(cfg: Settings, s: State, acts: seq<Action>, a: Action)
    requires LinksValid(s)
    ensures RunFrom(cfg, s, acts + [a]) == Step(cfg, RunFrom(cfg, s, acts), a)
  {
    hide Step;
    assert (acts + [a])[..|acts|] == acts;
  }

  /** A run can be cut anywhere and continued from there. */
  lemma {:induction false} RunContinues(cfg: Settings, acts: seq<Action>, more: seq<Action>)
    ensures Run(cfg, acts + more) == RunFrom(cfg, Run(cfg, acts), more)
    decreases |more|
  {
    hide Step;
    if more == [] {
      assert acts + more == acts;
    } else {
      var init, last := more[..|more| - 1], more[|more| - 1];
      RunContinues(cfg, acts, init);
      assert acts + more == (acts + init) + [last];
      RunFromSnoc(cfg, START, acts + init, last);
    }
  }

  // ----- the invariant: every buffer is determined by the configuration and the byte counts

  predicate UpInv(cfg: Settings, s: State) {
    && (s.client.ClientIdle? || s.client.ClientRefused? ==> s.up == QUIET)
    && (s.client.ClientRefused? ==> !Distinct(cfg.clientIp, cfg.serverIp, cfg.destIp))
    && (s.client.ClientWaiting? || s.client.ClientDone? ==>
          && Distinct(cfg.clientIp, cfg.serverIp, cfg.destIp)
          && s.up.sent == Request(cfg.clientIp, cfg.destIp, cfg.payload))
  }

  /** The server has connected somewhere and forwarded the request. */
  predicate Connected(s: State) {
    s.server.Relaying? || s.server.ServerDone?
  }

  predicate ForwardInv(cfg: Settings, s: State) {
    && (!Connected(s) ==> s.forward == QUIET)
    && (!s.server.ServerIdle? ==>
          && s.server.took <= |s.up.sent|
          && 0 < |s.up.sent|
          && var link := s.up.sent[..s.server.took];
             && s.server.clientIp == SavedClient(link) && s.server.dialed == Dialed(link)
             && (Connected(s) ==> s.forward.sent == Forwarded(link, cfg.serverIp)))
  }

  predicate BackInv(cfg: Settings, s: State) {
    && (s.dest.DestIdle? ==> s.back == QUIET)
    && (s.dest.DestDone? ==>
          && s.dest.took <= |s.forward.sent|
          && Connected(s)
          && s.server.dialed == cfg.destIp
          && var link := s.forward.sent[..s.dest.took];
             s.dest.packet == Padded(link, PACKET - 6) && s.back.sent == Reply(link, cfg.destIp, cfg.reply))
  }

  predicate DownInv(cfg: Settings, s: State) {
    && (!s.server.ServerDone? ==> s.down == QUIET)
    && (s.server.ServerDone? ==>
          && s.dest.DestDone?
          && s.server.tookBack <= |s.back.sent|
          && s.down.sent == Response(s.back.sent[..s.server.tookBack], s.server.clientIp))
    && (s.client.ClientDone? ==>
          && (s.server.ServerDone? || s.server.ServerFailed?)
          && s.client.took <= |s.down.sent|
          && (s.server.ServerDone? ==> s.client.took > 0)
          && s.client.packet == Opened(s.down.sent[..s.client.took]))
  }

  predicate Inv(cfg: Settings, s: State) {
    LinksValid(s) && UpInv(cfg, s) && ForwardInv(cfg, s) && BackInv(cfg, s) && DownInv(cfg, s)
  }

  lemma StepKeepsInv(cfg: Settings, s: State, a: Action)
    requires Inv(cfg, s)
    ensures Inv(cfg, Step(cfg, s, a))
  {
    hide Request, SavedClient, Dialed, Forwarded, Reply, Response, Opened, Padded, Distinct;
  }

  lemma {:induction false} RunFromKeepsInv(cfg: Settings, s: State, acts: seq<Action>)
    requires LinksValid(s) && Inv(cfg, s)
    ensures Inv(cfg, RunFrom(cfg, s, acts))
    decreases |acts|
  {
    hide Step, Inv;
    if acts != [] {
      RunFromKeepsInv(cfg, s, acts[..|acts| - 1]);
      StepKeepsInv(cfg, RunFrom(cfg, s, acts[..|acts| - 1]), acts[|acts| - 1]);
    }
  }

  lemma RunKeepsInv(cfg: Settings, acts: seq<Action>)
    ensures Inv(cfg, Run(cfg, acts))
  {
    hide RunFrom, Inv;
    StartInv(cfg);
    RunFromKeepsInv(cfg, START, acts);
  }

  lemma StartInv(cfg: Settings)
    ensures Inv(cfg, START)
  {
    hide Request, SavedClient, Dialed, Forwarded, Reply, Response, Opened, Padded;
  }
}
