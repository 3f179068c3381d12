/**
 An honest SSTP server, as a partner for the engine: it follows RFC 1661 (LCP and IPCP), RFC 2759
 (MS-CHAPv2), RFC 3079 (MPPE keys) and [MS-SSTP] (framing and crypto binding), reads and writes by the
 reference syntax, knows only what the client put on the wire, and is free to send its own requests at
 any point of a negotiation.
 */
module Server {
  import opened Wrappers
  import opened Bytes
  import opened Primitives
  import opened RfcSyntax
  import opened Engine
  import Cp
  import Packet
  import Rfc

  datatype Config = Config(
    pr: Primitives,
    /** hash bitmask and nonce of the CONNECT_ACK */
    hashByte: Byte,
    nonce: Bytes32,
    certDer: seq<Byte>,
    /** option types the server rejects in LCP and in IPCP */
    lcpUnsupported: set<Byte>,
    ipcpUnsupported: set<Byte>,
    lcpId: Byte,
    lcpMagic: Bytes4,
    chapId: Byte,
    challenge: Bytes16,
    name: seq<Byte>,
    /** the user's password, as the server's account database has it */
    password: Text,
    ipcpId: Byte,
    serverIp: Bytes4,
    localIp: Bytes4,
    dns1: Bytes4,
    dns2: Bytes4)

  /** What has nothing to do with the handshake: a keep-alive, an echo, a protocol the client does not speak. */
  datatype Aside = KeepAlive | LcpEcho(id: Byte, data: seq<Byte>) | OtherProtocol(frame: seq<Byte>)

  /** What the server has heard and done. */
  datatype Server = Server(
    connectAcked: bool,
    /** a client request not yet answered */
    lcpRequest: Option<ControlPacket>,
    lcpAcked: bool,
    lcpOwnSent: bool,
    lcpOwnAcked: bool,
    challenged: bool,
    response: Option<ControlPacket>,
    authenticated: Option<Bytes24>,
    ipcpRequest: Option<ControlPacket>,
    ipcpAcked: bool,
    ipcpOwnSent: bool,
    ipcpOwnAcked: bool,
    connected: Option<seq<Byte>>,
    /** an aside the client has not answered */
    unanswered: Option<Aside>,
    /** how many asides it still allows itself */
    asides: nat)

  function NewServer(asides: nat): Server {
    Server(false, None, false, false, false, false, None, None, None, false, false, false, None, None, asides)
  }

  // ----- Listening -----

  /** Authentication by MS-CHAPv2 and a magic number. */
  function LcpOwnData(cfg: Config): seq<Byte> {
    OptionsOctets([Cp.Opt(3, [0xC2, 0x23, 0x81]), Cp.Opt(5, cfg.lcpMagic)])
  }

  /** The server's address. */
  function IpcpOwnData(cfg: Config): seq<Byte> {
    OptionsOctets([Cp.Opt(3, cfg.serverIp)])
  }

  /** An Echo-Reply with everything behind our magic number, a Protocol-Reject with the frame. */
  predicate Answers(aside: Aside, p: ControlPacket) {
    match aside
    case KeepAlive => false
    case LcpEcho(id, data) =>
      p.code == 10 && p.id == id && |p.data| == (if |data| > 4 then |data| else 4)
      && forall i :: 4 <= i < |data| ==> p.data[i] == data[i]
    case OtherProtocol(frame) => p.code == 8 && p.data == FromProtocol(frame)
  }

  function HearLcp(cfg: Config, srv: Server, p: ControlPacket): Server {
    if p.code == 1 then srv.(lcpRequest := Some(p))
    else if p == Cp.RawFrame(2, cfg.lcpId, LcpOwnData(cfg)) then srv.(lcpOwnAcked := true)
    else if srv.unanswered.Some? && Answers(srv.unanswered.value, p) then srv.(unanswered := None)
    else srv
  }

  function HearIpcp(cfg: Config, srv: Server, p: ControlPacket): Server {
    if p.code == 1 then srv.(ipcpRequest := Some(p))
    else if p == Cp.RawFrame(2, cfg.ipcpId, IpcpOwnData(cfg)) then srv.(ipcpOwnAcked := true)
    else srv
  }

  /** LCP, IPCP and CHAP, by their protocol numbers. */
  function HearPpp(cfg: Config, srv: Server, protocol: Word16, payload: seq<Byte>): Server {
    match ReadControl(payload)
    case None => srv
    case Some(p) =>
      if protocol == 0xC021 then HearLcp(cfg, srv, p)
      else if protocol == 0x8021 then HearIpcp(cfg, srv, p)
      else if protocol == 0xC223 && p.code == 2 then srv.(response := Some(p))
      else srv
  }

  /** One message from the client. */
  function Hear(cfg: Config, srv: Server, bytes: seq<Byte>): Server {
    match ReadMessage(bytes)
    case Err(_) => srv
    case Ok(DataMessage(frame)) =>
      var ppp := ReadPpp(frame);
      if ppp.Some? then HearPpp(cfg, srv, ppp.value.protocol, ppp.value.information) else srv
    case Ok(ControlMessage(kind, attributes)) =>
      if kind == 4 then srv.(connected := Some(bytes))
      else if kind == 9 && attributes == [] && srv.unanswered == Some(KeepAlive) then srv.(unanswered := None)
      else srv
  }

  function HearAll(cfg: Config, srv: Server, events: seq<Event>): Server
    decreases |events|
  {
    if events == [] then srv
    else
      var next := if events[0].Send? then Hear(cfg, srv, events[0].bytes) else srv;
      HearAll(cfg, next, events[1..])
  }

  // ----- Answering -----

  function OfKinds(opts: seq<ConfigOption>, kinds: set<Byte>): seq<ConfigOption> {
    if opts == [] then []
    else if opts[0].kind in kinds then [opts[0]] + OfKinds(opts[1..], kinds)
    else OfKinds(opts[1..], kinds)
  }

  /** RFC 1661 sections 5.2 and 5.4: reject exactly what is unsupported, else acknowledge the same octets. */
  function AnswerLcp(cfg: Config, request: ControlPacket): seq<Byte> {
    var refused := OfKinds(ReadOptions(request.data), cfg.lcpUnsupported);
    if refused != [] then PacketOctets(4, request.id, OptionsOctets(refused))
    else PacketOctets(2, request.id, request.data)
  }

  /** Type 3 is the client's address, 129 its first name server. */
  function Assigned(cfg: Config, kind: Byte): Bytes4 {
    if kind == 3 then cfg.localIp else if kind == 129 then cfg.dns1 else cfg.dns2
  }

  /** The assigned value for every option that asks for another one. */
  function Corrections(cfg: Config, opts: seq<ConfigOption>): seq<ConfigOption> {
    if opts == [] then []
    else
      var wanted := Cp.Opt(opts[0].kind, Assigned(cfg, opts[0].kind));
      (if opts[0] == wanted then [] else [wanted]) + Corrections(cfg, opts[1..])
  }

  /** RFC 1332 section 3.3: reject, else assign, else acknowledge. */
  function AnswerIpcp(cfg: Config, request: ControlPacket): seq<Byte> {
    var opts := ReadOptions(request.data);
    var refused := OfKinds(opts, cfg.ipcpUnsupported);
    if refused != [] then PacketOctets(4, request.id, OptionsOctets(refused))
    else if Corrections(cfg, opts) != [] then PacketOctets(3, request.id, OptionsOctets(Corrections(cfg, opts)))
    else PacketOctets(2, request.id, request.data)
  }

  // ----- MS-CHAPv2, the authenticator's side -----

  function ChallengeData(cfg: Config): seq<Byte> {
    [16] + cfg.challenge + cfg.name
  }

  datatype Claim = Claim(peer: Bytes16, nt: Bytes24, username: seq<Byte>)

  /** Value-Size 49: peer challenge, eight zeros, response, no flags (RFC 2759 section 4); then the name. */
  function ReadResponse(p: ControlPacket): Option<Claim> {
    if |p.data| < 50 || p.data[0] != 49 || p.data[17..25] != Zeros(8) || p.data[49] != 0 then None
    else Some(Claim(p.data[1..17], p.data[25..49], p.data[50..]))
  }

  /** Success with the authenticator response if the response is right, else Failure. */
  function Judgement(cfg: Config, p: ControlPacket): (Option<Bytes24>, seq<Byte>) {
    match ReadResponse(p)
    case None => (None, PacketOctets(4, p.id, []))
    case Some(c) =>
      if p.id == cfg.chapId && c.nt == Rfc.GenerateNtResponse(cfg.pr, cfg.challenge, c.peer, c.username, cfg.password) then
        (Some(c.nt),
         PacketOctets(3, p.id,
           Rfc.GenerateAuthenticatorResponse(cfg.pr, cfg.password, c.nt, c.peer, cfg.challenge, c.username)))
      else (None, PacketOctets(4, p.id, []))
  }

  // ----- Checking the crypto binding -----

  /** By the number of the hash; SHA-1's is padded. */
  function ServerCertHash(cfg: Config, hash: Byte): Bytes32 {
    if hash == 2 then cfg.pr.sha256(cfg.certDer) else cfg.pr.sha1(cfg.certDer) + Zeros(12)
  }

  /**
   The message must announce the best hash of those the server offered and bind the offered nonce and
   certificate, and its MAC must be the one the server computes from its own keys.
   */
  predicate AcceptsConnected(cfg: Config, nt: Bytes24, pkt: seq<Byte>) {
    var hash := Rfc.AnnouncedHash(cfg.hashByte);
    var keys := Rfc.MppeKeys(cfg.pr, cfg.password, nt, true);
    && |pkt| == 112
    && pkt[..48] == Rfc.ConnectedStart(hash, cfg.nonce)
    && pkt[48..80] == ServerCertHash(cfg, hash)
    && var mac := Rfc.ServerMac(cfg.pr, hash, keys, pkt[..80] + Zeros(32));
    && pkt[80..80 + |mac|] == mac
  }

  // ----- Moves -----

  const MAX_ASIDE := 0xFFFF - 12

  predicate Sendable(a: Aside) {
    match a
    case KeepAlive => true
    case LcpEcho(_, data) => |data| <= MAX_ASIDE
    case OtherProtocol(frame) =>
      |frame| <= MAX_ASIDE && ReadPpp(frame).Some? && Unspoken(ReadPpp(frame).value.protocol)
  }

  datatype Move = AckConnect | ReplyLcp | OwnLcp | SendChallenge | Judge | ReplyIpcp | OwnIpcp | Says(aside: Aside)

  predicate Enabled(srv: Server, m: Move) {
    match m
    case AckConnect => !srv.connectAcked
    case ReplyLcp => srv.lcpRequest.Some?
    case OwnLcp => srv.connectAcked && !srv.lcpOwnSent
    case SendChallenge => srv.lcpAcked && srv.lcpOwnAcked && !srv.challenged
    case Judge => srv.response.Some?
    case ReplyIpcp => srv.ipcpRequest.Some?
    case OwnIpcp => srv.authenticated.Some? && !srv.ipcpOwnSent
    case Says(aside) =>
      srv.connectAcked && srv.connected.None? && srv.unanswered.None? && srv.asides > 0 && Sendable(aside)
  }

  datatype Act = Act(server: Server, bytes: seq<Byte>)

  /** CONNECT_ACK with one attribute: three zeros, the hashes offered, the nonce. */
  function ConnectAckPacket(cfg: Config): seq<Byte> {
    ControlOctets(2, [Attribute(4, [0, 0, 0, cfg.hashByte] + cfg.nonce)])
  }

  /** The server's own bookkeeping and the octets it puts on the wire. */
  function DoMove(cfg: Config, srv: Server, m: Move): Act
    requires Enabled(srv, m)
  {
    match m
    case AckConnect => Act(srv.(connectAcked := true), ConnectAckPacket(cfg))
    case ReplyLcp =>
      var answer := AnswerLcp(cfg, srv.lcpRequest.value);
      Act(srv.(lcpRequest := None, lcpAcked := Acks(answer)), Carried(0xC021, answer))
    case OwnLcp =>
      Act(srv.(lcpOwnSent := true), Carried(0xC021, PacketOctets(1, cfg.lcpId, LcpOwnData(cfg))))
    case SendChallenge =>
      Act(srv.(challenged := true), Carried(0xC223, PacketOctets(1, cfg.chapId, ChallengeData(cfg))))
    case Judge =>
      var (nt, verdict) := Judgement(cfg, srv.response.value);
      Act(srv.(response := None, authenticated := nt), Carried(0xC223, verdict))
    case ReplyIpcp =>
      var answer := AnswerIpcp(cfg, srv.ipcpRequest.value);
      Act(srv.(ipcpRequest := None, ipcpAcked := Acks(answer)), Carried(0x8021, answer))
    case OwnIpcp =>
      Act(srv.(ipcpOwnSent := true), Carried(0x8021, PacketOctets(1, cfg.ipcpId, IpcpOwnData(cfg))))
    case Says(aside) => Act(srv.(asides := srv.asides - 1, unanswered := Some(aside)), AsideBytes(aside))
  }

  function AsideBytes(a: Aside): seq<Byte> {
    match a
    case KeepAlive => ControlOctets(8, [])
    case LcpEcho(id, data) => Carried(0xC021, PacketOctets(9, id, data))
    case OtherProtocol(frame) => DataOctets(frame)
  }

  predicate Acks(answer: seq<Byte>) {
    answer != [] && answer[0] == 2
  }

  // ----- The two together -----

  datatype World = World(server: Server, engine: State, lastReply: Reply)

  function NewWorld(magic: Word32, asides: nat): World {
    World(NewServer(asides), Initial(magic), Events([]))
  }

  /** Octets reach the engine, and the server hears everything sent back. */
  function Deliver(env: Env, cfg: Config, srv: Server, engine: State, bytes: seq<Byte>, draws: Draws): World {
    match Packet.Decode(bytes)
    case Err(_) => World(srv, engine, Events([]))
    case Ok(p) =>
      var t := OnPacket(env, engine, p, draws);
      World(if t.reply.Events? then HearAll(cfg, srv, t.reply.list) else srv, t.state, t.reply)
  }

  function Advance(env: Env, cfg: Config, w: World, m: Move, draws: Draws): World
    requires Enabled(w.server, m)
  {
    var act := DoMove(cfg, w.server, m);
    Deliver(env, cfg, act.server, w.engine, act.bytes, draws)
  }

  datatype Turned = Turned(move: Move, draws: Draws)

  /** Any sequence of moves each of which the server is free to make. */
  predicate Legal(env: Env, cfg: Config, w: World, moves: seq<Turned>)
    decreases |moves|
  {
    moves == [] ||
    (Enabled(w.server, moves[0].move)
     && Legal(env, cfg, Advance(env, cfg, w, moves[0].move, moves[0].draws), moves[1..]))
  }

  function Play(env: Env, cfg: Config, w: World, moves: seq<Turned>): World
    requires Legal(env, cfg, w, moves)
    decreases |moves|
  {
    if moves == [] then w
    else Play(env, cfg, Advance(env, cfg, w, moves[0].move, moves[0].draws), moves[1..])
  }
}
