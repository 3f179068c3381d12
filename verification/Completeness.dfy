/**
 Completeness: whatever order an honest server chooses, every handshake reaches Established with
 the assigned addresses, without any failure on the way, and the server accepts the crypto binding.
 */
module Completeness {
  import opened Wrappers
  import opened Bytes
  import opened Primitives
  import opened RfcSyntax
  import opened Packet
  import opened Engine
  import opened Server
  import opened OwnOptions
  import opened Handshake
  import Conformance
  import Ppp
  import Cp
  import Lcp
  import LcpLaws
  import Ipcp
  import IpcpLaws
  import Chap
  import ChapFsm
  import Mppe
  import Cmac
  import CmacLaws
  import opened Replies
  import EngineRuns
  import ReplyTable
  import Rfc
  import Sizes

  // ----- The state of the whole handshake -----

  /** Nothing after LCP has happened at the server. */
  predicate BeforeIpcp(srv: Server) {
    && srv.authenticated.None? && srv.connected.None?
    && srv.ipcpRequest.None? && !srv.ipcpAcked && !srv.ipcpOwnSent && !srv.ipcpOwnAcked
  }

  predicate LcpDone(srv: Server) {
    srv.lcpAcked && srv.lcpOwnSent
  }

  predicate LcpRunning(e: State, srv: Server) {
    && !LcpDone(srv) && !srv.challenged && srv.response.None?
    && BeforeIpcp(srv)
    && e.ipcp == Ipcp.INITIAL
  }

  /** The response to the server's challenge is on its way, if the challenge is. */
  predicate ChapRunning(env: Env, cfg: Config, e: State, srv: Server) {
    && LcpDone(srv)
    && BeforeIpcp(srv)
    && e.ipcp == Ipcp.INITIAL
    && (!srv.challenged ==> srv.response.None?)
    && (srv.challenged ==>
          && e.authChallenge == Some(cfg.challenge)
          && e.pendingChap.Some?
          && e.pendingChap.value == EngineRuns.ResponseTo(env, cfg.challenge, e.pendingChap.value.peerChallenge)
          && srv.response == Some(Cp.RawFrame(2, cfg.chapId, ChapFsm.ResponseData(e.pendingChap.value, env.username))))
  }

  predicate Authenticated(cfg: Config, e: State, srv: Server) {
    && LcpDone(srv)
    && srv.challenged && srv.response.None?
    && srv.authenticated.Some?
    && e.mppeKeys == Some(Rfc.MppeKeys(cfg.pr, cfg.password, srv.authenticated.value, false))
    && IpcpOpen(cfg, e.ipcp, srv)
  }

  predicate IpcpRunning(cfg: Config, e: State, srv: Server) {
    Authenticated(cfg, e, srv) && !(srv.ipcpAcked && srv.ipcpOwnSent) && srv.connected.None?
  }

  /** The handshake has ended as it should. */
  predicate Done(cfg: Config, w: World) {
    && w.engine.phase == EstablishedPhase
    && w.server.authenticated.Some? && w.server.connected.Some?
    && AcceptsConnected(cfg, w.server.authenticated.value, w.server.connected.value)
    && w.lastReply.Events? && w.lastReply.list != []
    && w.lastReply.list[|w.lastReply.list| - 1]
       == Established(ExpectedConfig(cfg), Rfc.MppeKeys(cfg.pr, cfg.password, w.server.authenticated.value, false))
  }

  /** No panic, and nothing that makes the caller give up. */
  predicate Smooth(r: Reply) {
    r.Events? && forall e :: e in r.list ==> !e.Fatal? && !e.Disconnected?
  }

  predicate OnTrack(env: Env, cfg: Config, magic: Word32, w: World) {
    var e, srv := w.engine, w.server;
    && Smooth(w.lastReply)
    && srv.unanswered.None?
    && (e.phase == WaitConnectAck ==> e == Initial(magic) && srv == NewServer(srv.asides))
    && (e.phase != WaitConnectAck ==>
          && srv.connectAcked
          && e.hashAlgo == Some(ChosenAlgo(cfg.hashByte)) && e.serverNonce == Some(cfg.nonce)
          && LcpOpen(cfg, magic, e.lcp, srv))
    && (e.phase == LcpPhase ==> LcpRunning(e, srv))
    && (e.phase == ChapPhase ==> ChapRunning(env, cfg, e, srv))
    && (e.phase == IpcpPhase ==> IpcpRunning(cfg, e, srv))
    && (e.phase == EstablishedPhase ==> Authenticated(cfg, e, srv) && srv.ipcpAcked && srv.ipcpOwnSent && Done(cfg, w))
  }

  function Count(b: bool): nat {
    if b then 0 else 1
  }

  /** An upper bound for the moves still to come. */
  function MovesLeft(cfg: Config, w: World): nat {
    var e, srv := w.engine, w.server;
    Count(srv.connectAcked)
    + (if e.phase == WaitConnectAck then 2 else LcpLeft(cfg, e.lcp, srv))
    + Count(srv.lcpOwnSent) + Count(srv.challenged) + Count(srv.authenticated.Some?)
    + (if e.phase == IpcpPhase || e.phase == EstablishedPhase then IpcpLeft(cfg, e.ipcp, srv) else 3)
    + Count(srv.ipcpOwnSent)
    + srv.asides
  }

  /** The move keeps the handshake on track and brings it forward. */
  predicate KeepsTrack(env: Env, cfg: Config, magic: Word32, w: World, m: Move, draws: Draws)
    requires Enabled(w.server, m)
  {
    var w' := Advance(env, cfg, w, m, draws);
    OnTrack(env, cfg, magic, w') && MovesLeft(cfg, w') < MovesLeft(cfg, w)
  }

  // ----- How a step unfolds -----

  function Settle(cfg: Config, srv: Server, t: Turn): World {
    World(if t.reply.Events? then HearAll(cfg, srv, t.reply.list) else srv, t.state, t.reply)
  }

  lemma DeliverPayload(env: Env, cfg: Config, srv: Server, e: State, draws: Draws, p: Ppp.Protocol, number: Word16, payload: seq<Byte>)
    requires |payload| <= Sizes.MAX_PAYLOAD && Numbered(p, number)
    ensures Deliver(env, cfg, srv, e, Carried(number, payload), draws)
      == Settle(cfg, srv, OnPppFrame(env, e, Ppp.Encode(p, payload), draws))
    ensures Ppp.Decode(Ppp.Encode(p, payload)) == Some(Ppp.Split(p, payload))
  {
    ReplyTable.WrapIsCarried(p, number, payload);
    DecodeWrapped(p, payload);
  }

  lemma DeliverLcp(env: Env, cfg: Config, srv: Server, e: State, draws: Draws, payload: seq<Byte>)
    requires |payload| <= Sizes.MAX_PAYLOAD
    ensures Deliver(env, cfg, srv, e, Carried(0xC021, payload), draws) == Settle(cfg, srv, HandleLcp(e, payload, draws))
  {
    DeliverPayload(env, cfg, srv, e, draws, Ppp.Lcp, 0xC021, payload);
  }

  lemma DeliverIpcp(env: Env, cfg: Config, srv: Server, e: State, draws: Draws, payload: seq<Byte>)
    requires |payload| <= Sizes.MAX_PAYLOAD
    ensures Deliver(env, cfg, srv, e, Carried(0x8021, payload), draws) == Settle(cfg, srv, HandleIpcp(env, e, payload))
  {
    DeliverPayload(env, cfg, srv, e, draws, Ppp.Ipcp, 0x8021, payload);
  }

  lemma DeliverChap(env: Env, cfg: Config, srv: Server, e: State, draws: Draws, payload: seq<Byte>)
    requires |payload| <= Sizes.MAX_PAYLOAD
    ensures Deliver(env, cfg, srv, e, Carried(0xC223, payload), draws) == Settle(cfg, srv, HandleChap(env, e, payload, draws))
  {
    DeliverPayload(env, cfg, srv, e, draws, Ppp.Chap, 0xC223, payload);
  }

  lemma HearAppend(cfg: Config, srv: Server, a: seq<Event>, b: seq<Event>)
    ensures HearAll(cfg, srv, a + b) == HearAll(cfg, HearAll(cfg, srv, a), b)
    decreases |a|
  {
    if a == [] {
      assert a + b == b;
    } else {
      assert (a + b)[1..] == a[1..] + b;
      HearAppend(cfg, if a[0].Send? then Hear(cfg, srv, a[0].bytes) else srv, a[1..], b);
    }
  }

  /** What the server makes of the frames sent in one turn. */
  lemma HearSends(cfg: Config, srv: Server, p: Ppp.Protocol, number: Word16, sends: seq<seq<Byte>>)
    requires |sends| <= 1 && Numbered(p, number)
    requires sends != [] ==> |sends[0]| <= Sizes.MAX_PAYLOAD
    ensures HearAll(cfg, srv, SendEvents(p, sends)) == if sends == [] then srv else HearPpp(cfg, srv, number, sends[0])
  {
    if sends == [] {
      HearSendEvents(cfg, srv, p, number, []);
    } else {
      assert sends == [sends[0]];
      HearSendEvents(cfg, srv, p, number, sends[0]);
    }
  }

  lemma SendsAreSmooth(p: Ppp.Protocol, sends: seq<seq<Byte>>)
    ensures Smooth(Events(SendEvents(p, sends)))
  {
    SendsShape(p, sends);
  }

  /** What the server hears of the reply to an LCP frame. */
  lemma LcpEventsHeard(cfg: Config, srv: Server, s: Lcp.State, frame: seq<Byte>, draws: nat -> Word32)
    requires LcpFits(s, frame, draws)
    ensures var events := [Trace] + SendEvents(Ppp.Lcp, Lcp.Receive(s, frame, draws).sends);
      HearAll(cfg, srv, events) == LcpExchange(cfg, s, srv, frame, draws).server && Smooth(Events(events))
  {
    var sends := Lcp.Receive(s, frame, draws).sends;
    HearTrace(cfg, srv, SendEvents(Ppp.Lcp, sends));
    HearSends(cfg, srv, Ppp.Lcp, 0xC021, sends);
    SendsAreSmooth(Ppp.Lcp, sends);
  }

  lemma TracesUnheard(cfg: Config, srv: Server, payload: seq<Byte>, events: seq<Event>)
    ensures HearAll(cfg, srv, (if Cp.Decode(payload).Some? then [Trace] else []) + events) == HearAll(cfg, srv, events)
  {
    HearTrace(cfg, srv, events);
    assert [] + events == events;
  }

  lemma IpcpEventsHeard(cfg: Config, srv: Server, s: Ipcp.State, frame: seq<Byte>)
    requires IpcpFits(s, frame)
    ensures HearAll(cfg, srv, IpcpEvents(s, frame)) == IpcpExchange(cfg, s, srv, frame).server
    ensures Smooth(Events(IpcpEvents(s, frame)))
  {
    var sends := Ipcp.Receive(s, frame).sends;
    TracesUnheard(cfg, srv, frame, SendEvents(Ppp.Ipcp, sends));
    HearSends(cfg, srv, Ppp.Ipcp, 0x8021, sends);
    SendsAreSmooth(Ppp.Ipcp, sends);
  }

  lemma ConnectedHeard(env: Env, cfg: Config, srv: Server, a: Cmac.HashAlgo, nonce: Bytes32, keys: Mppe.Keys, negotiated: Ipcp.Config)
    ensures var pkt := ConnectedFor(env, a, nonce, keys);
      HearAll(cfg, srv, [Send(pkt), Established(negotiated, keys)]) == srv.(connected := Some(pkt))
  {
    var pkt, last := ConnectedFor(env, a, nonce, keys), [Established(negotiated, keys)];
    CmacLaws.ConnectedLayout(env.pr, a, nonce, CertHash(env, a), keys.sendKey, keys.recvKey);
    Conformance.ReadsMessages(pkt);
    assert [Send(pkt), last[0]] == [Send(pkt)] + last;
    HearAppend(cfg, srv, [Send(pkt)], last);
    HearOne(cfg, srv, pkt);
    assert last[1..] == [];
    assert HearAll(cfg, Hear(cfg, srv, pkt), last) == Hear(cfg, srv, pkt);
  }

  /** The IPCP frame that completes the negotiation. */
  lemma IpcpUpHeard(env: Env, cfg: Config, e: State, srv: Server, frame: seq<Byte>)
    requires IpcpFits(e.ipcp, frame) && IpcpExchange(cfg, e.ipcp, srv, frame).up && e.phase == IpcpPhase
    requires e.hashAlgo.Some? && e.serverNonce.Some? && e.mppeKeys.Some?
    ensures var x := IpcpExchange(cfg, e.ipcp, srv, frame);
      var w := Settle(cfg, srv, HandleIpcp(env, e, frame));
      && w.server == x.server.(connected := Some(ConnectedFor(env, e.hashAlgo.value, e.serverNonce.value, e.mppeKeys.value)))
      && w.engine == e.(ipcp := x.ipcp, phase := EstablishedPhase)
      && Smooth(w.lastReply) && w.lastReply.list != []
      && w.lastReply.list[|w.lastReply.list| - 1] == Established(x.ipcp.negotiated, e.mppeKeys.value)
  {
    var x := IpcpExchange(cfg, e.ipcp, srv, frame);
    var first, end := IpcpEvents(e.ipcp, frame), EndEvents(env, e, x.ipcp.negotiated);
    IpcpReply(env, e, frame);
    IpcpEventsHeard(cfg, srv, e.ipcp, frame);
    HearAppend(cfg, srv, first, end);
    ConnectedHeard(env, cfg, x.server, e.hashAlgo.value, e.serverNonce.value, e.mppeKeys.value, x.ipcp.negotiated);
    SmoothAppend(first, end);
  }

  lemma SmoothAppend(a: seq<Event>, b: seq<Event>)
    requires Smooth(Events(a)) && Smooth(Events(b))
    ensures Smooth(Events(a + b))
  {
  }

  // ----- Each move keeps the handshake on track -----

  lemma AfterAckConnect(env: Env, cfg: Config, magic: Word32, w: World, draws: Draws)
    requires OnTrack(env, cfg, magic, w) && Enabled(w.server, AckConnect)
    ensures KeepsTrack(env, cfg, magic, w, AckConnect, draws)
  {
    var data := [0, 0, 0, cfg.hashByte] + cfg.nonce;
    var attrs := [Attr(CryptoBindRequest, data)];
    AckDecodes(cfg);
    var t := OnConnectAck(w.engine, attrs);
    var start := Lcp.Start(Lcp.Initial(magic));
    var srv := w.server.(connectAcked := true);
    StartHeard(cfg, srv, magic);
    assert data[4..36] == cfg.nonce;
    assert Advance(env, cfg, w, AckConnect, draws) == Settle(cfg, srv, t);
  }

  /** What the client makes of a CONNECT_ACK's octets. */
  lemma AckAttr(cfg: Config)
    ensures var data := [0, 0, 0, cfg.hashByte] + cfg.nonce;
      ConnectAckPacket(cfg) == EncodeCtrl(ConnectAck, [Attr(CryptoBindRequest, data)])
  {
    var attributes := [Attribute(4, [0, 0, 0, cfg.hashByte] + cfg.nonce)];
    assert attributes[1..] == [];
    assert Conformance.Attrs(attributes) == [Attr(CryptoBindRequest, attributes[0].value)];
    Conformance.WritesControlMessages(2, attributes, ConnectAck, [Attr(CryptoBindRequest, attributes[0].value)]);
  }

  lemma AckDecodes(cfg: Config)
    ensures Decode(ConnectAckPacket(cfg)) == Ok(Ctrl(ConnectAck, [Attr(CryptoBindRequest, [0, 0, 0, cfg.hashByte] + cfg.nonce)]))
  {
    var attr := Attr(CryptoBindRequest, [0, 0, 0, cfg.hashByte] + cfg.nonce);
    AckAttr(cfg);
    assert [attr][1..] == [];
    assert AttrsBytes([attr]) == AttrBytes(attr);
    DecodeEncodedCtrl(ConnectAck, [attr], []);
    assert ConnectAckPacket(cfg) + [] == ConnectAckPacket(cfg);
  }

  /** The first LCP request opens the negotiation on both sides. */
  lemma StartHeard(cfg: Config, srv: Server, magic: Word32)
    requires srv == NewServer(srv.asides).(connectAcked := true)
    ensures var start := Lcp.Start(Lcp.Initial(magic));
      var heard := HearAll(cfg, srv, [Trace, Send(WrapData(Ppp.Lcp, start.sends[0]))]);
      && heard == srv.(lcpRequest := heard.lcpRequest)
      && LcpOpen(cfg, magic, start.state, heard)
  {
    var start := Lcp.Start(Lcp.Initial(magic));
    LcpLaws.InitialInv(magic);
    LcpLaws.OwnStepsKeepInv(Lcp.Initial(magic), []);
    RequestHeard(cfg, srv, start.state.offer);
    HearWrapped(cfg, srv, Ppp.Lcp, 0xC021, start.sends[0]);
    HearOne(cfg, srv, WrapData(Ppp.Lcp, start.sends[0]));
    HearTrace(cfg, srv, [Send(WrapData(Ppp.Lcp, start.sends[0]))]);
    assert [Trace] + [Send(WrapData(Ppp.Lcp, start.sends[0]))] == [Trace, Send(WrapData(Ppp.Lcp, start.sends[0]))];
  }

  /** An LCP exchange that brings the negotiation forward keeps the handshake on track. */
  lemma AfterLcpExchange(env: Env, cfg: Config, magic: Word32, w: World, srv: Server, frame: seq<Byte>, draws: Draws)
    requires OnTrack(env, cfg, magic, w) && w.engine.phase == LcpPhase
    requires LcpFits(w.engine.lcp, frame, draws.magics)
    requires var x := LcpExchange(cfg, w.engine.lcp, srv, frame, draws.magics);
      && LcpOpen(cfg, magic, x.lcp, x.server)
      && (x.up <==> LcpDone(x.server))
      && LcpLeft(cfg, x.lcp, x.server) + Count(x.server.lcpOwnSent)
         < LcpLeft(cfg, w.engine.lcp, w.server) + Count(w.server.lcpOwnSent)
      && x.server == w.server.(lcpRequest := x.server.lcpRequest, lcpAcked := x.server.lcpAcked,
                               lcpOwnSent := x.server.lcpOwnSent, lcpOwnAcked := x.server.lcpOwnAcked)
    ensures var w' := Settle(cfg, srv, HandleLcp(w.engine, frame, draws));
      OnTrack(env, cfg, magic, w') && MovesLeft(cfg, w') < MovesLeft(cfg, w)
  {
    LcpEventsHeard(cfg, srv, w.engine.lcp, frame, draws.magics);
  }

  lemma AfterReplyLcp(env: Env, cfg: Config, magic: Word32, w: World, draws: Draws)
    requires OnTrack(env, cfg, magic, w) && Enabled(w.server, ReplyLcp)
    ensures KeepsTrack(env, cfg, magic, w, ReplyLcp, draws)
  {
    var e, srv := w.engine, w.server;
    assert e.phase == LcpPhase;
    var answer := AnswerLcp(cfg, srv.lcpRequest.value);
    LcpReplied(cfg, magic, e.lcp, srv, draws.magics);
    DeliverLcp(env, cfg, DoMove(cfg, w.server, ReplyLcp).server, w.engine, draws, answer);
    AfterLcpExchange(env, cfg, magic, w, DoMove(cfg, srv, ReplyLcp).server, answer, draws);
  }

  lemma AfterOwnLcp(env: Env, cfg: Config, magic: Word32, w: World, draws: Draws)
    requires Fair(env, cfg, magic)
    requires OnTrack(env, cfg, magic, w) && Enabled(w.server, OwnLcp)
    ensures KeepsTrack(env, cfg, magic, w, OwnLcp, draws)
  {
    var e, srv := w.engine, w.server;
    assert e.phase == LcpPhase;
    var request := PacketOctets(1, cfg.lcpId, LcpOwnData(cfg));
    LcpOwnAnswered(cfg, magic, e.lcp, srv, draws.magics, request,
      LcpExchange(cfg, e.lcp, DoMove(cfg, srv, OwnLcp).server, request, draws.magics));
    DeliverLcp(env, cfg, DoMove(cfg, w.server, OwnLcp).server, w.engine, draws, request);
    AfterLcpExchange(env, cfg, magic, w, DoMove(cfg, srv, OwnLcp).server, request, draws);
  }

  lemma ChallengeAnswered(env: Env, cfg: Config, e: State, srv: Server, draws: Draws)
    requires |env.username| <= Sizes.MAX_USERNAME && |cfg.name| <= Sizes.MAX_PAYLOAD - 21
    ensures var frame := PacketOctets(1, cfg.chapId, ChallengeData(cfg));
      var pending := EngineRuns.ResponseTo(env, cfg.challenge, draws.peerChallenge);
      var w := Settle(cfg, srv, HandleChap(env, e, frame, draws));
      && |frame| <= Sizes.MAX_PAYLOAD
      && w.engine == e.(authChallenge := Some(cfg.challenge), pendingChap := Some(pending))
      && w.server == srv.(response := Some(Cp.RawFrame(2, cfg.chapId, ChapFsm.ResponseData(pending, env.username))))
      && Smooth(w.lastReply)
  {
    var data := ChallengeData(cfg);
    Conformance.WritesControl(1, cfg.chapId, data);
    ChapFsm.FrameRoundTrip(ChapFsm.Challenge, cfg.chapId, data);
    assert data[1..17] == cfg.challenge;
    var pending := EngineRuns.ResponseTo(env, cfg.challenge, draws.peerChallenge);
    ResponseHeard(env, cfg, srv, pending);
  }

  lemma ResponseHeard(env: Env, cfg: Config, srv: Server, pending: ChapFsm.Pending)
    requires |env.username| <= Sizes.MAX_USERNAME
    ensures var data := ChapFsm.ResponseData(pending, env.username);
      var wire := ChapFsm.Encode(ChapFsm.Response, cfg.chapId, data);
      HearAll(cfg, srv, [Trace, Trace, Send(WrapData(Ppp.Chap, wire))])
      == srv.(response := Some(Cp.RawFrame(2, cfg.chapId, data)))
  {
    var data := ChapFsm.ResponseData(pending, env.username);
    var wire := ChapFsm.Encode(ChapFsm.Response, cfg.chapId, data);
    ReadBack(2, cfg.chapId, data);
    HearWrapped(cfg, srv, Ppp.Chap, 0xC223, wire);
    TracedHeard(cfg, srv, WrapData(Ppp.Chap, wire));
  }

  lemma TracedHeard(cfg: Config, srv: Server, bytes: seq<Byte>)
    ensures HearAll(cfg, srv, [Trace, Trace, Send(bytes)]) == Hear(cfg, srv, bytes)
  {
    HearOne(cfg, srv, bytes);
    HearTrace(cfg, srv, [Send(bytes)]);
    HearTrace(cfg, srv, [Trace] + [Send(bytes)]);
    assert [Trace] + ([Trace] + [Send(bytes)]) == [Trace, Trace, Send(bytes)];
  }

  lemma AfterSendChallenge(env: Env, cfg: Config, magic: Word32, w: World, draws: Draws)
    requires Fair(env, cfg, magic)
    requires OnTrack(env, cfg, magic, w) && Enabled(w.server, SendChallenge)
    ensures KeepsTrack(env, cfg, magic, w, SendChallenge, draws)
  {
    var e, srv := w.engine, w.server;
    assert e.phase == ChapPhase;
    var frame := PacketOctets(1, cfg.chapId, ChallengeData(cfg));
    ChallengeAnswered(env, cfg, e, DoMove(cfg, srv, SendChallenge).server, draws);
    DeliverChap(env, cfg, DoMove(cfg, w.server, SendChallenge).server, w.engine, draws, frame);
    OnTrackAfterChallenge(env, cfg, magic, w, Advance(env, cfg, w, SendChallenge, draws),
                          EngineRuns.ResponseTo(env, cfg.challenge, draws.peerChallenge));
  }

  /** The server waits for nothing but its own judgement of the response. */
  lemma OnTrackAfterChallenge(env: Env, cfg: Config, magic: Word32, w: World, w': World, pending: ChapFsm.Pending)
    requires OnTrack(env, cfg, magic, w) && w.engine.phase == ChapPhase && !w.server.challenged
    requires pending == EngineRuns.ResponseTo(env, cfg.challenge, pending.peerChallenge) && Smooth(w'.lastReply)
    requires w'.engine == w.engine.(authChallenge := Some(cfg.challenge), pendingChap := Some(pending))
    requires w'.server == w.server.(challenged := true,
      response := Some(Cp.RawFrame(2, cfg.chapId, ChapFsm.ResponseData(pending, env.username))))
    ensures OnTrack(env, cfg, magic, w') && MovesLeft(cfg, w') < MovesLeft(cfg, w)
  {
  }

  /** The server finds the response right. */
  lemma ResponseIsRight(env: Env, cfg: Config, pending: ChapFsm.Pending)
    requires env.pr == cfg.pr && env.password == cfg.password
    requires pending == EngineRuns.ResponseTo(env, cfg.challenge, pending.peerChallenge)
    ensures var verdict := Judgement(cfg, Cp.RawFrame(2, cfg.chapId, ChapFsm.ResponseData(pending, env.username)));
      && verdict.0 == Some(pending.ntResponse)
      && verdict.1 == ChapFsm.Encode(ChapFsm.Success, cfg.chapId,
           Chap.AuthenticatorResponse(env.pr, env.password, pending.ntResponse, pending.peerChallenge, cfg.challenge, env.username))
  {
    ResponseFields(cfg.chapId, pending, env.username);
    Rfc.NtResponseIsStandard(cfg.pr, cfg.challenge, pending.peerChallenge, env.username, cfg.password);
    Rfc.AuthenticatorResponseIsStandard(cfg.pr, cfg.password, pending.ntResponse, pending.peerChallenge, cfg.challenge, env.username);
    Conformance.WritesControl(3, cfg.chapId,
      Rfc.GenerateAuthenticatorResponse(cfg.pr, cfg.password, pending.ntResponse, pending.peerChallenge, cfg.challenge, env.username));
  }

  lemma ResponseFields(id: Byte, pending: ChapFsm.Pending, username: seq<Byte>)
    ensures ReadResponse(Cp.RawFrame(2, id, ChapFsm.ResponseData(pending, username)))
      == Some(Claim(pending.peerChallenge, pending.ntResponse, username))
  {
    var data := ChapFsm.ResponseData(pending, username);
    var value := ChapFsm.ResponseValue(pending);
    assert data[0] == 49;
    assert data[1..50] == value;
    assert data[1..17] == value[..16] == pending.peerChallenge;
    assert data[17..25] == value[16..24] == Zeros(8);
    assert data[25..49] == value[24..48] == pending.ntResponse;
    assert data[50..] == username;
  }

  lemma SuccessAccepted(env: Env, cfg: Config, e: State, srv: Server, draws: Draws)
    requires e.authChallenge == Some(cfg.challenge) && e.pendingChap.Some? && e.ipcp == Ipcp.INITIAL
    ensures var pending := e.pendingChap.value;
      var genuine := Chap.AuthenticatorResponse(env.pr, env.password, pending.ntResponse, pending.peerChallenge, cfg.challenge, env.username);
      var frame := ChapFsm.Encode(ChapFsm.Success, cfg.chapId, genuine);
      var w := Settle(cfg, srv, HandleChap(env, e, frame, draws));
      var start := Ipcp.Start(Ipcp.INITIAL);
      && |frame| <= Sizes.MAX_PAYLOAD
      && w.engine == e.(pendingChap := None, phase := IpcpPhase, ipcp := start.state,
                        mppeKeys := Some(Mppe.GetKeys(env.pr, env.password, pending.ntResponse, false)))
      && w.server == srv.(ipcpRequest := Some(RequestFrame(start.state.offer)))
      && Smooth(w.lastReply)
  {
    var pending := e.pendingChap.value;
    var genuine := Chap.AuthenticatorResponse(env.pr, env.password, pending.ntResponse, pending.peerChallenge, cfg.challenge, env.username);
    ChapFsm.GenuineIsPlain(env.pr, env.password, pending, cfg.challenge, env.username);
    ChapFsm.GenuineSuccessVerifies(env.pr, env.password, pending, cfg.challenge, env.username, []);
    assert genuine + [] == genuine;
    ChapFsm.FrameRoundTrip(ChapFsm.Success, cfg.chapId, genuine);
    var start := Ipcp.Start(Ipcp.INITIAL);
    RequestHeard(cfg, srv, start.state.offer);
    HearWrapped(cfg, srv, Ppp.Ipcp, 0x8021, start.sends[0]);
    TracedHeard(cfg, srv, WrapData(Ppp.Ipcp, start.sends[0]));
  }

  /** The verdict reaches the client as a CHAP payload. */
  lemma JudgeStep(env: Env, cfg: Config, magic: Word32, w: World, draws: Draws)
    requires Fair(env, cfg, magic)
    requires w.server.response.Some? && ChapRunning(env, cfg, w.engine, w.server)
    ensures Advance(env, cfg, w, Judge, draws)
      == Settle(cfg, DoMove(cfg, w.server, Judge).server, HandleChap(env, w.engine, Judgement(cfg, w.server.response.value).1, draws))
  {
    var verdict := Judgement(cfg, w.server.response.value).1;
    VerdictFits(env, cfg, magic, w.engine, w.server);
    DeliverChap(env, cfg, DoMove(cfg, w.server, Judge).server, w.engine, draws, verdict);
  }

  lemma VerdictFits(env: Env, cfg: Config, magic: Word32, e: State, srv: Server)
    requires Fair(env, cfg, magic) && ChapRunning(env, cfg, e, srv) && srv.response.Some?
    ensures |Judgement(cfg, srv.response.value).1| <= Sizes.MAX_PAYLOAD
  {
    ResponseIsRight(env, cfg, e.pendingChap.value);
    ChapFsm.GenuineIsPlain(env.pr, env.password, e.pendingChap.value, cfg.challenge, env.username);
  }

  lemma AfterVerdict(env: Env, cfg: Config, magic: Word32, w: World, draws: Draws)
    requires Fair(env, cfg, magic)
    requires OnTrack(env, cfg, magic, w) && w.engine.phase == ChapPhase && w.server.response.Some?
    ensures var w' := Settle(cfg, DoMove(cfg, w.server, Judge).server,
                             HandleChap(env, w.engine, Judgement(cfg, w.server.response.value).1, draws));
      OnTrack(env, cfg, magic, w') && MovesLeft(cfg, w') < MovesLeft(cfg, w)
  {
    VerdictHeard(env, cfg, magic, w.engine, w.server, draws);
    OnTrackAfterJudge(env, cfg, magic, w,
      Settle(cfg, DoMove(cfg, w.server, Judge).server, HandleChap(env, w.engine, Judgement(cfg, w.server.response.value).1, draws)));
  }

  lemma AfterJudge(env: Env, cfg: Config, magic: Word32, w: World, draws: Draws)
    requires Fair(env, cfg, magic)
    requires OnTrack(env, cfg, magic, w) && Enabled(w.server, Judge)
    ensures KeepsTrack(env, cfg, magic, w, Judge, draws)
  {
    assert w.engine.phase == ChapPhase;
    JudgeStep(env, cfg, magic, w, draws);
    AfterVerdict(env, cfg, magic, w, draws);
  }

  /** The authenticated handshake has moved on to IPCP. */
  lemma OnTrackAfterJudge(env: Env, cfg: Config, magic: Word32, w: World, w': World)
    requires OnTrack(env, cfg, magic, w) && w.engine.phase == ChapPhase && w.server.response.Some?
    requires w'.server.authenticated.Some? && Smooth(w'.lastReply)
    requires var start := Ipcp.Start(Ipcp.INITIAL);
      && w'.engine == w.engine.(pendingChap := None, phase := IpcpPhase, ipcp := start.state,
                                mppeKeys := Some(Rfc.MppeKeys(cfg.pr, cfg.password, w'.server.authenticated.value, false)))
      && w'.server == w.server.(response := None, authenticated := w'.server.authenticated,
                                ipcpRequest := Some(RequestFrame(start.state.offer)))
    ensures OnTrack(env, cfg, magic, w') && MovesLeft(cfg, w') < MovesLeft(cfg, w)
  {
    IpcpOpens(cfg, w.server.(response := None, authenticated := w'.server.authenticated));
  }

  /** The verdict on the response, and what the client makes of it. */
  lemma VerdictHeard(env: Env, cfg: Config, magic: Word32, e: State, srv: Server, draws: Draws)
    requires Fair(env, cfg, magic) && ChapRunning(env, cfg, e, srv) && srv.response.Some?
    ensures var act, verdict := DoMove(cfg, srv, Judge), Judgement(cfg, srv.response.value);
      var w, start := Settle(cfg, act.server, HandleChap(env, e, verdict.1, draws)), Ipcp.Start(Ipcp.INITIAL);
      && |verdict.1| <= Sizes.MAX_PAYLOAD
      && verdict.0.Some?
      && w.engine == e.(pendingChap := None, phase := IpcpPhase, ipcp := start.state,
                        mppeKeys := Some(Rfc.MppeKeys(cfg.pr, cfg.password, verdict.0.value, false)))
      && w.server == srv.(response := None, authenticated := verdict.0, ipcpRequest := Some(RequestFrame(start.state.offer)))
      && Smooth(w.lastReply)
  {
    ResponseIsRight(env, cfg, e.pendingChap.value);
    SuccessAccepted(env, cfg, e, DoMove(cfg, srv, Judge).server, draws);
    Rfc.KeysAreStandard(cfg.pr, cfg.password, e.pendingChap.value.ntResponse, false);
  }

  /** The first IPCP request opens the negotiation on both sides. */
  lemma IpcpOpens(cfg: Config, srv: Server)
    requires !srv.ipcpAcked && !srv.ipcpOwnSent && !srv.ipcpOwnAcked
    ensures var start := Ipcp.Start(Ipcp.INITIAL);
      IpcpOpen(cfg, start.state, srv.(ipcpRequest := Some(RequestFrame(start.state.offer))))
  {
    IpcpLaws.InitialInv();
    IpcpLaws.StartKeepsInv(Ipcp.INITIAL);
    var start := Ipcp.Start(Ipcp.INITIAL);
    var desired := start.state.offer.desired;
    assert desired[0].kind == 3 && desired[1].kind == 129 && desired[2].kind == 131;
  }

  // ----- IPCP and the end -----

  /** The keys and the certificate the two sides hold make the server accept the binding. */
  lemma BindingAccepted(env: Env, cfg: Config, magic: Word32, nt: Bytes24, pkt: seq<Byte>)
    requires Fair(env, cfg, magic)
    requires pkt == ConnectedFor(env, ChosenAlgo(cfg.hashByte), cfg.nonce, Rfc.MppeKeys(cfg.pr, cfg.password, nt, false))
    ensures AcceptsConnected(cfg, nt, pkt)
  {
    var hash := Rfc.AnnouncedHash(cfg.hashByte);
    var keys := Rfc.MppeKeys(cfg.pr, cfg.password, nt, false);
    ReplyTable.ChosenIsAnnounced(cfg.hashByte);
    CertificateAgrees(env, cfg, magic, hash);
    MessageAccepted(cfg.pr, hash, cfg.nonce, ServerCertHash(cfg, hash), keys);
    Rfc.SidesMirror(cfg.pr, cfg.password, nt);
  }

  lemma CertificateAgrees(env: Env, cfg: Config, magic: Word32, hash: Byte)
    requires Fair(env, cfg, magic)
    ensures CertHash(env, Rfc.HashNumbered(hash)) == ServerCertHash(cfg, hash) && env.pr == cfg.pr
  {
  }

  /** Field by field, and with the MAC a server computes from the mirrored keys. */
  lemma MessageAccepted(pr: Primitives, hash: Byte, nonce: Bytes32, certHash: Bytes32, keys: Mppe.Keys)
    requires hash == 1 || hash == 2
    ensures var pkt := Cmac.ConnectedMessage(pr, Rfc.HashNumbered(hash), nonce, certHash, keys.sendKey, keys.recvKey);
      && |pkt| == 112
      && pkt[..48] == Rfc.ConnectedStart(hash, nonce) && pkt[48..80] == certHash
      && var mac := Rfc.ServerMac(pr, hash, Mppe.Keys(keys.recvKey, keys.sendKey), pkt[..80] + Zeros(32));
      && pkt[80..80 + |mac|] == mac
  {
    var start := Rfc.ConnectedStart(hash, nonce);
    var pkt := Cmac.ConnectedMessage(pr, Rfc.HashNumbered(hash), nonce, certHash, keys.sendKey, keys.recvKey);
    CmacLaws.ConnectedIsStandard(pr, hash, nonce, certHash, keys);
    assert pkt[..80] == start + certHash;
    assert pkt[..48] == start;
  }

  /** An exchange that leaves IPCP open goes on; one that completes it ends the handshake. */
  lemma AfterIpcpExchange(env: Env, cfg: Config, magic: Word32, w: World, srv: Server, frame: seq<Byte>)
    requires Fair(env, cfg, magic) && OnTrack(env, cfg, magic, w) && w.engine.phase == IpcpPhase
    requires IpcpFits(w.engine.ipcp, frame)
    requires var x := IpcpExchange(cfg, w.engine.ipcp, srv, frame);
      && IpcpOpen(cfg, x.ipcp, x.server)
      && (x.up <==> x.server.ipcpAcked && x.server.ipcpOwnSent)
      && IpcpLeft(cfg, x.ipcp, x.server) + Count(x.server.ipcpOwnSent)
         < IpcpLeft(cfg, w.engine.ipcp, w.server) + Count(w.server.ipcpOwnSent)
      && x.server == w.server.(ipcpRequest := x.server.ipcpRequest, ipcpAcked := x.server.ipcpAcked,
                               ipcpOwnSent := x.server.ipcpOwnSent, ipcpOwnAcked := x.server.ipcpOwnAcked)
    ensures var w' := Settle(cfg, srv, HandleIpcp(env, w.engine, frame));
      OnTrack(env, cfg, magic, w') && MovesLeft(cfg, w') < MovesLeft(cfg, w)
  {
    var x := IpcpExchange(cfg, w.engine.ipcp, srv, frame);
    if x.up {
      IpcpUpHeard(env, cfg, w.engine, srv, frame);
      BindingAccepted(env, cfg, magic, w.server.authenticated.value,
        ConnectedFor(env, w.engine.hashAlgo.value, w.engine.serverNonce.value, w.engine.mppeKeys.value));
    } else {
      IpcpReply(env, w.engine, frame);
      IpcpEventsHeard(cfg, srv, w.engine.ipcp, frame);
    }
  }

  lemma AfterReplyIpcp(env: Env, cfg: Config, magic: Word32, w: World, draws: Draws)
    requires Fair(env, cfg, magic)
    requires OnTrack(env, cfg, magic, w) && Enabled(w.server, ReplyIpcp)
    ensures KeepsTrack(env, cfg, magic, w, ReplyIpcp, draws)
  {
    var e, srv := w.engine, w.server;
    assert e.phase == IpcpPhase;
    var answer := AnswerIpcp(cfg, srv.ipcpRequest.value);
    IpcpReplied(cfg, e.ipcp, srv);
    DeliverIpcp(env, cfg, DoMove(cfg, w.server, ReplyIpcp).server, w.engine, draws, answer);
    AfterIpcpExchange(env, cfg, magic, w, DoMove(cfg, srv, ReplyIpcp).server, answer);
  }

  lemma AfterOwnIpcp(env: Env, cfg: Config, magic: Word32, w: World, draws: Draws)
    requires Fair(env, cfg, magic)
    requires OnTrack(env, cfg, magic, w) && Enabled(w.server, OwnIpcp)
    ensures KeepsTrack(env, cfg, magic, w, OwnIpcp, draws)
  {
    var e, srv := w.engine, w.server;
    assert e.phase == IpcpPhase;
    var request := PacketOctets(1, cfg.ipcpId, IpcpOwnData(cfg));
    IpcpOwnAnswered(cfg, e.ipcp, srv);
    DeliverIpcp(env, cfg, DoMove(cfg, w.server, OwnIpcp).server, w.engine, draws, request);
    AfterIpcpExchange(env, cfg, magic, w, DoMove(cfg, srv, OwnIpcp).server, request);
  }

  // ----- Asides -----

  /** Neither side has moved but for an identifier used up. */
  predicate Unmoved(w: World, srv: Server, w': World) {
    && w'.server == srv
    && w'.engine == w.engine.(lcp := w.engine.lcp.(offer := w.engine.lcp.offer.(identifier := w'.engine.lcp.offer.identifier)))
    && Smooth(w'.lastReply)
  }

  /** The reply has everything behind the magic number. */
  lemma EchoIsAnswer(cfg: Config, srv: Server, magic: Word32, id: Byte, data: seq<Byte>)
    requires |data| <= MAX_ASIDE && srv.unanswered == Some(LcpEcho(id, data))
    ensures var echo := Lcp.EchoData(magic, data);
      && |Cp.Encode(Cp.EchoReply, id, echo)| <= Sizes.MAX_PAYLOAD
      && HearPpp(cfg, srv, 0xC021, Cp.Encode(Cp.EchoReply, id, echo)) == srv.(unanswered := None)
  {
    var echo := Lcp.EchoData(magic, data);
    ReadBack(10, id, echo);
    assert Answers(srv.unanswered.value, Cp.RawFrame(10, id, echo));
  }

  /** An Echo-Request's octets, and what LCP does with them. */
  lemma EchoTaken(s: Lcp.State, id: Byte, data: seq<Byte>, draws: nat -> Word32)
    requires |data| <= MAX_ASIDE
    ensures Lcp.Receive(s, PacketOctets(9, id, data), draws)
      == Lcp.Outcome(s, [Cp.Encode(Cp.EchoReply, id, Lcp.EchoData(s.magic, data))], Lcp.IsUp(s))
  {
    Conformance.WritesControl(9, id, data);
    Cp.FrameRoundTrip(Cp.EchoRequest, id, data);
  }

  lemma EchoHeard(env: Env, cfg: Config, w: World, srv: Server, id: Byte, data: seq<Byte>, draws: Draws)
    requires |data| <= MAX_ASIDE && (w.engine.phase == LcpPhase ==> !Lcp.IsUp(w.engine.lcp))
    requires srv.unanswered == Some(LcpEcho(id, data))
    ensures Unmoved(w, srv.(unanswered := None), Settle(cfg, srv, HandleLcp(w.engine, PacketOctets(9, id, data), draws)))
  {
    EchoTaken(w.engine.lcp, id, data, draws.magics);
    EchoIsAnswer(cfg, srv, w.engine.lcp.magic, id, data);
    LcpEventsHeard(cfg, srv, w.engine.lcp, PacketOctets(9, id, data), draws.magics);
  }

  lemma KeepAliveHeard(cfg: Config, w: World, srv: Server)
    requires srv.unanswered == Some(KeepAlive)
    ensures Unmoved(w, srv.(unanswered := None), Settle(cfg, srv, OnCtrl(w.engine, EchoRequest, [])))
  {
    var wire := EncodeCtrl(EchoReply, []);
    DecodeEncodedCtrl(EchoReply, [], []);
    assert wire + [] == wire;
    Conformance.ReadsMessages(wire);
    HearOne(cfg, srv, wire);
  }

  lemma ProtocolRejectHeard(env: Env, cfg: Config, w: World, srv: Server, frame: seq<Byte>, draws: Draws)
    requires Sendable(OtherProtocol(frame)) && srv.unanswered == Some(OtherProtocol(frame))
    ensures Unmoved(w, srv.(unanswered := None), Settle(cfg, srv, OnPppFrame(env, w.engine, frame, draws)))
  {
    var info := Ppp.StripAddressControl(frame);
    var wire := Lcp.RejectProtocol(w.engine.lcp, info).sends[0];
    Conformance.ReadsPpp(frame);
    ReadBack(8, Bump(w.engine.lcp.offer.identifier), info);
    HearWrapped(cfg, srv, Ppp.Lcp, 0xC021, wire);
    HearOne(cfg, srv, WrapData(Ppp.Lcp, wire));
  }

  lemma KeepAliveDecodes()
    ensures Decode(ControlOctets(8, [])) == Ok(Ctrl(EchoRequest, []))
  {
    Conformance.WritesControlMessages(8, [], EchoRequest, []);
    DecodeEncodedCtrl(EchoRequest, [], []);
    assert ControlOctets(8, []) + [] == ControlOctets(8, []);
  }

  lemma FrameDecodes(frame: seq<Byte>)
    requires |frame| <= MAX_ASIDE
    ensures Decode(DataOctets(frame)) == Ok(Data(frame))
  {
    Conformance.WritesDataMessages(frame);
    DataRoundTrip(frame, []);
    assert EncodeData(frame) + [] == EncodeData(frame);
  }

  /** What the client does with an aside. */
  function Reaction(env: Env, e: State, aside: Aside, draws: Draws): Turn {
    match aside
    case KeepAlive => OnCtrl(e, EchoRequest, [])
    case LcpEcho(id, data) => HandleLcp(e, PacketOctets(9, id, data), draws)
    case OtherProtocol(frame) => OnPppFrame(env, e, frame, draws)
  }

  /** What the aside's octets make of both sides. */
  lemma AsideDelivered(env: Env, cfg: Config, srv: Server, e: State, aside: Aside, draws: Draws)
    requires Sendable(aside)
    ensures Deliver(env, cfg, srv, e, AsideBytes(aside), draws) == Settle(cfg, srv, Reaction(env, e, aside, draws))
  {
    match aside
    case KeepAlive => KeepAliveDecodes();
    case LcpEcho(id, data) =>
      assert |PacketOctets(9, id, data)| <= Sizes.MAX_PAYLOAD;
      DeliverLcp(env, cfg, srv, e, draws, PacketOctets(9, id, data));
    case OtherProtocol(frame) => FrameDecodes(frame);
  }

  lemma ReactionHeard(env: Env, cfg: Config, w: World, srv: Server, aside: Aside, draws: Draws)
    requires Sendable(aside) && srv.unanswered == Some(aside) && (w.engine.phase == LcpPhase ==> !Lcp.IsUp(w.engine.lcp))
    ensures Unmoved(w, srv.(unanswered := None), Settle(cfg, srv, Reaction(env, w.engine, aside, draws)))
  {
    match aside
    case KeepAlive => KeepAliveHeard(cfg, w, srv);
    case LcpEcho(id, data) => EchoHeard(env, cfg, w, srv, id, data, draws);
    case OtherProtocol(frame) => ProtocolRejectHeard(env, cfg, w, srv, frame, draws);
  }

  /** The client answers the aside, and is unmoved but for an identifier. */
  lemma AsideHeard(env: Env, cfg: Config, w: World, aside: Aside, draws: Draws)
    requires Enabled(w.server, Says(aside)) && (w.engine.phase == LcpPhase ==> !Lcp.IsUp(w.engine.lcp))
    ensures Unmoved(w, w.server.(asides := w.server.asides - 1), Advance(env, cfg, w, Says(aside), draws))
  {
    var srv := w.server.(asides := w.server.asides - 1, unanswered := Some(aside));
    AsideDelivered(env, cfg, srv, w.engine, aside, draws);
    ReactionHeard(env, cfg, w, srv, aside, draws);
    assert srv.(unanswered := None) == w.server.(asides := w.server.asides - 1);
  }

  lemma UnmovedOnTrack(env: Env, cfg: Config, magic: Word32, w: World, w': World)
    requires OnTrack(env, cfg, magic, w) && w.server.connectAcked && w.server.connected.None? && w.server.asides > 0
    requires Unmoved(w, w.server.(asides := w.server.asides - 1), w')
    ensures OnTrack(env, cfg, magic, w') && MovesLeft(cfg, w') < MovesLeft(cfg, w)
  {
  }

  lemma AfterAside(env: Env, cfg: Config, magic: Word32, w: World, aside: Aside, draws: Draws)
    requires OnTrack(env, cfg, magic, w) && Enabled(w.server, Says(aside))
    ensures KeepsTrack(env, cfg, magic, w, Says(aside), draws)
  {
    AsideHeard(env, cfg, w, aside, draws);
    UnmovedOnTrack(env, cfg, magic, w, Advance(env, cfg, w, Says(aside), draws));
  }

  // ----- Every play -----

  lemma EveryMoveKeepsTrack(env: Env, cfg: Config, magic: Word32, w: World, m: Move, draws: Draws)
    requires Fair(env, cfg, magic)
    requires OnTrack(env, cfg, magic, w) && Enabled(w.server, m)
    ensures KeepsTrack(env, cfg, magic, w, m, draws)
  {
    match m
    case AckConnect => AfterAckConnect(env, cfg, magic, w, draws);
    case ReplyLcp => AfterReplyLcp(env, cfg, magic, w, draws);
    case OwnLcp => AfterOwnLcp(env, cfg, magic, w, draws);
    case SendChallenge => AfterSendChallenge(env, cfg, magic, w, draws);
    case Judge => AfterJudge(env, cfg, magic, w, draws);
    case ReplyIpcp => AfterReplyIpcp(env, cfg, magic, w, draws);
    case OwnIpcp => AfterOwnIpcp(env, cfg, magic, w, draws);
    case Says(aside) => AfterAside(env, cfg, magic, w, aside, draws);
  }

  lemma EveryPlayKeepsTrack(env: Env, cfg: Config, magic: Word32, w: World, moves: seq<Turned>)
    requires Fair(env, cfg, magic)
    requires OnTrack(env, cfg, magic, w) && Legal(env, cfg, w, moves)
    ensures var w' := Play(env, cfg, w, moves);
      OnTrack(env, cfg, magic, w') && |moves| + MovesLeft(cfg, w') <= MovesLeft(cfg, w)
    decreases |moves|
  {
    if moves != [] {
      EveryMoveKeepsTrack(env, cfg, magic, w, moves[0].move, moves[0].draws);
      EveryPlayKeepsTrack(env, cfg, magic, Advance(env, cfg, w, moves[0].move, moves[0].draws), moves[1..]);
    }
  }

  ghost predicate Stuck(srv: Server) {
    forall m: Move :: !Enabled(srv, m)
  }

  /** While the handshake is not done the server has something to do, and afterwards it has not. */
  lemma StuckExactlyWhenDone(env: Env, cfg: Config, magic: Word32, w: World)
    requires OnTrack(env, cfg, magic, w)
    ensures Stuck(w.server) <==> w.engine.phase == EstablishedPhase
  {
    if w.engine.phase == EstablishedPhase {
      DoneIsStuck(env, cfg, magic, w);
    } else if Stuck(w.server) {
      StuckMeans(w.server);
    }
  }

  lemma StuckMeans(srv: Server)
    requires Stuck(srv)
    ensures srv.connectAcked && srv.lcpRequest.None? && srv.lcpOwnSent
    ensures srv.lcpAcked && srv.lcpOwnAcked ==> srv.challenged
    ensures srv.response.None? && srv.ipcpRequest.None? && (srv.authenticated.Some? ==> srv.ipcpOwnSent)
  {
    assert !Enabled(srv, AckConnect) && !Enabled(srv, ReplyLcp) && !Enabled(srv, OwnLcp) && !Enabled(srv, SendChallenge);
    assert !Enabled(srv, Judge) && !Enabled(srv, ReplyIpcp) && !Enabled(srv, OwnIpcp);
  }

  lemma DoneIsStuck(env: Env, cfg: Config, magic: Word32, w: World)
    requires OnTrack(env, cfg, magic, w) && w.engine.phase == EstablishedPhase
    ensures Stuck(w.server)
  {
    forall m: Move
      ensures !Enabled(w.server, m)
    {
    }
  }

  /**
   Every honest handshake, in any order the server likes and with any number of asides: no reply on
   the way is a failure, every aside is answered at once, after at most ten moves and the asides the server has nothing left to do,
   and then (and only then) the client is established with exactly the assigned addresses and the
   server accepts its CONNECTED message.
   */
  lemma HonestServerSucceeds(env: Env, cfg: Config, magic: Word32, asides: nat, moves: seq<Turned>)
    requires Fair(env, cfg, magic)
    requires Legal(env, cfg, NewWorld(magic, asides), moves)
    ensures var w := Play(env, cfg, NewWorld(magic, asides), moves);
      && |moves| <= 10 + asides
      && Smooth(w.lastReply)
      && w.server.unanswered.None?
      && (Stuck(w.server) <==> w.engine.phase == EstablishedPhase)
      && (Stuck(w.server) ==> Done(cfg, w))
  {
    EveryPlayKeepsTrack(env, cfg, magic, NewWorld(magic, asides), moves);
    StuckExactlyWhenDone(env, cfg, magic, Play(env, cfg, NewWorld(magic, asides), moves));
  }
}
