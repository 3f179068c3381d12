/** One exchange at a time: what the client's automata and an honest server make of each other's frames. */
module Handshake {
  import opened Wrappers
  import opened Bytes
  import opened Primitives
  import opened RfcSyntax
  import opened Packet
  import opened Engine
  import opened Server
  import opened OwnOptions
  import Conformance
  import Ppp
  import Cp
  import Lcp
  import LcpLaws
  import Ipcp
  import IpcpLaws
  import Sizes

  /** Matching credentials and certificate; sizes that fit; an ASCII password; different magic numbers. */
  ghost predicate Fair(env: Env, cfg: Config, magic: Word32) {
    && env == NewEnv(cfg.pr, env.username, cfg.password, cfg.certDer)
    && |env.username| <= Sizes.MAX_USERNAME
    && |cfg.name| <= Sizes.MAX_PAYLOAD - 21
    && IsAscii(cfg.password)
    && LongNumber(cfg.lcpMagic) != magic
  }

  // ----- What the server hears -----

  /** The protocol is one of those the client knows. */
  predicate Numbered(p: Ppp.Protocol, number: Word16) {
    p == Conformance.ProtocolNumbered(number) && !p.UnknownProtocol?
  }

  lemma HearWrapped(cfg: Config, srv: Server, p: Ppp.Protocol, number: Word16, payload: seq<Byte>)
    requires |payload| <= Sizes.MAX_PAYLOAD && Numbered(p, number)
    ensures Hear(cfg, srv, WrapData(p, payload)) == HearPpp(cfg, srv, number, payload)
  {
    DecodeWrapped(p, payload);
    Conformance.ReadsMessages(WrapData(p, payload));
    Conformance.ReadsPpp(Ppp.Encode(p, payload));
  }

  lemma DecodeWrapped(p: Ppp.Protocol, payload: seq<Byte>)
    requires |payload| <= Sizes.MAX_PAYLOAD && !p.UnknownProtocol?
    ensures Decode(WrapData(p, payload)) == Ok(Data(Ppp.Encode(p, payload)))
    ensures Ppp.Decode(Ppp.Encode(p, payload)) == Some(Ppp.Split(p, payload))
  {
    var frame := Ppp.Encode(p, payload);
    DataRoundTrip(frame, []);
    assert EncodeData(frame) + [] == EncodeData(frame);
    Ppp.FrameRoundTrip(p, payload);
  }

  lemma HearTrace(cfg: Config, srv: Server, events: seq<Event>)
    ensures HearAll(cfg, srv, [Trace] + events) == HearAll(cfg, srv, events)
  {
    assert ([Trace] + events)[1..] == events;
  }

  lemma HearOne(cfg: Config, srv: Server, bytes: seq<Byte>)
    ensures HearAll(cfg, srv, [Send(bytes)]) == Hear(cfg, srv, bytes)
    ensures HearAll(cfg, srv, []) == srv
  {
    assert [Send(bytes)][1..] == [];
  }

  /** The reply to a control frame carries at most one frame back. */
  lemma HearSendEvents(cfg: Config, srv: Server, p: Ppp.Protocol, number: Word16, d: seq<Byte>)
    requires |d| <= Sizes.MAX_PAYLOAD && Numbered(p, number)
    ensures HearAll(cfg, srv, SendEvents(p, [d])) == HearPpp(cfg, srv, number, d)
    ensures HearAll(cfg, srv, SendEvents(p, [])) == srv
  {
    HearOne(cfg, srv, WrapData(p, d));
    HearTrace(cfg, srv, [Send(WrapData(p, d))]);
    HearWrapped(cfg, srv, p, number, d);
    var before: seq<seq<Byte>> := [];
    assert [d][..0] == before;
    var trace: seq<Event> := if Cp.Decode(d).Some? then [Trace] else [];
    assert SendEvents(p, [d]) == trace + [Send(WrapData(p, d))];
    assert [] + [Send(WrapData(p, d))] == [Send(WrapData(p, d))];
  }

  // ----- The server's answers to our requests -----

  predicate HasNone(opts: seq<Cp.Opt>, kinds: set<Byte>) {
    forall i :: 0 <= i < |opts| ==> opts[i].kind !in kinds
  }

  lemma OfKindsIs(opts: seq<Cp.Opt>, kinds: set<Byte>)
    requires Cp.AllSmall(opts)
    ensures Cp.AllSmall(OfKinds(opts, kinds)) && |OfKinds(opts, kinds)| <= |opts|
    ensures forall o :: o in OfKinds(opts, kinds) <==> o in opts && o.kind in kinds
    ensures OfKinds(opts, kinds) == [] <==> HasNone(opts, kinds)
  {
    if opts != [] {
      assert Cp.Small(opts[0]);
      OfKindsIs(opts[1..], kinds);
    }
  }

  /** Dropping what was refused leaves nothing unsupported and keeps everything supported. */
  lemma DropRefused(desired: seq<Cp.Opt>, kinds: set<Byte>)
    requires Sound(desired)
    ensures var left := Drop(desired, OfKinds(desired, kinds));
      && HasNone(left, kinds)
      && forall k :: k !in kinds && HasKind(desired, k) ==> HasKind(left, k)
  {
    var refused := OfKinds(desired, kinds);
    var left := Drop(desired, refused);
    OfKindsIs(desired, kinds);
    DropProperties(desired, refused);
    forall i | 0 <= i < |left|
      ensures left[i].kind !in kinds
    {
      assert left[i] in desired && !HasKind(refused, left[i].kind);
      assert left[i] !in refused;
    }
    forall k | k !in kinds && HasKind(desired, k)
      ensures HasKind(left, k)
    {
      var i :| 0 <= i < |desired| && desired[i].kind == k;
      assert !HasKind(refused, k) by {
        forall j | 0 <= j < |refused|
          ensures refused[j].kind != k
        {
          assert refused[j] in refused;
        }
      }
      assert desired[i] in left;
    }
  }

  /** The Configure-Request the server is about to answer. */
  function RequestFrame(o: Offer): ControlPacket
    requires o.lastSentId.Some?
  {
    Cp.RawFrame(1, o.lastSentId.value, Cp.EncodeOptions(o.desired))
  }

  /** A frame of the client's that fits its length field, as the server reads it. */
  lemma ReadBack(code: Byte, id: Byte, data: seq<Byte>)
    requires |data| <= 0xFFFF - 4
    ensures ReadControl(Cp.FrameBytes(code, id, data)) == Some(Cp.RawFrame(code, id, data))
  {
    Cp.RawRoundTrip(code, id, data, []);
    Conformance.ReadsControl(Cp.FrameBytes(code, id, data));
  }

  /** The server's answers, in the client's terms. */
  lemma AnswerLcpIs(cfg: Config, request: ControlPacket)
    ensures var refused := OfKinds(Cp.DecodeOptions(request.data), cfg.lcpUnsupported);
      AnswerLcp(cfg, request)
      == if refused != [] then Cp.Encode(Cp.ConfigureReject, request.id, Cp.EncodeOptions(refused))
         else Cp.Encode(Cp.ConfigureAck, request.id, request.data)
  {
    var refused := OfKinds(Cp.DecodeOptions(request.data), cfg.lcpUnsupported);
    Conformance.ReadsOptions(request.data);
    Conformance.WritesOptions(refused);
    Conformance.WritesControl(4, request.id, OptionsOctets(refused));
    Conformance.WritesControl(2, request.id, request.data);
  }

  lemma AnswerIpcpIs(cfg: Config, request: ControlPacket)
    ensures var opts := Cp.DecodeOptions(request.data);
      var refused, corrections := OfKinds(opts, cfg.ipcpUnsupported), Corrections(cfg, opts);
      AnswerIpcp(cfg, request)
      == if refused != [] then Cp.Encode(Cp.ConfigureReject, request.id, Cp.EncodeOptions(refused))
         else if corrections != [] then Cp.Encode(Cp.ConfigureNak, request.id, Cp.EncodeOptions(corrections))
         else Cp.Encode(Cp.ConfigureAck, request.id, request.data)
  {
    var opts := Cp.DecodeOptions(request.data);
    var refused, corrections := OfKinds(opts, cfg.ipcpUnsupported), Corrections(cfg, opts);
    Conformance.ReadsOptions(request.data);
    Conformance.WritesOptions(refused);
    Conformance.WritesOptions(corrections);
    Conformance.WritesControl(4, request.id, OptionsOctets(refused));
    Conformance.WritesControl(3, request.id, OptionsOctets(corrections));
    Conformance.WritesControl(2, request.id, request.data);
  }

  predicate Bounded(o: Offer) {
    Sound(o.desired) && |o.desired| <= 3
  }

  lemma RequestReadsBack(o: Offer)
    requires Bounded(o) && o.lastSentId.Some?
    ensures Cp.DecodeOptions(RequestFrame(o).data) == o.desired
    ensures |RequestFrame(o).data| <= 765
  {
    Cp.OptionsRoundTripAlone(o.desired);
    EncodedLength(o.desired);
  }

  /** How an answer built from given options reaches the automaton. */
  lemma AnswerArrives(o: Offer, code: Cp.Code, opts: seq<Cp.Opt>)
    requires o.lastSentId.Some? && Cp.AllSmall(opts) && |opts| <= 3
    requires code == Cp.ConfigureReject || code == Cp.ConfigureNak
    ensures var answer := Cp.Encode(code, o.lastSentId.value, Cp.EncodeOptions(opts));
      && |answer| <= 769
      && Cp.Decode(answer) == Some(Cp.Frame(code, o.lastSentId.value, Cp.EncodeOptions(opts)))
      && Cp.DecodeOptions(Cp.EncodeOptions(opts)) == opts
      && !Acks(answer)
  {
    EncodedLength(opts);
    Cp.OptionsRoundTripAlone(opts);
    Cp.FrameRoundTrip(code, o.lastSentId.value, Cp.EncodeOptions(opts));
  }

  lemma AckArrives(o: Offer)
    requires Bounded(o) && o.lastSentId.Some?
    ensures var answer := Cp.Encode(Cp.ConfigureAck, o.lastSentId.value, RequestFrame(o).data);
      && |answer| <= 769
      && Cp.Decode(answer) == Some(Cp.Frame(Cp.ConfigureAck, o.lastSentId.value, RequestFrame(o).data))
      && Acks(answer)
  {
    RequestReadsBack(o);
    Cp.FrameRoundTrip(Cp.ConfigureAck, o.lastSentId.value, RequestFrame(o).data);
  }

  /** A request of ours as it arrives at the server. */
  lemma RequestHeard(cfg: Config, srv: Server, o: Offer)
    requires Bounded(o) && o.lastSentId == Some(o.identifier)
    ensures HearPpp(cfg, srv, 0xC021, Request(o.identifier, o.desired)) == srv.(lcpRequest := Some(RequestFrame(o)))
    ensures HearPpp(cfg, srv, 0x8021, Request(o.identifier, o.desired)) == srv.(ipcpRequest := Some(RequestFrame(o)))
    ensures |Request(o.identifier, o.desired)| <= 769
  {
    EncodedLength(o.desired);
    ReadBack(1, o.identifier, Cp.EncodeOptions(o.desired));
  }

  // ----- LCP -----

  /** Where the LCP negotiation stands, seen from both sides. */
  predicate LcpOpen(cfg: Config, magic: Word32, s: Lcp.State, srv: Server) {
    && LcpLaws.Inv(s)
    && s.magic == magic
    && (srv.lcpOwnSent <==> s.remoteUp)
    && (srv.lcpOwnAcked <==> srv.lcpOwnSent)
    && (srv.lcpOwnSent ==> s.peerAuth.Some? && Lcp.IsMsChapV2(s.peerAuth.value))
    && (srv.lcpAcked <==> s.offer.localUp)
    && (srv.lcpAcked ==> srv.lcpRequest.None?)
    && (!srv.lcpAcked ==>
          s.offer.lastSentId.Some? && srv.lcpRequest == Some(RequestFrame(s.offer)))
  }

  function LcpLeft(cfg: Config, s: Lcp.State, srv: Server): nat {
    if srv.lcpAcked then 0 else if HasNone(s.offer.desired, cfg.lcpUnsupported) then 1 else 2
  }

  lemma LcpRefused(cfg: Config, s: Lcp.State, draws: nat -> Word32)
    requires Bounded(s.offer) && s.offer.lastSentId.Some? && !HasNone(s.offer.desired, cfg.lcpUnsupported)
    ensures var answer := AnswerLcp(cfg, RequestFrame(s.offer));
      var after := SendRequest(s.offer.(desired := Drop(s.offer.desired, OfKinds(s.offer.desired, cfg.lcpUnsupported)), localUp := false)).offer;
      && |answer| <= 769 && !Acks(answer)
      && Lcp.Receive(s, answer, draws) == Lcp.Outcome(s.(offer := after), [Request(after.identifier, after.desired)], false)
  {
    var refused := OfKinds(s.offer.desired, cfg.lcpUnsupported);
    AnswerLcpIs(cfg, RequestFrame(s.offer));
    RequestReadsBack(s.offer);
    OfKindsIs(s.offer.desired, cfg.lcpUnsupported);
    AnswerArrives(s.offer, Cp.ConfigureReject, refused);
  }

  lemma LcpAccepted(cfg: Config, s: Lcp.State, draws: nat -> Word32)
    requires Bounded(s.offer) && s.offer.lastSentId.Some? && HasNone(s.offer.desired, cfg.lcpUnsupported)
    ensures var answer := AnswerLcp(cfg, RequestFrame(s.offer));
      && |answer| <= 769 && Acks(answer)
      && Lcp.Receive(s, answer, draws) == Lcp.Outcome(s.(offer := s.offer.(localUp := true)), [], s.remoteUp)
  {
    AnswerLcpIs(cfg, RequestFrame(s.offer));
    RequestReadsBack(s.offer);
    OfKindsIs(s.offer.desired, cfg.lcpUnsupported);
    AckArrives(s.offer);
  }

  /** What an exchange of one server frame and at most one frame back comes to. */
  datatype Exchange = Exchange(lcp: Lcp.State, server: Server, up: bool)

  function LcpExchange(cfg: Config, s: Lcp.State, srv: Server, frame: seq<Byte>, draws: nat -> Word32): Exchange {
    var r := Lcp.Receive(s, frame, draws);
    Exchange(r.state, if r.sends == [] then srv else HearPpp(cfg, srv, 0xC021, r.sends[0]), r.up)
  }

  /** The exchange fits the wire in both directions. */
  predicate LcpFits(s: Lcp.State, frame: seq<Byte>, draws: nat -> Word32) {
    var r := Lcp.Receive(s, frame, draws);
    && |frame| <= Sizes.MAX_PAYLOAD
    && |r.sends| <= 1
    && (r.sends != [] ==> |r.sends[0]| <= Sizes.MAX_PAYLOAD)
  }

  /** One answer: the refused options go and a new request is heard, or our side is up. */
  lemma LcpReplied(cfg: Config, magic: Word32, s: Lcp.State, srv: Server, draws: nat -> Word32)
    requires LcpOpen(cfg, magic, s, srv) && srv.lcpRequest.Some?
    ensures var act := DoMove(cfg, srv, ReplyLcp);
      var answer := AnswerLcp(cfg, srv.lcpRequest.value);
      var x := LcpExchange(cfg, s, act.server, answer, draws);
      && LcpFits(s, answer, draws)
      && (x.up <==> x.lcp.offer.localUp && srv.lcpOwnSent)
      && LcpOpen(cfg, magic, x.lcp, x.server)
      && x.server == srv.(lcpRequest := x.server.lcpRequest, lcpAcked := x.server.lcpAcked)
      && LcpLeft(cfg, x.lcp, x.server) < LcpLeft(cfg, s, srv)
  {
    LcpLaws.ReceiveKeepsInv(s, AnswerLcp(cfg, srv.lcpRequest.value), draws);
    if HasNone(s.offer.desired, cfg.lcpUnsupported) {
      LcpAcceptedHeard(cfg, s, srv, draws);
    } else {
      LcpRefusedHeard(cfg, s, srv, draws);
    }
  }

  lemma LcpAcceptedHeard(cfg: Config, s: Lcp.State, srv: Server, draws: nat -> Word32)
    requires Bounded(s.offer) && s.offer.lastSentId.Some? && HasNone(s.offer.desired, cfg.lcpUnsupported)
    requires srv.lcpRequest == Some(RequestFrame(s.offer))
    ensures var answer := AnswerLcp(cfg, srv.lcpRequest.value);
      && LcpFits(s, answer, draws)
      && LcpExchange(cfg, s, DoMove(cfg, srv, ReplyLcp).server, answer, draws)
         == Exchange(s.(offer := s.offer.(localUp := true)), srv.(lcpRequest := None, lcpAcked := true), s.remoteUp)
  {
    LcpAccepted(cfg, s, draws);
  }

  lemma LcpRefusedHeard(cfg: Config, s: Lcp.State, srv: Server, draws: nat -> Word32)
    requires Bounded(s.offer) && s.offer.lastSentId.Some? && !HasNone(s.offer.desired, cfg.lcpUnsupported)
    requires srv.lcpRequest == Some(RequestFrame(s.offer))
    ensures var answer := AnswerLcp(cfg, srv.lcpRequest.value);
      var x := LcpExchange(cfg, s, DoMove(cfg, srv, ReplyLcp).server, answer, draws);
      && LcpFits(s, answer, draws)
      && !x.up
      && x.lcp == s.(offer := x.lcp.offer) && !x.lcp.offer.localUp
      && x.lcp.offer.lastSentId == Some(x.lcp.offer.identifier)
      && HasNone(x.lcp.offer.desired, cfg.lcpUnsupported)
      && x.server == srv.(lcpRequest := Some(RequestFrame(x.lcp.offer)), lcpAcked := false)
  {
    LcpRefused(cfg, s, draws);
    DropRefused(s.offer.desired, cfg.lcpUnsupported);
    DropProperties(s.offer.desired, OfKinds(s.offer.desired, cfg.lcpUnsupported));
    var after := SendRequest(s.offer.(desired := Drop(s.offer.desired, OfKinds(s.offer.desired, cfg.lcpUnsupported)), localUp := false)).offer;
    RequestHeard(cfg, DoMove(cfg, srv, ReplyLcp).server, after);
  }

  lemma OwnRequestsFit(cfg: Config)
    ensures |PacketOctets(1, cfg.lcpId, LcpOwnData(cfg))| <= Sizes.MAX_PAYLOAD
    ensures |PacketOctets(1, cfg.ipcpId, IpcpOwnData(cfg))| <= Sizes.MAX_PAYLOAD
  {
    Conformance.WritesOptions([Cp.Opt(3, [0xC2, 0x23, 0x81]), Cp.Opt(5, cfg.lcpMagic)]);
    EncodedLength([Cp.Opt(3, [0xC2, 0x23, 0x81]), Cp.Opt(5, cfg.lcpMagic)]);
    Conformance.WritesOptions([Cp.Opt(3, cfg.serverIp)]);
    EncodedLength([Cp.Opt(3, cfg.serverIp)]);
  }

  /** The server's own request is acknowledged byte for byte. */
  lemma LcpOwnAnswered(cfg: Config, magic: Word32, s: Lcp.State, srv: Server, draws: nat -> Word32, request: seq<Byte>, x: Exchange)
    requires LcpOpen(cfg, magic, s, srv) && !srv.lcpOwnSent && srv.connectAcked && LongNumber(cfg.lcpMagic) != magic
    requires request == PacketOctets(1, cfg.lcpId, LcpOwnData(cfg))
    requires x == LcpExchange(cfg, s, srv.(lcpOwnSent := true), request, draws)
    ensures LcpFits(s, request, draws)
    ensures x.up <==> srv.lcpAcked
    ensures LcpOpen(cfg, magic, x.lcp, x.server)
    ensures x.server == srv.(lcpOwnSent := true, lcpOwnAcked := true)
    ensures x.lcp.offer == s.offer
  {
    var opts := [Cp.Opt(3, [0xC2, 0x23, 0x81]), Cp.Opt(5, cfg.lcpMagic)];
    var data := LcpOwnData(cfg);
    Conformance.WritesOptions(opts);
    Conformance.WritesControl(1, cfg.lcpId, data);
    Cp.OptionsRoundTripAlone(opts);
    EncodedLength(opts);
    Cp.FrameRoundTrip(Cp.ConfigureRequest, cfg.lcpId, data);
    ReadBack(2, cfg.lcpId, data);
    LcpLaws.ReceiveKeepsInv(s, request, draws);
    OwnOptionsAccepted(cfg, magic, s.peerAuth, draws);
  }

  lemma OwnOptionsAccepted(cfg: Config, magic: Word32, auth: Option<Lcp.PeerAuth>, draws: nat -> Word32)
    requires LongNumber(cfg.lcpMagic) != magic
    ensures var j := Lcp.JudgeAll(magic, auth, [Cp.Opt(3, [0xC2, 0x23, 0x81]), Cp.Opt(5, cfg.lcpMagic)], draws);
      j.rejects == [] && j.naks == [] && j.peerAuth.Some? && Lcp.IsMsChapV2(j.peerAuth.value)
  {
    var login, number := Cp.Opt(3, [0xC2, 0x23, 0x81]), Cp.Opt(5, cfg.lcpMagic);
    var opts := [login, number];
    var before := opts[..1];
    Conformance.NumbersAgree(0, 0, cfg.lcpMagic);
    assert login.data[..3] == login.data;
    assert Lcp.Judge(magic, login, draws(0)) == Lcp.Accept && Lcp.Judge(magic, number, draws(1)) == Lcp.Accept;
    assert before[..0] == [] && before[0] == login;
    assert Lcp.JudgeAll(magic, auth, before[..0], draws) == Lcp.Judged([], [], auth);
    var first := Lcp.JudgeAll(magic, auth, before, draws);
    assert first.rejects == [] && first.naks == [] && first.peerAuth.Some? && Lcp.IsMsChapV2(first.peerAuth.value);
  }

  // ----- IPCP -----

  function Expected(cfg: Config, kind: Byte): Option<Ipcp.Address> {
    if kind in cfg.ipcpUnsupported then None else Some(Assigned(cfg, kind))
  }

  /** What the client should report in the end. */
  function ExpectedConfig(cfg: Config): Ipcp.Config {
    Ipcp.Config(
      Expected(cfg, 3),
      Some(cfg.serverIp),
      Expected(cfg, 129),
      Expected(cfg, 131))
  }

  predicate KeepsSupported(cfg: Config, desired: seq<Cp.Opt>) {
    && (3 !in cfg.ipcpUnsupported ==> HasKind(desired, 3))
    && (129 !in cfg.ipcpUnsupported ==> HasKind(desired, 129))
    && (131 !in cfg.ipcpUnsupported ==> HasKind(desired, 131))
  }

  predicate IpcpOpen(cfg: Config, s: Ipcp.State, srv: Server) {
    && IpcpLaws.Inv(s)
    && KeepsSupported(cfg, s.offer.desired)
    && (srv.ipcpOwnSent <==> s.remoteUp)
    && (srv.ipcpOwnAcked <==> srv.ipcpOwnSent)
    && (srv.ipcpOwnSent ==> s.negotiated.peerIp == Some(cfg.serverIp))
    && (srv.ipcpAcked <==> s.offer.localUp)
    && (srv.ipcpAcked ==> srv.ipcpRequest.None? && s.negotiated == ExpectedConfig(cfg).(peerIp := s.negotiated.peerIp))
    && (!srv.ipcpAcked ==>
          && s.offer.lastSentId == Some(s.offer.identifier)
          && srv.ipcpRequest == Some(RequestFrame(s.offer))
          && IpcpLaws.NothingReported(s))
  }

  predicate AllAssigned(cfg: Config, opts: seq<Cp.Opt>) {
    forall i :: 0 <= i < |opts| ==> opts[i].data == Assigned(cfg, opts[i].kind)
  }

  function IpcpLeft(cfg: Config, s: Ipcp.State, srv: Server): nat {
    if srv.ipcpAcked then 0
    else if !HasNone(s.offer.desired, cfg.ipcpUnsupported) then 3
    else if !AllAssigned(cfg, s.offer.desired) then 2
    else 1
  }

  lemma CorrectionsAre(cfg: Config, opts: seq<Cp.Opt>)
    requires Distinct(opts)
    ensures Corrections(cfg, opts) == [] <==> AllAssigned(cfg, opts)
    ensures |Corrections(cfg, opts)| <= |opts| && Cp.AllSmall(Corrections(cfg, opts))
    ensures forall c :: c in Corrections(cfg, opts) ==> c.data == Assigned(cfg, c.kind) && HasKind(opts, c.kind)
    ensures forall i :: 0 <= i < |opts| && opts[i].data != Assigned(cfg, opts[i].kind) ==> HasKind(Corrections(cfg, opts), opts[i].kind)
  {
    if opts != [] {
      var rest := Corrections(cfg, opts[1..]);
      CorrectionsAre(cfg, opts[1..]);
      CorrectionsCons(cfg, opts);
    }
  }

  lemma CorrectionsCons(cfg: Config, opts: seq<Cp.Opt>)
    requires opts != []
    requires var rest := Corrections(cfg, opts[1..]);
      && (rest == [] <==> AllAssigned(cfg, opts[1..]))
      && (forall c :: c in rest ==> c.data == Assigned(cfg, c.kind) && HasKind(opts[1..], c.kind))
      && (forall i :: 0 <= i < |opts[1..]| && opts[1..][i].data != Assigned(cfg, opts[1..][i].kind) ==> HasKind(rest, opts[1..][i].kind))
    ensures var all := Corrections(cfg, opts);
      && (all == [] <==> AllAssigned(cfg, opts))
      && (forall c :: c in all ==> c.data == Assigned(cfg, c.kind) && HasKind(opts, c.kind))
      && (forall i :: 0 <= i < |opts| && opts[i].data != Assigned(cfg, opts[i].kind) ==> HasKind(all, opts[i].kind))
  {
    var rest, all := Corrections(cfg, opts[1..]), Corrections(cfg, opts);
    var head := Cp.Opt(opts[0].kind, Assigned(cfg, opts[0].kind));
    var first := if opts[0] == head then [] else [head];
    assert all == first + rest;
    assert AllAssigned(cfg, opts) <==> opts[0] == head && AllAssigned(cfg, opts[1..]) by {
      assert forall i :: 1 <= i < |opts| ==> opts[i] == opts[1..][i - 1];
    }
    forall c | c in all
      ensures c.data == Assigned(cfg, c.kind) && HasKind(opts, c.kind)
    {
      if c in rest {
        KindOfTail(opts, c.kind);
      } else {
        assert c == head && opts[0].kind == c.kind;
      }
    }
    forall i | 0 <= i < |opts| && opts[i].data != Assigned(cfg, opts[i].kind)
      ensures HasKind(all, opts[i].kind)
    {
      if i == 0 {
        assert all[0] == head;
      } else {
        assert opts[1..][i - 1] == opts[i];
        KindBehind(first, rest, opts[i].kind);
      }
    }
  }

  lemma KindOfTail(opts: seq<Cp.Opt>, kind: Byte)
    requires opts != [] && HasKind(opts[1..], kind)
    ensures HasKind(opts, kind)
  {
    var j :| 0 <= j < |opts[1..]| && opts[1..][j].kind == kind;
    assert opts[j + 1].kind == kind;
  }

  lemma KindBehind(a: seq<Cp.Opt>, b: seq<Cp.Opt>, kind: Byte)
    requires HasKind(b, kind)
    ensures HasKind(a + b, kind)
  {
    var j :| 0 <= j < |b| && b[j].kind == kind;
    assert (a + b)[|a| + j].kind == kind;
  }

  /** Adopting assigned values for everything that differs leaves everything assigned. */
  lemma AdoptAssigned(cfg: Config, desired: seq<Cp.Opt>, corrections: seq<Cp.Opt>)
    requires Distinct(desired)
    requires forall c :: c in corrections ==> c.data == Assigned(cfg, c.kind)
    ensures forall i :: 0 <= i < |desired| ==>
      AdoptAll(desired, corrections)[i].data
        == if HasKind(corrections, desired[i].kind) then Assigned(cfg, desired[i].kind) else desired[i].data
  {
    if corrections != [] {
      var last := |corrections| - 1;
      var c := corrections[last];
      AdoptAssigned(cfg, desired, corrections[..last]);
      var before := AdoptAll(desired, corrections[..last]);
      assert c in corrections;
      AdoptOne(before, c);
      forall k
        ensures HasKind(corrections, k) <==> HasKind(corrections[..last], k) || c.kind == k
      {
        HasKindSnoc(corrections, k);
      }
    }
  }

  lemma HasKindSnoc(opts: seq<Cp.Opt>, k: Byte)
    requires opts != []
    ensures HasKind(opts, k) <==> HasKind(opts[..|opts| - 1], k) || opts[|opts| - 1].kind == k
  {
    var last := |opts| - 1;
    if HasKind(opts, k) && opts[last].kind != k {
      var i :| 0 <= i < |opts| && opts[i].kind == k;
      assert opts[..last][i].kind == k;
    }
    if HasKind(opts[..last], k) {
      var i :| 0 <= i < last && opts[..last][i].kind == k;
      assert opts[i].kind == k;
    }
  }

  lemma AdoptOne(desired: seq<Cp.Opt>, c: Cp.Opt)
    requires Distinct(desired)
    ensures forall i :: 0 <= i < |desired| ==>
      Adopt(desired, c)[i].data == if desired[i].kind == c.kind then c.data else desired[i].data
  {
  }

  // ----- IPCP: one exchange -----

  datatype IpExchange = IpExchange(ipcp: Ipcp.State, server: Server, up: bool)

  function IpcpExchange(cfg: Config, s: Ipcp.State, srv: Server, frame: seq<Byte>): IpExchange {
    var r := Ipcp.Receive(s, frame);
    IpExchange(r.state, if r.sends == [] then srv else HearPpp(cfg, srv, 0x8021, r.sends[0]), r.up)
  }

  predicate IpcpFits(s: Ipcp.State, frame: seq<Byte>) {
    var r := Ipcp.Receive(s, frame);
    && |frame| <= Sizes.MAX_PAYLOAD
    && |r.sends| <= 1
    && (r.sends != [] ==> |r.sends[0]| <= Sizes.MAX_PAYLOAD)
  }

  /** The offer after the server's Reject or Nak. */
  function Revised(cfg: Config, o: Offer): Offer {
    var refused := OfKinds(o.desired, cfg.ipcpUnsupported);
    var desired := if refused != [] then Drop(o.desired, refused) else AdoptAll(o.desired, Corrections(cfg, o.desired));
    SendRequest(o.(desired := desired, localUp := false)).offer
  }

  lemma IpcpRevised(cfg: Config, s: Ipcp.State)
    requires Bounded(s.offer) && s.offer.lastSentId.Some?
    requires !HasNone(s.offer.desired, cfg.ipcpUnsupported) || !AllAssigned(cfg, s.offer.desired)
    ensures var answer := AnswerIpcp(cfg, RequestFrame(s.offer));
      var after := Revised(cfg, s.offer);
      && |answer| <= 769 && !Acks(answer)
      && Ipcp.Receive(s, answer) == Ipcp.Outcome(s.(offer := after), [Request(after.identifier, after.desired)], false)
  {
    if HasNone(s.offer.desired, cfg.ipcpUnsupported) {
      IpcpCorrected(cfg, s);
    } else {
      IpcpRefused(cfg, s);
    }
  }

  /** What IPCP does with a Nak or Reject of its last request. */
  lemma RevisionTaken(s: Ipcp.State, code: Cp.Code, answer: seq<Byte>, opts: seq<Cp.Opt>)
    requires s.offer.lastSentId.Some? && (code == Cp.ConfigureReject || code == Cp.ConfigureNak)
    requires Cp.Decode(answer) == Some(Cp.Frame(code, s.offer.lastSentId.value, Cp.EncodeOptions(opts)))
    requires Cp.DecodeOptions(Cp.EncodeOptions(opts)) == opts
    ensures var desired := if code == Cp.ConfigureReject then Drop(s.offer.desired, opts) else AdoptAll(s.offer.desired, opts);
      var after := SendRequest(s.offer.(desired := desired, localUp := false)).offer;
      Ipcp.Receive(s, answer) == Ipcp.Outcome(s.(offer := after), [Request(after.identifier, after.desired)], false)
  {
  }

  /** Which options an answer that does not acknowledge names. */
  lemma AnswerRevises(cfg: Config, o: Offer)
    requires Bounded(o) && o.lastSentId.Some?
    requires !HasNone(o.desired, cfg.ipcpUnsupported) || !AllAssigned(cfg, o.desired)
    ensures var refused := OfKinds(o.desired, cfg.ipcpUnsupported);
      AnswerIpcp(cfg, RequestFrame(o))
      == if refused != [] then Cp.Encode(Cp.ConfigureReject, o.lastSentId.value, Cp.EncodeOptions(refused))
         else Cp.Encode(Cp.ConfigureNak, o.lastSentId.value, Cp.EncodeOptions(Corrections(cfg, o.desired)))
    ensures OfKinds(o.desired, cfg.ipcpUnsupported) == [] <==> HasNone(o.desired, cfg.ipcpUnsupported)
  {
    AnswerIpcpIs(cfg, RequestFrame(o));
    RequestReadsBack(o);
    OfKindsIs(o.desired, cfg.ipcpUnsupported);
    CorrectionsAre(cfg, o.desired);
  }

  lemma IpcpRefused(cfg: Config, s: Ipcp.State)
    requires Bounded(s.offer) && s.offer.lastSentId.Some? && !HasNone(s.offer.desired, cfg.ipcpUnsupported)
    ensures var answer := AnswerIpcp(cfg, RequestFrame(s.offer));
      var after := Revised(cfg, s.offer);
      && |answer| <= 769 && !Acks(answer)
      && Ipcp.Receive(s, answer) == Ipcp.Outcome(s.(offer := after), [Request(after.identifier, after.desired)], false)
  {
    var refused := OfKinds(s.offer.desired, cfg.ipcpUnsupported);
    AnswerRevises(cfg, s.offer);
    OfKindsIs(s.offer.desired, cfg.ipcpUnsupported);
    AnswerArrives(s.offer, Cp.ConfigureReject, refused);
    RevisionTaken(s, Cp.ConfigureReject, AnswerIpcp(cfg, RequestFrame(s.offer)), refused);
  }

  lemma IpcpCorrected(cfg: Config, s: Ipcp.State)
    requires Bounded(s.offer) && s.offer.lastSentId.Some?
    requires HasNone(s.offer.desired, cfg.ipcpUnsupported) && !AllAssigned(cfg, s.offer.desired)
    ensures var answer := AnswerIpcp(cfg, RequestFrame(s.offer));
      var after := Revised(cfg, s.offer);
      && |answer| <= 769 && !Acks(answer)
      && Ipcp.Receive(s, answer) == Ipcp.Outcome(s.(offer := after), [Request(after.identifier, after.desired)], false)
  {
    var wrong := Corrections(cfg, s.offer.desired);
    AnswerRevises(cfg, s.offer);
    CorrectionsAre(cfg, s.offer.desired);
    AnswerArrives(s.offer, Cp.ConfigureNak, wrong);
    RevisionTaken(s, Cp.ConfigureNak, AnswerIpcp(cfg, RequestFrame(s.offer)), wrong);
  }

  lemma IpcpAccepted(cfg: Config, s: Ipcp.State)
    requires Bounded(s.offer) && s.offer.lastSentId.Some?
    requires HasNone(s.offer.desired, cfg.ipcpUnsupported) && AllAssigned(cfg, s.offer.desired)
    ensures var answer := AnswerIpcp(cfg, RequestFrame(s.offer));
      && |answer| <= 769 && Acks(answer)
      && Ipcp.Receive(s, answer)
         == Ipcp.Outcome(
              s.(offer := s.offer.(localUp := true), negotiated := Ipcp.CaptureAll(s.negotiated, s.offer.desired)),
              [], s.remoteUp)
  {
    AnswerIpcpIs(cfg, RequestFrame(s.offer));
    RequestReadsBack(s.offer);
    OfKindsIs(s.offer.desired, cfg.ipcpUnsupported);
    CorrectionsAre(cfg, s.offer.desired);
    AckArrives(s.offer);
  }

  /** Each revision brings the offer closer: first everything refused goes, then everything is as assigned. */
  lemma RevisedIsBetter(cfg: Config, o: Offer)
    requires Bounded(o) && KeepsSupported(cfg, o.desired)
    requires !HasNone(o.desired, cfg.ipcpUnsupported) || !AllAssigned(cfg, o.desired)
    ensures var after := Revised(cfg, o);
      && Bounded(after) && KeepsSupported(cfg, after.desired)
      && after.lastSentId == Some(after.identifier) && !after.localUp
      && HasNone(after.desired, cfg.ipcpUnsupported)
      && (HasNone(o.desired, cfg.ipcpUnsupported) ==> AllAssigned(cfg, after.desired))
  {
    OfKindsIs(o.desired, cfg.ipcpUnsupported);
    if HasNone(o.desired, cfg.ipcpUnsupported) {
      AdoptedIsAssigned(cfg, o.desired);
    } else {
      DropRefused(o.desired, cfg.ipcpUnsupported);
      DropProperties(o.desired, OfKinds(o.desired, cfg.ipcpUnsupported));
    }
  }

  lemma AdoptedIsAssigned(cfg: Config, desired: seq<Cp.Opt>)
    requires Sound(desired)
    ensures var after := AdoptAll(desired, Corrections(cfg, desired));
      && Sound(after) && AllAssigned(cfg, after)
      && forall k :: HasKind(desired, k) ==> HasKind(after, k)
  {
    var wrong := Corrections(cfg, desired);
    var after := AdoptAll(desired, wrong);
    CorrectionsAre(cfg, desired);
    AdoptAssigned(cfg, desired, wrong);
    AdoptKeepsSound(desired, wrong);
    forall k | HasKind(desired, k)
      ensures HasKind(after, k)
    {
      var i :| 0 <= i < |desired| && desired[i].kind == k;
      assert after[i].kind == k;
    }
  }

  /** When everything asked for is as assigned and supported, the capture reports what is expected. */
  lemma CaptureIsExpected(cfg: Config, c: Ipcp.Config, desired: seq<Cp.Opt>)
    requires Distinct(desired) && KeepsSupported(cfg, desired)
    requires HasNone(desired, cfg.ipcpUnsupported) && AllAssigned(cfg, desired)
    requires c.localIp.None? && c.dns1.None? && c.dns2.None?
    ensures Ipcp.CaptureAll(c, desired) == ExpectedConfig(cfg).(peerIp := c.peerIp)
  {
    IpcpLaws.CapturedField(c, desired, 3);
    forall kind | IpcpLaws.Known(kind)
      ensures IpcpLaws.Field(Ipcp.CaptureAll(c, desired), kind) == Expected(cfg, kind)
    {
      IpcpLaws.CapturedField(c, desired, kind);
      var i := FirstOfKind(desired, kind);
    }
    assert IpcpLaws.Known(3) && IpcpLaws.Known(129) && IpcpLaws.Known(131);
  }

  /** One answer of the server's to our IPCP request. */
  lemma IpcpReplied(cfg: Config, s: Ipcp.State, srv: Server)
    requires IpcpOpen(cfg, s, srv) && srv.ipcpRequest.Some?
    ensures var act := DoMove(cfg, srv, ReplyIpcp);
      var answer := AnswerIpcp(cfg, srv.ipcpRequest.value);
      var x := IpcpExchange(cfg, s, act.server, answer);
      && IpcpFits(s, answer)
      && (x.up <==> x.ipcp.offer.localUp && srv.ipcpOwnSent)
      && IpcpOpen(cfg, x.ipcp, x.server)
      && x.server == srv.(ipcpRequest := x.server.ipcpRequest, ipcpAcked := x.server.ipcpAcked)
      && IpcpLeft(cfg, x.ipcp, x.server) < IpcpLeft(cfg, s, srv)
  {
    IpcpLaws.ReceiveKeepsInv(s, AnswerIpcp(cfg, srv.ipcpRequest.value));
    if HasNone(s.offer.desired, cfg.ipcpUnsupported) && AllAssigned(cfg, s.offer.desired) {
      IpcpAcceptedHeard(cfg, s, srv);
      OpenAfterAck(cfg, s, srv);
    } else {
      IpcpRevisedHeard(cfg, s, srv);
      OpenAfterRevision(cfg, s, srv);
    }
  }

  lemma OpenAfterRevision(cfg: Config, s: Ipcp.State, srv: Server)
    requires IpcpOpen(cfg, s, srv) && srv.ipcpRequest.Some?
    requires !HasNone(s.offer.desired, cfg.ipcpUnsupported) || !AllAssigned(cfg, s.offer.desired)
    requires IpcpLaws.Inv(s.(offer := Revised(cfg, s.offer)))
    ensures var x, heard := s.(offer := Revised(cfg, s.offer)), srv.(ipcpRequest := Some(RequestFrame(Revised(cfg, s.offer))), ipcpAcked := false);
      IpcpOpen(cfg, x, heard) && IpcpLeft(cfg, x, heard) < IpcpLeft(cfg, s, srv)
  {
    RevisedIsBetter(cfg, s.offer);
  }

  lemma OpenAfterAck(cfg: Config, s: Ipcp.State, srv: Server)
    requires IpcpOpen(cfg, s, srv) && srv.ipcpRequest.Some?
    requires HasNone(s.offer.desired, cfg.ipcpUnsupported) && AllAssigned(cfg, s.offer.desired)
    ensures var heard := srv.(ipcpRequest := None, ipcpAcked := true);
      var x := s.(offer := s.offer.(localUp := true), negotiated := ExpectedConfig(cfg).(peerIp := s.negotiated.peerIp));
      IpcpLaws.Inv(x) ==> IpcpOpen(cfg, x, heard) && IpcpLeft(cfg, x, heard) < IpcpLeft(cfg, s, srv)
  {
  }

  lemma IpcpRevisedHeard(cfg: Config, s: Ipcp.State, srv: Server)
    requires Bounded(s.offer) && s.offer.lastSentId.Some? && KeepsSupported(cfg, s.offer.desired)
    requires srv.ipcpRequest == Some(RequestFrame(s.offer))
    requires !HasNone(s.offer.desired, cfg.ipcpUnsupported) || !AllAssigned(cfg, s.offer.desired)
    ensures var answer := AnswerIpcp(cfg, srv.ipcpRequest.value);
      var x := IpcpExchange(cfg, s, DoMove(cfg, srv, ReplyIpcp).server, answer);
      var after := Revised(cfg, s.offer);
      && IpcpFits(s, answer)
      && x == IpExchange(s.(offer := after), srv.(ipcpRequest := Some(RequestFrame(after)), ipcpAcked := false), false)
      && KeepsSupported(cfg, after.desired)
      && after.lastSentId == Some(after.identifier) && !after.localUp
      && HasNone(after.desired, cfg.ipcpUnsupported)
      && (HasNone(s.offer.desired, cfg.ipcpUnsupported) ==> AllAssigned(cfg, after.desired))
  {
    IpcpRevised(cfg, s);
    RevisedIsBetter(cfg, s.offer);
    RequestHeard(cfg, DoMove(cfg, srv, ReplyIpcp).server, Revised(cfg, s.offer));
  }

  lemma IpcpAcceptedHeard(cfg: Config, s: Ipcp.State, srv: Server)
    requires Bounded(s.offer) && s.offer.lastSentId.Some? && KeepsSupported(cfg, s.offer.desired)
    requires srv.ipcpRequest == Some(RequestFrame(s.offer)) && IpcpLaws.NothingReported(s)
    requires HasNone(s.offer.desired, cfg.ipcpUnsupported) && AllAssigned(cfg, s.offer.desired)
    ensures var answer := AnswerIpcp(cfg, srv.ipcpRequest.value);
      var x := IpcpExchange(cfg, s, DoMove(cfg, srv, ReplyIpcp).server, answer);
      && IpcpFits(s, answer)
      && x.server == srv.(ipcpRequest := None, ipcpAcked := true)
      && x.up == s.remoteUp
      && x.ipcp == s.(offer := s.offer.(localUp := true),
                      negotiated := ExpectedConfig(cfg).(peerIp := s.negotiated.peerIp))
  {
    IpcpAccepted(cfg, s);
    CaptureIsExpected(cfg, s.negotiated, s.offer.desired);
  }

  lemma IpcpOwnAnswered(cfg: Config, s: Ipcp.State, srv: Server)
    requires IpcpOpen(cfg, s, srv) && !srv.ipcpOwnSent && srv.authenticated.Some?
    ensures var act := DoMove(cfg, srv, OwnIpcp);
      var request := PacketOctets(1, cfg.ipcpId, IpcpOwnData(cfg));
      var x := IpcpExchange(cfg, s, act.server, request);
      && IpcpFits(s, request)
      && (x.up <==> srv.ipcpAcked)
      && IpcpOpen(cfg, x.ipcp, x.server)
      && x.server == srv.(ipcpOwnSent := true, ipcpOwnAcked := true)
      && x.ipcp.offer == s.offer
  {
    var opts := [Cp.Opt(3, cfg.serverIp)];
    var data := IpcpOwnData(cfg);
    var request := PacketOctets(1, cfg.ipcpId, data);
    Conformance.WritesOptions(opts);
    Conformance.WritesControl(1, cfg.ipcpId, data);
    Cp.OptionsRoundTripAlone(opts);
    EncodedLength(opts);
    Cp.FrameRoundTrip(Cp.ConfigureRequest, cfg.ipcpId, data);
    ReadBack(2, cfg.ipcpId, data);
    IpcpLaws.ReceiveKeepsInv(s, request);
    assert opts[..0] == [];
    assert Ipcp.JudgeAll(s.negotiated.peerIp, opts) == Ipcp.Judged([], Some(cfg.serverIp));
  }
}
