/** The shape of every reply of the engine, whatever the state and the packet. */
module Replies {
  import opened Wrappers
  import opened Bytes
  import opened Packet
  import opened Engine
  import Ppp
  import Cp
  import Lcp
  import LcpLaws
  import Ipcp
  import ChapFsm
  import Cmac
  import Mppe

  // ----- Packets by their first bytes -----

  predicate IsControl(b: seq<Byte>, m: MsgType) {
    |b| >= 6 && b[1] == 1 && Word(b[4], b[5]) == MsgCode(m)
  }

  /** A data packet whose frame has the Address/Control prefix and the given protocol. */
  predicate CarriesPpp(b: seq<Byte>, p: Ppp.Protocol) {
    |b| >= 8 && b[1] == 0 && b[4] == 0xFF && b[5] == 0x03 && Word(b[6], b[7]) == Ppp.ProtocolCode(p)
  }

  lemma ControlBytes(m: MsgType, attrs: seq<Attr>)
    ensures IsControl(EncodeCtrl(m, attrs), m)
  {
    var head := CtrlHead(8 + |AttrsBytes(attrs)|, MsgCode(m), |attrs|);
    assert forall i :: 0 <= i < 8 ==> EncodeCtrl(m, attrs)[i] == head[i];
  }

  lemma DataBytes(p: Ppp.Protocol, payload: seq<Byte>)
    ensures CarriesPpp(WrapData(p, payload), p)
    ensures |WrapData(p, payload)| == 8 + |payload| && WrapData(p, payload)[8..] == payload
  {
    var wire, head := WrapData(p, payload), Ppp.FrameHead(p);
    assert forall i :: 0 <= i < 4 ==> wire[4 + i] == head[i];
  }

  // ----- Event lists -----

  predicate Lifecycle(e: Event) {
    e.Established? || e.Disconnected? || e.Fatal?
  }

  /** A trace, a delivery, or one of the packets the engine sends while it is at work. */
  predicate Plain(e: Event) {
    match e
    case Send(b) =>
      IsControl(b, DisconnectAck) || IsControl(b, EchoReply)
      || CarriesPpp(b, Ppp.Lcp) || CarriesPpp(b, Ppp.Chap) || CarriesPpp(b, Ppp.Ipcp)
    case _ => !Lifecycle(e)
  }

  predicate AllPlain(list: seq<Event>) {
    forall i :: 0 <= i < |list| ==> Plain(list[i])
  }

  /** Two of the reasons to give up never arise, the first while LCP is known to be sound. */
  predicate GivesUp(lcpSound: bool, e: Event) {
    || e.Disconnected?
    || (e.Fatal? && (e.reason == OtherAuthentication ==> !lcpSound) && e.reason != ResponseNotBuilt)
  }

  /** Plain, but perhaps for a last event that gives up. */
  predicate PlainThenEnd(lcpSound: bool, list: seq<Event>) {
    AllPlain(list) || (list != [] && AllPlain(list[..|list| - 1]) && GivesUp(lcpSound, list[|list| - 1]))
  }

  /** A data packet that carries an IP packet. */
  predicate IsIpFrame(b: seq<Byte>) {
    |b| >= 8 && b[1] % 2 == 0 && b[4] == 0xFF && b[5] == 0x03 && Word(b[6], b[7]) == 0x0021
  }

  /** What the two kinds of lists have in common with respect to order and contents. */
  predicate Disciplined(list: seq<Event>) {
    && (forall i :: 0 <= i < |list| - 1 ==> !Lifecycle(list[i]))
    && (forall i :: 0 <= i < |list| && list[i].Send? ==> !IsIpFrame(list[i].bytes))
    && (forall i :: 0 <= i < |list| && list[i].Send? && IsControl(list[i].bytes, Connected) ==>
          i == |list| - 2 && list[i + 1].Established?)
    && (forall i :: 0 <= i < |list| && list[i].Established? ==>
          i == |list| - 1 > 0 && list[i - 1].Send? && IsControl(list[i - 1].bytes, Connected))
  }

  lemma PlainIsDisciplined(lcpSound: bool, list: seq<Event>)
    requires PlainThenEnd(lcpSound, list)
    ensures Disciplined(list) && forall i :: 0 <= i < |list| ==> !list[i].Established?
  {
    forall i | 0 <= i < |list| && list[i].Send?
      ensures !IsIpFrame(list[i].bytes) && !IsControl(list[i].bytes, Connected)
    {
      assert Plain(list[i]);
    }
  }

  lemma ClosingIsDisciplined(plain: seq<Event>, bytes: seq<Byte>, last: Event)
    requires AllPlain(plain) && IsControl(bytes, Connected) && last.Established?
    ensures Disciplined(plain + [Send(bytes), last])
  {
    PlainIsDisciplined(true, plain);
  }

  predicate SendsCarry(list: seq<Event>, p: Ppp.Protocol) {
    forall i :: 0 <= i < |list| ==> list[i].Trace? || (list[i].Send? && CarriesPpp(list[i].bytes, p))
  }

  lemma SendsShape(p: Ppp.Protocol, sends: seq<seq<Byte>>)
    ensures SendsCarry(SendEvents(p, sends), p)
  {
    if sends != [] {
      SendsShape(p, sends[..|sends| - 1]);
      DataBytes(p, sends[|sends| - 1]);
    }
  }

  // ----- The reply to an IPCP frame -----

  /** What is sent and traced before the check whether IPCP is up. */
  function IpcpEvents(s: Ipcp.State, frame: seq<Byte>): seq<Event> {
    (if Cp.Decode(frame).Some? then [Trace] else []) + SendEvents(Ppp.Ipcp, Ipcp.Receive(s, frame).sends)
  }

  predicate Ready(s: State) {
    s.hashAlgo.Some? && s.serverNonce.Some? && s.mppeKeys.Some?
  }

  /** The two events that end the handshake. */
  function EndEvents(env: Env, s: State, negotiated: Ipcp.Config): seq<Event>
    requires Ready(s)
  {
    [Send(ConnectedFor(env, s.hashAlgo.value, s.serverNonce.value, s.mppeKeys.value)),
     Established(negotiated, s.mppeKeys.value)]
  }

  lemma IpcpReply(env: Env, s: State, frame: seq<Byte>)
    ensures var r, t := Ipcp.Receive(s.ipcp, frame), HandleIpcp(env, s, frame);
      var comesUp := r.up && s.phase == IpcpPhase;
      && (!comesUp ==> t == Turn(s.(ipcp := r.state), Events(IpcpEvents(s.ipcp, frame))))
      && (comesUp ==> t.state == s.(ipcp := r.state, phase := EstablishedPhase))
      && (comesUp && !Ready(s) ==> t.reply.Panicked?)
      && (comesUp && Ready(s) ==> t.reply == Events(IpcpEvents(s.ipcp, frame) + EndEvents(env, s, r.state.negotiated)))
  {
  }

  /** The IPCP frame a packet carries. */
  function IpcpPayload(p: Packet): Option<seq<Byte>> {
    if p.Ctrl? then None
    else
      match Ppp.Decode(p.frame)
      case None => None
      case Some(split) => if split.protocol == Ppp.Ipcp then Some(split.payload) else None
  }

  /** The CHAP frame a packet carries. */
  function ChapFrame(p: Packet): Option<ChapFsm.Frame> {
    if p.Ctrl? then None
    else
      match Ppp.Decode(p.frame)
      case None => None
      case Some(split) => if split.protocol == Ppp.Chap then ChapFsm.Decode(split.payload) else None
  }

  predicate CarriesChap(p: Packet, code: ChapFsm.Code) {
    ChapFrame(p).Some? && ChapFrame(p).value.code == code
  }

  /** Only IPCP frames and CHAP Successes have to do with IPCP. */
  predicate TouchesIpcp(p: Packet) {
    IpcpPayload(p).Some? || CarriesChap(p, ChapFsm.Success)
  }

  predicate LeavesIpcp(s: State, t: Turn) {
    && t.state.ipcp == s.ipcp
    && (t.reply.Events? ==>
          forall i :: 0 <= i < |t.reply.list| && t.reply.list[i].Send? ==> !CarriesPpp(t.reply.list[i].bytes, Ppp.Ipcp))
  }

  /** The packet completes the handshake. */
  predicate CompletesIpcp(s: State, p: Packet) {
    s.phase == IpcpPhase && IpcpPayload(p).Some? && Ipcp.Receive(s.ipcp, IpcpPayload(p).value).up
  }

  // ----- Every reply -----

  predicate Ordinary(s: State, t: Turn) {
    t.reply.Events? && PlainThenEnd(LcpLaws.Inv(s.lcp), t.reply.list)
  }

  lemma CtrlShape(s: State, m: MsgType, attrs: seq<Attr>)
    ensures Ordinary(s, OnCtrl(s, m, attrs)) && LeavesIpcp(s, OnCtrl(s, m, attrs))
  {
    ControlBytes(DisconnectAck, []);
    ControlBytes(EchoReply, []);
    DataBytes(Ppp.Lcp, Lcp.Start(s.lcp).sends[0]);
  }

  lemma LcpShape(s: State, payload: seq<Byte>, draws: Draws)
    ensures Ordinary(s, HandleLcp(s, payload, draws)) && LeavesIpcp(s, HandleLcp(s, payload, draws))
  {
    SendsShape(Ppp.Lcp, Lcp.Receive(s.lcp, payload, draws.magics).sends);
    if LcpLaws.Inv(s.lcp) {
      LcpLaws.ReceiveKeepsInv(s.lcp, payload, draws.magics);
    }
  }

  lemma ChallengeShape(env: Env, s: State, frame: ChapFsm.Frame, draws: Draws)
    ensures Ordinary(s, HandleChallenge(env, s, frame, draws)) && LeavesIpcp(s, HandleChallenge(env, s, frame, draws))
  {
    if ChapFsm.ParseChallenge(frame).Some? {
      var built := ChapFsm.BuildResponse(env.pr, ChapFsm.ParseChallenge(frame).value, env.username, env.password, draws.peerChallenge);
      if built.Ok? {
        DataBytes(Ppp.Chap, built.value.wire);
      }
    }
  }

  lemma SuccessShape(env: Env, s: State, frame: ChapFsm.Frame)
    ensures Ordinary(s, HandleSuccess(env, s, frame))
  {
    DataBytes(Ppp.Ipcp, Ipcp.Start(s.ipcp).sends[0]);
  }

  lemma ChapShape(env: Env, s: State, payload: seq<Byte>, draws: Draws)
    ensures Ordinary(s, HandleChap(env, s, payload, draws))
    ensures !(ChapFsm.Decode(payload).Some? && ChapFsm.Decode(payload).value.code == ChapFsm.Success)
      ==> LeavesIpcp(s, HandleChap(env, s, payload, draws))
  {
    if ChapFsm.Decode(payload).Some? {
      var frame := ChapFsm.Decode(payload).value;
      if frame.code == ChapFsm.Challenge {
        ChallengeShape(env, s, frame, draws);
      } else if frame.code == ChapFsm.Success {
        SuccessShape(env, s, frame);
      }
    }
  }

  /**
   A packet that completes IPCP is answered with the frames IPCP sends and the two closing events,
   or with a panic; every other packet with plain events and at most one that gives up.
   */
  predicate Shaped(env: Env, s: State, p: Packet, t: Turn) {
    if CompletesIpcp(s, p) then
      && t.state.phase == EstablishedPhase
      && Ipcp.IsUp(t.state.ipcp)
      && if Ready(s)
         then t.reply == Events(IpcpEvents(s.ipcp, IpcpPayload(p).value) + EndEvents(env, s, t.state.ipcp.negotiated))
              && AllPlain(IpcpEvents(s.ipcp, IpcpPayload(p).value))
         else t.reply.Panicked?
    else Ordinary(s, t) && (!TouchesIpcp(p) ==> LeavesIpcp(s, t))
  }

  lemma ConnectedBytes(env: Env, a: Cmac.HashAlgo, nonce: Bytes32, keys: Mppe.Keys)
    ensures IsControl(ConnectedFor(env, a, nonce, keys), Connected)
  {
    var mac := Cmac.CompoundMac(env.pr, a, keys.sendKey, keys.recvKey, Cmac.ConnectedPacket(a, nonce, CertHash(env, a), Zeros(32)));
    ControlBytes(Connected, [Attr(CryptoBind, Cmac.BindData(a, nonce, CertHash(env, a), Cmac.PadMac(mac)))]);
  }

  lemma IpcpShape(env: Env, s: State, p: Packet, payload: seq<Byte>)
    requires IpcpPayload(p) == Some(payload)
    ensures Shaped(env, s, p, HandleIpcp(env, s, payload))
  {
    IpcpReply(env, s, payload);
    SendsShape(Ppp.Ipcp, Ipcp.Receive(s.ipcp, payload).sends);
  }

  lemma ReplyShape(env: Env, s: State, p: Packet, draws: Draws)
    ensures Shaped(env, s, p, OnPacket(env, s, p, draws))
  {
    match p
    case Ctrl(m, attrs) => CtrlShape(s, m, attrs);
    case Data(frame) =>
      if IpcpPayload(p).Some? {
        IpcpShape(env, s, p, IpcpPayload(p).value);
      } else {
        OtherShape(env, s, frame, draws);
      }
  }

  lemma OtherShape(env: Env, s: State, frame: seq<Byte>, draws: Draws)
    requires IpcpPayload(Data(frame)).None?
    ensures var t := OnPppFrame(env, s, frame, draws);
      Ordinary(s, t) && (!TouchesIpcp(Data(frame)) ==> LeavesIpcp(s, t))
  {
    if Ppp.Decode(frame).Some? {
      var split := Ppp.Decode(frame).value;
      if split.protocol == Ppp.Lcp {
        LcpShape(s, split.payload, draws);
      } else if split.protocol == Ppp.Chap {
        ChapShape(env, s, split.payload, draws);
      } else {
        DataBytes(Ppp.Lcp, Lcp.RejectProtocol(s.lcp, Ppp.StripAddressControl(frame)).sends[0]);
      }
    }
  }

  /** From every state, every reply is disciplined. */
  lemma StepIsDisciplined(env: Env, s: State, p: Packet, draws: Draws)
    ensures var reply := OnPacket(env, s, p, draws).reply; reply.Events? ==> Disciplined(reply.list)
  {
    var t := OnPacket(env, s, p, draws);
    ReplyShape(env, s, p, draws);
    if !CompletesIpcp(s, p) {
      PlainIsDisciplined(LcpLaws.Inv(s.lcp), t.reply.list);
    } else if Ready(s) {
      ClosingShape(env, s, p, t);
    }
  }

  lemma ClosingShape(env: Env, s: State, p: Packet, t: Turn)
    requires Shaped(env, s, p, t) && CompletesIpcp(s, p) && Ready(s)
    ensures Disciplined(t.reply.list)
  {
    var end := EndEvents(env, s, t.state.ipcp.negotiated);
    ConnectedBytes(env, s.hashAlgo.value, s.serverNonce.value, s.mppeKeys.value);
    ClosingIsDisciplined(IpcpEvents(s.ipcp, IpcpPayload(p).value), end[0].bytes, end[1]);
  }
}
