/** No length cast truncates: every Send is exactly one well-formed SSTP packet. */
module Sizes {
  import opened Wrappers
  import opened Bytes
  import opened Packet
  import opened Engine
  import opened EngineRuns
  import Replies
  import Cp
  import Ppp
  import Lcp
  import LcpLaws
  import OwnOptions
  import Ipcp
  import IpcpLaws
  import ChapFsm
  import Cmac
  import Mppe

  /** The bytes decode, and the length field counts all of them. */
  predicate WholePacket(b: seq<Byte>) {
    Decode(b).Ok? && PacketLength(b) == |b|
  }

  predicate AllWhole(list: seq<Event>) {
    forall i :: 0 <= i < |list| && list[i].Send? ==> WholePacket(list[i].bytes)
  }

  const MAX_PAYLOAD := 0xFFFF - 8

  lemma WrapIsWhole(p: Ppp.Protocol, payload: seq<Byte>)
    ensures WholePacket(WrapData(p, payload)) <==> |payload| <= MAX_PAYLOAD
  {
    var frame := Ppp.Encode(p, payload);
    DataRoundTrip(frame, []);
    assert EncodeData(frame) + [] == EncodeData(frame);
    if |payload| > MAX_PAYLOAD {
      assert |EncodeData(frame)| > 0xFFFF;
    }
  }

  lemma CtrlIsWhole(m: MsgType, attrs: seq<Attr>)
    requires Canonical(m, attrs) && |EncodeCtrl(m, attrs)| <= 0xFFFF
    ensures WholePacket(EncodeCtrl(m, attrs))
  {
    var wire := EncodeCtrl(m, attrs);
    DecodeEncodedCtrl(m, attrs, []);
    CtrlHeader(m, attrs, []);
    assert wire + [] == wire;
  }

  /** Frames are sent in whole packets exactly when each of them fits one. */
  lemma {:induction false} SendEventsWhole(p: Ppp.Protocol, sends: seq<seq<Byte>>)
    ensures AllWhole(SendEvents(p, sends)) <==> forall i :: 0 <= i < |sends| ==> |sends[i]| <= MAX_PAYLOAD
  {
    if sends != [] {
      var last := |sends| - 1;
      SendEventsWhole(p, sends[..last]);
      WrapIsWhole(p, sends[last]);
      var trace: seq<Event> := if Cp.Decode(sends[last]).Some? then [Trace] else [];
      var sent := [Send(WrapData(p, sends[last]))];
      assert sent[0].Send?;
      WholeConcat(SendEvents(p, sends[..last]), trace);
      WholeConcat(SendEvents(p, sends[..last]) + trace, sent);
      assert forall i :: 0 <= i < last ==> sends[..last][i] == sends[i];
    } else {
      assert SendEvents(p, sends) == [];
    }
  }

  lemma WholeConcat(a: seq<Event>, b: seq<Event>)
    ensures AllWhole(a + b) <==> AllWhole(a) && AllWhole(b)
  {
    assert forall i :: 0 <= i < |a| ==> (a + b)[i] == a[i];
    assert forall i :: 0 <= i < |b| ==> (a + b)[|a| + i] == b[i];
  }

  /** Largest incoming packet whose LCP answer always fits. */
  const MAX_INCOMING := 52429

  /** Largest user name whose CHAP response fits. */
  const MAX_USERNAME := 65473

  // ----- Which packets are answered with whole packets -----

  /** Most data bytes of a control frame that a packet can hold. */
  const MAX_DATA := MAX_PAYLOAD - 4

  /** A condition on the server's frame and our magic number. */
  predicate LcpFits(magic: Word32, payload: seq<Byte>) {
    match Cp.Decode(payload)
    case None => true
    case Some(frame) =>
      && (frame.code == Cp.ConfigureRequest ==> LcpLaws.AnswerData(magic, frame.data) <= MAX_DATA)
      && (frame.code == Cp.EchoRequest ==> |frame.data| <= MAX_DATA)
  }

  predicate IpcpFits(payload: seq<Byte>) {
    match Cp.Decode(payload)
    case None => true
    case Some(frame) => frame.code == Cp.ConfigureRequest ==> IpcpLaws.AnswerData(frame.data) <= MAX_DATA
  }

  /** Only a well-formed Challenge is answered at a length that depends on anything. */
  predicate ChapFits(username: seq<Byte>, payload: seq<Byte>) {
    match ChapFsm.Decode(payload)
    case None => true
    case Some(frame) =>
      var info := ChapFsm.ParseChallenge(frame);
      frame.code == ChapFsm.Challenge && info.Some? && |info.value.value| == 16 ==> |username| <= MAX_USERNAME
  }

  /** What a packet asks for fits into packets: a condition on the packet, the user name and our magic number. */
  predicate AnswerFits(username: seq<Byte>, magic: Word32, p: Packet) {
    match p
    case Ctrl(_, _) => true
    case Data(frame) =>
      match Ppp.Decode(frame)
      case None => true
      case Some(split) =>
        match split.protocol
        case Lcp => LcpFits(magic, split.payload)
        case Chap => ChapFits(username, split.payload)
        case Ipcp => IpcpFits(split.payload)
        case Ip => true
        case _ => |Ppp.StripAddressControl(frame)| <= MAX_DATA
  }

  /** Acceptable as they are, and no authentication among them. */
  predicate AsksForNothing(magic: Word32, opts: seq<Cp.Opt>) {
    forall o :: o in opts ==> !LcpLaws.Unacceptable(o) && !LcpLaws.MustChange(magic, o) && o.kind != 3
  }

  /** LCP comes up without an authentication requirement: the engine gives up and drops its reply. */
  predicate GivesUpOnLcp(s: State, payload: seq<Byte>) {
    match Cp.Decode(payload)
    case None => false
    case Some(frame) =>
      && s.phase == LcpPhase && s.lcp.offer.localUp && s.lcp.peerAuth.None?
      && ((frame.code == Cp.EchoRequest && s.lcp.remoteUp)
          || (frame.code == Cp.ConfigureRequest && AsksForNothing(s.lcp.magic, Cp.DecodeOptions(frame.data))))
  }

  predicate DropsReply(s: State, p: Packet) {
    p.Data? && Ppp.Decode(p.frame).Some? && Ppp.Decode(p.frame).value.protocol == Ppp.Lcp
    && GivesUpOnLcp(s, Ppp.Decode(p.frame).value.payload)
  }

  // ----- LCP -----

  lemma LcpSends(s: State, payload: seq<Byte>, draws: Draws)
    requires LcpLaws.Inv(s.lcp)
    ensures AllWhole([Trace] + SendEvents(Ppp.Lcp, Lcp.Receive(s.lcp, payload, draws.magics).sends)) <==> LcpFits(s.lcp.magic, payload)
  {
    var sends := Lcp.Receive(s.lcp, payload, draws.magics).sends;
    LcpLaws.ReceiveSendLengths(s.lcp, payload, draws.magics);
    SendEventsWhole(Ppp.Lcp, sends);
    WholeConcat([Trace], SendEvents(Ppp.Lcp, sends));
  }

  lemma NothingAskedMeans(magic: Word32, opts: seq<Cp.Opt>)
    ensures AsksForNothing(magic, opts) <==>
      && !(exists o :: o in opts && LcpLaws.Unacceptable(o))
      && !(exists o :: o in opts && LcpLaws.MustChange(magic, o))
      && !(exists o :: o in opts && LcpLaws.AsksMsChapV2(o))
  {
  }

  /** What a request does to the up flag and to the authentication required. */
  lemma RequestState(s: Lcp.State, frame: Cp.Frame, draws: nat -> Word32)
    ensures var opts, r := Cp.DecodeOptions(frame.data), Lcp.AnswerRequest(s, frame, draws);
      && r.state.peerAuth == Lcp.JudgeAll(s.magic, s.peerAuth, opts, draws).peerAuth
      && (r.up <==>
            && s.offer.localUp
            && !(exists o :: o in opts && LcpLaws.Unacceptable(o))
            && !(exists o :: o in opts && LcpLaws.MustChange(s.magic, o)))
  {
    var opts := Cp.DecodeOptions(frame.data);
    LcpLaws.JudgedSplit(s.magic, s.peerAuth, opts, draws);
    OwnOptions.SelectProperties(opts, LcpLaws.Unacceptable);
    OwnOptions.SelectProperties(opts, o => LcpLaws.MustChange(s.magic, o));
    var judged := Lcp.JudgeAll(s.magic, s.peerAuth, opts, draws);
    assert |judged.naks| == |LcpLaws.ToChange(s.magic, opts)|;
  }

  /** When a request of the server's brings LCP up without an authentication requirement. */
  lemma RequestBringsUp(s: Lcp.State, payload: seq<Byte>, draws: nat -> Word32)
    requires LcpLaws.Inv(s) && Cp.Decode(payload).Some? && Cp.Decode(payload).value.code == Cp.ConfigureRequest
    ensures var r := Lcp.Receive(s, payload, draws);
      r.up && r.state.peerAuth.None?
      <==> s.offer.localUp && s.peerAuth.None? && AsksForNothing(s.magic, Cp.DecodeOptions(Cp.Decode(payload).value.data))
  {
    var opts := Cp.DecodeOptions(Cp.Decode(payload).value.data);
    RequestState(s, Cp.Decode(payload).value, draws);
    LcpLaws.RecordedAuthIsMsChapV2(s.magic, s.peerAuth, opts, draws);
    NothingAskedMeans(s.magic, opts);
  }

  /** For the two kinds of frames whose answer can be too long. */
  lemma GivesUpExactly(s: State, payload: seq<Byte>, draws: Draws)
    requires LcpLaws.Inv(s.lcp) && Cp.Decode(payload).Some?
    requires Cp.Decode(payload).value.code == Cp.ConfigureRequest || Cp.Decode(payload).value.code == Cp.EchoRequest
    ensures var r := Lcp.Receive(s.lcp, payload, draws.magics);
      s.phase == LcpPhase && r.up && r.state.peerAuth.None? <==> GivesUpOnLcp(s, payload)
  {
    if Cp.Decode(payload).value.code == Cp.ConfigureRequest {
      RequestBringsUp(s.lcp, payload, draws.magics);
    }
  }

  lemma LcpWhole(s: State, payload: seq<Byte>, draws: Draws)
    requires LcpLaws.Inv(s.lcp)
    ensures AllWhole(HandleLcp(s, payload, draws).reply.list) <==> LcpFits(s.lcp.magic, payload) || GivesUpOnLcp(s, payload)
  {
    var r := Lcp.Receive(s.lcp, payload, draws.magics);
    var all := [Trace] + SendEvents(Ppp.Lcp, r.sends);
    LcpSends(s, payload, draws);
    var t := HandleLcp(s, payload, draws);
    assert t.reply.list == all || AllWhole(t.reply.list);
    if !LcpFits(s.lcp.magic, payload) {
      GivesUpExactly(s, payload, draws);
      LcpLaws.ReceiveKeepsInv(s.lcp, payload, draws.magics);
      assert t.reply.list == all <==> !GivesUpOnLcp(s, payload) by {
        if GivesUpOnLcp(s, payload) {
          assert t.reply.list == [Fatal(NoAuthentication)];
        }
      }
    }
  }

  // ----- IPCP -----

  lemma IpcpSendLengths(s: Ipcp.State, payload: seq<Byte>)
    requires IpcpLaws.Inv(s)
    ensures var sends := Ipcp.Receive(s, payload).sends;
      && |sends| <= 1
      && (sends == [] ==> IpcpFits(payload))
      && (sends != [] ==> (|sends[0]| <= MAX_PAYLOAD <==> IpcpFits(payload)))
  {
    if Cp.Decode(payload).Some? {
      var frame := Cp.Decode(payload).value;
      if frame.code == Cp.ConfigureRequest {
        IpcpLaws.JudgedRejects(s.negotiated.peerIp, Cp.DecodeOptions(frame.data));
      } else {
        LcpLaws.OwnRequestLength(s.offer, frame);
      }
    }
  }

  lemma IpcpWhole(env: Env, s: State, payload: seq<Byte>)
    requires IpcpLaws.Inv(s.ipcp)
    ensures var r := HandleIpcp(env, s, payload).reply; r.Events? ==> (AllWhole(r.list) <==> IpcpFits(payload))
  {
    Replies.IpcpReply(env, s, payload);
    IpcpEventsWhole(s.ipcp, payload);
    if Replies.Ready(s) {
      EndWhole(env, s, payload);
    }
  }

  lemma IpcpEventsWhole(s: Ipcp.State, payload: seq<Byte>)
    requires IpcpLaws.Inv(s)
    ensures AllWhole(Replies.IpcpEvents(s, payload)) <==> IpcpFits(payload)
  {
    var sends := Ipcp.Receive(s, payload).sends;
    IpcpSendLengths(s, payload);
    SendEventsWhole(Ppp.Ipcp, sends);
    WholeConcat(if Cp.Decode(payload).Some? then [Trace] else [], SendEvents(Ppp.Ipcp, sends));
  }

  lemma EndWhole(env: Env, s: State, payload: seq<Byte>)
    requires Replies.Ready(s)
    ensures var events, end := Replies.IpcpEvents(s.ipcp, payload), Replies.EndEvents(env, s, Ipcp.Receive(s.ipcp, payload).state.negotiated);
      AllWhole(events + end) <==> AllWhole(events)
  {
    ConnectedWhole(env, s.hashAlgo.value, s.serverNonce.value, s.mppeKeys.value);
    WholeConcat(Replies.IpcpEvents(s.ipcp, payload), Replies.EndEvents(env, s, Ipcp.Receive(s.ipcp, payload).state.negotiated));
  }

  lemma ConnectedWhole(env: Env, a: Cmac.HashAlgo, nonce: Bytes32, keys: Mppe.Keys)
    ensures WholePacket(ConnectedFor(env, a, nonce, keys))
  {
    var zeroed := Cmac.ConnectedPacket(a, nonce, CertHash(env, a), Zeros(32));
    var mac := Cmac.PadMac(Cmac.CompoundMac(env.pr, a, keys.sendKey, keys.recvKey, zeroed));
    Cmac.ConnectedSplit(a, nonce, CertHash(env, a), mac);
    CtrlIsWhole(Connected, [Attr(CryptoBind, Cmac.BindData(a, nonce, CertHash(env, a), mac))]);
  }

  // ----- CHAP -----

  lemma FatalAlone(reason: FatalReason)
    ensures HasFatal(Events([Fatal(reason)]))
  {
    assert [Fatal(reason)][0].Fatal?;
  }

  /** A response is a whole packet exactly when the user name is within bounds. */
  lemma ResponseWhole(env: Env, s: State, frame: ChapFsm.Frame, draws: Draws)
    requires !HasFatal(HandleChallenge(env, s, frame, draws).reply)
    ensures AllWhole(HandleChallenge(env, s, frame, draws).reply.list) <==> |env.username| <= MAX_USERNAME
  {
    var reply := HandleChallenge(env, s, frame, draws).reply;
    FatalAlone(MalformedChallenge);
    FatalAlone(BadChallengeLength);
    var answer := ChapFsm.BuildResponse(env.pr, ChapFsm.ParseChallenge(frame).value, env.username, env.password, draws.peerChallenge);
    assert |answer.value.wire| == 54 + |env.username|;
    WrapIsWhole(Ppp.Chap, answer.value.wire);
    assert reply.list == [Trace, Trace, Send(WrapData(Ppp.Chap, answer.value.wire))];
    assert reply.list[2].Send?;
  }

  lemma ChapWhole(env: Env, s: State, payload: seq<Byte>, draws: Draws)
    requires IpcpLaws.Inv(s.ipcp)
    ensures AllWhole(HandleChap(env, s, payload, draws).reply.list) <==> ChapFits(env.username, payload)
  {
    match ChapFsm.Decode(payload)
    case None =>
    case Some(frame) =>
      if frame.code == ChapFsm.Challenge {
        ChallengeWhole(env, s, frame, draws);
      } else if frame.code == ChapFsm.Success {
        SuccessWhole(env, s, frame);
      }
  }

  lemma ChallengeWhole(env: Env, s: State, frame: ChapFsm.Frame, draws: Draws)
    ensures var info := ChapFsm.ParseChallenge(frame);
      AllWhole(HandleChallenge(env, s, frame, draws).reply.list)
      <==> (info.Some? && |info.value.value| == 16 ==> |env.username| <= MAX_USERNAME)
  {
    var t := HandleChallenge(env, s, frame, draws);
    if HasFatal(t.reply) {
      FatalSendsNothing(env, s, frame, draws);
    } else {
      ResponseWhole(env, s, frame, draws);
    }
  }

  lemma SuccessWhole(env: Env, s: State, frame: ChapFsm.Frame)
    requires IpcpLaws.Inv(s.ipcp)
    ensures AllWhole(HandleSuccess(env, s, frame).reply.list)
  {
    OwnOptions.EncodedLength(s.ipcp.offer.desired);
    WrapIsWhole(Ppp.Ipcp, Ipcp.Start(s.ipcp).sends[0]);
  }

  lemma FatalSendsNothing(env: Env, s: State, frame: ChapFsm.Frame, draws: Draws)
    requires HasFatal(HandleChallenge(env, s, frame, draws).reply)
    ensures AllWhole(HandleChallenge(env, s, frame, draws).reply.list)
    ensures !(ChapFsm.ParseChallenge(frame).Some? && |ChapFsm.ParseChallenge(frame).value.value| == 16)
  {
  }

  lemma AckReplyWhole(s: State, attrs: seq<Attr>)
    requires LcpLaws.Inv(s.lcp)
    ensures AllWhole(OnConnectAck(s, attrs).reply.list)
  {
    var desired := s.lcp.offer.desired;
    OwnOptions.EncodedLength(desired);
    WrapIsWhole(Ppp.Lcp, OwnOptions.Request(OwnOptions.Bump(s.lcp.offer.identifier), desired));
  }

  lemma ShortCtrlIsWhole(m: MsgType)
    requires !m.UnknownMsg?
    ensures WholePacket(EncodeCtrl(m, []))
  {
    CtrlIsWhole(m, []);
  }

  lemma CtrlRepliesWhole(s: State, m: MsgType, attrs: seq<Attr>)
    requires LcpLaws.Inv(s.lcp)
    ensures AllWhole(OnCtrl(s, m, attrs).reply.list)
  {
    match m
    case ConnectAck => AckReplyWhole(s, attrs);
    case Disconnect => DisconnectReplyWhole();
    case EchoRequest => EchoReplyWhole();
    case _ => NoSendWhole(OnCtrl(s, m, attrs).reply.list);
  }

  lemma DisconnectReplyWhole()
    ensures AllWhole([Send(EncodeCtrl(DisconnectAck, [])), Disconnected])
  {
    ShortCtrlIsWhole(DisconnectAck);
    OneWhole(EncodeCtrl(DisconnectAck, []), [Disconnected]);
    assert [Send(EncodeCtrl(DisconnectAck, []))] + [Disconnected] == [Send(EncodeCtrl(DisconnectAck, [])), Disconnected];
  }

  lemma EchoReplyWhole()
    ensures AllWhole([Send(EncodeCtrl(EchoReply, []))])
  {
    ShortCtrlIsWhole(EchoReply);
    OneWhole(EncodeCtrl(EchoReply, []), []);
    assert [Send(EncodeCtrl(EchoReply, []))] + [] == [Send(EncodeCtrl(EchoReply, []))];
  }

  lemma NoSendWhole(list: seq<Event>)
    requires forall i :: 0 <= i < |list| ==> !list[i].Send?
    ensures AllWhole(list)
  {
  }

  lemma OneWhole(b: seq<Byte>, more: seq<Event>)
    requires WholePacket(b) && forall i :: 0 <= i < |more| ==> !more[i].Send?
    ensures AllWhole([Send(b)] + more)
  {
  }

  // ----- Every packet, in every run -----

  /** A Protocol-Reject is whole exactly when what it quotes fits. */
  lemma ProtocolRejectWhole(s: State, info: seq<Byte>)
    ensures AllWhole([Send(WrapData(Ppp.Lcp, Lcp.RejectProtocol(s.lcp, info).sends[0]))]) <==> |info| <= MAX_DATA
  {
    var wire := Lcp.RejectProtocol(s.lcp, info).sends[0];
    WrapIsWhole(Ppp.Lcp, wire);
    assert [Send(WrapData(Ppp.Lcp, wire))][0].Send?;
  }

  predicate WholeExactly(env: Env, s: State, p: Packet, r: Reply) {
    r.Events? ==> (AllWhole(r.list) <==> AnswerFits(env.username, s.lcp.magic, p) || DropsReply(s, p))
  }

  lemma FrameRepliesWhole(env: Env, s: State, frame: seq<Byte>, draws: Draws)
    requires LcpLaws.Inv(s.lcp) && IpcpLaws.Inv(s.ipcp)
    ensures WholeExactly(env, s, Data(frame), OnPppFrame(env, s, frame, draws).reply)
  {
    match Ppp.Decode(frame)
    case None =>
    case Some(split) =>
      if split.protocol == Ppp.Lcp {
        LcpWhole(s, split.payload, draws);
      } else if split.protocol == Ppp.Chap {
        ChapWhole(env, s, split.payload, draws);
      } else if split.protocol == Ppp.Ipcp {
        IpcpWhole(env, s, split.payload);
      } else {
        ProtocolRejectWhole(s, Ppp.StripAddressControl(frame));
      }
  }

  /**
   In every run, every packet is answered with whole packets only, exactly when its answer fits:
   the options refused, countered or acknowledged, the echo, or the protocol quoted, in 65523 data
   bytes, and the user name, if it is a Challenge, in 65473 bytes; or when the engine gives up on
   LCP and drops the answer.
   */
  lemma AnswersAreWhole(env: Env, magic: Word32, inputs: seq<Input>, i: Input)
    ensures var s := RunOf(env, magic, inputs).state;
      WholeExactly(env, s, i.packet, OnPacket(env, s, i.packet, i.draws).reply)
  {
    EveryRunKeepsInv(env, magic, inputs);
    var s := RunOf(env, magic, inputs).state;
    match i.packet
    case Ctrl(m, attrs) => CtrlRepliesWhole(s, m, attrs);
    case Data(frame) => FrameRepliesWhole(env, s, frame, i.draws);
  }

  /** Packets of up to 52429 bytes always fit, whatever our magic number. */
  lemma SmallFits(username: seq<Byte>, magic: Word32, p: Packet, wire: seq<Byte>)
    requires |username| <= MAX_USERNAME
    requires Decode(wire) == Ok(p) && PacketLength(wire) <= MAX_INCOMING
    ensures AnswerFits(username, magic, p)
  {
    if p.Data? && Ppp.Decode(p.frame).Some? {
      var payload := Ppp.Decode(p.frame).value.payload;
      if Cp.Decode(payload).Some? {
        LcpLaws.AnswerGrows(magic, Cp.Decode(payload).value.data);
        IpcpLaws.AnswerShrinks(Cp.Decode(payload).value.data);
      }
    }
  }

  /**
   In every run, with user names up to 65473 bytes: every packet of up to 52429 bytes is answered
   with whole packets only.
   */
  lemma EverySendIsWhole(env: Env, magic: Word32, inputs: seq<Input>, i: Input, wire: seq<Byte>)
    requires |env.username| <= MAX_USERNAME
    requires Decode(wire) == Ok(i.packet) && PacketLength(wire) <= MAX_INCOMING
    ensures var reply := OnPacket(env, RunOf(env, magic, inputs).state, i.packet, i.draws).reply;
      reply.Events? ==> AllWhole(reply.list)
  {
    AnswersAreWhole(env, magic, inputs, i);
    SmallFits(env.username, RunOf(env, magic, inputs).state.lcp.magic, i.packet, wire);
  }

  // ----- The bound is exact -----

  const PAP_OPTION: Cp.Opt := Cp.Opt(3, [0xC0, 0x23])

  function Copies(n: nat): (opts: seq<Cp.Opt>)
    ensures |opts| == n && forall i :: 0 <= i < n ==> opts[i] == PAP_OPTION
  {
    seq(n, i => PAP_OPTION)
  }

  /** `n` PAP proposals take four bytes each, their MS-CHAPv2 counter-proposals five. */
  lemma PapIsCountered(magic: Word32, auth: Option<Lcp.PeerAuth>, n: nat, draws: nat -> Word32)
    ensures var j := Lcp.JudgeAll(magic, auth, Copies(n), draws);
      && j.rejects == [] && |j.naks| == n
      && |Cp.EncodeOptions(Copies(n))| == 4 * n
      && |Cp.EncodeOptions(j.naks)| == 5 * n
  {
    if n > 0 {
      PapIsCountered(magic, auth, n - 1, draws);
      var before := Lcp.JudgeAll(magic, auth, Copies(n - 1), draws);
      assert Copies(n)[..n - 1] == Copies(n - 1);
      assert Lcp.Judge(magic, PAP_OPTION, draws(n - 1)) == Lcp.Counter(Lcp.MSCHAPV2_OPTION);
      assert Lcp.JudgeAll(magic, auth, Copies(n), draws) == before.(naks := before.naks + [Lcp.MSCHAPV2_OPTION]);
      Cp.EncodeSnoc(before.naks, Lcp.MSCHAPV2_OPTION);
      CopiesLength(n);
    }
  }

  lemma CopiesLength(n: nat)
    ensures |Cp.EncodeOptions(Copies(n))| == 4 * n
  {
    if n > 0 {
      assert Copies(n)[1..] == Copies(n - 1);
      CopiesLength(n - 1);
    }
  }

  /** An LCP request of 13105 PAP proposals. */
  function OversizeRequest(): seq<Byte> {
    Cp.Encode(Cp.ConfigureRequest, 1, Cp.EncodeOptions(Copies(13105)))
  }

  /** In a frame without the Address/Control prefix. */
  function OversizeFrame(): seq<Byte> {
    Be16(Ppp.ProtocolCode(Ppp.Lcp)) + OversizeRequest()
  }

  /** Such a request is countered in full, by a frame that no packet can hold. */
  lemma OversizeAnswer(s: Lcp.State, draws: nat -> Word32)
    ensures var r := Lcp.Receive(s, OversizeRequest(), draws);
      && |OversizeRequest()| == 4 + 4 * 13105
      && |r.sends| == 1 && |r.sends[0]| == 4 + 5 * 13105
      && !r.up
  {
    var opts := Copies(13105);
    var data := Cp.EncodeOptions(opts);
    PapIsCountered(s.magic, s.peerAuth, 13105, draws);
    Cp.FrameRoundTrip(Cp.ConfigureRequest, 1, data);
    assert Cp.AllSmall(opts);
    Cp.OptionsRoundTripAlone(opts);
  }

  lemma OversizeReply(s: State, draws: Draws)
    ensures |OversizeRequest()| == 4 + 4 * 13105
    ensures !AllWhole(HandleLcp(s, OversizeRequest(), draws).reply.list)
  {
    OversizeAnswer(s.lcp, draws.magics);
    var sends := Lcp.Receive(s.lcp, OversizeRequest(), draws.magics).sends;
    WrapIsWhole(Ppp.Lcp, sends[0]);
    OneSend(sends[0]);
    assert sends == [sends[0]];
    var list := HandleLcp(s, OversizeRequest(), draws).reply.list;
    assert list[|list| - 1] == Send(WrapData(Ppp.Lcp, sends[0]));
  }

  /** One byte above the bound there is a packet that any state answers with a truncated length field. */
  lemma BoundIsExact(env: Env, s: State, draws: Draws)
    ensures var wire := EncodeData(OversizeFrame());
      && |wire| == MAX_INCOMING + 1
      && Decode(wire) == Ok(Data(OversizeFrame()))
      && AnsweredTooLong(env, s, Data(OversizeFrame()), draws)
  {
    OversizeReply(s, draws);
    OversizeArrives();
    FrameIsHandled(env, s, OversizeFrame(), OversizeRequest(), draws);
  }

  lemma OversizeArrives()
    ensures |OversizeRequest()| == 4 + 4 * 13105 ==> |EncodeData(OversizeFrame())| == MAX_INCOMING + 1
    ensures |OversizeRequest()| == 4 + 4 * 13105 ==> Decode(EncodeData(OversizeFrame())) == Ok(Data(OversizeFrame()))
    ensures Ppp.Decode(OversizeFrame()) == Some(Ppp.Split(Ppp.Lcp, OversizeRequest()))
  {
    DataRoundTrip(OversizeFrame(), []);
    assert EncodeData(OversizeFrame()) + [] == EncodeData(OversizeFrame());
    Ppp.FrameRoundTrip(Ppp.Lcp, OversizeRequest());
  }

  predicate AnsweredTooLong(env: Env, s: State, p: Packet, draws: Draws) {
    var reply := OnPacket(env, s, p, draws).reply;
    reply.Events? && !AllWhole(reply.list)
  }

  lemma FrameIsHandled(env: Env, s: State, frame: seq<Byte>, payload: seq<Byte>, draws: Draws)
    requires Ppp.Decode(frame) == Some(Ppp.Split(Ppp.Lcp, payload))
    requires !AllWhole(HandleLcp(s, payload, draws).reply.list)
    ensures AnsweredTooLong(env, s, Data(frame), draws)
  {
  }

  lemma OneSend(d: seq<Byte>)
    ensures var list := SendEvents(Ppp.Lcp, [d]); |list| >= 1 && list[|list| - 1] == Send(WrapData(Ppp.Lcp, d))
  {
  }
}
