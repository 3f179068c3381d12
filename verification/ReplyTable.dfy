/**
 What the engine does with every message, from every state: the new state and the reply, event by event,
 in the octets of the standards. The reference reads the message and writes what is sent; the hashes, keys
 and responses in it are the reference definitions.
 */
module ReplyTable {
  import opened Wrappers
  import opened Bytes
  import opened Primitives
  import opened RfcSyntax
  import opened RfcText
  import opened NegotiationTable
  import opened Engine
  import Conformance
  import Packet
  import Ppp
  import Cp
  import Lcp
  import Ipcp
  import Chap
  import ChapFsm
  import Cmac
  import CmacLaws
  import Mppe
  import OwnOptions
  import Rfc

  // ----- Control messages -----

  /** A request for our options under the next identifier, which is then the one awaited. */
  function Asking(o: OwnOptions.Offer): OwnOptions.Offer {
    o.(identifier := NextId(o.identifier), lastSentId := Some(NextId(o.identifier)))
  }

  function AskingOctets(o: OwnOptions.Offer): seq<Byte> {
    PacketOctets(1, NextId(o.identifier), OptionsOctets(o.desired))
  }

  /** The first crypto-binding request of 36 octets is accepted, once. */
  predicate AckAnswered(s: State, attributes: seq<Attribute>, t: Turn) {
    var value := FirstValue(attributes, 4);
    if s.phase != WaitConnectAck then t == Turn(s, Events([]))
    else if value.None? then t == Turn(s, Events([Fatal(MissingCryptoBind)]))
    else if |value.value| != 36 then t == Turn(s, Events([Fatal(BadCryptoBindLength)]))
    else
      t == Turn(
        s.(hashAlgo := Some(Rfc.HashNumbered(Rfc.AnnouncedHash(value.value[3]))),
           serverNonce := Some(value.value[4..36]),
           phase := LcpPhase,
           lcp := s.lcp.(offer := Asking(s.lcp.offer))),
        Events([Trace, Send(Carried(0xC021, AskingOctets(s.lcp.offer)))]))
  }

  /** By message type ([MS-SSTP] section 2.2.2). */
  predicate ControlAnswered(s: State, kind: Word16, attributes: seq<Attribute>, t: Turn) {
    if kind == 2 then AckAnswered(s, attributes, t)
    else
      t == Turn(s, Events(
        if kind == 3 then [Fatal(ConnectRefused)]
        else if kind == 5 then [Fatal(ServerAborted)]
        else if kind == 6 then [Send([0x10, 0x01, 0x00, 0x08, 0x00, 0x07, 0x00, 0x00]), Disconnected]
        else if kind == 7 then [Disconnected]
        else if kind == 8 then [Send([0x10, 0x01, 0x00, 0x08, 0x00, 0x09, 0x00, 0x00])]
        else []))
  }

  lemma {:induction false} FirstIsFound(attributes: seq<Attribute>)
    ensures FindAttr(Conformance.Attrs(attributes), Packet.CryptoBindRequest)
      == match FirstValue(attributes, 4)
         case None => None
         case Some(value) => Some(Packet.Attr(Packet.CryptoBindRequest, value))
    decreases |attributes|
  {
    if attributes != [] {
      FirstIsFound(attributes[1..]);
      assert Conformance.Attrs(attributes)[1..] == Conformance.Attrs(attributes[1..]);
      assert Conformance.AttributeType(attributes[0].id) == Packet.CryptoBindRequest <==> attributes[0].id == 4;
    }
  }

  lemma ChosenIsAnnounced(bitmask: Byte)
    ensures ChosenAlgo(bitmask) == Rfc.HashNumbered(Rfc.AnnouncedHash(bitmask))
  {
    var q, r := bitmask / 4, bitmask % 4;
    DivideBack(2 * q + r / 2, r % 2, 2);
  }

  /** A frame of the client's in a data message. */
  lemma WrapIsCarried(p: Ppp.Protocol, number: Word16, payload: seq<Byte>)
    requires p == Conformance.ProtocolNumbered(number)
    ensures WrapData(p, payload) == Carried(number, payload)
  {
    Conformance.WritesPpp(number, payload);
    Conformance.WritesDataMessages(PppOctets(number, payload));
  }

  lemma AckIsAnswered(s: State, attributes: seq<Attribute>)
    ensures AckAnswered(s, attributes, OnConnectAck(s, Conformance.Attrs(attributes)))
  {
    FirstIsFound(attributes);
    RequestOctets(s.lcp.offer);
    WrapIsCarried(Ppp.Lcp, 0xC021, AskingOctets(s.lcp.offer));
    var value := FirstValue(attributes, 4);
    if value.Some? && |value.value| == 36 {
      ChosenIsAnnounced(value.value[3]);
    }
  }

  lemma ShortMessage(kind: Word16)
    requires kind < 256
    ensures Packet.EncodeCtrl(Conformance.MessageType(kind), []) == [0x10, 0x01, 0x00, 0x08, 0x00, kind, 0x00, 0x00]
  {
    Conformance.MessageCodes(kind);
    assert Packet.CtrlHead(8, kind, 0) == [0x10, 0x01, 0x00, 0x08, 0x00, kind, 0x00, 0x00];
  }

  lemma ControlIsAnswered(s: State, kind: Word16, attributes: seq<Attribute>)
    ensures ControlAnswered(s, kind, attributes, OnCtrl(s, Conformance.MessageType(kind), Conformance.Attrs(attributes)))
  {
    AckIsAnswered(s, attributes);
    ShortMessage(7);
    ShortMessage(9);
  }

  // ----- LCP -----

  /** At most one frame is sent at a time; it is traced when it reads back. */
  function Sent(protocol: Word16, sends: seq<seq<Byte>>): seq<Event> {
    if sends == [] then []
    else (if ReadControl(sends[0]).Some? then [Trace] else []) + [Send(Carried(protocol, sends[0]))]
  }

  lemma SentOnce(p: Ppp.Protocol, protocol: Word16, sends: seq<seq<Byte>>)
    requires |sends| <= 1 && p == Conformance.ProtocolNumbered(protocol)
    ensures SendEvents(p, sends) == Sent(protocol, sends)
  {
    if sends != [] {
      assert sends[..0] == [];
      Conformance.ReadsControl(sends[0]);
      WrapIsCarried(p, protocol, sends[0]);
    }
  }

  /** When LCP opens for the first time, the server must have asked for MS-CHAPv2. */
  predicate LcpReplied(s: State, t: Turn, sends: seq<seq<Byte>>) {
    var after := t.state.lcp;
    var reply := Events([Trace] + Sent(0xC021, sends));
    if !(s.phase == LcpPhase && after.offer.localUp && after.remoteUp) then t == Turn(s.(lcp := after), reply)
    else if after.peerAuth == Some(Lcp.PeerAuth(0xC223, 0x81)) then t == Turn(s.(lcp := after, phase := ChapPhase), reply)
    else if after.peerAuth.None? then t == Turn(s.(lcp := after), Events([Fatal(NoAuthentication)]))
    else t == Turn(s.(lcp := after), Events([Fatal(OtherAuthentication)]))
  }

  ghost predicate LcpAnswered(s: State, payload: seq<Byte>, draws: Draws, t: Turn) {
    exists sends :: LcpTakes(s.lcp, payload, draws.magics, t.state.lcp, sends) && LcpReplied(s, t, sends)
  }

  lemma LcpSendsOnce(s: Lcp.State, payload: seq<Byte>, draws: nat -> Word32, s': Lcp.State, sends: seq<seq<Byte>>)
    requires LcpTakes(s, payload, draws, s', sends)
    ensures |sends| <= 1
  {
  }

  lemma LcpIsAnswered(s: State, payload: seq<Byte>, draws: Draws)
    ensures LcpAnswered(s, payload, draws, HandleLcp(s, payload, draws))
  {
    var r := Lcp.Receive(s.lcp, payload, draws.magics);
    LcpFollowsTable(s.lcp, payload, draws.magics);
    LcpSendsOnce(s.lcp, payload, draws.magics, r.state, r.sends);
    SentOnce(Ppp.Lcp, 0xC021, r.sends);
    LcpReplyIs(s, payload, draws, r);
  }

  lemma LcpReplyIs(s: State, payload: seq<Byte>, draws: Draws, r: Lcp.Outcome)
    requires r == Lcp.Receive(s.lcp, payload, draws.magics)
    requires r.up == (r.state.offer.localUp && r.state.remoteUp) && SendEvents(Ppp.Lcp, r.sends) == Sent(0xC021, r.sends)
    ensures var t := HandleLcp(s, payload, draws); t.state.lcp == r.state && LcpReplied(s, t, r.sends)
  {
  }

  /** A protocol that is not spoken is quoted in a Protocol-Reject, from its number on. */
  predicate ProtocolRejected(s: State, quoted: seq<Byte>, t: Turn) {
    var id := NextId(s.lcp.offer.identifier);
    t == Turn(s.(lcp := s.lcp.(offer := s.lcp.offer.(identifier := id))),
              Events([Send(Carried(0xC021, PacketOctets(8, id, quoted)))]))
  }

  lemma RejectIs(s: Lcp.State, quoted: seq<Byte>)
    ensures var r, id := Lcp.RejectProtocol(s, quoted), NextId(s.offer.identifier);
      && r.state == s.(offer := s.offer.(identifier := id))
      && WrapData(Ppp.Lcp, r.sends[0]) == Carried(0xC021, PacketOctets(8, id, quoted))
  {
    var id := NextId(s.offer.identifier);
    Conformance.WritesControl(8, id, quoted);
    WrapIsCarried(Ppp.Lcp, 0xC021, PacketOctets(8, id, quoted));
  }

  lemma ProtocolIsRejected(env: Env, s: State, frame: seq<Byte>, draws: Draws)
    requires ReadPpp(frame).Some? && Unspoken(ReadPpp(frame).value.protocol)
    ensures ProtocolRejected(s, FromProtocol(frame), OnPppFrame(env, s, frame, draws))
  {
    Conformance.ReadsPpp(frame);
    RejectIs(s.lcp, FromProtocol(frame));
  }

  // ----- IPCP -----

  function CertificateHash(env: Env, a: Cmac.HashAlgo): Bytes32 {
    if a == Cmac.Sha256 then env.certHashSha256 else env.certHashSha1
  }

  /** When IPCP comes up, CONNECTED is sent and Established reported. */
  predicate IpcpReplied(env: Env, s: State, payload: seq<Byte>, t: Turn, sends: seq<seq<Byte>>) {
    var after := t.state.ipcp;
    var events := (if ReadControl(payload).Some? then [Trace] else []) + Sent(0x8021, sends);
    if !(s.phase == IpcpPhase && after.offer.localUp && after.remoteUp) then t == Turn(s.(ipcp := after), Events(events))
    else
      && t.state == s.(ipcp := after, phase := EstablishedPhase)
      && t.reply ==
           if s.hashAlgo.None? || s.serverNonce.None? || s.mppeKeys.None? then Panicked
           else
             var a, keys := s.hashAlgo.value, s.mppeKeys.value;
             var connected := Rfc.ConnectedOctets(
               env.pr, if a == Cmac.Sha256 then 2 else 1, s.serverNonce.value, CertificateHash(env, a),
               Mppe.Keys(keys.recvKey, keys.sendKey));
             Events(events + [Send(connected), Established(after.negotiated, keys)])
  }

  ghost predicate IpcpAnswered(env: Env, s: State, payload: seq<Byte>, t: Turn) {
    exists sends :: IpcpTakes(s.ipcp, payload, t.state.ipcp, sends) && IpcpReplied(env, s, payload, t, sends)
  }

  lemma IpcpSendsOnce(s: Ipcp.State, payload: seq<Byte>, s': Ipcp.State, sends: seq<seq<Byte>>)
    requires IpcpTakes(s, payload, s', sends)
    ensures |sends| <= 1
  {
  }

  lemma ConnectedIs(env: Env, a: Cmac.HashAlgo, nonce: Bytes32, keys: Mppe.Keys)
    ensures ConnectedFor(env, a, nonce, keys)
      == Rfc.ConnectedOctets(env.pr, if a == Cmac.Sha256 then 2 else 1, nonce, CertificateHash(env, a), Mppe.Keys(keys.recvKey, keys.sendKey))
  {
    CmacLaws.ConnectedIsStandard(env.pr, if a == Cmac.Sha256 then 2 else 1, nonce, CertificateHash(env, a), keys);
  }

  lemma IpcpIsAnswered(env: Env, s: State, payload: seq<Byte>)
    ensures IpcpAnswered(env, s, payload, HandleIpcp(env, s, payload))
  {
    var r := Ipcp.Receive(s.ipcp, payload);
    IpcpFollowsTable(s.ipcp, payload);
    IpcpSendsOnce(s.ipcp, payload, r.state, r.sends);
    SentOnce(Ppp.Ipcp, 0x8021, r.sends);
    Conformance.ReadsControl(payload);
    if s.hashAlgo.Some? && s.serverNonce.Some? && s.mppeKeys.Some? {
      ConnectedIs(env, s.hashAlgo.value, s.serverNonce.value, s.mppeKeys.value);
    }
    IpcpReplyIs(env, s, payload, r);
  }

  lemma IpcpReplyIs(env: Env, s: State, payload: seq<Byte>, r: Ipcp.Outcome)
    requires r == Ipcp.Receive(s.ipcp, payload)
    requires r.up == (r.state.offer.localUp && r.state.remoteUp) && SendEvents(Ppp.Ipcp, r.sends) == Sent(0x8021, r.sends)
    requires Cp.Decode(payload).Some? <==> ReadControl(payload).Some?
    requires s.hashAlgo.Some? && s.serverNonce.Some? && s.mppeKeys.Some? ==>
      var a, nonce, keys := s.hashAlgo.value, s.serverNonce.value, s.mppeKeys.value;
      ConnectedFor(env, a, nonce, keys)
      == Rfc.ConnectedOctets(env.pr, if a == Cmac.Sha256 then 2 else 1, nonce, CertificateHash(env, a), Mppe.Keys(keys.recvKey, keys.sendKey))
    ensures var t := HandleIpcp(env, s, payload); t.state.ipcp == r.state && IpcpReplied(env, s, payload, t, r.sends)
  {
  }

  // ----- CHAP -----

  /** A Value-Size of 16 and as many octets, before the name. */
  predicate ChallengeAnswered(env: Env, s: State, id: Byte, data: seq<Byte>, draws: Draws, t: Turn) {
    if data == [] || |data| <= data[0] then t == Turn(s, Events([Fatal(MalformedChallenge)]))
    else if data[0] != 16 then t == Turn(s, Events([Fatal(BadChallengeLength)]))
    else
      var challenge, peer := data[1..17], draws.peerChallenge;
      var nt := Rfc.GenerateNtResponse(env.pr, challenge, peer, env.username, env.password);
      var answer := [49] + peer + Zeros(8) + nt + [0] + env.username;
      t == Turn(
        s.(authChallenge := Some(challenge), pendingChap := Some(ChapFsm.Pending(peer, nt))),
        Events([Trace, Trace, Send(Carried(0xC223, PacketOctets(2, id, answer)))]))
  }

  /** The text of a Success that proves the server knows the password. */
  ghost predicate Proves(env: Env, s: State, text: seq<Byte>) {
    && s.pendingChap.Some? && s.authChallenge.Some?
    && var p := s.pendingChap.value;
       FirstWordIs(text, Rfc.GenerateAuthenticatorResponse(
         env.pr, env.password, p.ntResponse, p.peerChallenge, s.authChallenge.value, env.username))
  }

  ghost predicate SuccessAnswered(env: Env, s: State, text: seq<Byte>, t: Turn) {
    if s.pendingChap.None? || s.authChallenge.None? then
      t == Turn(s.(pendingChap := None), Events([Fatal(NoPendingResponse)]))
    else if !Proves(env, s, text) then t == Turn(s.(pendingChap := None), Events([Fatal(NotVerified)]))
    else
      var hashHash := env.pr.md4(env.pr.md4(Rfc.Interleaved(Utf8(env.password))));
      t == Turn(
        s.(pendingChap := None,
           mppeKeys := Some(Rfc.KeysFrom(env.pr, hashHash, s.pendingChap.value.ntResponse, false)),
           phase := IpcpPhase,
           ipcp := s.ipcp.(offer := Asking(s.ipcp.offer))),
        Events([Trace, Trace, Send(Carried(0x8021, AskingOctets(s.ipcp.offer)))]))
  }

  /** By code (RFC 1994 section 4). */
  ghost predicate ChapAnswered(env: Env, s: State, payload: seq<Byte>, draws: Draws, t: Turn) {
    match ReadControl(payload)
    case None => t == Turn(s, Events([Fatal(MalformedChap)]))
    case Some(p) =>
      if p.code == 1 then ChallengeAnswered(env, s, p.id, p.data, draws, t)
      else if p.code == 3 then SuccessAnswered(env, s, p.data, t)
      else t == Turn(s, Events([Trace, Fatal(if p.code == 4 then ChapFailed else UnexpectedChapCode)]))
  }

  lemma ChallengeIsAnswered(env: Env, s: State, frame: ChapFsm.Frame, draws: Draws)
    ensures ChallengeAnswered(env, s, frame.id, frame.data, draws, HandleChallenge(env, s, frame, draws))
  {
    var data, peer := frame.data, draws.peerChallenge;
    if data != [] && |data| > data[0] && data[0] == 16 {
      var challenge := data[1..17];
      var nt := Rfc.GenerateNtResponse(env.pr, challenge, peer, env.username, env.password);
      Rfc.NtResponseIsStandard(env.pr, challenge, peer, env.username, env.password);
      ResponseIs(frame.id, ChapFsm.Pending(peer, nt), env.username);
      assert ChapFsm.ParseChallenge(frame).value.value == challenge;
    }
  }

  lemma ResponseIs(id: Byte, pending: ChapFsm.Pending, username: seq<Byte>)
    ensures WrapData(Ppp.Chap, ChapFsm.Encode(ChapFsm.Response, id, ChapFsm.ResponseData(pending, username)))
      == Carried(0xC223, PacketOctets(2, id, [49] + pending.peerChallenge + Zeros(8) + pending.ntResponse + [0] + username))
  {
    var data := [49] + pending.peerChallenge + Zeros(8) + pending.ntResponse + [0] + username;
    assert ChapFsm.ResponseData(pending, username) == data;
    Conformance.WritesControl(2, id, data);
    WrapIsCarried(Ppp.Chap, 0xC223, PacketOctets(2, id, data));
  }

  lemma VerifiedProves(env: Env, s: State, text: seq<Byte>)
    requires s.pendingChap.Some? && s.authChallenge.Some?
    ensures ChapFsm.VerifySuccess(env.pr, text, env.password, s.pendingChap.value, s.authChallenge.value, env.username)
      <==> Proves(env, s, text)
  {
    var p := s.pendingChap.value;
    var expected := Chap.AuthenticatorResponse(env.pr, env.password, p.ntResponse, p.peerChallenge, s.authChallenge.value, env.username);
    Rfc.AuthenticatorResponseIsStandard(env.pr, env.password, p.ntResponse, p.peerChallenge, s.authChallenge.value, env.username);
    ChapFsm.GenuineIsPlain(env.pr, env.password, p, s.authChallenge.value, env.username);
    ChapFsm.VerifiedMeansExpected(env.pr, text, env.password, p, s.authChallenge.value, env.username);
    FirstWordBehindSpace(text, expected);
  }

  lemma SuccessIsAnswered(env: Env, s: State, frame: ChapFsm.Frame)
    ensures SuccessAnswered(env, s, frame.data, HandleSuccess(env, s, frame))
  {
    if s.pendingChap.Some? && s.authChallenge.Some? {
      VerifiedProves(env, s, frame.data);
      Rfc.KeysOfAnyPassword(env.pr, env.password, s.pendingChap.value.ntResponse, false);
      RequestOctets(s.ipcp.offer);
      WrapIsCarried(Ppp.Ipcp, 0x8021, AskingOctets(s.ipcp.offer));
    }
  }

  lemma ChapIsAnswered(env: Env, s: State, payload: seq<Byte>, draws: Draws)
    ensures ChapAnswered(env, s, payload, draws, HandleChap(env, s, payload, draws))
  {
    Conformance.ReadsControl(payload);
    if ChapFsm.Decode(payload).Some? {
      var frame := ChapFsm.Decode(payload).value;
      if frame.code == ChapFsm.Challenge {
        ChallengeIsAnswered(env, s, frame, draws);
      } else if frame.code == ChapFsm.Success {
        SuccessIsAnswered(env, s, frame);
      }
    }
  }

  // ----- Every message -----

  ghost predicate FrameAnswered(env: Env, s: State, frame: seq<Byte>, draws: Draws, t: Turn) {
    match ReadPpp(frame)
    case None => t == Turn(s, Events([]))
    case Some(f) =>
      if f.protocol == 0x0021 then t == Turn(s, Events([DeliverIpPacket(f.information)]))
      else if f.protocol == 0x8021 then IpcpAnswered(env, s, f.information, t)
      else if f.protocol == 0xC021 then LcpAnswered(s, f.information, draws, t)
      else if f.protocol == 0xC223 then ChapAnswered(env, s, f.information, draws, t)
      else ProtocolRejected(s, FromProtocol(frame), t)
  }

  ghost predicate Answered(env: Env, s: State, m: Message, draws: Draws, t: Turn) {
    match m
    case ControlMessage(kind, attributes) => ControlAnswered(s, kind, attributes, t)
    case DataMessage(frame) => FrameAnswered(env, s, frame, draws, t)
  }

  lemma FrameIsAnswered(env: Env, s: State, frame: seq<Byte>, draws: Draws)
    ensures FrameAnswered(env, s, frame, draws, OnPppFrame(env, s, frame, draws))
  {
    Conformance.ReadsPpp(frame);
    if ReadPpp(frame).Some? {
      var f := ReadPpp(frame).value;
      if f.protocol == 0x8021 {
        IpcpIsAnswered(env, s, f.information);
      } else if f.protocol == 0xC021 {
        LcpIsAnswered(s, f.information, draws);
      } else if f.protocol == 0xC223 {
        ChapIsAnswered(env, s, f.information, draws);
      } else if f.protocol != 0x0021 {
        ProtocolIsRejected(env, s, frame, draws);
      }
    }
  }

  /** From every state, every message that can be read is answered as the table says. */
  lemma EveryMessageIsAnswered(env: Env, s: State, wire: seq<Byte>, draws: Draws)
    requires ReadMessage(wire).Ok?
    ensures Packet.Decode(wire) == Ok(Conformance.PacketOf(ReadMessage(wire).value))
    ensures Answered(env, s, ReadMessage(wire).value, draws, OnPacket(env, s, Packet.Decode(wire).value, draws))
  {
    Conformance.ReadsMessages(wire);
    match ReadMessage(wire).value
    case ControlMessage(kind, attributes) => ControlIsAnswered(s, kind, attributes);
    case DataMessage(frame) => FrameIsAnswered(env, s, frame, draws);
  }
}
