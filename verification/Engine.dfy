/**
 The SSTP and PPP client engine: takes one decoded packet, updates the nested automata and
 returns an ordered list of events. A failing `expect` of the Rust code is the reply `Panicked`;
 random numbers are inputs.
 */
module Engine {
  import opened Wrappers
  import opened Bytes
  import opened Primitives
  import opened Packet
  import Ppp
  import Cp
  import Lcp
  import Ipcp
  import ChapFsm
  import Mppe
  import Cmac

  datatype FatalReason =
    | ConnectRefused
    | ServerAborted
    | MissingCryptoBind
    | BadCryptoBindLength
    | OtherAuthentication
    | NoAuthentication
    | MalformedChap
    | MalformedChallenge
    | BadChallengeLength
    | ResponseNotBuilt
    | NoPendingResponse
    | NotVerified
    | ChapFailed
    | UnexpectedChapCode

  datatype Event =
    | Send(bytes: seq<Byte>)
    | Trace
    | DeliverIpPacket(packet: seq<Byte>)
    | Established(negotiated: Ipcp.Config, keys: Mppe.Keys)
    | Disconnected
    | Fatal(reason: FatalReason)

  datatype Phase = WaitConnectAck | LcpPhase | ChapPhase | IpcpPhase | EstablishedPhase

  /** What never changes: the primitives, the credentials and the two certificate hashes. */
  datatype Env = Env(pr: Primitives, username: seq<Byte>, password: Text, certHashSha1: Bytes32, certHashSha256: Bytes32)

  function NewEnv(pr: Primitives, username: seq<Byte>, password: Text, certDer: seq<Byte>): Env {
    Env(pr, username, password, pr.sha1(certDer) + Zeros(12), pr.sha256(certDer))
  }

  /** The random numbers one packet may consume. */
  datatype Draws = Draws(magics: nat -> Word32, peerChallenge: Bytes16)

  datatype State = State(
    lcp: Lcp.State,
    ipcp: Ipcp.State,
    phase: Phase,
    hashAlgo: Option<Cmac.HashAlgo>,
    serverNonce: Option<Bytes32>,
    pendingChap: Option<ChapFsm.Pending>,
    authChallenge: Option<Bytes16>,
    mppeKeys: Option<Mppe.Keys>)

  datatype Reply = Events(list: seq<Event>) | Panicked

  datatype Turn = Turn(state: State, reply: Reply)

  function Initial(magic: Word32): State {
    State(Lcp.Initial(magic), Ipcp.INITIAL, WaitConnectAck, None, None, None, None, None)
  }

  function WrapData(p: Ppp.Protocol, payload: seq<Byte>): seq<Byte> {
    EncodeData(Ppp.Encode(p, payload))
  }

  // ----- Packets the caller sends -----

  function ConnectRequestPacket(): seq<Byte> {
    EncodeCtrl(ConnectRequest, [Attr(EncapProtocol, [0, 1])])
  }

  function DisconnectPacket(): seq<Byte> {
    EncodeCtrl(Disconnect, [])
  }

  function EchoRequestPacket(): seq<Byte> {
    EncodeCtrl(EchoRequest, [])
  }

  // ----- One packet -----

  function FindAttr(attrs: seq<Attr>, t: AttrType): Option<Attr> {
    if attrs == [] then None
    else if attrs[0].attrType == t then Some(attrs[0])
    else FindAttr(attrs[1..], t)
  }

  function Say(s: State, events: seq<Event>): Turn {
    Turn(s, Events(events))
  }

  function ChosenAlgo(hashByte: Byte): Cmac.HashAlgo {
    if hashByte / 2 % 2 == 1 then Cmac.Sha256 else Cmac.Sha1
  }

  function OnConnectAck(s: State, attrs: seq<Attr>): Turn {
    if s.phase != WaitConnectAck then Say(s, [])
    else
      match FindAttr(attrs, CryptoBindRequest)
      case None => Say(s, [Fatal(MissingCryptoBind)])
      case Some(attr) =>
        if |attr.data| != 36 then Say(s, [Fatal(BadCryptoBindLength)])
        else
          var start := Lcp.Start(s.lcp);
          var s' := s.(
            hashAlgo := Some(ChosenAlgo(attr.data[3])),
            serverNonce := Some(attr.data[4..36]),
            phase := LcpPhase,
            lcp := start.state);
          Say(s', [Trace, Send(WrapData(Ppp.Lcp, start.sends[0]))])
  }

  function OnCtrl(s: State, msgType: MsgType, attrs: seq<Attr>): Turn {
    match msgType
    case ConnectAck => OnConnectAck(s, attrs)
    case ConnectNak => Say(s, [Fatal(ConnectRefused)])
    case Abort => Say(s, [Fatal(ServerAborted)])
    case Disconnect => Say(s, [Send(EncodeCtrl(DisconnectAck, [])), Disconnected])
    case DisconnectAck => Say(s, [Disconnected])
    case EchoRequest => Say(s, [Send(EncodeCtrl(EchoReply, []))])
    case _ => Say(s, [])
  }

  /** Each frame is sent in a packet of its own, traced first when it reads back. */
  function SendEvents(p: Ppp.Protocol, sends: seq<seq<Byte>>): seq<Event> {
    if sends == [] then []
    else
      var last := |sends| - 1;
      SendEvents(p, sends[..last])
      + (if Cp.Decode(sends[last]).Some? then [Trace] else [])
      + [Send(WrapData(p, sends[last]))]
  }

  function HandleLcp(s: State, payload: seq<Byte>, draws: Draws): Turn {
    var r := Lcp.Receive(s.lcp, payload, draws.magics);
    var s' := s.(lcp := r.state);
    if r.up && s.phase == LcpPhase then
      match r.state.peerAuth
      case Some(req) =>
        if Lcp.IsMsChapV2(req)
        then Say(s'.(phase := ChapPhase), [Trace] + SendEvents(Ppp.Lcp, r.sends))
        else Say(s', [Fatal(OtherAuthentication)])
      case None => Say(s', [Fatal(NoAuthentication)])
    else Say(s', [Trace] + SendEvents(Ppp.Lcp, r.sends))
  }

  function HandleChallenge(env: Env, s: State, frame: ChapFsm.Frame, draws: Draws): Turn {
    match ChapFsm.ParseChallenge(frame)
    case None => Say(s, [Fatal(MalformedChallenge)])
    case Some(info) =>
      if |info.value| != 16 then Say(s, [Fatal(BadChallengeLength)])
      else
        var s' := s.(authChallenge := Some(info.value));
        match ChapFsm.BuildResponse(env.pr, info, env.username, env.password, draws.peerChallenge)
        case Err(_) => Say(s', [Trace, Fatal(ResponseNotBuilt)])
        case Ok(answer) =>
          Say(s'.(pendingChap := Some(answer.pending)), [Trace, Trace, Send(WrapData(Ppp.Chap, answer.wire))])
  }

  function HandleSuccess(env: Env, s: State, frame: ChapFsm.Frame): Turn {
    var s' := s.(pendingChap := None);
    if s.pendingChap.None? || s.authChallenge.None? then Say(s', [Fatal(NoPendingResponse)])
    else
      var pending := s.pendingChap.value;
      if !ChapFsm.VerifySuccess(env.pr, frame.data, env.password, pending, s.authChallenge.value, env.username)
      then Say(s', [Fatal(NotVerified)])
      else
        var start := Ipcp.Start(s.ipcp);
        Say(
          s'.(
            mppeKeys := Some(Mppe.GetKeys(env.pr, env.password, pending.ntResponse, false)),
            phase := IpcpPhase,
            ipcp := start.state),
          [Trace, Trace, Send(WrapData(Ppp.Ipcp, start.sends[0]))])
  }

  function HandleChap(env: Env, s: State, payload: seq<Byte>, draws: Draws): Turn {
    match ChapFsm.Decode(payload)
    case None => Say(s, [Fatal(MalformedChap)])
    case Some(frame) =>
      match frame.code
      case Challenge => HandleChallenge(env, s, frame, draws)
      case Success => HandleSuccess(env, s, frame)
      case Failure => Say(s, [Trace, Fatal(ChapFailed)])
      case _ => Say(s, [Trace, Fatal(UnexpectedChapCode)])
  }

  function CertHash(env: Env, a: Cmac.HashAlgo): Bytes32 {
    match a
    case Sha1 => env.certHashSha1
    case Sha256 => env.certHashSha256
  }

  /** The CONNECTED message a state would send. */
  function ConnectedFor(env: Env, a: Cmac.HashAlgo, nonce: Bytes32, keys: Mppe.Keys): seq<Byte> {
    Cmac.ConnectedMessage(env.pr, a, nonce, CertHash(env, a), keys.sendKey, keys.recvKey)
  }

  function HandleIpcp(env: Env, s: State, payload: seq<Byte>): Turn {
    var r := Ipcp.Receive(s.ipcp, payload);
    var s' := s.(ipcp := r.state);
    var events := (if Cp.Decode(payload).Some? then [Trace] else []) + SendEvents(Ppp.Ipcp, r.sends);
    if r.up && s.phase == IpcpPhase then
      var up := s'.(phase := EstablishedPhase);
      if s.hashAlgo.None? || s.serverNonce.None? || s.mppeKeys.None? then Turn(up, Panicked)
      else
        Say(up, events + [
          Send(ConnectedFor(env, s.hashAlgo.value, s.serverNonce.value, s.mppeKeys.value)),
          Established(r.state.negotiated, s.mppeKeys.value)])
    else Say(s', events)
  }

  /** What is answered with a Protocol-Reject. */
  predicate Unhandled(p: Ppp.Protocol) {
    p.Pap? || p.UnknownProtocol?
  }

  function OnPppFrame(env: Env, s: State, frame: seq<Byte>, draws: Draws): Turn {
    match Ppp.Decode(frame)
    case None => Say(s, [])
    case Some(split) =>
      match split.protocol
      case Lcp => HandleLcp(s, split.payload, draws)
      case Chap => HandleChap(env, s, split.payload, draws)
      case Ipcp => HandleIpcp(env, s, split.payload)
      case Ip => Say(s, [DeliverIpPacket(split.payload)])
      case _ =>
        var r := Lcp.RejectProtocol(s.lcp, Ppp.StripAddressControl(frame));
        Say(s.(lcp := r.state), [Send(WrapData(Ppp.Lcp, r.sends[0]))])
  }

  function OnPacket(env: Env, s: State, pkt: Packet, draws: Draws): Turn {
    match pkt
    case Ctrl(msgType, attrs) => OnCtrl(s, msgType, attrs)
    case Data(frame) => OnPppFrame(env, s, frame, draws)
  }

  // ----- The struct, with its fields updated in place -----

  class Engine {
    const env: Env
    const lcp: Lcp.Lcp
    const ipcp: Ipcp.Ipcp
    var phase: Phase
    var hashAlgo: Option<Cmac.HashAlgo>
    var serverNonce: Option<Bytes32>
    var pendingChap: Option<ChapFsm.Pending>
    var authChallenge: Option<Bytes16>
    var mppeKeys: Option<Mppe.Keys>

    ghost function Model(): State
      reads this, lcp, ipcp
    {
      State(lcp.Model(), ipcp.Model(), phase, hashAlgo, serverNonce, pendingChap, authChallenge, mppeKeys)
    }

    constructor (pr: Primitives, username: seq<Byte>, password: Text, certDer: seq<Byte>, magic: Word32)
      ensures Model() == Initial(magic) && env == NewEnv(pr, username, password, certDer)
      ensures fresh(this) && fresh(lcp) && fresh(ipcp)
    {
      env := NewEnv(pr, username, password, certDer);
      lcp := new Lcp.Lcp(magic);
      ipcp := new Ipcp.Ipcp();
      phase := WaitConnectAck;
      hashAlgo := None;
      serverNonce := None;
      pendingChap := None;
      authChallenge := None;
      mppeKeys := None;
    }

    method Receive(pkt: Packet, draws: Draws) returns (reply: Reply)
      modifies this, lcp, ipcp
      ensures Turn(Model(), reply) == OnPacket(env, old(Model()), pkt, draws)
    {
      match pkt
      case Ctrl(msgType, attrs) => reply := ReceiveCtrl(msgType, attrs);
      case Data(frame) => reply := ReceivePppFrame(frame, draws);
    }

    method ReceiveCtrl(msgType: MsgType, attrs: seq<Attr>) returns (reply: Reply)
      modifies this, lcp
      ensures Turn(Model(), reply) == OnCtrl(old(Model()), msgType, attrs)
    {
      match msgType
      case ConnectAck => reply := ReceiveConnectAck(attrs);
      case ConnectNak => reply := Events([Fatal(ConnectRefused)]);
      case Abort => reply := Events([Fatal(ServerAborted)]);
      case Disconnect =>
        var ack := BuildCtrl(DisconnectAck, []);
        reply := Events([Send(ack), Disconnected]);
      case DisconnectAck => reply := Events([Disconnected]);
      case EchoRequest =>
        var echo := BuildCtrl(EchoReply, []);
        reply := Events([Send(echo)]);
      case _ => reply := Events([]);
    }

    method ReceiveConnectAck(attrs: seq<Attr>) returns (reply: Reply)
      modifies this, lcp
      ensures Turn(Model(), reply) == OnConnectAck(old(Model()), attrs)
    {
      if phase != WaitConnectAck {
        return Events([]);
      }
      var found := FindAttr(attrs, CryptoBindRequest);
      if found.None? {
        return Events([Fatal(MissingCryptoBind)]);
      }
      var attr := found.value;
      if |attr.data| != 36 {
        return Events([Fatal(BadCryptoBindLength)]);
      }
      var algo := ChosenAlgo(attr.data[3]);
      hashAlgo := Some(algo);
      serverNonce := Some(attr.data[4..36]);
      phase := LcpPhase;
      var lcpReq := lcp.StartNegotiation();
      reply := Events([Trace, Send(WrapData(Ppp.Lcp, lcpReq))]);
    }

    method ReceivePppFrame(frame: seq<Byte>, draws: Draws) returns (reply: Reply)
      modifies this, lcp, ipcp
      ensures Turn(Model(), reply) == OnPppFrame(env, old(Model()), frame, draws)
    {
      var decoded := Ppp.Decode(frame);
      if decoded.None? {
        return Events([]);
      }
      var split := decoded.value;
      match split.protocol {
        case Lcp => reply := ReceiveLcp(split.payload, draws);
        case Chap => reply := ReceiveChap(split.payload, draws);
        case Ipcp => reply := ReceiveIpcp(split.payload);
        case Ip => reply := Events([DeliverIpPacket(split.payload)]);
        case _ =>
          var reject := lcp.BuildProtocolReject(Ppp.StripAddressControl(frame));
          reply := Events([Send(WrapData(Ppp.Lcp, reject))]);
      }
    }

    method EmitSends(p: Ppp.Protocol, sends: seq<seq<Byte>>) returns (events: seq<Event>)
      ensures events == SendEvents(p, sends)
    {
      events := [];
      for i := 0 to |sends|
        invariant events == SendEvents(p, sends[..i])
      {
        assert sends[..i + 1][..i] == sends[..i];
        var d := sends[i];
        var trace := if Cp.Decode(d).Some? then [Trace] else [];
        events := events + trace;
        events := events + [Send(WrapData(p, d))];
      }
      assert sends[..|sends|] == sends;
    }

    method ReceiveLcp(payload: seq<Byte>, draws: Draws) returns (reply: Reply)
      modifies this`phase, lcp
      ensures Turn(Model(), reply) == HandleLcp(old(Model()), payload, draws)
    {
      var events := [Trace];
      var toSend, up := lcp.ReceiveFrame(payload, draws.magics);
      var sent := EmitSends(Ppp.Lcp, toSend);
      events := events + sent;
      if up && phase == LcpPhase {
        match lcp.peerAuth
        case Some(req) =>
          if Lcp.IsMsChapV2(req) {
            phase := ChapPhase;
          } else {
            return Events([Fatal(OtherAuthentication)]);
          }
        case None =>
          return Events([Fatal(NoAuthentication)]);
      }
      reply := Events(events);
    }

    method ReceiveChap(payload: seq<Byte>, draws: Draws) returns (reply: Reply)
      modifies this, ipcp
      ensures Turn(Model(), reply) == HandleChap(env, old(Model()), payload, draws)
    {
      var decoded := ChapFsm.Decode(payload);
      if decoded.None? {
        return Events([Fatal(MalformedChap)]);
      }
      var frame := decoded.value;
      match frame.code {
        case Challenge => reply := ReceiveChallenge(frame, draws);
        case Success => reply := ReceiveSuccess(frame);
        case Failure => reply := Events([Trace, Fatal(ChapFailed)]);
        case _ => reply := Events([Trace, Fatal(UnexpectedChapCode)]);
      }
    }

    method ReceiveChallenge(frame: ChapFsm.Frame, draws: Draws) returns (reply: Reply)
      modifies this`authChallenge, this`pendingChap
      ensures Turn(Model(), reply) == HandleChallenge(env, old(Model()), frame, draws)
    {
      var parsed := ChapFsm.ParseChallenge(frame);
      if parsed.None? {
        return Events([Fatal(MalformedChallenge)]);
      }
      var info := parsed.value;
      if |info.value| != 16 {
        return Events([Fatal(BadChallengeLength)]);
      }
      authChallenge := Some(info.value);
      var built := ChapFsm.ComposeResponse(env.pr, info, env.username, env.password, draws.peerChallenge);
      match built
      case Err(_) => reply := Events([Trace, Fatal(ResponseNotBuilt)]);
      case Ok(answer) =>
        pendingChap := Some(answer.pending);
        reply := Events([Trace, Trace, Send(WrapData(Ppp.Chap, answer.wire))]);
    }

    method ReceiveSuccess(frame: ChapFsm.Frame) returns (reply: Reply)
      modifies this`pendingChap, this`mppeKeys, this`phase, ipcp
      ensures Turn(Model(), reply) == HandleSuccess(env, old(Model()), frame)
    {
      var taken := pendingChap;
      pendingChap := None;
      if taken.None? || authChallenge.None? {
        return Events([Fatal(NoPendingResponse)]);
      }
      var pending := taken.value;
      if !ChapFsm.VerifySuccess(env.pr, frame.data, env.password, pending, authChallenge.value, env.username) {
        return Events([Fatal(NotVerified)]);
      }
      var keys := Mppe.ComputeKeys(env.pr, env.password, pending.ntResponse, false);
      mppeKeys := Some(keys);
      phase := IpcpPhase;
      var ipcpReq := ipcp.StartNegotiation();
      reply := Events([Trace, Trace, Send(WrapData(Ppp.Ipcp, ipcpReq))]);
    }

    method ReceiveIpcp(payload: seq<Byte>) returns (reply: Reply)
      modifies this`phase, ipcp
      ensures Turn(Model(), reply) == HandleIpcp(env, old(Model()), payload)
    {
      var events := if Cp.Decode(payload).Some? then [Trace] else [];
      var toSend, up := ipcp.ReceiveFrame(payload);
      var sent := EmitSends(Ppp.Ipcp, toSend);
      events := events + sent;
      if up && phase == IpcpPhase {
        phase := EstablishedPhase;
        if hashAlgo.None? || serverNonce.None? || mppeKeys.None? {
          return Panicked;
        }
        var algo, nonce, keys := hashAlgo.value, serverNonce.value, mppeKeys.value;
        var connected := Cmac.BuildConnected(env.pr, algo, nonce, CertHash(env, algo), keys.sendKey, keys.recvKey);
        events := events + [Send(connected), Established(ipcp.negotiated, keys)];
      }
      reply := Events(events);
    }
  }
}
