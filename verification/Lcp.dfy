/** LCP negotiation (RFC 1661 sections 5 and 6). */
module Lcp {
  import opened Wrappers
  import opened Bytes
  import opened Cp
  import opened OwnOptions
  import Ppp

  const OPT_MRU: Byte := 1
  const OPT_ACCM: Byte := 2
  const OPT_AUTH_PROTOCOL: Byte := 3
  const OPT_MAGIC_NUMBER: Byte := 5
  const OPT_PFC: Byte := 7
  const OPT_ACFC: Byte := 8

  const CHAP_ALGORITHM_MSCHAPV2: Byte := 0x81

  datatype PeerAuth = PeerAuth(protocol: Word16, algorithm: Byte)

  predicate IsMsChapV2(a: PeerAuth) {
    a.protocol == Ppp.ProtocolCode(Ppp.Chap) && a.algorithm == CHAP_ALGORITHM_MSCHAPV2
  }

  const MSCHAPV2_OPTION: Opt := Opt(OPT_AUTH_PROTOCOL, [0xC2, 0x23, CHAP_ALGORITHM_MSCHAPV2])

  datatype State = State(offer: Offer, magic: Word32, remoteUp: bool, peerAuth: Option<PeerAuth>)

  function MagicOption(magic: Word32): Opt {
    Opt(OPT_MAGIC_NUMBER, Be32(magic))
  }

  function Initial(magic: Word32): State {
    State(Offer(0, [MagicOption(magic), Opt(OPT_PFC, []), Opt(OPT_ACFC, [])], None, false), magic, false, None)
  }

  predicate IsUp(s: State) {
    s.offer.localUp && s.remoteUp
  }

  // ----- Judging the peer's options -----

  datatype Verdict = Accept | Refuse | Counter(proposal: Opt)

  predicate ProposesMsChapV2(opt: Opt) {
    |opt.data| >= 3 && opt.data[..3] == MSCHAPV2_OPTION.data
  }

  /** `draw` is the random number drawn if this option needs one. */
  function Judge(magic: Word32, opt: Opt, draw: Word32): Verdict {
    if opt.kind == OPT_MAGIC_NUMBER then
      if |opt.data| != 4 then Refuse
      else if FromBe32(opt.data) == magic then Counter(MagicOption(draw))
      else Accept
    else if opt.kind == OPT_AUTH_PROTOCOL then
      if |opt.data| < 2 then Refuse
      else if ProposesMsChapV2(opt) then Accept
      else Counter(MSCHAPV2_OPTION)
    else if opt.kind in {OPT_PFC, OPT_ACFC, OPT_MRU, OPT_ACCM} then Accept
    else Refuse
  }

  datatype Judged = Judged(naks: seq<Opt>, rejects: seq<Opt>, peerAuth: Option<PeerAuth>)

  /** All options in order; option `i` draws `draws(i)` when it needs a random number. */
  function JudgeAll(magic: Word32, auth: Option<PeerAuth>, opts: seq<Opt>, draws: nat -> Word32): Judged {
    if opts == [] then Judged([], [], auth)
    else
      var last := |opts| - 1;
      var before := JudgeAll(magic, auth, opts[..last], draws);
      var opt := opts[last];
      match Judge(magic, opt, draws(last))
      case Refuse => before.(rejects := before.rejects + [opt])
      case Counter(proposal) => before.(naks := before.naks + [proposal])
      case Accept =>
        if opt.kind == OPT_AUTH_PROTOCOL
        then before.(peerAuth := Some(PeerAuth(Ppp.ProtocolCode(Ppp.Chap), CHAP_ALGORITHM_MSCHAPV2)))
        else before
  }

  datatype Outcome = Outcome(state: State, sends: seq<seq<Byte>>, up: bool)

  function AnswerRequest(s: State, frame: Frame, draws: nat -> Word32): Outcome {
    var judged := JudgeAll(s.magic, s.peerAuth, DecodeOptions(frame.data), draws);
    var s' := s.(peerAuth := judged.peerAuth);
    if judged.rejects != [] then
      Finish(s'.(remoteUp := false), [Encode(ConfigureReject, frame.id, EncodeOptions(judged.rejects))])
    else if judged.naks != [] then
      Finish(s'.(remoteUp := false), [Encode(ConfigureNak, frame.id, EncodeOptions(judged.naks))])
    else
      Finish(s'.(remoteUp := true), [Encode(ConfigureAck, frame.id, frame.data)])
  }

  function Finish(s: State, sends: seq<seq<Byte>>): Outcome {
    Outcome(s, sends, IsUp(s))
  }

  /** Each 4-byte magic number among the suggestions is taken over in turn. */
  function MagicAfter(magic: Word32, suggested: seq<Opt>): Word32 {
    if suggested == [] then magic
    else
      var last := |suggested| - 1;
      var s := suggested[last];
      if s.kind == OPT_MAGIC_NUMBER && |s.data| == 4 then FromBe32(s.data)
      else MagicAfter(magic, suggested[..last])
  }

  function EchoData(magic: Word32, data: seq<Byte>): seq<Byte> {
    Be32(magic) + (if |data| > 4 then data[4..] else [])
  }

  function Receive(s: State, data: seq<Byte>, draws: nat -> Word32): Outcome {
    match Decode(data)
    case None => Finish(s, [])
    case Some(frame) =>
      var step := ReceiveAnswer(s.offer, frame);
      match frame.code
      case ConfigureRequest => AnswerRequest(s, frame, draws)
      case ConfigureAck => Finish(s.(offer := step.offer), step.sends)
      case ConfigureReject => Finish(s.(offer := step.offer), step.sends)
      case ConfigureNak =>
        var magic :=
          if s.offer.lastSentId == Some(frame.id) then MagicAfter(s.magic, DecodeOptions(frame.data)) else s.magic;
        Finish(s.(offer := step.offer, magic := magic), step.sends)
      case EchoRequest => Finish(s, [Encode(EchoReply, frame.id, EchoData(s.magic, frame.data))])
      case TerminateRequest =>
        Finish(s.(offer := step.offer, remoteUp := false), [Encode(TerminateAck, frame.id, [])])
      case _ => Finish(s, [])
  }

  function Start(s: State): Outcome {
    var step := SendRequest(s.offer);
    Finish(s.(offer := step.offer), step.sends)
  }

  function RejectProtocol(s: State, info: seq<Byte>): Outcome {
    var id := Bump(s.offer.identifier);
    Finish(s.(offer := s.offer.(identifier := id)), [Encode(ProtocolReject, id, info)])
  }

  // ----- The struct, with its fields updated in place -----

  class Lcp {
    var identifier: Byte
    var magic: Word32
    var desired: seq<Opt>
    var lastSentId: Option<Byte>
    var localUp: bool
    var remoteUp: bool
    var peerAuth: Option<PeerAuth>

    ghost function Model(): State
      reads this
    {
      State(Offer(identifier, desired, lastSentId, localUp), magic, remoteUp, peerAuth)
    }

    /** `draw` is the random magic number. */
    constructor (draw: Word32)
      ensures Model() == Initial(draw)
    {
      identifier := 0;
      magic := draw;
      desired := [MagicOption(draw), Opt(OPT_PFC, []), Opt(OPT_ACFC, [])];
      lastSentId := None;
      localUp := false;
      remoteUp := false;
      peerAuth := None;
    }

    method StartNegotiation() returns (wire: seq<Byte>)
      modifies this
      ensures var r := Start(old(Model())); Model() == r.state && r.sends == [wire]
    {
      wire := SendConfigRequest();
    }

    method SendConfigRequest() returns (wire: seq<Byte>)
      modifies this
      ensures Model() == old(Model()).(offer := SendRequest(old(Model()).offer).offer)
      ensures SendRequest(old(Model()).offer).sends == [wire]
    {
      identifier := (identifier + 1) % 0x100;
      lastSentId := Some(identifier);
      var data := BuildOptions(desired);
      wire := BuildFrame(CodeByte(ConfigureRequest), identifier, data);
    }

    method ReceiveFrame(data: seq<Byte>, draws: nat -> Word32) returns (toSend: seq<seq<Byte>>, up: bool)
      modifies this
      ensures Outcome(Model(), toSend, up) == Receive(old(Model()), data, draws)
    {
      toSend := [];
      var decoded := Decode(data);
      if decoded.None? {
        up := localUp && remoteUp;
        return;
      }
      var frame := decoded.value;
      match frame.code {
        case ConfigureRequest =>
          toSend := ReplyToRequest(frame, draws);
        case ConfigureAck =>
          if lastSentId == Some(frame.id) {
            localUp := true;
          }
        case ConfigureNak =>
          if lastSentId == Some(frame.id) {
            var suggested := ReadOptions(frame.data);
            ApplyNak(suggested);
            localUp := false;
            var wire := SendConfigRequest();
            toSend := [wire];
          }
        case ConfigureReject =>
          if lastSentId == Some(frame.id) {
            var rejected := ReadOptions(frame.data);
            ApplyReject(rejected);
            localUp := false;
            var wire := SendConfigRequest();
            toSend := [wire];
          }
        case EchoRequest =>
          var reply := Be32(magic);
          if |frame.data| > 4 {
            reply := reply + frame.data[4..];
          } else {
            assert reply + [] == reply;
          }
          toSend := [Encode(EchoReply, frame.id, reply)];
        case TerminateRequest =>
          toSend := [Encode(TerminateAck, frame.id, [])];
          localUp := false;
          remoteUp := false;
        case _ =>
      }
      up := localUp && remoteUp;
    }

    method ReplyToRequest(frame: Frame, draws: nat -> Word32) returns (toSend: seq<seq<Byte>>)
      modifies this
      ensures var r := AnswerRequest(old(Model()), frame, draws); Model() == r.state && toSend == r.sends
    {
      var peerOpts := ReadOptions(frame.data);
      var nak, reject := EvaluatePeerOptions(peerOpts, draws);
      if reject != [] {
        toSend := [Encode(ConfigureReject, frame.id, EncodeOptions(reject))];
        remoteUp := false;
      } else if nak != [] {
        toSend := [Encode(ConfigureNak, frame.id, EncodeOptions(nak))];
        remoteUp := false;
      } else {
        toSend := [Encode(ConfigureAck, frame.id, frame.data)];
        remoteUp := true;
      }
    }

    method EvaluatePeerOptions(opts: seq<Opt>, draws: nat -> Word32) returns (nak: seq<Opt>, reject: seq<Opt>)
      modifies this`peerAuth
      ensures Judged(nak, reject, peerAuth) == JudgeAll(magic, old(peerAuth), opts, draws)
    {
      nak, reject := [], [];
      for i := 0 to |opts|
        invariant Judged(nak, reject, peerAuth) == JudgeAll(magic, old(peerAuth), opts[..i], draws)
      {
        assert opts[..i + 1][..i] == opts[..i];
        var opt := opts[i];
        if opt.kind == OPT_MAGIC_NUMBER {
          if |opt.data| != 4 {
            reject := reject + [opt];
          } else if FromBe32(opt.data) == magic {
            nak := nak + [MagicOption(draws(i))];
          }
        } else if opt.kind == OPT_AUTH_PROTOCOL {
          if |opt.data| < 2 {
            reject := reject + [opt];
          } else if |opt.data| >= 3 && Word(opt.data[0], opt.data[1]) == Ppp.ProtocolCode(Ppp.Chap)
                 && opt.data[2] == CHAP_ALGORITHM_MSCHAPV2 {
            peerAuth := Some(PeerAuth(Word(opt.data[0], opt.data[1]), CHAP_ALGORITHM_MSCHAPV2));
          } else {
            nak := nak + [MSCHAPV2_OPTION];
          }
        } else if opt.kind != OPT_PFC && opt.kind != OPT_ACFC && opt.kind != OPT_MRU && opt.kind != OPT_ACCM {
          reject := reject + [opt];
        }
      }
      assert opts[..|opts|] == opts;
    }

    method ApplyNak(suggested: seq<Opt>)
      modifies this`desired, this`magic
      ensures desired == AdoptAll(old(desired), suggested)
      ensures magic == MagicAfter(old(magic), suggested)
    {
      for i := 0 to |suggested|
        invariant desired == AdoptAll(old(desired), suggested[..i])
        invariant magic == MagicAfter(old(magic), suggested[..i])
      {
        assert suggested[..i + 1][..i] == suggested[..i];
        var s := suggested[i];
        var found := FirstOfKind(desired, s.kind);
        if found.Some? {
          desired := desired[found.value := Opt(desired[found.value].kind, s.data)];
        }
        if s.kind == OPT_MAGIC_NUMBER && |s.data| == 4 {
          magic := FromBe32(s.data);
        }
      }
      assert suggested[..|suggested|] == suggested;
    }

    method ApplyReject(rejected: seq<Opt>)
      modifies this`desired
      ensures desired == Drop(old(desired), rejected)
      ensures forall o :: o in desired <==> o in old(desired) && !HasKind(rejected, o.kind)
      ensures Sound(old(desired)) ==> Sound(desired)
    {
      desired := Retain(desired, rejected);
    }

    method BuildProtocolReject(info: seq<Byte>) returns (wire: seq<Byte>)
      modifies this
      ensures var r := RejectProtocol(old(Model()), info); Model() == r.state && r.sends == [wire]
    {
      identifier := (identifier + 1) % 0x100;
      wire := BuildFrame(CodeByte(ProtocolReject), identifier, info);
    }
  }
}
