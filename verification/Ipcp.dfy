/** IPCP negotiation (RFC 1332 section 3.3, with the name-server options of RFC 1877). */
module Ipcp {
  import opened Wrappers
  import opened Bytes
  import opened Cp
  import opened OwnOptions

  const OPT_IP_ADDRESS: Byte := 3
  const OPT_PRIMARY_DNS: Byte := 129
  const OPT_SECONDARY_DNS: Byte := 131

  /** An IPv4 address, as its four octets. */
  type Address = Bytes4

  const UNSPECIFIED: Address := [0, 0, 0, 0]

  function ParseAddress(o: Opt): Option<Address> {
    if |o.data| == 4 then Some(o.data) else None
  }

  datatype Config = Config(localIp: Option<Address>, peerIp: Option<Address>, dns1: Option<Address>, dns2: Option<Address>)

  datatype State = State(offer: Offer, remoteUp: bool, negotiated: Config)

  const INITIAL: State :=
    State(
      Offer(0, [Opt(OPT_IP_ADDRESS, UNSPECIFIED), Opt(OPT_PRIMARY_DNS, UNSPECIFIED), Opt(OPT_SECONDARY_DNS, UNSPECIFIED)],
            None, false),
      false,
      Config(None, None, None, None))

  predicate IsUp(s: State) {
    s.offer.localUp && s.remoteUp
  }

  datatype Judged = Judged(rejects: seq<Opt>, peerIp: Option<Address>)

  function JudgeAll(peerIp: Option<Address>, opts: seq<Opt>): Judged {
    if opts == [] then Judged([], peerIp)
    else
      var last := |opts| - 1;
      var before := JudgeAll(peerIp, opts[..last]);
      var opt := opts[last];
      if opt.kind == OPT_IP_ADDRESS && ParseAddress(opt).Some?
      then before.(peerIp := ParseAddress(opt))
      else before.(rejects := before.rejects + [opt])
  }

  /** One accepted option, copied into the reported configuration. */
  function Capture(c: Config, o: Opt): Config {
    match ParseAddress(o)
    case None => c
    case Some(address) =>
      if o.kind == OPT_IP_ADDRESS then c.(localIp := Some(address))
      else if o.kind == OPT_PRIMARY_DNS then c.(dns1 := Some(address))
      else if o.kind == OPT_SECONDARY_DNS then c.(dns2 := Some(address))
      else c
  }

  function CaptureAll(c: Config, desired: seq<Opt>): Config {
    if desired == [] then c
    else
      var last := |desired| - 1;
      Capture(CaptureAll(c, desired[..last]), desired[last])
  }

  datatype Outcome = Outcome(state: State, sends: seq<seq<Byte>>, up: bool)

  function Finish(s: State, sends: seq<seq<Byte>>): Outcome {
    Outcome(s, sends, IsUp(s))
  }

  function AnswerRequest(s: State, frame: Frame): Outcome {
    var judged := JudgeAll(s.negotiated.peerIp, DecodeOptions(frame.data));
    var s' := s.(negotiated := s.negotiated.(peerIp := judged.peerIp));
    if judged.rejects != [] then
      Finish(s'.(remoteUp := false), [Encode(ConfigureReject, frame.id, EncodeOptions(judged.rejects))])
    else
      Finish(s'.(remoteUp := true), [Encode(ConfigureAck, frame.id, frame.data)])
  }

  function Receive(s: State, data: seq<Byte>): Outcome {
    match Decode(data)
    case None => Finish(s, [])
    case Some(frame) =>
      var step := ReceiveAnswer(s.offer, frame);
      match frame.code
      case ConfigureRequest => AnswerRequest(s, frame)
      case ConfigureAck =>
        var negotiated :=
          if s.offer.lastSentId == Some(frame.id) then CaptureAll(s.negotiated, s.offer.desired) else s.negotiated;
        Finish(s.(offer := step.offer, negotiated := negotiated), step.sends)
      case ConfigureNak => Finish(s.(offer := step.offer), step.sends)
      case ConfigureReject => Finish(s.(offer := step.offer), step.sends)
      case TerminateRequest =>
        Finish(s.(offer := step.offer, remoteUp := false), [Encode(TerminateAck, frame.id, [])])
      case _ => Finish(s, [])
  }

  function Start(s: State): Outcome {
    var step := SendRequest(s.offer);
    Finish(s.(offer := step.offer), step.sends)
  }

  // ----- The struct, with its fields updated in place -----

  class Ipcp {
    var identifier: Byte
    var desired: seq<Opt>
    var lastSentId: Option<Byte>
    var localUp: bool
    var remoteUp: bool
    var negotiated: Config

    ghost function Model(): State
      reads this
    {
      State(Offer(identifier, desired, lastSentId, localUp), remoteUp, negotiated)
    }

    constructor ()
      ensures Model() == INITIAL
    {
      identifier := 0;
      desired := [Opt(OPT_IP_ADDRESS, UNSPECIFIED), Opt(OPT_PRIMARY_DNS, UNSPECIFIED), Opt(OPT_SECONDARY_DNS, UNSPECIFIED)];
      lastSentId := None;
      localUp := false;
      remoteUp := false;
      negotiated := Config(None, None, None, None);
    }

    method StartNegotiation() returns (wire: seq<Byte>)
      modifies this
      ensures var r := Start(old(Model())); Model() == r.state && r.sends == [wire]
    {
      wire := SendConfigRequest();
    }

    method SendConfigRequest() returns (wire: seq<Byte>)
      modifies this
      ensures Model() == old(Model()).(offer := SendRequest(old(Model()).offer).offer)
      ensures SendRequest(old(Model()).offer).sends == [wire]
    {
      identifier := (identifier + 1) % 0x100;
      lastSentId := Some(identifier);
      var data := BuildOptions(desired);
      wire := BuildFrame(CodeByte(ConfigureRequest), identifier, data);
    }

    method ReceiveFrame(data: seq<Byte>) returns (toSend: seq<seq<Byte>>, up: bool)
      modifies this
      ensures Outcome(Model(), toSend, up) == Receive(old(Model()), data)
    {
      toSend := [];
      var decoded := Decode(data);
      if decoded.None? {
        up := localUp && remoteUp;
        return;
      }
      var frame := decoded.value;
      match frame.code {
        case ConfigureRequest =>
          toSend := ReplyToRequest(frame);
        case ConfigureAck =>
          if lastSentId == Some(frame.id) {
            CaptureAcceptedValues();
            localUp := true;
          }
        case ConfigureNak =>
          if lastSentId == Some(frame.id) {
            var suggested := ReadOptions(frame.data);
            ApplyNak(suggested);
            localUp := false;
            var wire := SendConfigRequest();
            toSend := [wire];
          }
        case ConfigureReject =>
          if lastSentId == Some(frame.id) {
            var rejected := ReadOptions(frame.data);
            ApplyReject(rejected);
            localUp := false;
            var wire := SendConfigRequest();
            toSend := [wire];
          }
        case TerminateRequest =>
          toSend := [Encode(TerminateAck, frame.id, [])];
          localUp := false;
          remoteUp := false;
        case _ =>
      }
      up := localUp && remoteUp;
    }

    method ReplyToRequest(frame: Frame) returns (toSend: seq<seq<Byte>>)
      modifies this
      ensures var r := AnswerRequest(old(Model()), frame); Model() == r.state && toSend == r.sends
    {
      var peerOpts := ReadOptions(frame.data);
      var reject := EvaluatePeerOptions(peerOpts);
      if reject != [] {
        toSend := [Encode(ConfigureReject, frame.id, EncodeOptions(reject))];
        remoteUp := false;
      } else {
        toSend := [Encode(ConfigureAck, frame.id, frame.data)];
        remoteUp := true;
      }
    }

    method EvaluatePeerOptions(opts: seq<Opt>) returns (reject: seq<Opt>)
      modifies this`negotiated
      ensures var j := JudgeAll(old(negotiated.peerIp), opts);
        reject == j.rejects && negotiated == old(negotiated).(peerIp := j.peerIp)
    {
      reject := [];
      for i := 0 to |opts|
        invariant var j := JudgeAll(old(negotiated.peerIp), opts[..i]);
          reject == j.rejects && negotiated == old(negotiated).(peerIp := j.peerIp)
      {
        assert opts[..i + 1][..i] == opts[..i];
        var opt := opts[i];
        if opt.kind == OPT_IP_ADDRESS {
          var address := ParseAddress(opt);
          match address {
            case Some(_) => negotiated := negotiated.(peerIp := address);
            case None => reject := reject + [opt];
          }
        } else {
          reject := reject + [opt];
        }
      }
      assert opts[..|opts|] == opts;
    }

    method ApplyNak(suggested: seq<Opt>)
      modifies this`desired
      ensures desired == AdoptAll(old(desired), suggested)
    {
      for i := 0 to |suggested|
        invariant desired == AdoptAll(old(desired), suggested[..i])
      {
        assert suggested[..i + 1][..i] == suggested[..i];
        var s := suggested[i];
        var found := FirstOfKind(desired, s.kind);
        if found.Some? {
          desired := desired[found.value := Opt(desired[found.value].kind, s.data)];
        }
      }
      assert suggested[..|suggested|] == suggested;
    }

    method ApplyReject(rejected: seq<Opt>)
      modifies this`desired
      ensures desired == Drop(old(desired), rejected)
      ensures forall o :: o in desired <==> o in old(desired) && !HasKind(rejected, o.kind)
      ensures Sound(old(desired)) ==> Sound(desired)
    {
      desired := Retain(desired, rejected);
    }

    method CaptureAcceptedValues()
      modifies this`negotiated
      ensures negotiated == CaptureAll(old(negotiated), desired)
    {
      for i := 0 to |desired|
        invariant negotiated == CaptureAll(old(negotiated), desired[..i])
      {
        assert desired[..i + 1][..i] == desired[..i];
        var opt := desired[i];
        var address := ParseAddress(opt);
        if address.Some? {
          if opt.kind == OPT_IP_ADDRESS {
            negotiated := negotiated.(localIp := address);
          } else if opt.kind == OPT_PRIMARY_DNS {
            negotiated := negotiated.(dns1 := address);
          } else if opt.kind == OPT_SECONDARY_DNS {
            negotiated := negotiated.(dns2 := address);
          }
        }
      }
      assert desired[..|desired|] == desired;
    }
  }
}
