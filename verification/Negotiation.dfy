/**
 Our own half of LCP and IPCP over whole runs: how many Configure-Requests are sent, why the
 negotiation ends, and the lockstep between requests and their answers.
 */
module Negotiation {
  import opened Wrappers
  import opened Bytes
  import opened Cp
  import opened OwnOptions
  import Lcp
  import Ipcp

  /** Either automaton. */
  datatype Machine = LcpSide(lcp: Lcp.State) | IpcpSide(ipcp: Ipcp.State)

  datatype Reaction = Reaction(machine: Machine, sends: seq<seq<Byte>>)

  /** An arriving frame with the random numbers it may consume, an LCP Protocol-Reject of ours, or a start. */
  datatype Input = Arrives(data: seq<Byte>, draws: nat -> Word32) | RejectsProtocol(info: seq<Byte>) | Starts

  function OfferOf(m: Machine): Offer {
    match m
    case LcpSide(s) => s.offer
    case IpcpSide(s) => s.offer
  }

  function StartOf(m: Machine): Reaction {
    match m
    case LcpSide(s) =>
      var r := Lcp.Start(s);
      Reaction(LcpSide(r.state), r.sends)
    case IpcpSide(s) =>
      var r := Ipcp.Start(s);
      Reaction(IpcpSide(r.state), r.sends)
  }

  function React(m: Machine, i: Input): Reaction {
    match (m, i)
    case (LcpSide(s), Arrives(data, draws)) =>
      var r := Lcp.Receive(s, data, draws);
      Reaction(LcpSide(r.state), r.sends)
    case (IpcpSide(s), Arrives(data, _)) =>
      var r := Ipcp.Receive(s, data);
      Reaction(IpcpSide(r.state), r.sends)
    case (LcpSide(s), RejectsProtocol(info)) =>
      var r := Lcp.RejectProtocol(s, info);
      Reaction(LcpSide(r.state), r.sends)
    case (IpcpSide(_), RejectsProtocol(_)) => Reaction(m, [])
    case (_, Starts) => StartOf(m)
  }

  predicate Inv(m: Machine) {
    Sound(OfferOf(m).desired) && |OfferOf(m).desired| <= 3
  }

  predicate IsCode(wire: seq<Byte>, code: Code) {
    Decode(wire).Some? && Decode(wire).value.code == code
  }

  predicate IsRequest(wire: seq<Byte>) {
    IsCode(wire, ConfigureRequest)
  }

  predicate IsAnswer(wire: seq<Byte>) {
    IsCode(wire, ConfigureAck) || IsCode(wire, ConfigureNak) || IsCode(wire, ConfigureReject)
  }

  /** An answer to the request that was sent last. */
  predicate Effective(m: Machine, data: seq<Byte>) {
    IsAnswer(data) && OfferOf(m).lastSentId == Some(Decode(data).value.id)
  }

  function CountRequests(wires: seq<seq<Byte>>): nat {
    if wires == [] then 0 else (if IsRequest(wires[0]) then 1 else 0) + CountRequests(wires[1..])
  }

  lemma CountOne(wire: seq<Byte>)
    ensures CountRequests([wire]) == if IsRequest(wire) then 1 else 0
  {
    assert [wire][1..] == [];
  }

  lemma RequestIsRequest(id: Byte, desired: seq<Opt>)
    requires AllSmall(desired) && |desired| <= 3
    ensures IsRequest(Request(id, desired)) && Decode(Request(id, desired)).value.id == id
    ensures CountRequests([Request(id, desired)]) == 1
  {
    RequestCarriesDesired(id, desired);
    CountOne(Request(id, desired));
  }

  predicate RefinesAnswer(m: Machine, i: Input)
    requires i.Arrives?
  {
    var r := React(m, i);
    && Inv(r.machine)
    && (Decode(i.data).Some? ==> OfferOf(r.machine) == ReceiveAnswer(OfferOf(m), Decode(i.data).value).offer)
    && (Decode(i.data).None? ==> OfferOf(r.machine) == OfferOf(m))
    && CountRequests(r.sends) == if Effective(m, i.data) && !IsCode(i.data, ConfigureAck) then 1 else 0
  }

  /** Both automata treat our own options as `ReceiveAnswer` says, and send a request exactly on a revision. */
  lemma ReactRefinesAnswer(m: Machine, i: Input)
    requires Inv(m) && i.Arrives?
    ensures RefinesAnswer(m, i)
  {
    match m
    case LcpSide(_) => LcpRefinesAnswer(m, i);
    case _ => IpcpRefinesAnswer(m, i);
  }

  lemma LcpRefinesAnswer(m: Machine, i: Input)
    requires Inv(m) && m.LcpSide? && i.Arrives?
    ensures RefinesAnswer(m, i)
  {
    if Decode(i.data).Some? {
      var frame := Decode(i.data).value;
      var step := ReceiveAnswer(OfferOf(m), frame);
      ReceiveKeepsSound(OfferOf(m), frame);
      if frame.code == ConfigureRequest {
        LcpReplyIsNoRequest(m.lcp, frame, i.draws);
      } else if Effective(m, i.data) && frame.code != ConfigureAck {
        RequestIsRequest(step.offer.identifier, step.offer.desired);
      } else {
        OtherReplyIsNoRequest(m, i);
      }
    }
  }

  lemma IpcpRefinesAnswer(m: Machine, i: Input)
    requires Inv(m) && !m.LcpSide? && i.Arrives?
    ensures RefinesAnswer(m, i)
  {
    if Decode(i.data).Some? {
      var frame := Decode(i.data).value;
      var step := ReceiveAnswer(OfferOf(m), frame);
      ReceiveKeepsSound(OfferOf(m), frame);
      if frame.code == ConfigureRequest {
        IpcpReplyIsNoRequest(m.ipcp, frame);
      } else if Effective(m, i.data) && frame.code != ConfigureAck {
        RequestIsRequest(step.offer.identifier, step.offer.desired);
      } else {
        OtherReplyIsNoRequest(m, i);
      }
    }
  }

  lemma LcpReplyIsNoRequest(s: Lcp.State, frame: Frame, draws: nat -> Word32)
    ensures CountRequests(Lcp.AnswerRequest(s, frame, draws).sends) == 0
  {
    var wire := Lcp.AnswerRequest(s, frame, draws).sends[0];
    CountOne(wire);
    NoRequestUnderOtherCode(wire);
  }

  lemma IpcpReplyIsNoRequest(s: Ipcp.State, frame: Frame)
    ensures CountRequests(Ipcp.AnswerRequest(s, frame).sends) == 0
  {
    var wire := Ipcp.AnswerRequest(s, frame).sends[0];
    CountOne(wire);
    NoRequestUnderOtherCode(wire);
  }

  lemma NoRequestUnderOtherCode(wire: seq<Byte>)
    requires wire != [] && wire[0] != 1
    ensures !IsRequest(wire)
  {
  }

  lemma OtherReplyIsNoRequest(m: Machine, i: Input)
    requires i.Arrives? && Decode(i.data).Some?
    requires !IsRequest(i.data) && !(Effective(m, i.data) && !IsCode(i.data, ConfigureAck))
    ensures CountRequests(React(m, i).sends) == 0
  {
    var sends := React(m, i).sends;
    if sends != [] {
      CountOne(sends[0]);
      NoRequestUnderOtherCode(sends[0]);
    }
  }

  // ----- Runs -----

  /** A request as an observer of the wire numbers it, with the identifier it carries. */
  datatype Sent = Sent(number: nat, id: Byte)

  /** What an observer of the frames sent keeps: how many identifiers were used up, and the requests. */
  datatype Ledger = Ledger(used: nat, sent: seq<Sent>)

  /** Requests and Protocol-Rejects, told by their code byte, use up an identifier. */
  predicate UsesIdentifier(wire: seq<Byte>) {
    wire != [] && (wire[0] == CodeByte(ConfigureRequest) || wire[0] == CodeByte(ProtocolReject))
  }

  function Enter(l: Ledger, wire: seq<Byte>): Ledger {
    var used := l.used + (if UsesIdentifier(wire) then 1 else 0);
    Ledger(used, if IsRequest(wire) then l.sent + [Sent(used, Decode(wire).value.id)] else l.sent)
  }

  function EnterAll(l: Ledger, wires: seq<seq<Byte>>): Ledger
    decreases |wires|
  {
    if wires == [] then l else EnterAll(Enter(l, wires[0]), wires[1..])
  }

  /** A run, with what was counted on the way. */
  datatype Progress = Progress(machine: Machine, ledger: Ledger, starts: nat, naks: nat, rejects: nat, acks: nat)

  /** Before the first start; identifiers are numbered on from the one the automaton holds. */
  function Fresh(m: Machine): Progress {
    Progress(m, Ledger(OfferOf(m).identifier, []), 0, 0, 0, 0)
  }

  function Advance(p: Progress, i: Input): Progress {
    var r := React(p.machine, i);
    var hit := i.Arrives? && Effective(p.machine, i.data);
    Progress(
      r.machine,
      EnterAll(p.ledger, r.sends),
      p.starts + (if i.Starts? then 1 else 0),
      p.naks + (if hit && IsCode(i.data, ConfigureNak) then 1 else 0),
      p.rejects + (if hit && IsCode(i.data, ConfigureReject) then 1 else 0),
      p.acks + (if hit && IsCode(i.data, ConfigureAck) then 1 else 0))
  }

  function RunFrom(p: Progress, inputs: seq<Input>): Progress {
    if inputs == [] then p
    else Advance(RunFrom(p, inputs[..|inputs| - 1]), inputs[|inputs| - 1])
  }

  /** An automaton that has sent no request yet. */
  predicate Unstarted(m: Machine) {
    Inv(m) && OfferOf(m).lastSentId.None?
  }

  // ----- Negotiation ends -----

  /** RFC 1661 section 5.4: a Reject names options of the request it answers. */
  predicate Productive(m: Machine, i: Input) {
    i.Arrives? && Effective(m, i.data) && IsCode(i.data, ConfigureReject) ==>
      exists o :: o in OfferOf(m).desired && HasKind(DecodeOptions(Decode(i.data).value.data), o.kind)
  }

  predicate AllProductive(p: Progress, inputs: seq<Input>) {
    inputs == [] ||
    (var last := |inputs| - 1;
     AllProductive(p, inputs[..last]) && Productive(RunFrom(p, inputs[..last]).machine, inputs[last]))
  }

  /** A start, or a Nak or Reject of the request awaited: what draws a request. */
  predicate Draws(m: Machine, i: Input) {
    i.Starts? || (i.Arrives? && Effective(m, i.data) && !IsCode(i.data, ConfigureAck))
  }

  lemma AdvanceCounts(p: Progress, i: Input)
    requires Inv(p.machine)
    ensures var q := Advance(p, i);
      && Inv(q.machine)
      && |q.ledger.sent| - |p.ledger.sent| == (q.starts - p.starts) + (q.naks - p.naks) + (q.rejects - p.rejects)
      && |OfferOf(q.machine).desired| <= |OfferOf(p.machine).desired|
      && KindsWithin(OfferOf(q.machine).desired, OfferOf(p.machine).desired)
      && (Productive(p.machine, i) ==>
            |OfferOf(q.machine).desired| + (q.rejects - p.rejects) <= |OfferOf(p.machine).desired|)
  {
    SameKindsWithin(OfferOf(p.machine).desired, OfferOf(p.machine).desired);
    EnteredRequests(p.ledger, React(p.machine, i).sends);
    if i.Arrives? {
      ReactRefinesAnswer(p.machine, i);
      if Decode(i.data).Some? {
        var frame := Decode(i.data).value;
        ReceiveKeepsSound(OfferOf(p.machine), frame);
        DropProperties(OfferOf(p.machine).desired, DecodeOptions(frame.data));
      }
    } else if i.Starts? {
      RequestIsRequest(Bump(OfferOf(p.machine).identifier), OfferOf(p.machine).desired);
    } else {
      ProtocolRejectIsNoRequest(p.machine, i);
    }
  }

  lemma {:induction false} EnteredRequests(l: Ledger, wires: seq<seq<Byte>>)
    ensures |EnterAll(l, wires).sent| == |l.sent| + CountRequests(wires)
    decreases |wires|
  {
    if wires != [] {
      EnteredRequests(Enter(l, wires[0]), wires[1..]);
    }
  }

  lemma ProtocolRejectIsNoRequest(m: Machine, i: Input)
    requires i.RejectsProtocol?
    ensures CountRequests(React(m, i).sends) == 0
    ensures OfferOf(React(m, i).machine).desired == OfferOf(m).desired
    ensures OfferOf(React(m, i).machine).lastSentId == OfferOf(m).lastSentId
    ensures OfferOf(React(m, i).machine).localUp == OfferOf(m).localUp
  {
    var sends := React(m, i).sends;
    if sends != [] {
      CountOne(sends[0]);
      NoRequestUnderOtherCode(sends[0]);
    }
  }

  /** One request for each start, Nak and Reject; if the Rejects name offered options, no more of them than options. */
  predicate RequestsBounded(m: Machine, inputs: seq<Input>, p: Progress) {
    && Inv(p.machine)
    && |p.ledger.sent| == p.starts + p.naks + p.rejects
    && KindsWithin(OfferOf(p.machine).desired, OfferOf(m).desired)
    && (AllProductive(Fresh(m), inputs) ==>
          && |OfferOf(p.machine).desired| + p.rejects <= |OfferOf(m).desired|
          && |p.ledger.sent| <= p.starts + p.naks + 3)
  }

  /**
   In every run the requests sent are one for each start and one for each Nak or Reject of the
   current request. If the Rejects name offered options, there are at most as many of them as
   options, however often the automaton is started.
   */
  lemma {:induction false} RequestsAreBounded(m: Machine, inputs: seq<Input>)
    requires Inv(m)
    ensures RequestsBounded(m, inputs, RunFrom(Fresh(m), inputs))
  {
    if inputs == [] {
      SameKindsWithin(OfferOf(m).desired, OfferOf(m).desired);
    } else {
      var last := |inputs| - 1;
      var before := RunFrom(Fresh(m), inputs[..last]);
      RequestsAreBounded(m, inputs[..last]);
      AdvanceCounts(before, inputs[last]);
      WithinTransitive(OfferOf(Advance(before, inputs[last]).machine).desired, OfferOf(before.machine).desired, OfferOf(m).desired);
    }
  }

  lemma WithinTransitive(a: seq<Opt>, b: seq<Opt>, c: seq<Opt>)
    requires KindsWithin(a, b) && KindsWithin(b, c)
    ensures KindsWithin(a, c)
  {
    forall i | 0 <= i < |a|
      ensures HasKind(c, a[i].kind)
    {
      var j :| 0 <= j < |b| && b[j].kind == a[i].kind;
      assert HasKind(c, b[j].kind);
    }
  }

  /** Dropped kinds stay out of every later request. */
  lemma RejectedKindNeverReturns(p: Progress, data: seq<Byte>, draws: nat -> Word32, later: seq<Input>, kind: Byte)
    requires Inv(p.machine) && Effective(p.machine, data) && IsCode(data, ConfigureReject)
    requires HasKind(DecodeOptions(Decode(data).value.data), kind)
    ensures var q := RunFrom(Advance(p, Arrives(data, draws)), later);
      !HasKind(OfferOf(q.machine).desired, kind)
  {
    var rejected := Advance(p, Arrives(data, draws));
    ReactRefinesAnswer(p.machine, Arrives(data, draws));
    DropProperties(OfferOf(p.machine).desired, DecodeOptions(Decode(data).value.data));
    var left := OfferOf(rejected.machine).desired;
    assert !HasKind(left, kind) by {
      forall i | 0 <= i < |left|
        ensures left[i].kind != kind
      {
        assert left[i] in left;
      }
    }
    AbsentStaysAbsent(rejected, later, kind);
  }

  lemma {:induction false} AbsentStaysAbsent(p: Progress, later: seq<Input>, kind: Byte)
    requires Inv(p.machine) && !HasKind(OfferOf(p.machine).desired, kind)
    ensures var q := RunFrom(p, later); Inv(q.machine) && !HasKind(OfferOf(q.machine).desired, kind)
  {
    if later != [] {
      var last := |later| - 1;
      var before := RunFrom(p, later[..last]);
      AbsentStaysAbsent(p, later[..last], kind);
      AdvanceCounts(before, later[last]);
      var a, b := OfferOf(Advance(before, later[last]).machine).desired, OfferOf(before.machine).desired;
      forall i | 0 <= i < |a|
        ensures a[i].kind != kind
      {
        assert HasKind(b, a[i].kind);
      }
    }
  }

  /**
   Negotiation terminates: in a run in which the server Naks at most `n` times and rejects only
   what is offered, one of our requests has been acknowledged by its answer `n + 4`, whatever
   stale answers, other frames, Protocol-Rejects and further starts come in between.
   */
  lemma AcknowledgedInTime(m: Machine, inputs: seq<Input>, n: nat)
    requires Inv(m) && AllProductive(Fresh(m), inputs)
    requires RunFrom(Fresh(m), inputs).naks <= n
    ensures var p := RunFrom(Fresh(m), inputs);
      && (p.naks + p.rejects + p.acks >= n + 4 ==> p.acks >= 1)
      && |p.ledger.sent| <= p.starts + n + 3
  {
    RequestsAreBounded(m, inputs);
  }

  // ----- Lockstep -----

  /** The automaton, and the two FIFO directions between it and a server. */
  datatype System = System(machine: Machine, toServer: seq<seq<Byte>>, toClient: seq<seq<Byte>>)

  datatype Action =
    | ServerTakes(code: Code, data: seq<Byte>)
    | ServerSends(frame: seq<Byte>)
    | ClientTakes(draws: nat -> Word32)
    | ClientRejectsProtocol(info: seq<Byte>)
    /** what a verified Success does to IPCP, each time again */
    | ClientStarts

  /** The server answers nothing but requests, and answers with something. */
  predicate Enabled(s: System, a: Action) {
    match a
    case ServerTakes(code, data) =>
      s.toServer != [] && code in {ConfigureAck, ConfigureNak, ConfigureReject} && |data| <= 0xFFFF - 4
    case ServerSends(frame) => !IsAnswer(frame)
    case ClientTakes(_) => s.toClient != []
    case _ => true
  }

  function Act(s: System, a: Action): System
    requires Enabled(s, a)
  {
    match a
    case ServerTakes(code, data) =>
      var head := s.toServer[0];
      var answer := if IsRequest(head) then [Encode(code, Decode(head).value.id, data)] else [];
      s.(toServer := s.toServer[1..], toClient := s.toClient + answer)
    case ServerSends(frame) => s.(toClient := s.toClient + [frame])
    case ClientTakes(draws) => After(s.(toClient := s.toClient[1..]), React(s.machine, Arrives(s.toClient[0], draws)))
    case ClientRejectsProtocol(info) => After(s, React(s.machine, RejectsProtocol(info)))
    case ClientStarts => After(s, React(s.machine, Starts))
  }

  function After(s: System, r: Reaction): System {
    s.(machine := r.machine, toServer := s.toServer + r.sends)
  }

  function CountAnswers(wires: seq<seq<Byte>>): nat {
    if wires == [] then 0 else (if IsAnswer(wires[0]) then 1 else 0) + CountAnswers(wires[1..])
  }

  lemma {:induction false} CountsAppend(a: seq<seq<Byte>>, b: seq<seq<Byte>>)
    ensures CountRequests(a + b) == CountRequests(a) + CountRequests(b)
    ensures CountAnswers(a + b) == CountAnswers(a) + CountAnswers(b)
    decreases |a|
  {
    if a == [] {
      assert a + b == b;
    } else {
      CountsAppend(a[1..], b);
      assert (a + b)[1..] == a[1..] + b;
    }
  }

  /** Our requests under way, their answers under way, and our side if it is acknowledged. */
  function Load(s: System): nat {
    CountRequests(s.toServer) + CountAnswers(s.toClient) + (if OfferOf(s.machine).localUp then 1 else 0)
  }

  predicate Awaited(o: Offer, wire: seq<Byte>) {
    Decode(wire).Some? && o.lastSentId == Some(Decode(wire).value.id)
  }

  predicate AllAwaited(s: System) {
    && (forall i :: 0 <= i < |s.toServer| && IsRequest(s.toServer[i]) ==> Awaited(OfferOf(s.machine), s.toServer[i]))
    && (forall i :: 0 <= i < |s.toClient| && IsAnswer(s.toClient[i]) ==> Awaited(OfferOf(s.machine), s.toClient[i]))
  }

  /** At most one thing is under way or acknowledged, and it is the one awaited. */
  predicate AtMostOne(s: System) {
    Inv(s.machine) && Load(s) <= 1 && AllAwaited(s)
  }

  lemma NoneCounted(wires: seq<seq<Byte>>)
    ensures CountRequests(wires) == 0 <==> forall i :: 0 <= i < |wires| ==> !IsRequest(wires[i])
    ensures CountAnswers(wires) == 0 <==> forall i :: 0 <= i < |wires| ==> !IsAnswer(wires[i])
  {
    if wires != [] {
      NoneCounted(wires[1..]);
      assert forall i :: 1 <= i < |wires| ==> wires[i] == wires[1..][i - 1];
    }
  }

  /** The client takes a Terminate-Request while its side is acknowledged. */
  predicate Closes(s: System, a: Action) {
    a.ClientTakes? && s.toClient != [] && IsCode(s.toClient[0], TerminateRequest) && OfferOf(s.machine).localUp
  }

  /** Starting adds one to the load, closing takes one away, and nothing else changes it. */
  predicate LoadMoves(s: System, a: Action, after: System) {
    Load(after) == Load(s) + (if a.ClientStarts? then 1 else 0) - (if Closes(s, a) then 1 else 0)
  }

  lemma ActMovesLoad(s: System, a: Action)
    requires AtMostOne(s) && Enabled(s, a)
    ensures LoadMoves(s, a, Act(s, a))
    ensures AtMostOne(Act(s, a)) <==> (a.ClientStarts? ==> Load(s) == 0)
  {
    match a
    case ServerTakes(code, data) => ServerTakesMoves(s, code, data);
    case ServerSends(frame) => CountsAppend(s.toClient, [frame]);
    case ClientTakes(draws) => ClientTakesMoves(s, draws);
    case ClientRejectsProtocol(info) => RejectsMoves(s, info);
    case ClientStarts => StartAddsOne(s);
  }

  lemma ServerTakesMoves(s: System, code: Code, data: seq<Byte>)
    requires AtMostOne(s) && Enabled(s, ServerTakes(code, data))
    ensures var t := Act(s, ServerTakes(code, data)); Load(t) == Load(s) && AtMostOne(t)
  {
    var head := s.toServer[0];
    if IsRequest(head) {
      var answer := Encode(code, Decode(head).value.id, data);
      FrameRoundTrip(code, Decode(head).value.id, data);
      CountsAppend(s.toClient, [answer]);
      assert CountAnswers([answer]) == 1;
    } else {
      assert s.toClient + [] == s.toClient;
    }
  }

  /** The new request is the one awaited, so whatever was under way or acknowledged before is one too many. */
  lemma StartAddsOne(s: System)
    requires AtMostOne(s)
    ensures Load(Act(s, ClientStarts)) == Load(s) + 1
    ensures AtMostOne(Act(s, ClientStarts)) <==> Load(s) == 0
  {
    var r := StartOf(s.machine);
    RequestIsRequest(Bump(OfferOf(s.machine).identifier), OfferOf(s.machine).desired);
    CountsAppend(s.toServer, r.sends);
    NoneCounted(s.toServer);
    NoneCounted(s.toClient);
  }

  lemma RejectsMoves(s: System, info: seq<Byte>)
    requires AtMostOne(s)
    ensures var t := Act(s, ClientRejectsProtocol(info)); Load(t) == Load(s) && AtMostOne(t)
  {
    var r := React(s.machine, RejectsProtocol(info));
    ProtocolRejectIsNoRequest(s.machine, RejectsProtocol(info));
    CountsAppend(s.toServer, r.sends);
    NoneCounted(r.sends);
  }

  lemma ClientTakesMoves(s: System, draws: nat -> Word32)
    requires AtMostOne(s) && s.toClient != []
    ensures var a := ClientTakes(draws); LoadMoves(s, a, Act(s, a)) && AtMostOne(Act(s, a))
  {
    var input := Arrives(s.toClient[0], draws);
    ReactRefinesAnswer(s.machine, input);
    CountsAppend(s.toServer, React(s.machine, input).sends);
    if IsAnswer(s.toClient[0]) {
      TakesAnswer(s, draws);
    } else {
      NoneCounted(React(s.machine, input).sends);
      OtherFrame(s.machine, input);
    }
  }

  /** The one answer under way is the one awaited: it brings our side up or draws one request. */
  lemma TakesAnswer(s: System, draws: nat -> Word32)
    requires AtMostOne(s) && s.toClient != [] && IsAnswer(s.toClient[0])
    ensures var t := Act(s, ClientTakes(draws)); Load(t) == Load(s) && AtMostOne(t)
  {
    var input := Arrives(s.toClient[0], draws);
    var r := React(s.machine, input);
    ReactRefinesAnswer(s.machine, input);
    CountsAppend(s.toServer, r.sends);
    NoneCounted(s.toServer);
    NoneCounted(s.toClient[1..]);
    if IsCode(s.toClient[0], ConfigureAck) {
      NoneCounted(r.sends);
    } else {
      RevisedRequest(s.machine, input);
    }
  }

  lemma RevisedRequest(m: Machine, i: Input)
    requires Inv(m) && i.Arrives? && Effective(m, i.data) && !IsCode(i.data, ConfigureAck)
    ensures var r := React(m, i);
      && !OfferOf(r.machine).localUp
      && |r.sends| == 1 && Awaited(OfferOf(r.machine), r.sends[0])
  {
    var frame := Decode(i.data).value;
    var step := ReceiveAnswer(OfferOf(m), frame);
    ReceiveKeepsSound(OfferOf(m), frame);
    RequestIsRequest(step.offer.identifier, step.offer.desired);
  }

  lemma OtherFrame(m: Machine, i: Input)
    requires i.Arrives? && !IsAnswer(i.data)
    ensures OfferOf(React(m, i).machine)
      == if IsCode(i.data, TerminateRequest) then OfferOf(m).(localUp := false) else OfferOf(m)
  {
  }

  predicate AllEnabled(s: System, actions: seq<Action>)
    decreases |actions|, 0
  {
    actions == [] ||
    (var last := |actions| - 1;
     AllEnabled(s, actions[..last]) && Enabled(ActAll(s, actions[..last]), actions[last]))
  }

  function ActAll(s: System, actions: seq<Action>): System
    requires AllEnabled(s, actions)
    decreases |actions|, 1
  {
    if actions == [] then s
    else
      var last := |actions| - 1;
      Act(ActAll(s, actions[..last]), actions[last])
  }

  predicate AlwaysAtMostOne(s: System, actions: seq<Action>)
    requires AllEnabled(s, actions)
    decreases |actions|
  {
    AtMostOne(ActAll(s, actions)) && (actions == [] || AlwaysAtMostOne(s, actions[..|actions| - 1]))
  }

  /** The client starts only when nothing is under way and its side is not acknowledged. */
  predicate StartsIdle(s: System, actions: seq<Action>)
    requires AllEnabled(s, actions)
    decreases |actions|
  {
    actions == [] ||
    (var last := |actions| - 1;
     StartsIdle(s, actions[..last]) && (actions[last].ClientStarts? ==> Load(ActAll(s, actions[..last])) == 0))
  }

  /**
   In every run, starts and Terminate-Requests included: there is never more than one of a request
   under way, an answer under way and our side acknowledged, if and only if the automaton is
   started only when there is none of them.
   */
  lemma {:induction false} LockstepWhenStartedIdle(s: System, actions: seq<Action>)
    requires AtMostOne(s) && AllEnabled(s, actions)
    ensures AlwaysAtMostOne(s, actions) <==> StartsIdle(s, actions)
    decreases |actions|
  {
    if actions != [] {
      var last := |actions| - 1;
      LockstepWhenStartedIdle(s, actions[..last]);
      if StartsIdle(s, actions[..last]) {
        ActMovesLoad(ActAll(s, actions[..last]), actions[last]);
      }
    }
  }

  predicate AlwaysOne(s: System, actions: seq<Action>)
    requires AllEnabled(s, actions)
    decreases |actions|
  {
    Load(ActAll(s, actions)) == 1 && (actions == [] || AlwaysOne(s, actions[..|actions| - 1]))
  }

  predicate NeitherStartsNorCloses(s: System, actions: seq<Action>)
    requires AllEnabled(s, actions)
    decreases |actions|
  {
    actions == [] ||
    (var last := |actions| - 1;
     && NeitherStartsNorCloses(s, actions[..last])
     && !actions[last].ClientStarts?
     && !Closes(ActAll(s, actions[..last]), actions[last]))
  }

  /**
   From lockstep, at every moment exactly one of request under way, answer under way, our side
   acknowledged, and it is the one awaited, if and only if the automaton is not started again and
   no Terminate-Request takes an acknowledged side down.
   */
  lemma {:induction false} LockstepForever(s: System, actions: seq<Action>)
    requires AtMostOne(s) && Load(s) == 1 && AllEnabled(s, actions)
    ensures AlwaysOne(s, actions) <==> NeitherStartsNorCloses(s, actions)
    ensures AlwaysOne(s, actions) ==> AtMostOne(ActAll(s, actions))
    decreases |actions|
  {
    if actions != [] {
      var last := |actions| - 1;
      LockstepForever(s, actions[..last]);
      if AlwaysOne(s, actions[..last]) {
        ActMovesLoad(ActAll(s, actions[..last]), actions[last]);
      }
    }
  }

  // ----- Stale answers -----

  /** The observer's numbers, taken modulo 256, are the identifiers the automaton used and awaits. */
  predicate Serial(o: Offer, l: Ledger) {
    && o.identifier == l.used % 0x100
    && o.lastSentId == (if l.sent == [] then None else Some(l.sent[|l.sent| - 1].id))
    && (forall j :: 0 <= j < |l.sent| ==> l.sent[j].id == l.sent[j].number % 0x100)
    && (forall j :: 0 <= j < |l.sent| ==> l.sent[j].number <= l.used)
    && (forall j, k :: 0 <= j < k < |l.sent| ==> l.sent[j].number < l.sent[k].number)
  }

  /** At most one frame is sent, and it uses up an identifier just when a request or Protocol-Reject is due. */
  predicate Numbered(o: Offer, draws: bool, r: Reaction) {
    var o' := OfferOf(r.machine);
    if draws then
      && |r.sends| == 1 && IsRequest(r.sends[0]) && Decode(r.sends[0]).value.id == Bump(o.identifier)
      && o'.identifier == Bump(o.identifier) && o'.lastSentId == Some(Bump(o.identifier))
    else
      && |r.sends| <= 1
      && (forall k :: 0 <= k < |r.sends| ==> !IsRequest(r.sends[k]))
      && o'.lastSentId == o.lastSentId
      && o'.identifier == if r.sends != [] && UsesIdentifier(r.sends[0]) then Bump(o.identifier) else o.identifier
  }

  lemma ReactNumbers(m: Machine, i: Input)
    requires Inv(m)
    ensures Numbered(OfferOf(m), Draws(m, i), React(m, i))
  {
    if i.Starts? {
      RequestIsRequest(Bump(OfferOf(m).identifier), OfferOf(m).desired);
    } else if Draws(m, i) {
      RevisedRequest(m, i);
    } else if i.RejectsProtocol? {
      ProtocolRejectIsNoRequest(m, i);
      NoneCounted(React(m, i).sends);
    } else {
      ReactRefinesAnswer(m, i);
      NoneCounted(React(m, i).sends);
      UndrawnReply(m, i);
    }
  }

  lemma UndrawnReply(m: Machine, i: Input)
    requires i.Arrives? && !Draws(m, i)
    ensures Undrawn(m, React(m, i))
  {
    match m
    case LcpSide(s) => LcpUndrawn(s, i.data, i.draws);
    case IpcpSide(s) => IpcpUndrawn(s, i.data);
  }

  predicate Undrawn(m: Machine, r: Reaction) {
    && |r.sends| <= 1
    && (r.sends != [] ==> !UsesIdentifier(r.sends[0]))
    && OfferOf(r.machine) == OfferOf(m).(localUp := OfferOf(r.machine).localUp)
  }

  lemma LcpUndrawn(s: Lcp.State, data: seq<Byte>, draws: nat -> Word32)
    requires !Draws(LcpSide(s), Arrives(data, draws))
    ensures var r := Lcp.Receive(s, data, draws); Undrawn(LcpSide(s), Reaction(LcpSide(r.state), r.sends))
  {
  }

  lemma IpcpUndrawn(s: Ipcp.State, data: seq<Byte>)
    requires !(Effective(IpcpSide(s), data) && !IsCode(data, ConfigureAck))
    ensures var r := Ipcp.Receive(s, data); Undrawn(IpcpSide(s), Reaction(IpcpSide(r.state), r.sends))
  {
  }

  lemma RequestEntered(o: Offer, l: Ledger, wire: seq<Byte>, o': Offer)
    requires Serial(o, l) && IsRequest(wire) && Decode(wire).value.id == Bump(o.identifier)
    requires o'.identifier == Bump(o.identifier) && o'.lastSentId == Some(Bump(o.identifier))
    ensures Serial(o', Enter(l, wire))
  {
    var l' := Enter(l, wire);
    assert (l.used % 0x100 + 1) % 0x100 == (l.used + 1) % 0x100;
    assert l'.sent[..|l.sent|] == l.sent;
  }

  lemma OtherEntered(o: Offer, l: Ledger, wire: seq<Byte>, o': Offer)
    requires Serial(o, l) && !IsRequest(wire) && o'.lastSentId == o.lastSentId
    requires o'.identifier == if UsesIdentifier(wire) then Bump(o.identifier) else o.identifier
    ensures Serial(o', Enter(l, wire))
  {
    assert (l.used % 0x100 + 1) % 0x100 == (l.used + 1) % 0x100;
  }

  lemma SerialAdvances(p: Progress, i: Input)
    requires Inv(p.machine) && Serial(OfferOf(p.machine), p.ledger)
    ensures Serial(OfferOf(Advance(p, i).machine), Advance(p, i).ledger)
  {
    ReactNumbers(p.machine, i);
    EnteredIsSerial(OfferOf(p.machine), p.ledger, Draws(p.machine, i), React(p.machine, i));
  }

  lemma EnteredIsSerial(o: Offer, l: Ledger, draws: bool, r: Reaction)
    requires Serial(o, l) && Numbered(o, draws, r)
    ensures Serial(OfferOf(r.machine), EnterAll(l, r.sends))
  {
    if r.sends != [] {
      assert EnterAll(l, r.sends) == Enter(l, r.sends[0]);
      if draws {
        RequestEntered(o, l, r.sends[0], OfferOf(r.machine));
      } else {
        OtherEntered(o, l, r.sends[0], OfferOf(r.machine));
      }
    }
  }

  lemma {:induction false} EveryRunIsSerial(m: Machine, inputs: seq<Input>)
    requires Unstarted(m)
    ensures var p := RunFrom(Fresh(m), inputs); Inv(p.machine) && Serial(OfferOf(p.machine), p.ledger)
  {
    RequestsAreBounded(m, inputs);
    if inputs != [] {
      var last := |inputs| - 1;
      EveryRunIsSerial(m, inputs[..last]);
      SerialAdvances(RunFrom(Fresh(m), inputs[..last]), inputs[last]);
    }
  }

  /** An answer under the identifier of the request numbered `j`. */
  predicate NamesRequest(p: Progress, j: nat, answer: seq<Byte>) {
    j < |p.ledger.sent| && IsAnswer(answer) && Decode(answer).value.id == p.ledger.sent[j].id
  }

  /**
   In every run, an answer to any request sent so far is taken for one to the current request
   exactly when a multiple of 256 identifiers was used since, by requests and Protocol-Rejects
   together; when fewer than 256 were, an answer to an earlier request changes nothing.
   */
  lemma StaleAnswer(m: Machine, inputs: seq<Input>, j: nat, answer: seq<Byte>, draws: nat -> Word32)
    requires Unstarted(m) && NamesRequest(RunFrom(Fresh(m), inputs), j, answer)
    ensures StaleAt(RunFrom(Fresh(m), inputs), j, answer, draws)
  {
    EveryRunIsSerial(m, inputs);
    StaleNow(RunFrom(Fresh(m), inputs), j, answer, draws);
  }

  predicate StaleAt(p: Progress, j: nat, answer: seq<Byte>, draws: nat -> Word32)
    requires j < |p.ledger.sent|
  {
    var since := p.ledger.sent[|p.ledger.sent| - 1].number - p.ledger.sent[j].number;
    && since >= 0
    && (Effective(p.machine, answer) <==> since % 0x100 == 0)
    && (0 < since < 0x100 ==> React(p.machine, Arrives(answer, draws)) == Reaction(p.machine, []))
  }

  lemma StaleNow(p: Progress, j: nat, answer: seq<Byte>, draws: nat -> Word32)
    requires Serial(OfferOf(p.machine), p.ledger) && j < |p.ledger.sent|
    requires IsAnswer(answer) && Decode(answer).value.id == p.ledger.sent[j].id
    ensures StaleAt(p, j, answer, draws)
  {
    SameIdentifier(OfferOf(p.machine), p.ledger, j);
    if !Effective(p.machine, answer) {
      IgnoredAnswer(p.machine, Arrives(answer, draws));
    }
  }

  lemma SameIdentifier(o: Offer, l: Ledger, j: nat)
    requires Serial(o, l) && j < |l.sent|
    ensures var since := l.sent[|l.sent| - 1].number - l.sent[j].number;
      since >= 0 && (o.lastSentId == Some(l.sent[j].id) <==> since % 0x100 == 0)
  {
    SameResidue(l.sent[j].number, l.sent[|l.sent| - 1].number);
  }

  lemma SameResidue(a: nat, b: nat)
    ensures a % 0x100 == b % 0x100 <==> (b - a) % 0x100 == 0
  {
  }

  lemma IgnoredAnswer(m: Machine, i: Input)
    requires i.Arrives? && IsAnswer(i.data) && !Effective(m, i.data)
    ensures React(m, i) == Reaction(m, [])
  {
    var frame := Decode(i.data).value;
    assert ReceiveAnswer(OfferOf(m), frame) == Step(OfferOf(m), []);
  }
}
