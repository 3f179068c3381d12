/** What the negotiation theorems say of the engine: its two automata run through exactly such runs. */
module EngineNegotiation {
  import opened Wrappers
  import opened Bytes
  import opened Packet
  import opened Engine
  import opened EngineRuns
  import opened Replies
  import EngineLaws
  import N = Negotiation
  import Ppp
  import Lcp
  import LcpLaws
  import Ipcp
  import IpcpLaws

  // ----- What one packet is to each automaton -----

  function LcpInput(i: Input, r: Reply): Option<N.Input> {
    match i.packet
    case Ctrl(_, _) => if AcceptedAck(i.packet, r) then Some(N.Starts) else None
    case Data(frame) =>
      match Ppp.Decode(frame)
      case None => None
      case Some(split) =>
        if split.protocol == Ppp.Lcp then Some(N.Arrives(split.payload, i.draws.magics))
        else if Unhandled(split.protocol) then Some(N.RejectsProtocol(Ppp.StripAddressControl(frame)))
        else None
  }

  function IpcpInput(i: Input, r: Reply): Option<N.Input> {
    if IpcpPayload(i.packet).Some? then Some(N.Arrives(IpcpPayload(i.packet).value, i.draws.magics))
    else if VerifiedSuccess(i.packet, r) then Some(N.Starts)
    else None
  }

  /** The inputs a run has for the two automata, in order. */
  datatype Inputs = Inputs(lcp: seq<N.Input>, ipcp: seq<N.Input>)

  function More(list: seq<N.Input>, i: Option<N.Input>): seq<N.Input> {
    if i.Some? then list + [i.value] else list
  }

  function InputsOf(env: Env, magic: Word32, inputs: seq<Input>): Inputs {
    if inputs == [] then Inputs([], [])
    else
      var last := |inputs| - 1;
      var before, i := InputsOf(env, magic, inputs[..last]), inputs[last];
      var reply := OnPacket(env, RunOf(env, magic, inputs[..last]).state, i.packet, i.draws).reply;
      Inputs(More(before.lcp, LcpInput(i, reply)), More(before.ipcp, IpcpInput(i, reply)))
  }

  function Moved(m: N.Machine, i: Option<N.Input>): N.Machine {
    if i.Some? then N.React(m, i.value).machine else m
  }

  predicate Moves(s: State, i: Input, t: Turn) {
    && N.LcpSide(t.state.lcp) == Moved(N.LcpSide(s.lcp), LcpInput(i, t.reply))
    && N.IpcpSide(t.state.ipcp) == Moved(N.IpcpSide(s.ipcp), IpcpInput(i, t.reply))
  }

  lemma LcpMoves(env: Env, s: State, i: Input)
    ensures var t := OnPacket(env, s, i.packet, i.draws);
      N.LcpSide(t.state.lcp) == Moved(N.LcpSide(s.lcp), LcpInput(i, t.reply))
  {
    match i.packet
    case Ctrl(_, attrs) => AckReply(s, attrs);
    case Data(frame) =>
  }

  lemma StepMoves(env: Env, s: State, i: Input)
    ensures Moves(s, i, OnPacket(env, s, i.packet, i.draws))
  {
    LcpMoves(env, s, i);
    EngineLaws.IpcpIsDriven(env, s, i);
  }

  // ----- Runs -----

  function LcpRun(magic: Word32, list: seq<N.Input>): N.Progress {
    N.RunFrom(N.Fresh(N.LcpSide(Lcp.Initial(magic))), list)
  }

  function IpcpRun(list: seq<N.Input>): N.Progress {
    N.RunFrom(N.Fresh(N.IpcpSide(Ipcp.INITIAL)), list)
  }

  lemma OneMore(p: N.Progress, list: seq<N.Input>, i: Option<N.Input>)
    ensures var before, after := N.RunFrom(p, list), N.RunFrom(p, More(list, i));
      && after.machine == Moved(before.machine, i)
      && after.starts == before.starts + Bool(i == Some(N.Starts))
  {
    if i.Some? {
      assert More(list, i)[..|list|] == list;
    }
  }

  predicate Agrees(r: Run, lcp: N.Progress, ipcp: N.Progress) {
    && lcp.machine == N.LcpSide(r.state.lcp)
    && ipcp.machine == N.IpcpSide(r.state.ipcp)
    && lcp.starts == Bool(r.accepted.Some?)
    && ipcp.starts == r.verified
  }

  lemma StartsAreCounted(env: Env, r: Run, i: Input, t: Turn)
    requires Inv(env, r) && t == OnPacket(env, r.state, i.packet, i.draws)
    ensures var r' := Observe(env, r, i, t);
      && Bool(r'.accepted.Some?) == Bool(r.accepted.Some?) + Bool(LcpInput(i, t.reply) == Some(N.Starts))
      && r'.verified == r.verified + Bool(IpcpInput(i, t.reply) == Some(N.Starts))
  {
    if AcceptedAck(i.packet, t.reply) {
      AckReply(r.state, i.packet.attrs);
    }
  }

  /**
   In every run of the engine its automata are where a run of theirs from the initial state is, LCP
   started once if a CONNECT_ACK was accepted, IPCP as often as a Success verified.
   */
  lemma {:induction false} EngineNegotiates(env: Env, magic: Word32, inputs: seq<Input>)
    ensures var of := InputsOf(env, magic, inputs);
      Agrees(RunOf(env, magic, inputs), LcpRun(magic, of.lcp), IpcpRun(of.ipcp))
  {
    if inputs != [] {
      var last := |inputs| - 1;
      var r, i := RunOf(env, magic, inputs[..last]), inputs[last];
      var t, of := OnPacket(env, r.state, i.packet, i.draws), InputsOf(env, magic, inputs[..last]);
      EngineNegotiates(env, magic, inputs[..last]);
      EveryRunKeepsInv(env, magic, inputs[..last]);
      StepMoves(env, r.state, i);
      StartsAreCounted(env, r, i, t);
      OneMore(N.Fresh(N.LcpSide(Lcp.Initial(magic))), of.lcp, LcpInput(i, t.reply));
      OneMore(N.Fresh(N.IpcpSide(Ipcp.INITIAL)), of.ipcp, IpcpInput(i, t.reply));
    }
  }

  lemma BothUnstarted(magic: Word32)
    ensures N.Unstarted(N.LcpSide(Lcp.Initial(magic))) && N.Unstarted(N.IpcpSide(Ipcp.INITIAL))
  {
    LcpLaws.InitialInv(magic);
    IpcpLaws.InitialInv();
  }

  /**
   In every run of the engine: one LCP request if a CONNECT_ACK was accepted, one IPCP request for
   each verified Success, and one more for each Nak or Reject of the current request.
   */
  lemma EngineRequests(env: Env, magic: Word32, inputs: seq<Input>)
    ensures var r, of := RunOf(env, magic, inputs), InputsOf(env, magic, inputs);
      var lcp, ipcp := LcpRun(magic, of.lcp), IpcpRun(of.ipcp);
      && |lcp.ledger.sent| == Bool(r.accepted.Some?) + lcp.naks + lcp.rejects
      && |ipcp.ledger.sent| == r.verified + ipcp.naks + ipcp.rejects
      && N.Serial(r.state.lcp.offer, lcp.ledger)
      && N.Serial(r.state.ipcp.offer, ipcp.ledger)
  {
    var of := InputsOf(env, magic, inputs);
    EngineNegotiates(env, magic, inputs);
    BothUnstarted(magic);
    N.RequestsAreBounded(N.LcpSide(Lcp.Initial(magic)), of.lcp);
    N.RequestsAreBounded(N.IpcpSide(Ipcp.INITIAL), of.ipcp);
    N.EveryRunIsSerial(N.LcpSide(Lcp.Initial(magic)), of.lcp);
    N.EveryRunIsSerial(N.IpcpSide(Ipcp.INITIAL), of.ipcp);
  }
}
