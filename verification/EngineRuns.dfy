/**
 Safety of the engine over whole runs: any sequence of packets whatever, fed from the initial
 state. A run here goes on after a Fatal event or a panic, which a connection never does, so the
 theorems cover every run a connection can make and more.
 */
module EngineRuns {
  import opened Wrappers
  import opened Bytes
  import opened Packet
  import opened Engine
  import opened Replies
  import Ppp
  import Lcp
  import LcpLaws
  import Ipcp
  import IpcpLaws
  import Chap
  import ChapFsm
  import Mppe
  import Cmac

  datatype Input = Input(packet: Packet, draws: Draws)

  // ----- What an observer sees of one step -----

  predicate HasFatal(r: Reply) {
    r.Events? && exists i :: 0 <= i < |r.list| && r.list[i].Fatal?
  }

  predicate HasSend(r: Reply) {
    r.Events? && exists i :: 0 <= i < |r.list| && r.list[i].Send?
  }

  function CountEstablished(list: seq<Event>): nat {
    if list == [] then 0 else (if list[0].Established? then 1 else 0) + CountEstablished(list[1..])
  }

  function EstablishedIn(r: Reply): nat {
    if r.Events? then CountEstablished(r.list) else 0
  }

  /** A well-formed Challenge: it was answered. */
  predicate AnsweredChallenge(p: Packet, r: Reply) {
    CarriesChap(p, ChapFsm.Challenge) && !HasFatal(r)
  }

  /** A Success that verified. */
  predicate VerifiedSuccess(p: Packet, r: Reply) {
    CarriesChap(p, ChapFsm.Success) && !HasFatal(r)
  }

  /** A Success that arrived while an answer was pending. */
  predicate HandledSuccess(s: State, p: Packet) {
    CarriesChap(p, ChapFsm.Success) && s.pendingChap.Some?
  }

  predicate AcceptedAck(p: Packet, r: Reply) {
    p.Ctrl? && p.msgType == ConnectAck && HasSend(r)
  }

  /** The hash choice and nonce a CONNECT_ACK carries. */
  datatype Binding = Binding(algo: Cmac.HashAlgo, nonce: Bytes32)

  function BindingOf(p: Packet): Option<Binding> {
    if p.Data? then None
    else
      match FindAttr(p.attrs, CryptoBindRequest)
      case None => None
      case Some(a) => if |a.data| == 36 then Some(Binding(ChosenAlgo(a.data[3]), a.data[4..36])) else None
  }

  // ----- Runs -----

  /** A state and what was observed on the way to it. */
  datatype Run = Run(
    state: State,
    /** well-formed Challenges */
    challenges: nat,
    /** Successes handled, and those of them that verified */
    handled: nat,
    verified: nat,
    established: nat,
    /** from the first accepted CONNECT_ACK */
    accepted: Option<Binding>,
    /** response sent for the latest Challenge, and the Challenge it answers */
    answered: Option<ChapFsm.Pending>,
    challenge: Option<Bytes16>,
    /** keys of the latest verified Success */
    keys: Option<Mppe.Keys>,
    /** a Success verified before any CONNECT_ACK was accepted */
    early: bool)

  function NewRun(magic: Word32): Run {
    Run(Initial(magic), 0, 0, 0, 0, None, None, None, None, false)
  }

  function Bool(b: bool): nat {
    if b then 1 else 0
  }

  /** The challenge value of an answered Challenge. */
  function ChallengeValue(p: Packet): Option<Bytes16> {
    match ChapFrame(p)
    case None => None
    case Some(frame) =>
      match ChapFsm.ParseChallenge(frame)
      case None => None
      case Some(info) => if |info.value| == 16 then Some(info.value) else None
  }

  function Observe(env: Env, r: Run, i: Input, t: Turn): Run {
    var answeredNow := AnsweredChallenge(i.packet, t.reply);
    var verifiedNow := VerifiedSuccess(i.packet, t.reply);
    Run(
      t.state,
      r.challenges + Bool(answeredNow),
      r.handled + Bool(HandledSuccess(r.state, i.packet)),
      r.verified + Bool(verifiedNow),
      r.established + EstablishedIn(t.reply),
      if r.accepted.None? && AcceptedAck(i.packet, t.reply) then BindingOf(i.packet) else r.accepted,
      if answeredNow && ChallengeValue(i.packet).Some?
      then Some(ResponseTo(env, ChallengeValue(i.packet).value, i.draws.peerChallenge)) else r.answered,
      if answeredNow then ChallengeValue(i.packet) else r.challenge,
      if verifiedNow && r.answered.Some?
      then Some(Mppe.GetKeys(env.pr, env.password, r.answered.value.ntResponse, false)) else r.keys,
      r.early || (verifiedNow && r.accepted.None?))
  }

  function Extend(env: Env, r: Run, i: Input): Run {
    Observe(env, r, i, OnPacket(env, r.state, i.packet, i.draws))
  }

  function ResponseTo(env: Env, challenge: Bytes16, peer: Bytes16): ChapFsm.Pending {
    ChapFsm.Pending(peer, Chap.NtResponse(env.pr, challenge, peer, env.username, env.password))
  }

  function RunOf(env: Env, magic: Word32, inputs: seq<Input>): Run {
    if inputs == [] then NewRun(magic)
    else Extend(env, RunOf(env, magic, inputs[..|inputs| - 1]), inputs[|inputs| - 1])
  }

  // ----- The invariant -----

  predicate Counts(r: Run) {
    && r.established + Bool(r.state.phase == IpcpPhase) <= r.verified
    && r.verified <= r.handled
    && r.handled + Bool(r.state.pendingChap.Some?) <= r.challenges
  }

  /** What the engine stores is what was observed. */
  predicate Remembers(r: Run) {
    && (r.state.hashAlgo.Some? <==> r.accepted.Some?)
    && (r.state.serverNonce.Some? <==> r.accepted.Some?)
    && (r.accepted.Some? ==> r.accepted == Some(Binding(r.state.hashAlgo.value, r.state.serverNonce.value)))
    && (r.state.pendingChap.Some? ==> r.state.pendingChap == r.answered)
    && r.state.authChallenge == r.challenge
    && (r.answered.Some? <==> r.challenge.Some?)
    && r.state.mppeKeys == r.keys
  }

  predicate PendingFits(env: Env, r: Run) {
    r.answered.Some? && r.challenge.Some? ==>
      r.answered.value == ResponseTo(env, r.challenge.value, r.answered.value.peerChallenge)
  }

  predicate Ordered(r: Run) {
    && (r.state.phase == WaitConnectAck ==> r.accepted.None? && !r.early)
    && (r.state.phase == LcpPhase || r.state.phase == ChapPhase ==> r.accepted.Some?)
    && (r.state.phase == IpcpPhase || r.state.phase == EstablishedPhase ==> r.keys.Some? && (r.accepted.Some? || r.early))
    && (r.early ==> r.accepted.None?)
  }

  predicate Inv(env: Env, r: Run) {
    && Counts(r)
    && Remembers(r)
    && PendingFits(env, r)
    && Ordered(r)
    && LcpLaws.Inv(r.state.lcp)
    && IpcpLaws.Inv(r.state.ipcp)
  }

  // ----- Counting events -----

  lemma {:induction false} CountNone(list: seq<Event>)
    requires forall i :: 0 <= i < |list| ==> !list[i].Established?
    ensures CountEstablished(list) == 0
  {
    if list != [] {
      CountNone(list[1..]);
    }
  }

  lemma CountAppend(a: seq<Event>, b: seq<Event>)
    ensures CountEstablished(a + b) == CountEstablished(a) + CountEstablished(b)
  {
    if a == [] {
      assert a + b == b;
    } else {
      CountAppend(a[1..], b);
      assert (a + b)[1..] == a[1..] + b;
    }
  }

  /** A packet establishes exactly when it completes IPCP in a state that is ready. */
  lemma EstablishedCount(env: Env, s: State, p: Packet, t: Turn)
    requires Shaped(env, s, p, t)
    ensures EstablishedIn(t.reply) == Bool(CompletesIpcp(s, p) && Ready(s))
  {
    if CompletesIpcp(s, p) && Ready(s) {
      var plain, end := IpcpEvents(s.ipcp, IpcpPayload(p).value), EndEvents(env, s, t.state.ipcp.negotiated);
      CountAppend(plain, end);
      CountNone(plain);
      assert end[1..][1..] == [];
      assert CountEstablished(end[1..]) == 1;
    } else if t.reply.Events? {
      CountNone(t.reply.list);
    }
  }

  // ----- What each kind of packet does to the state -----

  /** A CONNECT_ACK is accepted exactly in the first phase and with a usable attribute. */
  lemma AckReply(s: State, attrs: seq<Attr>)
    ensures var t := OnConnectAck(s, attrs);
      && t.reply.Events?
      && (HasSend(t.reply) <==> s.phase == WaitConnectAck && BindingOf(Ctrl(ConnectAck, attrs)).Some?)
      && (HasSend(t.reply) ==>
            t.state == s.(
              hashAlgo := Some(BindingOf(Ctrl(ConnectAck, attrs)).value.algo),
              serverNonce := Some(BindingOf(Ctrl(ConnectAck, attrs)).value.nonce),
              phase := LcpPhase, lcp := Lcp.Start(s.lcp).state))
      && (!HasSend(t.reply) ==> t.state == s)
  {
    var t := OnConnectAck(s, attrs);
    if s.phase == WaitConnectAck && BindingOf(Ctrl(ConnectAck, attrs)).Some? {
      assert t.reply.list[1].Send?;
    }
  }

  /** What a Challenge does, and that it is answered exactly when it is well formed. */
  lemma ChallengeTurn(env: Env, s: State, frame: ChapFsm.Frame, draws: Draws, p: Packet)
    requires ChapFrame(p) == Some(frame) && frame.code == ChapFsm.Challenge
    ensures var t := HandleChallenge(env, s, frame, draws);
      && (HasFatal(t.reply) ==> t.state == s)
      && (!HasFatal(t.reply) ==>
            && ChallengeValue(p).Some?
            && t.state == s.(
              authChallenge := ChallengeValue(p),
              pendingChap := Some(ResponseTo(env, ChallengeValue(p).value, draws.peerChallenge))))
  {
    var t := HandleChallenge(env, s, frame, draws);
    if ChallengeValue(p).None? {
      assert t.reply.list[0].Fatal?;
    }
  }

  /** What a Success does: it verifies against the pending response and the stored challenge, or is fatal. */
  lemma SuccessTurn(env: Env, s: State, frame: ChapFsm.Frame)
    ensures var t := HandleSuccess(env, s, frame);
      && (!HasFatal(t.reply) <==>
            && s.pendingChap.Some? && s.authChallenge.Some?
            && ChapFsm.VerifySuccess(env.pr, frame.data, env.password, s.pendingChap.value, s.authChallenge.value, env.username))
      && (HasFatal(t.reply) ==> t.state == s.(pendingChap := None))
      && (!HasFatal(t.reply) ==>
            t.state == s.(
              pendingChap := None,
              mppeKeys := Some(Mppe.GetKeys(env.pr, env.password, s.pendingChap.value.ntResponse, false)),
              phase := IpcpPhase,
              ipcp := Ipcp.Start(s.ipcp).state))
  {
    var t := HandleSuccess(env, s, frame);
    if |t.reply.list| == 1 {
      assert t.reply.list[0].Fatal?;
    }
  }

  /** Neither an accepted CONNECT_ACK nor a Challenge nor a Success. */
  predicate Quiet(p: Packet, r: Reply) {
    !AcceptedAck(p, r) && !CarriesChap(p, ChapFsm.Challenge) && !CarriesChap(p, ChapFsm.Success)
  }

  /** What quiet packets leave alone, and the two ways they move the phase on. */
  predicate QuietTurn(s: State, p: Packet, t: Turn) {
    && t.state == s.(lcp := t.state.lcp, ipcp := t.state.ipcp, phase := t.state.phase)
    && LcpLaws.Inv(t.state.lcp) && IpcpLaws.Inv(t.state.ipcp)
    && (t.state.phase == if CompletesIpcp(s, p) then EstablishedPhase
                         else if s.phase == LcpPhase && t.state.phase == ChapPhase then ChapPhase else s.phase)
  }

  lemma QuietLcp(s: State, frame: seq<Byte>, payload: seq<Byte>, draws: Draws)
    requires LcpLaws.Inv(s.lcp) && IpcpLaws.Inv(s.ipcp) && Ppp.Decode(frame) == Some(Ppp.Split(Ppp.Lcp, payload))
    ensures QuietTurn(s, Data(frame), HandleLcp(s, payload, draws))
  {
    LcpLaws.ReceiveKeepsInv(s.lcp, payload, draws.magics);
  }

  lemma QuietIpcp(env: Env, s: State, frame: seq<Byte>, payload: seq<Byte>)
    requires LcpLaws.Inv(s.lcp) && IpcpLaws.Inv(s.ipcp) && Ppp.Decode(frame) == Some(Ppp.Split(Ppp.Ipcp, payload))
    ensures QuietTurn(s, Data(frame), HandleIpcp(env, s, payload))
  {
    IpcpReply(env, s, payload);
    IpcpLaws.ReceiveKeepsInv(s.ipcp, payload);
  }

  lemma QuietFrame(env: Env, s: State, frame: seq<Byte>, draws: Draws)
    requires LcpLaws.Inv(s.lcp) && IpcpLaws.Inv(s.ipcp)
    requires Quiet(Data(frame), Events([]))
    ensures QuietTurn(s, Data(frame), OnPppFrame(env, s, frame, draws))
  {
    if Ppp.Decode(frame).Some? {
      var split := Ppp.Decode(frame).value;
      if split.protocol == Ppp.Lcp {
        QuietLcp(s, frame, split.payload, draws);
      } else if split.protocol == Ppp.Ipcp {
        QuietIpcp(env, s, frame, split.payload);
      } else {
        LcpLaws.OwnStepsKeepInv(s.lcp, Ppp.StripAddressControl(frame));
      }
    }
  }

  lemma QuietStep(env: Env, s: State, i: Input)
    requires LcpLaws.Inv(s.lcp) && IpcpLaws.Inv(s.ipcp)
    requires Quiet(i.packet, OnPacket(env, s, i.packet, i.draws).reply)
    ensures QuietTurn(s, i.packet, OnPacket(env, s, i.packet, i.draws))
  {
    match i.packet
    case Ctrl(m, attrs) => AckReply(s, attrs);
    case Data(frame) => QuietFrame(env, s, frame, i.draws);
  }

  // ----- Every packet keeps the invariant -----

  lemma InvAfterQuiet(env: Env, r: Run, i: Input, t: Turn)
    requires Inv(env, r) && Shaped(env, r.state, i.packet, t)
    requires Quiet(i.packet, t.reply) && QuietTurn(r.state, i.packet, t)
    ensures Inv(env, Observe(env, r, i, t))
  {
    EstablishedCount(env, r.state, i.packet, t);
  }

  lemma InvAfterAck(env: Env, r: Run, i: Input, t: Turn)
    requires Inv(env, r) && Shaped(env, r.state, i.packet, t)
    requires AcceptedAck(i.packet, t.reply) && t == OnConnectAck(r.state, i.packet.attrs)
    ensures Inv(env, Observe(env, r, i, t))
  {
    EstablishedCount(env, r.state, i.packet, t);
    LcpLaws.OwnStepsKeepInv(r.state.lcp, []);
    AckReply(r.state, i.packet.attrs);
  }

  lemma InvAfterChallenge(env: Env, r: Run, i: Input, t: Turn)
    requires Inv(env, r) && Shaped(env, r.state, i.packet, t)
    requires CarriesChap(i.packet, ChapFsm.Challenge)
    requires t == HandleChallenge(env, r.state, ChapFrame(i.packet).value, i.draws)
    ensures Inv(env, Observe(env, r, i, t))
  {
    EstablishedCount(env, r.state, i.packet, t);
    ChallengeTurn(env, r.state, ChapFrame(i.packet).value, i.draws, i.packet);
  }

  lemma InvAfterSuccess(env: Env, r: Run, i: Input, t: Turn)
    requires Inv(env, r) && Shaped(env, r.state, i.packet, t)
    requires CarriesChap(i.packet, ChapFsm.Success)
    requires t == HandleSuccess(env, r.state, ChapFrame(i.packet).value)
    ensures Inv(env, Observe(env, r, i, t))
  {
    EstablishedCount(env, r.state, i.packet, t);
    SuccessTurn(env, r.state, ChapFrame(i.packet).value);
    IpcpLaws.StartKeepsInv(r.state.ipcp);
  }

  lemma ExtendKeepsInv(env: Env, r: Run, i: Input)
    requires Inv(env, r)
    ensures Inv(env, Extend(env, r, i))
  {
    var t := OnPacket(env, r.state, i.packet, i.draws);
    ReplyShape(env, r.state, i.packet, i.draws);
    if AcceptedAck(i.packet, t.reply) {
      InvAfterAck(env, r, i, t);
    } else if CarriesChap(i.packet, ChapFsm.Challenge) {
      InvAfterChallenge(env, r, i, t);
    } else if CarriesChap(i.packet, ChapFsm.Success) {
      InvAfterSuccess(env, r, i, t);
    } else {
      QuietStep(env, r.state, i);
      InvAfterQuiet(env, r, i, t);
    }
  }

  lemma {:induction false} EveryRunKeepsInv(env: Env, magic: Word32, inputs: seq<Input>)
    ensures Inv(env, RunOf(env, magic, inputs))
  {
    if inputs == [] {
      LcpLaws.InitialInv(magic);
      IpcpLaws.InitialInv();
    } else {
      EveryRunKeepsInv(env, magic, inputs[..|inputs| - 1]);
      ExtendKeepsInv(env, RunOf(env, magic, inputs[..|inputs| - 1]), inputs[|inputs| - 1]);
    }
  }
}
