/** The engine's guarantees, for every run. */
module EngineLaws {
  import opened Wrappers
  import opened Bytes
  import opened Packet
  import opened Engine
  import opened EngineRuns
  import opened Replies
  import Cp
  import LcpLaws
  import Ipcp
  import IpcpLaws
  import ChapFsm
  import Mppe
  import OwnOptions

  // ----- Established is earned -----

  /**
   In every run: no more Established events than verified Successes (one fewer while IPCP is still
   being negotiated), no more verified than handled, no more handled than answered Challenges.
   */
  lemma EstablishedIsEarned(env: Env, magic: Word32, inputs: seq<Input>)
    ensures var r := RunOf(env, magic, inputs);
      && r.established + Bool(r.state.phase == IpcpPhase) <= r.verified
      && r.verified <= r.handled
      && r.handled + Bool(r.state.pendingChap.Some?) <= r.challenges
  {
    EveryRunKeepsInv(env, magic, inputs);
  }

  /** A Success verifies only against the response sent to the latest answered Challenge. */
  lemma VerifiedAgainstAnswer(env: Env, magic: Word32, inputs: seq<Input>, i: Input)
    requires VerifiedSuccess(i.packet, OnPacket(env, RunOf(env, magic, inputs).state, i.packet, i.draws).reply)
    ensures var r := RunOf(env, magic, inputs);
      && r.answered.Some? && r.challenge.Some?
      && r.answered.value == ResponseTo(env, r.challenge.value, r.answered.value.peerChallenge)
      && ChapFsm.VerifySuccess(env.pr, ChapFrame(i.packet).value.data, env.password, r.answered.value, r.challenge.value, env.username)
  {
    EveryRunKeepsInv(env, magic, inputs);
    SuccessTurn(env, RunOf(env, magic, inputs).state, ChapFrame(i.packet).value);
  }

  // ----- Phases -----

  function Rank(p: Phase): nat {
    match p
    case WaitConnectAck => 0
    case LcpPhase => 1
    case ChapPhase => 2
    case IpcpPhase => 3
    case EstablishedPhase => 4
  }

  /** The phase goes back only from Established to IPCP, on a verified Success, which always leads there. */
  predicate NotLost(s: State, p: Packet, t: Turn) {
    && (Rank(t.state.phase) < Rank(s.phase) <==> s.phase == EstablishedPhase && VerifiedSuccess(p, t.reply))
    && (VerifiedSuccess(p, t.reply) ==> t.state.phase == IpcpPhase)
  }

  /** No progress is lost in any run. */
  lemma PhaseNeverLost(env: Env, magic: Word32, inputs: seq<Input>, i: Input)
    ensures var s := RunOf(env, magic, inputs).state;
      NotLost(s, i.packet, OnPacket(env, s, i.packet, i.draws))
  {
    EveryRunKeepsInv(env, magic, inputs);
    PhaseAfter(env, RunOf(env, magic, inputs).state, i);
  }

  lemma PhaseAfter(env: Env, s: State, i: Input)
    requires LcpLaws.Inv(s.lcp) && IpcpLaws.Inv(s.ipcp)
    ensures NotLost(s, i.packet, OnPacket(env, s, i.packet, i.draws))
  {
    var t := OnPacket(env, s, i.packet, i.draws);
    if Quiet(i.packet, t.reply) {
      QuietStep(env, s, i);
      QuietKeepsPhase(s, i.packet, t);
    } else {
      LoudPhase(env, s, i, t);
    }
  }

  lemma QuietKeepsPhase(s: State, p: Packet, t: Turn)
    requires Quiet(p, t.reply) && QuietTurn(s, p, t)
    ensures NotLost(s, p, t)
  {
  }

  lemma LoudPhase(env: Env, s: State, i: Input, t: Turn)
    requires t == OnPacket(env, s, i.packet, i.draws) && !Quiet(i.packet, t.reply)
    ensures NotLost(s, i.packet, t)
  {
    if AcceptedAck(i.packet, t.reply) {
      AckReply(s, i.packet.attrs);
    } else if CarriesChap(i.packet, ChapFsm.Challenge) {
      ChallengeTurn(env, s, ChapFrame(i.packet).value, i.draws, i.packet);
    } else {
      SuccessTurn(env, s, ChapFrame(i.packet).value);
    }
  }

  // ----- Failing `expect`s -----

  /**
   A step fails an `expect` exactly when IPCP comes up in a run that verified a Success before
   any CONNECT_ACK was accepted. In all other runs hash, nonce and keys are set by then.
   */
  lemma PanicsExactlyWhenEarly(env: Env, magic: Word32, inputs: seq<Input>, i: Input)
    ensures var r := RunOf(env, magic, inputs);
      OnPacket(env, r.state, i.packet, i.draws).reply.Panicked?
      <==> r.early && CompletesIpcp(r.state, i.packet)
  {
    EveryRunKeepsInv(env, magic, inputs);
    var s := RunOf(env, magic, inputs).state;
    ReplyShape(env, s, i.packet, i.draws);
  }

  /** A CONNECT_ACK accepted before the first verified Success rules a panic out for good. */
  lemma {:induction false} AckFirstNeverEarly(env: Env, magic: Word32, before: seq<Input>, after: seq<Input>)
    requires RunOf(env, magic, before).accepted.Some?
    ensures var r := RunOf(env, magic, before + after);
      !r.early && r.accepted == RunOf(env, magic, before).accepted
    decreases |after|
  {
    EveryRunKeepsInv(env, magic, before);
    if after == [] {
      assert before + after == before;
    } else {
      var last := |after| - 1;
      AckFirstNeverEarly(env, magic, before, after[..last]);
      assert (before + after)[..|before + after| - 1] == before + after[..last];
    }
  }

  lemma AckFirstNeverPanics(env: Env, magic: Word32, before: seq<Input>, after: seq<Input>, i: Input)
    requires RunOf(env, magic, before).accepted.Some?
    ensures !OnPacket(env, RunOf(env, magic, before + after).state, i.packet, i.draws).reply.Panicked?
  {
    AckFirstNeverEarly(env, magic, before, after);
    PanicsExactlyWhenEarly(env, magic, before + after, i);
  }

  // ----- The order of events, and what CONNECTED binds -----

  /** An Established comes right behind the CONNECTED that binds the given nonce, hash and keys. */
  predicate EstablishedBinds(env: Env, list: seq<Event>, b: Binding, keys: Mppe.Keys, config: Ipcp.Config) {
    forall i :: 0 <= i < |list| && list[i].Established? ==>
      && i >= 1
      && list[i] == Established(config, keys)
      && list[i - 1] == Send(ConnectedFor(env, b.algo, b.nonce, keys))
  }

  predicate Binds(env: Env, s: State, t: Turn) {
    t.reply.Events? ==>
      && Disciplined(t.reply.list)
      && ((exists i :: 0 <= i < |t.reply.list| && t.reply.list[i].Established?) ==>
            && s.phase == IpcpPhase && t.state.phase == EstablishedPhase
            && Ready(s) && Ipcp.IsUp(t.state.ipcp)
            && EstablishedBinds(env, t.reply.list, Binding(s.hashAlgo.value, s.serverNonce.value), s.mppeKeys.value,
                                t.state.ipcp.negotiated))
  }

  lemma ClosingBinds(env: Env, s: State, p: Packet, t: Turn)
    requires Shaped(env, s, p, t) && CompletesIpcp(s, p) && Ready(s)
    ensures Binds(env, s, t)
  {
    ClosingShape(env, s, p, t);
  }

  lemma StepBinds(env: Env, s: State, i: Input)
    ensures Binds(env, s, OnPacket(env, s, i.packet, i.draws))
  {
    var t := OnPacket(env, s, i.packet, i.draws);
    ReplyShape(env, s, i.packet, i.draws);
    if !CompletesIpcp(s, i.packet) {
      PlainIsDisciplined(LcpLaws.Inv(s.lcp), t.reply.list);
    } else if Ready(s) {
      ClosingBinds(env, s, i.packet, t);
    }
  }

  /**
   In every run, an event list holds at most one lifecycle event and it is last; a CONNECTED is
   sent only right before Established, and it binds the nonce and hash of the first accepted
   CONNECT_ACK, the matching certificate hash, and the keys of the latest verified Success.
   */
  lemma ConnectedBinds(env: Env, magic: Word32, inputs: seq<Input>, i: Input)
    ensures var r := RunOf(env, magic, inputs);
      var t := OnPacket(env, r.state, i.packet, i.draws);
      t.reply.Events? ==>
        && Disciplined(t.reply.list)
        && ((exists k :: 0 <= k < |t.reply.list| && t.reply.list[k].Established?) ==>
              && r.accepted.Some? && r.keys.Some?
              && EstablishedBinds(env, t.reply.list, r.accepted.value, r.keys.value, t.state.ipcp.negotiated))
  {
    EveryRunKeepsInv(env, magic, inputs);
    StepBinds(env, RunOf(env, magic, inputs).state, i);
  }

  /** The addresses reported with Established are those of the acknowledged request, option by option. */
  lemma ReportedAddressesWereRequested(env: Env, magic: Word32, inputs: seq<Input>, i: Input)
    ensures var r := RunOf(env, magic, inputs);
      var t := OnPacket(env, r.state, i.packet, i.draws);
      (t.reply.Events? && exists k :: 0 <= k < |t.reply.list| && t.reply.list[k].Established?) ==>
        && t.state.ipcp.offer.localUp && t.state.ipcp.remoteUp
        && IpcpLaws.Reports(t.state.ipcp.negotiated, t.state.ipcp.offer.desired)
  {
    var r := RunOf(env, magic, inputs);
    var t := OnPacket(env, r.state, i.packet, i.draws);
    EveryRunKeepsInv(env, magic, inputs);
    ExtendKeepsInv(env, r, i);
    StepBinds(env, r.state, i);
  }

  // ----- IPCP, started again by every verified Success -----

  /** The IPCP automaton takes each IPCP frame, is started by each verified Success, and rests otherwise. */
  predicate DrivesIpcp(s: State, p: Packet, t: Turn) {
    t.state.ipcp ==
      if IpcpPayload(p).Some? then Ipcp.Receive(s.ipcp, IpcpPayload(p).value).state
      else if VerifiedSuccess(p, t.reply) then Ipcp.Start(s.ipcp).state
      else s.ipcp
  }

  lemma IpcpIsDriven(env: Env, s: State, i: Input)
    ensures DrivesIpcp(s, i.packet, OnPacket(env, s, i.packet, i.draws))
  {
    if IpcpPayload(i.packet).Some? {
      IpcpReply(env, s, IpcpPayload(i.packet).value);
    } else if CarriesChap(i.packet, ChapFsm.Success) {
      SuccessTurn(env, s, ChapFrame(i.packet).value);
    } else {
      ReplyShape(env, s, i.packet, i.draws);
    }
  }

  /**
   Starting leaves IPCP up: when a further Success verifies, the next IPCP payload, even one that
   does not decode, is answered with CONNECTED and Established, although the new request is unanswered.
   */
  lemma RestartReportsAtOnce(env: Env, s: State, success: ChapFsm.Frame, payload: seq<Byte>)
    requires Ipcp.IsUp(s.ipcp) && s.hashAlgo.Some? && s.serverNonce.Some?
    requires !HasFatal(HandleSuccess(env, s, success).reply) && Cp.Decode(payload).None?
    ensures var again := HandleSuccess(env, s, success).state;
      && again.ipcp.offer.lastSentId == Some(OwnOptions.Bump(s.ipcp.offer.identifier))
      && Ready(again)
      && HandleIpcp(env, again, payload).reply == Events(EndEvents(env, again, s.ipcp.negotiated))
  {
    SuccessTurn(env, s, success);
    var again := HandleSuccess(env, s, success).state;
    IpcpReply(env, again, payload);
    assert IpcpEvents(again.ipcp, payload) == [];
    assert [] + EndEvents(env, again, s.ipcp.negotiated) == EndEvents(env, again, s.ipcp.negotiated);
  }

  // ----- Branches that are never taken -----

  predicate NeverFatal(r: Reply, reason: FatalReason) {
    r.Events? ==> forall i :: 0 <= i < |r.list| ==> r.list[i] != Fatal(reason)
  }

  lemma ShapedNeverOther(env: Env, s: State, p: Packet, t: Turn)
    requires LcpLaws.Inv(s.lcp) && Shaped(env, s, p, t)
    ensures NeverFatal(t.reply, OtherAuthentication) && NeverFatal(t.reply, ResponseNotBuilt)
  {
    if !CompletesIpcp(s, p) {
      OrdinaryNeverOther(s, t);
    } else if Ready(s) {
      NoFatalBehind(IpcpEvents(s.ipcp, IpcpPayload(p).value), EndEvents(env, s, t.state.ipcp.negotiated));
    }
  }

  lemma OrdinaryNeverOther(s: State, t: Turn)
    requires LcpLaws.Inv(s.lcp) && Ordinary(s, t)
    ensures NeverFatal(t.reply, OtherAuthentication) && NeverFatal(t.reply, ResponseNotBuilt)
  {
    var list := t.reply.list;
    forall i | 0 <= i < |list|
      ensures list[i] != Fatal(OtherAuthentication) && list[i] != Fatal(ResponseNotBuilt)
    {
      assert Plain(list[i]) || (i == |list| - 1 && GivesUp(true, list[i]));
    }
  }

  lemma NoFatalBehind(plain: seq<Event>, end: seq<Event>)
    requires AllPlain(plain) && forall i :: 0 <= i < |end| ==> !end[i].Fatal?
    ensures forall i :: 0 <= i < |plain + end| ==> !(plain + end)[i].Fatal?
  {
    forall i | 0 <= i < |plain|
      ensures !plain[i].Fatal?
    {
      assert Plain(plain[i]);
    }
  }

  /**
   In no run does the engine give up because the server wants another authentication method than
   MS-CHAPv2, or because a Response could not be built.
   */
  lemma TwoBranchesNeverTaken(env: Env, magic: Word32, inputs: seq<Input>, i: Input)
    ensures var reply := OnPacket(env, RunOf(env, magic, inputs).state, i.packet, i.draws).reply;
      NeverFatal(reply, OtherAuthentication) && NeverFatal(reply, ResponseNotBuilt)
  {
    EveryRunKeepsInv(env, magic, inputs);
    var s := RunOf(env, magic, inputs).state;
    ReplyShape(env, s, i.packet, i.draws);
    ShapedNeverOther(env, s, i.packet, OnPacket(env, s, i.packet, i.draws));
  }
}
