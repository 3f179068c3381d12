/**
 Two runs that the order of the protocol rules out but the code does not: a server that
 authenticates before it accepts the connection, which makes the engine's `expect` fail, and one
 that authenticates a second time, which makes it report an unanswered request.
 */
module EarlySuccess {
  import opened Wrappers
  import opened Bytes
  import opened Packet
  import opened Engine
  import opened EngineRuns
  import opened Replies
  import Ppp
  import Cp
  import Ipcp
  import Chap
  import ChapFsm

  function IpcpPacket(payload: seq<Byte>): Packet {
    Data(Ppp.Encode(Ppp.Ipcp, payload))
  }

  const ACK_FIRST: Packet := IpcpPacket(Cp.Encode(Cp.ConfigureAck, 1, []))
  const EMPTY_REQUEST: Packet := IpcpPacket(Cp.Encode(Cp.ConfigureRequest, 0, []))

  /** The packet of a server that knows the password, in answer to the response for `challenge`. */
  function SuccessPacket(env: Env, challenge: Bytes16, id: Byte, draws: Draws): Packet {
    var response := ResponseTo(env, challenge, draws.peerChallenge);
    var genuine := Chap.AuthenticatorResponse(env.pr, env.password, response.ntResponse, draws.peerChallenge, challenge, env.username);
    Data(Ppp.Encode(Ppp.Chap, ChapFsm.Encode(ChapFsm.Success, id, genuine)))
  }

  /** Any packet that carries a well-formed Challenge. */
  predicate Challenges(p: Packet) {
    CarriesChap(p, ChapFsm.Challenge) && ChallengeValue(p).Some?
  }

  /** A Challenge, the genuine Success, and an acknowledgement of our first IPCP request. */
  function EarlyInputs(env: Env, challenge: Packet, id: Byte, draws: Draws): seq<Input>
    requires Challenges(challenge)
  {
    [Input(challenge, draws), Input(SuccessPacket(env, ChallengeValue(challenge).value, id, draws), draws), Input(ACK_FIRST, draws)]
  }

  function StateAfter(env: Env, s: State, inputs: seq<Input>): State {
    if inputs == [] then s
    else
      var last := |inputs| - 1;
      OnPacket(env, StateAfter(env, s, inputs[..last]), inputs[last].packet, inputs[last].draws).state
  }

  lemma {:induction false} RunIsStateAfter(env: Env, magic: Word32, inputs: seq<Input>)
    ensures RunOf(env, magic, inputs).state == StateAfter(env, Initial(magic), inputs)
  {
    if inputs != [] {
      RunIsStateAfter(env, magic, inputs[..|inputs| - 1]);
    }
  }

  lemma {:induction false} StatesAppend(env: Env, s: State, a: seq<Input>, b: seq<Input>)
    ensures StateAfter(env, s, a + b) == StateAfter(env, StateAfter(env, s, a), b)
    decreases |b|
  {
    if b == [] {
      assert a + b == a;
    } else {
      StatesAppend(env, s, a, b[..|b| - 1]);
      assert (a + b)[..|a + b| - 1] == a + b[..|b| - 1];
    }
  }

  // ----- One packet after another -----

  lemma AfterChallenge(env: Env, s: State, p: Packet, draws: Draws)
    requires Challenges(p)
    ensures OnPacket(env, s, p, draws).state
      == s.(authChallenge := ChallengeValue(p), pendingChap := Some(ResponseTo(env, ChallengeValue(p).value, draws.peerChallenge)))
  {
  }

  lemma SuccessFrame(env: Env, challenge: Bytes16, id: Byte, draws: Draws)
    ensures var pending := ResponseTo(env, challenge, draws.peerChallenge);
      var frame := ChapFrame(SuccessPacket(env, challenge, id, draws));
      && frame.Some? && frame.value.code == ChapFsm.Success
      && ChapFsm.VerifySuccess(env.pr, frame.value.data, env.password, pending, challenge, env.username)
  {
    var pending := ResponseTo(env, challenge, draws.peerChallenge);
    var genuine := Chap.AuthenticatorResponse(env.pr, env.password, pending.ntResponse, draws.peerChallenge, challenge, env.username);
    ChapFsm.GenuineIsPlain(env.pr, env.password, pending, challenge, env.username);
    ChapFsm.FrameRoundTrip(ChapFsm.Success, id, genuine);
    Ppp.FrameRoundTrip(Ppp.Chap, ChapFsm.Encode(ChapFsm.Success, id, genuine));
    ChapFsm.GenuineSuccessVerifies(env.pr, env.password, pending, challenge, env.username, []);
    assert genuine + [] == genuine;
  }

  lemma AfterSuccess(env: Env, s: State, challenge: Bytes16, id: Byte, draws: Draws)
    requires s.authChallenge == Some(challenge)
    requires s.pendingChap == Some(ResponseTo(env, challenge, draws.peerChallenge))
    ensures var frame := ChapFrame(SuccessPacket(env, challenge, id, draws));
      && frame.Some?
      && !HasFatal(HandleSuccess(env, s, frame.value).reply)
      && var t := OnPacket(env, s, SuccessPacket(env, challenge, id, draws), draws).state;
      && t == HandleSuccess(env, s, frame.value).state
      && t == s.(pendingChap := None, mppeKeys := t.mppeKeys, phase := IpcpPhase, ipcp := Ipcp.Start(s.ipcp).state)
      && t.mppeKeys.Some?
  {
    SuccessFrame(env, challenge, id, draws);
    SuccessTurn(env, s, ChapFrame(SuccessPacket(env, challenge, id, draws)).value);
  }

  /** A Challenge and its Success put any state into the IPCP phase, with IPCP started once more. */
  lemma AfterLogin(env: Env, s: State, challenge: Packet, id: Byte, draws: Draws)
    requires Challenges(challenge)
    ensures var t := StateAfter(env, s, EarlyInputs(env, challenge, id, draws)[..2]);
      && t.phase == IpcpPhase && t.ipcp == Ipcp.Start(s.ipcp).state && t.mppeKeys.Some?
      && t.hashAlgo == s.hashAlgo && t.serverNonce == s.serverNonce
  {
    var value := ChallengeValue(challenge).value;
    var challenged := s.(authChallenge := Some(value), pendingChap := Some(ResponseTo(env, value, draws.peerChallenge)));
    AfterChallenge(env, s, challenge, draws);
    AfterSuccess(env, challenged, value, id, draws);
    LoginIsTwoSteps(env, s, challenge, id, draws, challenged);
  }

  lemma LoginIsTwoSteps(env: Env, s: State, challenge: Packet, id: Byte, draws: Draws, challenged: State)
    requires Challenges(challenge) && OnPacket(env, s, challenge, draws).state == challenged
    ensures StateAfter(env, s, EarlyInputs(env, challenge, id, draws)[..2])
      == OnPacket(env, challenged, SuccessPacket(env, ChallengeValue(challenge).value, id, draws), draws).state
  {
    var inputs := EarlyInputs(env, challenge, id, draws);
    assert inputs[..2][..1] == inputs[..1] && inputs[..1][..0] == [];
    assert StateAfter(env, s, inputs[..1]) == challenged;
  }

  lemma FirstAcked(env: Env, s: State, draws: Draws)
    requires s.ipcp == Ipcp.Start(Ipcp.INITIAL).state
    ensures var t := OnPacket(env, s, ACK_FIRST, draws).state;
      && t == s.(ipcp := t.ipcp)
      && t.ipcp.offer.localUp && !t.ipcp.remoteUp && t.ipcp.offer.identifier == 1
  {
    Cp.FrameRoundTrip(Cp.ConfigureAck, 1, []);
    Ppp.FrameRoundTrip(Ppp.Ipcp, Cp.Encode(Cp.ConfigureAck, 1, []));
  }

  lemma RequestCompletes(env: Env, s: State, draws: Draws)
    requires s.phase == IpcpPhase && s.ipcp.offer.localUp
    ensures CompletesIpcp(s, EMPTY_REQUEST)
  {
    Cp.FrameRoundTrip(Cp.ConfigureRequest, 0, []);
    Ppp.FrameRoundTrip(Ppp.Ipcp, Cp.Encode(Cp.ConfigureRequest, 0, []));
    assert Cp.DecodeOptions([]) == [];
  }

  lemma AfterEarlyInputs(env: Env, s: State, challenge: Packet, id: Byte, draws: Draws)
    requires Challenges(challenge) && s.ipcp == Ipcp.INITIAL
    ensures var t := StateAfter(env, s, EarlyInputs(env, challenge, id, draws));
      && t.phase == IpcpPhase && t.mppeKeys.Some?
      && t.ipcp.offer.localUp && t.ipcp.offer.identifier == 1
      && t.hashAlgo == s.hashAlgo && t.serverNonce == s.serverNonce
  {
    var inputs := EarlyInputs(env, challenge, id, draws);
    AfterLogin(env, s, challenge, id, draws);
    FirstAcked(env, StateAfter(env, s, inputs[..2]), draws);
  }

  // ----- The two runs -----

  /** Without a CONNECT_ACK, four packets make the engine panic. */
  lemma EarlySuccessPanics(env: Env, magic: Word32, challenge: Packet, id: Byte, draws: Draws)
    requires Challenges(challenge)
    ensures OnPacket(env, RunOf(env, magic, EarlyInputs(env, challenge, id, draws)).state, EMPTY_REQUEST, draws).reply.Panicked?
  {
    var inputs := EarlyInputs(env, challenge, id, draws);
    var s := StateAfter(env, Initial(magic), inputs);
    RunIsStateAfter(env, magic, inputs);
    AfterEarlyInputs(env, Initial(magic), challenge, id, draws);
    RequestCompletes(env, s, draws);
    ReplyShape(env, s, EMPTY_REQUEST, draws);
  }

  /** With an accepted CONNECT_ACK in front, the same packets establish the connection; then the server logs in again. */
  function TwiceInputs(env: Env, ack: Packet, challenge: Packet, id: Byte, draws: Draws): seq<Input>
    requires Challenges(challenge)
  {
    [Input(ack, draws)] + EarlyInputs(env, challenge, id, draws) + [Input(EMPTY_REQUEST, draws)]
    + EarlyInputs(env, challenge, id, draws)[..2]
  }

  lemma Acked(env: Env, magic: Word32, ack: Packet, draws: Draws)
    requires ack.Ctrl? && ack.msgType == ConnectAck && BindingOf(ack).Some?
    ensures var s := StateAfter(env, Initial(magic), [Input(ack, draws)]);
      s.ipcp == Ipcp.INITIAL && s.hashAlgo.Some? && s.serverNonce.Some?
  {
    AckReply(Initial(magic), ack.attrs);
    assert [Input(ack, draws)][..0] == [];
  }

  lemma Completed(env: Env, s: State, draws: Draws)
    requires s.phase == IpcpPhase && s.ipcp.offer.localUp && Ready(s)
    ensures var t := OnPacket(env, s, EMPTY_REQUEST, draws).state;
      && Ipcp.IsUp(t.ipcp) && t.ipcp.offer == s.ipcp.offer
      && t.hashAlgo.Some? && t.serverNonce.Some?
  {
    RequestCompletes(env, s, draws);
    IpcpReply(env, s, IpcpPayload(EMPTY_REQUEST).value);
  }

  /**
   A run from the initial state in which the second verified Success is followed by Established on
   an IPCP frame of no bytes, while the request that it sent is unanswered.
   */
  lemma SecondSuccessReports(env: Env, magic: Word32, ack: Packet, challenge: Packet, id: Byte, draws: Draws)
    requires ack.Ctrl? && ack.msgType == ConnectAck && BindingOf(ack).Some? && Challenges(challenge)
    ensures var s := RunOf(env, magic, TwiceInputs(env, ack, challenge, id, draws)).state;
      && Ready(s)
      && s.ipcp.offer.lastSentId == Some(2)
      && OnPacket(env, s, IpcpPacket([]), draws).reply == Events(EndEvents(env, s, s.ipcp.negotiated))
  {
    var inputs := TwiceInputs(env, ack, challenge, id, draws);
    var early := EarlyInputs(env, challenge, id, draws);
    var established := StateAfter(env, Initial(magic), inputs[..5]);
    EstablishedOnce(env, magic, ack, challenge, id, draws);
    AfterLogin(env, established, challenge, id, draws);
    RunIsStateAfter(env, magic, inputs);
    StatesAppend(env, Initial(magic), inputs[..5], early[..2]);
    assert inputs == inputs[..5] + early[..2];
    UndecodableReports(env, StateAfter(env, established, early[..2]), draws);
  }

  /** The first five of these packets bring IPCP up. */
  lemma EstablishedOnce(env: Env, magic: Word32, ack: Packet, challenge: Packet, id: Byte, draws: Draws)
    requires ack.Ctrl? && ack.msgType == ConnectAck && BindingOf(ack).Some? && Challenges(challenge)
    ensures var s := StateAfter(env, Initial(magic), TwiceInputs(env, ack, challenge, id, draws)[..5]);
      Ipcp.IsUp(s.ipcp) && s.ipcp.offer.identifier == 1 && s.hashAlgo.Some? && s.serverNonce.Some?
  {
    var inputs := TwiceInputs(env, ack, challenge, id, draws);
    var early := EarlyInputs(env, challenge, id, draws);
    var s0 := StateAfter(env, Initial(magic), [Input(ack, draws)]);
    var s1 := StateAfter(env, s0, early);
    Acked(env, magic, ack, draws);
    AfterEarlyInputs(env, s0, challenge, id, draws);
    Completed(env, s1, draws);
    StatesAppend(env, Initial(magic), [Input(ack, draws)], early);
    assert inputs[..5][..4] == [Input(ack, draws)] + early;
    assert StateAfter(env, Initial(magic), inputs[..5]) == OnPacket(env, s1, EMPTY_REQUEST, draws).state;
  }

  lemma UndecodableReports(env: Env, s: State, draws: Draws)
    requires s.phase == IpcpPhase && Ready(s) && Ipcp.IsUp(s.ipcp)
    ensures OnPacket(env, s, IpcpPacket([]), draws).reply == Events(EndEvents(env, s, s.ipcp.negotiated))
  {
    Ppp.FrameRoundTrip(Ppp.Ipcp, []);
    IpcpReply(env, s, []);
    assert IpcpEvents(s.ipcp, []) == [];
    assert [] + EndEvents(env, s, s.ipcp.negotiated) == EndEvents(env, s, s.ipcp.negotiated);
  }
}
