/**
 What Established reports, seen from the wire: the IPCP requests the engine sent, read back from the
 bytes of their packets, and the acknowledgements that came for them.
 */
module WireReports {
  import opened Wrappers
  import opened Bytes
  import opened Packet
  import opened Engine
  import opened EngineRuns
  import opened Replies
  import EngineLaws
  import OwnOptions
  import Ppp
  import Cp
  import Ipcp
  import IpcpLaws
  import ChapFsm

  // ----- What an observer notes -----

  /** The IPCP Configure-Request a packet carries. */
  function AskedOn(bytes: seq<Byte>): Option<Cp.Frame> {
    match Decode(bytes)
    case Ok(Data(frame)) =>
      var split := Ppp.Decode(frame);
      if split.None? || split.value.protocol != Ppp.Ipcp then None
      else
        var inner := Cp.Decode(split.value.payload);
        if inner.Some? && inner.value.code == Cp.ConfigureRequest then inner else None
    case _ => None
  }

  /** The last request sent in a list of events. */
  function LastAsked(list: seq<Event>): Option<Cp.Frame> {
    if list == [] then None
    else
      var e := list[|list| - 1];
      if e.Send? && AskedOn(e.bytes).Some? then AskedOn(e.bytes) else LastAsked(list[..|list| - 1])
  }

  datatype Watch = Watch(
    /** the last IPCP Configure-Request sent */
    asked: Option<Cp.Frame>,
    /** the requests acknowledged, in order */
    acked: seq<Cp.Frame>,
    /** the last one sent has been acknowledged */
    answered: bool,
    /** a Success has verified since the latest acknowledgement */
    restarted: bool)

  const NEW_WATCH: Watch := Watch(None, [], false, false)

  function IpcpFrame(p: Packet): Option<Cp.Frame> {
    match IpcpPayload(p)
    case None => None
    case Some(payload) => Cp.Decode(payload)
  }

  /** An acknowledgement of the last request sent. */
  predicate AcksLast(w: Watch, frame: Option<Cp.Frame>) {
    frame.Some? && frame.value.code == Cp.ConfigureAck && w.asked.Some? && w.asked.value.id == frame.value.id
  }

  function Note(w: Watch, frame: Option<Cp.Frame>, asked: Option<Cp.Frame>, verified: bool): Watch {
    var acks := AcksLast(w, frame);
    Watch(
      if asked.Some? then asked else w.asked,
      if acks then w.acked + [w.asked.value] else w.acked,
      asked.None? && (acks || w.answered),
      verified || (!acks && w.restarted))
  }

  function Watched(w: Watch, p: Packet, reply: Reply): Watch {
    Note(w, IpcpFrame(p), if reply.Events? then LastAsked(reply.list) else None, VerifiedSuccess(p, reply))
  }

  function WatchOf(env: Env, magic: Word32, inputs: seq<Input>): Watch {
    if inputs == [] then NEW_WATCH
    else
      var last := |inputs| - 1;
      Watched(WatchOf(env, magic, inputs[..last]), inputs[last].packet,
              OnPacket(env, RunOf(env, magic, inputs[..last]).state, inputs[last].packet, inputs[last].draws).reply)
  }

  // ----- The automaton follows what was noted -----

  function AskedFor(request: Cp.Frame, kind: Byte): Option<Ipcp.Address> {
    IpcpLaws.Asked(Cp.DecodeOptions(request.data), kind)
  }

  /** The address in the latest acknowledged request that asked for one of this kind. */
  function LastAddress(acked: seq<Cp.Frame>, kind: Byte): Option<Ipcp.Address> {
    if acked == [] then None
    else
      var last := |acked| - 1;
      if AskedFor(acked[last], kind).Some? then AskedFor(acked[last], kind) else LastAddress(acked[..last], kind)
  }

  predicate InStep(asked: Option<Cp.Frame>, o: OwnOptions.Offer) {
    match asked
    case None => o.lastSentId.None?
    case Some(frame) => o.lastSentId == Some(frame.id) && Cp.DecodeOptions(frame.data) == o.desired
  }

  ghost predicate ReportsHistory(acked: seq<Cp.Frame>, c: Ipcp.Config) {
    forall kind :: IpcpLaws.Known(kind) ==> IpcpLaws.Field(c, kind) == LastAddress(acked, kind)
  }

  ghost predicate Follows(w: Watch, s: Ipcp.State) {
    && InStep(w.asked, s.offer)
    && ReportsHistory(w.acked, s.negotiated)
    && (s.offer.localUp ==> (w.answered <==> !w.restarted))
  }

  lemma AckFollows(w: Watch, s: Ipcp.State, frame: Cp.Frame)
    requires Follows(w, s) && IpcpLaws.Inv(s) && AcksLast(w, Some(frame))
    ensures ReportsHistory(w.acked + [w.asked.value], Ipcp.CaptureAll(s.negotiated, s.offer.desired))
  {
    forall kind | IpcpLaws.Known(kind)
      ensures IpcpLaws.Field(Ipcp.CaptureAll(s.negotiated, s.offer.desired), kind) == LastAddress(w.acked + [w.asked.value], kind)
    {
      IpcpLaws.CapturedField(s.negotiated, s.offer.desired, kind);
      assert (w.acked + [w.asked.value])[..|w.acked|] == w.acked;
    }
  }

  /** The request a frame makes the automaton send. */
  function AskedBy(s: Ipcp.State, payload: seq<Byte>): Option<Cp.Frame> {
    if IpcpLaws.Revises(s, payload) then
      var o := Ipcp.Receive(s, payload).state.offer;
      Some(Cp.Frame(Cp.ConfigureRequest, o.identifier, Cp.EncodeOptions(o.desired)))
    else None
  }

  lemma FrameFollows(w: Watch, s: Ipcp.State, payload: seq<Byte>)
    requires Follows(w, s) && IpcpLaws.Inv(s)
    ensures Follows(Note(w, Cp.Decode(payload), AskedBy(s, payload), false), Ipcp.Receive(s, payload).state)
  {
    var frame := Cp.Decode(payload);
    if AcksLast(w, frame) {
      AckFollows(w, s, frame.value);
    } else if IpcpLaws.Revises(s, payload) {
      RevisionFollows(w, s, payload);
    }
  }

  lemma RevisionFollows(w: Watch, s: Ipcp.State, payload: seq<Byte>)
    requires Follows(w, s) && IpcpLaws.Inv(s) && IpcpLaws.Revises(s, payload)
    ensures Follows(Note(w, Cp.Decode(payload), AskedBy(s, payload), false), Ipcp.Receive(s, payload).state)
  {
    IpcpLaws.ReceiveKeepsInv(s, payload);
    Cp.OptionsRoundTripAlone(Ipcp.Receive(s, payload).state.offer.desired);
  }

  // ----- What the bytes of a reply ask for -----

  lemma OnlyRequestsAsk(bytes: seq<Byte>)
    requires |bytes| >= 8 && bytes[4] == 0xFF && bytes[5] == 0x03 && AskedOn(bytes).Some?
    ensures CarriesPpp(bytes, Ppp.Ipcp) || bytes[1] != 0
    ensures bytes[1] % 2 == 0 && |bytes| > 8 && bytes[8] == Cp.CodeByte(Cp.ConfigureRequest)
  {
    var frame := Decode(bytes).value.frame;
    assert frame == bytes[4..4 + |frame|];
    var rest := Ppp.StripAddressControl(frame);
    assert |frame| >= 2 ==> frame[0] == bytes[4] && frame[1] == bytes[5];
    assert rest == frame[2..];
    assert rest[0] == bytes[6] && rest[1] == bytes[7];
    var inner := Ppp.Decode(frame).value.payload;
    assert |inner| > 0 && inner[0] == bytes[8];
  }

  predicate AsksNothing(list: seq<Event>) {
    forall i :: 0 <= i < |list| && list[i].Send? ==> AskedOn(list[i].bytes).None?
  }

  lemma {:induction false} NothingAsked(a: seq<Event>, b: seq<Event>)
    requires AsksNothing(b)
    ensures LastAsked(a + b) == LastAsked(a)
    decreases |b|
  {
    if b == [] {
      assert a + b == a;
    } else {
      NothingAsked(a, b[..|b| - 1]);
      assert (a + b)[..|a + b| - 1] == a + b[..|b| - 1];
    }
  }

  lemma ControlAsksNothing(bytes: seq<Byte>)
    requires |bytes| >= 2 && bytes[1] == 1
    ensures AskedOn(bytes).None?
  {
  }

  /** Our own request, read back from its packet; no other frame of ours asks for anything. */
  lemma FrameAsks(p: Ppp.Protocol, payload: seq<Byte>)
    ensures (p != Ppp.Ipcp || payload == [] || payload[0] != Cp.CodeByte(Cp.ConfigureRequest)) && !p.UnknownProtocol?
      ==> AskedOn(WrapData(p, payload)).None?
  {
    DataBytes(p, payload);
    if AskedOn(WrapData(p, payload)).Some? {
      OnlyRequestsAsk(WrapData(p, payload));
      assert WrapData(p, payload)[8..] == payload;
    }
  }

  lemma RequestAsks(o: OwnOptions.Offer)
    requires Cp.AllSmall(o.desired) && |o.desired| <= 3
    ensures AskedOn(WrapData(Ppp.Ipcp, OwnOptions.Request(o.identifier, o.desired)))
      == Some(Cp.Frame(Cp.ConfigureRequest, o.identifier, Cp.EncodeOptions(o.desired)))
  {
    var payload := OwnOptions.Request(o.identifier, o.desired);
    OwnOptions.RequestCarriesDesired(o.identifier, o.desired);
    OwnOptions.EncodedLength(o.desired);
    var frame := Ppp.Encode(Ppp.Ipcp, payload);
    DataRoundTrip(frame, []);
    assert EncodeData(frame) + [] == EncodeData(frame);
    Ppp.FrameRoundTrip(Ppp.Ipcp, payload);
  }

  /** A single frame sent behind traces, and what follows it. */
  lemma OneFrameAsks(traces: seq<Event>, payload: seq<Byte>, more: seq<Event>)
    requires AsksNothing(traces) && AsksNothing(more)
    ensures LastAsked(traces + SendEvents(Ppp.Ipcp, [payload]) + more) == AskedOn(WrapData(Ppp.Ipcp, payload))
  {
    var none: seq<seq<Byte>> := [];
    assert [payload][..0] == none;
    var trace: seq<Event> := if Cp.Decode(payload).Some? then [Trace] else [];
    var sent := Send(WrapData(Ppp.Ipcp, payload));
    assert traces + SendEvents(Ppp.Ipcp, [payload]) == traces + trace + [sent];
    NothingAsked(traces + trace + [sent], more);
    assert (traces + trace + [sent])[..|traces + trace|] == traces + trace;
    assert [] + (traces + trace) == traces + trace;
    NothingAsked([], traces + trace);
  }

  lemma NothingAskedAtAll(list: seq<Event>)
    requires AsksNothing(list)
    ensures LastAsked(list) == None
  {
    NothingAsked([], list);
    assert [] + list == list;
  }

  // ----- Every step -----

  lemma IpcpSends(s: Ipcp.State, payload: seq<Byte>)
    requires IpcpLaws.Inv(s)
    ensures var r := Ipcp.Receive(s, payload);
      if IpcpLaws.Revises(s, payload)
      then r.sends == [OwnOptions.Request(r.state.offer.identifier, r.state.offer.desired)] && !r.state.offer.localUp
      else |r.sends| <= 1 && (r.sends != [] ==> r.sends[0] != [] && r.sends[0][0] != Cp.CodeByte(Cp.ConfigureRequest))
  {
  }

  lemma IpcpListAsks(s: Ipcp.State, payload: seq<Byte>, more: seq<Event>)
    requires IpcpLaws.Inv(s) && AsksNothing(more)
    ensures LastAsked(IpcpEvents(s, payload) + more) == AskedBy(s, payload)
  {
    var r := Ipcp.Receive(s, payload);
    var traces := if Cp.Decode(payload).Some? then [Trace] else [];
    IpcpSends(s, payload);
    if r.sends == [] {
      NothingAskedAtAll(IpcpEvents(s, payload) + more);
    } else {
      assert r.sends == [r.sends[0]];
      OneFrameAsks(traces, r.sends[0], more);
      FrameAsks(Ppp.Ipcp, r.sends[0]);
      if IpcpLaws.Revises(s, payload) {
        IpcpLaws.ReceiveKeepsInv(s, payload);
        RequestAsks(r.state.offer);
      }
    }
  }

  /** However the engine answers an IPCP frame, the observer notes what the automaton did. */
  lemma IpcpFollows(env: Env, w: Watch, s: State, p: Packet, payload: seq<Byte>)
    requires Follows(w, s.ipcp) && IpcpLaws.Inv(s.ipcp) && IpcpPayload(p) == Some(payload)
    ensures var t := HandleIpcp(env, s, payload); Follows(Watched(w, p, t.reply), t.state.ipcp)
  {
    IpcpReply(env, s, payload);
    FrameFollows(w, s.ipcp, payload);
    IpcpAsks(env, s, payload);
  }

  lemma IpcpAsks(env: Env, s: State, payload: seq<Byte>)
    requires IpcpLaws.Inv(s.ipcp)
    ensures var t := HandleIpcp(env, s, payload);
      if t.reply.Events? then LastAsked(t.reply.list) == AskedBy(s.ipcp, payload)
      else AskedBy(s.ipcp, payload).None?
  {
    IpcpReply(env, s, payload);
    IpcpSends(s.ipcp, payload);
    var r := Ipcp.Receive(s.ipcp, payload);
    if !(r.up && s.phase == IpcpPhase) {
      IpcpListAsks(s.ipcp, payload, []);
      assert IpcpEvents(s.ipcp, payload) + [] == IpcpEvents(s.ipcp, payload);
    } else if Ready(s) {
      EndAsksNothing(env, s, r.state.negotiated);
      IpcpListAsks(s.ipcp, payload, EndEvents(env, s, r.state.negotiated));
    }
  }

  lemma EndAsksNothing(env: Env, s: State, negotiated: Ipcp.Config)
    requires Ready(s)
    ensures AsksNothing(EndEvents(env, s, negotiated))
  {
    ConnectedBytes(env, s.hashAlgo.value, s.serverNonce.value, s.mppeKeys.value);
    ControlAsksNothing(ConnectedFor(env, s.hashAlgo.value, s.serverNonce.value, s.mppeKeys.value));
  }

  /** Starting again keeps `localUp`, so the observer has to remember it. */
  lemma StartFollows(w: Watch, s: Ipcp.State)
    requires Follows(w, s) && IpcpLaws.Inv(s)
    ensures var o := Ipcp.Start(s).state.offer;
      Follows(Note(w, None, Some(Cp.Frame(Cp.ConfigureRequest, o.identifier, Cp.EncodeOptions(o.desired))), true), Ipcp.Start(s).state)
  {
    Cp.OptionsRoundTripAlone(s.offer.desired);
  }

  lemma SuccessFollows(env: Env, w: Watch, s: State, p: Packet, frame: ChapFsm.Frame)
    requires Follows(w, s.ipcp) && IpcpLaws.Inv(s.ipcp)
    requires ChapFrame(p) == Some(frame) && frame.code == ChapFsm.Success
    ensures var t := HandleSuccess(env, s, frame); Follows(Watched(w, p, t.reply), t.state.ipcp)
  {
    var t := HandleSuccess(env, s, frame);
    SuccessTurn(env, s, frame);
    assert IpcpFrame(p).None?;
    if HasFatal(t.reply) {
      NothingAskedAtAll(t.reply.list);
    } else {
      StartFollows(w, s.ipcp);
      StartAsks(s.ipcp);
      assert t.reply == Events([Trace, Trace, Send(WrapData(Ppp.Ipcp, Ipcp.Start(s.ipcp).sends[0]))]);
    }
  }

  lemma StartAsks(s: Ipcp.State)
    requires IpcpLaws.Inv(s)
    ensures var r := Ipcp.Start(s);
      LastAsked([Trace, Trace, Send(WrapData(Ppp.Ipcp, r.sends[0]))])
        == Some(Cp.Frame(Cp.ConfigureRequest, r.state.offer.identifier, Cp.EncodeOptions(r.state.offer.desired)))
  {
    RequestAsks(Ipcp.Start(s).state.offer);
  }

  lemma OtherAsksNothing(bytes: seq<Byte>)
    requires Plain(Send(bytes)) && !CarriesPpp(bytes, Ppp.Ipcp)
    ensures AskedOn(bytes).None?
  {
    if bytes[1] == 1 {
      ControlAsksNothing(bytes);
    } else if AskedOn(bytes).Some? {
      OnlyRequestsAsk(bytes);
    }
  }

  lemma OtherFollows(w: Watch, s: State, p: Packet, t: Turn)
    requires Follows(w, s.ipcp) && !TouchesIpcp(p) && Ordinary(s, t) && LeavesIpcp(s, t)
    ensures Follows(Watched(w, p, t.reply), t.state.ipcp)
  {
    var list := t.reply.list;
    forall i | 0 <= i < |list| && list[i].Send?
      ensures AskedOn(list[i].bytes).None?
    {
      assert Plain(list[i]);
      OtherAsksNothing(list[i].bytes);
    }
    NothingAskedAtAll(list);
  }

  lemma StepFollows(env: Env, w: Watch, s: State, i: Input)
    requires Follows(w, s.ipcp) && IpcpLaws.Inv(s.ipcp)
    ensures var t := OnPacket(env, s, i.packet, i.draws); Follows(Watched(w, i.packet, t.reply), t.state.ipcp)
  {
    if IpcpPayload(i.packet).Some? {
      IpcpFollows(env, w, s, i.packet, IpcpPayload(i.packet).value);
    } else if CarriesChap(i.packet, ChapFsm.Success) {
      SuccessFollows(env, w, s, i.packet, ChapFrame(i.packet).value);
    } else {
      ReplyShape(env, s, i.packet, i.draws);
      OtherFollows(w, s, i.packet, OnPacket(env, s, i.packet, i.draws));
    }
  }

  // ----- Runs -----

  /**
   In every run: what is desired is what the last request on the wire asked for; each reported
   address is that of the latest acknowledged request that asked for one of its kind; and while our
   side is up, the last request has been acknowledged if and only if no Success verified since.
   */
  lemma {:induction false} WatchFollows(env: Env, magic: Word32, inputs: seq<Input>)
    ensures Follows(WatchOf(env, magic, inputs), RunOf(env, magic, inputs).state.ipcp)
  {
    if inputs != [] {
      var last := |inputs| - 1;
      WatchFollows(env, magic, inputs[..last]);
      EveryRunKeepsInv(env, magic, inputs[..last]);
      StepFollows(env, WatchOf(env, magic, inputs[..last]), RunOf(env, magic, inputs[..last]).state, inputs[last]);
    }
  }

  /** The reply to the last packet of a run. */
  function LastReply(env: Env, magic: Word32, inputs: seq<Input>): Reply
    requires inputs != []
  {
    var last := |inputs| - 1;
    OnPacket(env, RunOf(env, magic, inputs[..last]).state, inputs[last].packet, inputs[last].draws).reply
  }

  predicate EndsEstablished(r: Reply) {
    r.Events? && r.list != [] && r.list[|r.list| - 1].Established?
  }

  /** The report is exactly what the request asked for. */
  ghost predicate ReportsRequest(c: Ipcp.Config, request: Cp.Frame) {
    forall kind :: IpcpLaws.Known(kind) ==> IpcpLaws.Field(c, kind) == AskedFor(request, kind)
  }

  /** No acknowledged request asked for an address of a kind that the given one does not ask for. */
  ghost predicate AsksForAll(request: Cp.Frame, acked: seq<Cp.Frame>) {
    forall kind, i :: IpcpLaws.Known(kind) && 0 <= i < |acked| && AskedFor(acked[i], kind).Some? ==> AskedFor(request, kind).Some?
  }

  lemma {:induction false} LastAddressNone(acked: seq<Cp.Frame>, kind: Byte)
    ensures LastAddress(acked, kind).None? <==> forall i :: 0 <= i < |acked| ==> AskedFor(acked[i], kind).None?
  {
    if acked != [] {
      var last := |acked| - 1;
      LastAddressNone(acked[..last], kind);
      assert forall i :: 0 <= i < last ==> acked[..last][i] == acked[i];
    }
  }

  /** A report that follows the history and covers the request is exact just when nothing older is left in it. */
  lemma ExactnessOf(w: Watch, s: Ipcp.State)
    requires Follows(w, s) && IpcpLaws.Inv(s) && w.asked.Some? && s.offer.localUp
    ensures ReportsRequest(s.negotiated, w.asked.value) <==> AsksForAll(w.asked.value, w.acked)
  {
    IpcpLaws.ReportsByKind(s.negotiated, s.offer.desired);
    forall kind | IpcpLaws.Known(kind)
      ensures LastAddress(w.acked, kind).None? <==> forall i :: 0 <= i < |w.acked| ==> AskedFor(w.acked[i], kind).None?
    {
      LastAddressNone(w.acked, kind);
    }
  }

  /**
   In every run, whenever Established is reported: every reported address is the one in the latest
   acknowledged request that asked for one of its kind; the report is exactly the last request on
   the wire if and only if no acknowledged request asked for an address the last one does not ask
   for; and that last request has been acknowledged if and only if no Success verified since the
   latest acknowledgement.
   */
  lemma ReportIsOnTheWire(env: Env, magic: Word32, inputs: seq<Input>)
    requires inputs != [] && EndsEstablished(LastReply(env, magic, inputs))
    ensures var list, w := LastReply(env, magic, inputs).list, WatchOf(env, magic, inputs);
      var report := list[|list| - 1].negotiated;
      && w.asked.Some?
      && ReportsHistory(w.acked, report)
      && (ReportsRequest(report, w.asked.value) <==> AsksForAll(w.asked.value, w.acked))
      && (w.answered <==> !w.restarted)
  {
    var last := |inputs| - 1;
    WatchFollows(env, magic, inputs);
    EveryRunKeepsInv(env, magic, inputs);
    EngineLaws.StepBinds(env, RunOf(env, magic, inputs[..last]).state, inputs[last]);
    ExactnessOf(WatchOf(env, magic, inputs), RunOf(env, magic, inputs).state.ipcp);
  }
}
