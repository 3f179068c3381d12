/** What IPCP promises about its answers to the peer and about the addresses it reports. */
module IpcpLaws {
  import opened Wrappers
  import opened Bytes
  import opened Cp
  import opened OwnOptions
  import opened Ipcp

  /** Everything but an IP address of four octets. */
  predicate Unacceptable(o: Opt) {
    o.kind != 3 || |o.data| != 4
  }

  function Unacceptables(opts: seq<Opt>): seq<Opt> {
    Select(opts, Unacceptable)
  }

  lemma JudgedRejects(peerIp: Option<Address>, opts: seq<Opt>)
    ensures JudgeAll(peerIp, opts).rejects == Unacceptables(opts)
  {
    if opts != [] {
      var last := |opts| - 1;
      JudgedRejects(peerIp, opts[..last]);
      assert opts == opts[..last] + [opts[last]];
      SelectSnoc(opts[..last], opts[last], Unacceptable);
    }
  }

  /** One reply to every well-formed request: a Reject of exactly the unacceptable options, or the same bytes acknowledged. */
  lemma PeerRequestVerdict(s: State, data: seq<Byte>)
    requires Decode(data).Some? && Decode(data).value.code == ConfigureRequest
    ensures var frame, r := Decode(data).value, Receive(s, data);
      var opts := DecodeOptions(frame.data);
      var refused := exists o :: o in opts && Unacceptable(o);
      && |r.sends| == 1
      && (refused ==> r.sends[0] == Encode(ConfigureReject, frame.id, EncodeOptions(Unacceptables(opts))))
      && (!refused ==> r.sends[0] == Encode(ConfigureAck, frame.id, frame.data))
      && (r.state.remoteUp <==> !refused)
      && r.state.offer == s.offer
  {
    var opts := DecodeOptions(Decode(data).value.data);
    JudgedRejects(s.negotiated.peerIp, opts);
    SelectProperties(opts, Unacceptable);
  }

  /** Data bytes of the reply to a Configure-Request: what is refused, or all of it. */
  function AnswerData(data: seq<Byte>): nat {
    var refused := Unacceptables(DecodeOptions(data));
    if refused != [] then |EncodeOptions(refused)| else |data|
  }

  lemma AnswerShrinks(data: seq<Byte>)
    ensures AnswerData(data) <= |data|
  {
    SelectProperties(DecodeOptions(data), Unacceptable);
    DecodedOptionsArePrefix(data);
  }

  // ----- The reported addresses -----

  /** IP address (RFC 1332), first and second name server (RFC 1877). */
  predicate Known(kind: Byte) {
    kind == 3 || kind == 129 || kind == 131
  }

  function Field(c: Config, kind: Byte): Option<Address> {
    if kind == 3 then c.localIp
    else if kind == 129 then c.dns1
    else if kind == 131 then c.dns2
    else None
  }

  /** Each address option in the request is the one reported. */
  predicate Reports(c: Config, desired: seq<Opt>) {
    forall i :: 0 <= i < |desired| && |desired[i].data| == 4 && Known(desired[i].kind)
      ==> Field(c, desired[i].kind) == Some(desired[i].data)
  }

  /** The address a request asks for, if it asks for one. */
  function Asked(desired: seq<Opt>, kind: Byte): Option<Address> {
    match FirstOfKind(desired, kind)
    case None => None
    case Some(i) => ParseAddress(desired[i])
  }

  lemma AskedSnoc(desired: seq<Opt>, kind: Byte)
    requires Distinct(desired) && desired != []
    ensures var last := |desired| - 1;
      Asked(desired, kind) ==
        if desired[last].kind == kind then ParseAddress(desired[last]) else Asked(desired[..last], kind)
  {
    var last := |desired| - 1;
    var i, j := FirstOfKind(desired, kind), FirstOfKind(desired[..last], kind);
    if desired[last].kind == kind {
      assert i == Some(last);
    } else {
      assert i == j;
    }
  }

  /** What the capture leaves in each field. */
  lemma {:induction false} CapturedField(c: Config, desired: seq<Opt>, kind: Byte)
    requires Distinct(desired) && Known(kind)
    ensures Field(CaptureAll(c, desired), kind) == if Asked(desired, kind).Some? then Asked(desired, kind) else Field(c, kind)
    ensures CaptureAll(c, desired).peerIp == c.peerIp
    decreases |desired|
  {
    if desired != [] {
      CapturedField(c, desired[..|desired| - 1], kind);
      AskedSnoc(desired, kind);
    }
  }

  /** Reporting each requested address is the same, kind by kind. */
  lemma ReportsByKind(c: Config, desired: seq<Opt>)
    requires Distinct(desired)
    ensures Reports(c, desired)
      <==> forall kind :: Known(kind) && Asked(desired, kind).Some? ==> Field(c, kind) == Asked(desired, kind)
  {
    forall i | 0 <= i < |desired|
      ensures FirstOfKind(desired, desired[i].kind) == Some(i)
    {
    }
  }

  predicate AllKnown(opts: seq<Opt>) {
    forall i :: 0 <= i < |opts| ==> Known(opts[i].kind)
  }

  predicate Inv(s: State) {
    && Sound(s.offer.desired)
    && |s.offer.desired| <= 3
    && AllKnown(s.offer.desired)
    && (s.offer.localUp ==> s.offer.lastSentId.Some? && Reports(s.negotiated, s.offer.desired))
  }

  lemma InitialInv()
    ensures Inv(INITIAL)
  {
  }

  lemma CapturedReports(c: Config, desired: seq<Opt>)
    requires Distinct(desired)
    ensures Reports(CaptureAll(c, desired), desired)
  {
    forall kind | Known(kind) && Asked(desired, kind).Some?
      ensures Field(CaptureAll(c, desired), kind) == Asked(desired, kind)
    {
      CapturedField(c, desired, kind);
    }
    ReportsByKind(CaptureAll(c, desired), desired);
  }

  lemma KnownWithin(a: seq<Opt>, b: seq<Opt>)
    requires KindsWithin(a, b) && AllKnown(b)
    ensures AllKnown(a)
  {
    forall i | 0 <= i < |a|
      ensures Known(a[i].kind)
    {
      assert HasKind(b, a[i].kind);
    }
  }

  /** Every frame keeps the report in step with what was requested. */
  lemma ReceiveKeepsInv(s: State, data: seq<Byte>)
    requires Inv(s)
    ensures Inv(Receive(s, data).state)
  {
    if Decode(data).Some? {
      var frame := Decode(data).value;
      ReceiveKeepsSound(s.offer, frame);
      KnownWithin(ReceiveAnswer(s.offer, frame).offer.desired, s.offer.desired);
      if frame.code == ConfigureAck {
        CapturedReports(s.negotiated, s.offer.desired);
      }
    }
  }

  lemma StartKeepsInv(s: State)
    requires Inv(s)
    ensures Inv(Start(s).state)
  {
  }

  // ----- When the report is exactly the last request -----

  /** Nothing is reported beyond what the request asks for. */
  predicate Exact(s: State) {
    && s.negotiated.localIp == Asked(s.offer.desired, 3)
    && s.negotiated.dns1 == Asked(s.offer.desired, 129)
    && s.negotiated.dns2 == Asked(s.offer.desired, 131)
  }

  predicate NothingReported(s: State) {
    s.negotiated.localIp.None? && s.negotiated.dns1.None? && s.negotiated.dns2.None?
  }

  /** An acknowledgement of the request awaited. */
  predicate Acknowledges(s: State, data: seq<Byte>) {
    match Decode(data)
    case None => false
    case Some(frame) => frame.code == ConfigureAck && s.offer.lastSentId == Some(frame.id)
  }

  /** A Nak or Reject of the request awaited: the only frames that change what is asked for. */
  predicate Revises(s: State, data: seq<Byte>) {
    match Decode(data)
    case None => false
    case Some(frame) =>
      (frame.code == ConfigureNak || frame.code == ConfigureReject) && s.offer.lastSentId == Some(frame.id)
  }

  /**
   After any acknowledgement, whatever options it repeats, the report is exactly the request
   acknowledged if and only if nothing was reported before under a kind that the request asks no
   address for, because the server rejected the kind or suggested something that is no address.
   */
  lemma AckIsExact(s: State, ack: seq<Byte>)
    requires Inv(s) && Acknowledges(s, ack)
    ensures Exact(Receive(s, ack).state)
      <==> forall kind :: Known(kind) && Asked(s.offer.desired, kind).None? ==> Field(s.negotiated, kind).None?
  {
    forall kind | Known(kind)
      ensures Field(Receive(s, ack).state.negotiated, kind)
        == if Asked(s.offer.desired, kind).Some? then Asked(s.offer.desired, kind) else Field(s.negotiated, kind)
    {
      CapturedField(s.negotiated, s.offer.desired, kind);
    }
    assert Known(3) && Known(129) && Known(131);
  }

  /** Until a revision follows an acknowledgement, the report is empty or exactly the last request. */
  lemma ReportStaysExact(s: State, data: seq<Byte>)
    requires Inv(s)
    requires NothingReported(s) || (Exact(s) && !Revises(s, data))
    ensures var s' := Receive(s, data).state;
      && (NothingReported(s') || Exact(s'))
      && (s'.offer.localUp && !s.offer.localUp ==> Exact(s'))
  {
    if Acknowledges(s, data) {
      AckIsExact(s, data);
    }
  }

  /**
   When an acknowledged address is revised away, by a Reject or by a Nak that suggests no address,
   every later acknowledgement brings our side up with the old address still reported.
   */
  lemma StaleAfterRevision(s: State, revision: seq<Byte>, ack: seq<Byte>, kind: Byte)
    requires Inv(s) && s.offer.localUp && Known(kind) && Asked(s.offer.desired, kind).Some?
    requires Revises(s, revision)
    requires var t := Receive(s, revision).state; Asked(t.offer.desired, kind).None? && Acknowledges(t, ack)
    ensures var t := Receive(Receive(s, revision).state, ack).state;
      && t.offer.localUp && !Exact(t)
      && Field(t.negotiated, kind) == Asked(s.offer.desired, kind)
  {
    var t := Receive(s, revision).state;
    ReceiveKeepsInv(s, revision);
    AckIsExact(t, ack);
    ReportsByKind(s.negotiated, s.offer.desired);
    CapturedField(t.negotiated, t.offer.desired, kind);
  }

  /** Such a run: address suggested, acknowledged, rejected, and the rest acknowledged. */
  lemma StaleReportHappens(address: Address)
    ensures var option := EncodeOptions([Opt(3, address)]);
      var asked := Receive(Start(INITIAL).state, Encode(ConfigureNak, 1, option)).state;
      var up := Receive(asked, Encode(ConfigureAck, 2, [])).state;
      var dropped := Receive(up, Encode(ConfigureReject, 2, option)).state;
      && Revises(up, Encode(ConfigureReject, 2, option))
      && Asked(up.offer.desired, 3) == Some(address)
      && Asked(dropped.offer.desired, 3).None?
      && Acknowledges(dropped, Encode(ConfigureAck, 3, []))
  {
    var options := [Opt(3, address)];
    var option := EncodeOptions(options);
    EncodedLength(options);
    OptionsRoundTripAlone(options);
    FrameRoundTrip(ConfigureNak, 1, option);
    FrameRoundTrip(ConfigureAck, 2, []);
    FrameRoundTrip(ConfigureReject, 2, option);
    FrameRoundTrip(ConfigureAck, 3, []);
    AdoptedFirst(INITIAL.offer.desired, options[0]);
    DroppedFirst(INITIAL.offer.desired[0 := options[0]], options);
  }

  lemma AdoptedFirst(desired: seq<Opt>, o: Opt)
    requires desired != [] && desired[0].kind == o.kind
    ensures AdoptAll(desired, [o]) == desired[0 := o]
  {
    assert [o][..0] == [];
    assert AdoptAll(desired, [o][..0]) == desired;
  }

  lemma DroppedFirst(desired: seq<Opt>, rejected: seq<Opt>)
    requires Distinct(desired) && desired != [] && rejected == [desired[0]]
    ensures Asked(Drop(desired, rejected), desired[0].kind).None?
  {
    DropProperties(desired, rejected);
    var left := Drop(desired, rejected);
    assert rejected[0].kind == desired[0].kind;
    forall i | 0 <= i < |left|
      ensures left[i].kind != desired[0].kind
    {
      assert left[i] in left;
    }
  }
}
