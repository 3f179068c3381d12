/** What LCP promises about its answers to the peer and about its own magic number. */
module LcpLaws {
  import opened Wrappers
  import opened Bytes
  import opened Cp
  import opened OwnOptions
  import opened Lcp

  // ----- The verdict on a peer's Configure-Request (RFC 1661 sections 5.2-5.4) -----

  /** Neither MRU, ACCM, authentication of two octets or more, a magic number of four, PFC nor ACFC. */
  predicate Unacceptable(o: Opt) {
    || (o.kind == 5 && |o.data| != 4)
    || (o.kind == 3 && |o.data| < 2)
    || o.kind !in {1, 2, 3, 5, 7, 8}
  }

  /** CHAP with algorithm 0x81 (RFC 2759 section 2), whatever follows. */
  predicate AsksMsChapV2(o: Opt) {
    o.kind == 3 && |o.data| >= 3 && o.data[0] == 0xC2 && o.data[1] == 0x23 && o.data[2] == 0x81
  }

  /** An option that is understood but whose value must change: a looped-back magic, another authentication. */
  predicate MustChange(magic: Word32, o: Opt) {
    && !Unacceptable(o)
    && (o.kind == 5 ==> o.data == Be32(magic))
    && (o.kind == 3 ==> !AsksMsChapV2(o))
    && o.kind in {3, 5}
  }

  function Unacceptables(opts: seq<Opt>): seq<Opt> {
    Select(opts, Unacceptable)
  }

  /** The options to change, in order. */
  function ToChange(magic: Word32, opts: seq<Opt>): seq<Opt> {
    Select(opts, o => MustChange(magic, o))
  }

  /** A counter-proposal answers an option: same kind, MS-CHAPv2 or a new 4-byte magic number. */
  predicate Counters(asked: Opt, proposal: Opt) {
    && proposal.kind == asked.kind
    && (asked.kind == 3 ==> proposal.data == [0xC2, 0x23, 0x81])
    && (asked.kind == 5 ==> |proposal.data| == 4)
  }

  predicate AllCounter(asked: seq<Opt>, proposals: seq<Opt>) {
    |asked| == |proposals| && forall i :: 0 <= i < |asked| ==> Counters(asked[i], proposals[i])
  }

  /** The client's verdict on one option, and what is counted as a request for MS-CHAPv2. */
  lemma JudgementOf(magic: Word32, o: Opt, draw: Word32)
    ensures Judge(magic, o, draw)
      == if Unacceptable(o) then Refuse
         else if !MustChange(magic, o) then Accept
         else if o.kind == 3 then Counter(Opt(3, [0xC2, 0x23, 0x81]))
         else Counter(Opt(5, Be32(draw)))
    ensures AsksMsChapV2(o) <==> o.kind == 3 && Judge(magic, o, draw) == Accept
  {
    if |o.data| == 4 {
      Be32OfFromBe32(o.data);
    }
    if |o.data| >= 3 {
      assert o.data[..3] == [o.data[0], o.data[1], o.data[2]];
    }
  }

  lemma {:induction false} JudgedSplit(magic: Word32, auth: Option<PeerAuth>, opts: seq<Opt>, draws: nat -> Word32)
    ensures var j := JudgeAll(magic, auth, opts, draws);
      && j.rejects == Unacceptables(opts)
      && AllCounter(ToChange(magic, opts), j.naks)
  {
    if opts != [] {
      var last := |opts| - 1;
      var o := opts[last];
      JudgedSplit(magic, auth, opts[..last], draws);
      assert opts == opts[..last] + [o];
      SelectSnoc(opts[..last], o, Unacceptable);
      SelectSnoc(opts[..last], o, o => MustChange(magic, o));
      JudgementOf(magic, o, draws(last));
    }
  }

  /**
   Every well-formed Configure-Request gets exactly one reply, under its identifier: a Reject of
   exactly the unacceptable options if there are any; else a Nak that counters exactly the
   options to change; else an Ack of the very same bytes. Only an Ack opens the peer's side.
   */
  lemma PeerRequestVerdict(s: State, data: seq<Byte>, draws: nat -> Word32)
    requires Decode(data).Some? && Decode(data).value.code == ConfigureRequest
    ensures var frame, r := Decode(data).value, Receive(s, data, draws);
      var opts := DecodeOptions(frame.data);
      var refused, changed := exists o :: o in opts && Unacceptable(o), exists o :: o in opts && MustChange(s.magic, o);
      && |r.sends| == 1
      && (refused ==> r.sends[0] == Encode(ConfigureReject, frame.id, EncodeOptions(Unacceptables(opts))))
      && (!refused && changed ==> exists naks ::
            && r.sends[0] == Encode(ConfigureNak, frame.id, EncodeOptions(naks))
            && AllCounter(ToChange(s.magic, opts), naks))
      && (!refused && !changed ==> r.sends[0] == Encode(ConfigureAck, frame.id, frame.data))
      && (r.state.remoteUp <==> !refused && !changed)
      && r.state.offer == s.offer && r.state.magic == s.magic
  {
    var frame := Decode(data).value;
    var opts := DecodeOptions(frame.data);
    JudgedSplit(s.magic, s.peerAuth, opts, draws);
    SelectProperties(opts, Unacceptable);
    SelectProperties(opts, o => MustChange(s.magic, o));
    var judged := JudgeAll(s.magic, s.peerAuth, opts, draws);
    assert |judged.naks| == |ToChange(s.magic, opts)|;
  }

  /** Only MS-CHAPv2 is ever recorded as the peer's authentication requirement. */
  lemma RecordedAuthIsMsChapV2(magic: Word32, auth: Option<PeerAuth>, opts: seq<Opt>, draws: nat -> Word32)
    requires auth.Some? ==> auth.value == PeerAuth(0xC223, 0x81)
    ensures var after := JudgeAll(magic, auth, opts, draws).peerAuth;
      && (after.Some? ==> after.value == PeerAuth(0xC223, 0x81))
      && (after.Some? <==> auth.Some? || exists o :: o in opts && AsksMsChapV2(o))
  {
    if opts != [] {
      var last := |opts| - 1;
      RecordedAuthIsMsChapV2(magic, auth, opts[..last], draws);
      JudgementOf(magic, opts[last], draws(last));
      assert opts == opts[..last] + [opts[last]];
      assert forall o :: o in opts <==> o in opts[..last] || o == opts[last];
    }
  }

  // ----- Invariants of every reachable state -----

  /** A 4-byte magic number that is offered is the one in use. */
  predicate MagicAgrees(desired: seq<Opt>, magic: Word32) {
    forall i :: 0 <= i < |desired| && desired[i].kind == 5 && |desired[i].data| == 4
      ==> desired[i].data == Be32(magic)
  }

  predicate Inv(s: State) {
    && Sound(s.offer.desired)
    && |s.offer.desired| <= 3
    && MagicAgrees(s.offer.desired, s.magic)
    && (s.peerAuth.Some? ==> s.peerAuth.value == PeerAuth(0xC223, 0x81))
  }

  lemma InitialInv(magic: Word32)
    ensures Inv(Initial(magic))
  {
  }

  lemma AdoptKeepsMagic(desired: seq<Opt>, magic: Word32, suggested: seq<Opt>)
    requires Distinct(desired) && MagicAgrees(desired, magic)
    ensures MagicAgrees(AdoptAll(desired, suggested), MagicAfter(magic, suggested))
  {
    if suggested != [] {
      var last := |suggested| - 1;
      var s := suggested[last];
      AdoptKeepsMagic(desired, magic, suggested[..last]);
      var before := AdoptAll(desired, suggested[..last]);
      if s.kind == 5 && |s.data| == 4 {
        Be32OfFromBe32(s.data);
        assert Distinct(before);
      }
    }
  }

  lemma DropKeepsMagic(desired: seq<Opt>, magic: Word32, rejected: seq<Opt>)
    requires MagicAgrees(desired, magic)
    ensures MagicAgrees(Drop(desired, rejected), magic)
  {
    DropProperties(desired, rejected);
    var left := Drop(desired, rejected);
    forall i | 0 <= i < |left| && left[i].kind == 5 && |left[i].data| == 4
      ensures left[i].data == Be32(magic)
    {
      assert left[i] in desired;
    }
  }

  lemma AnswerKeepsMagic(s: State, data: seq<Byte>, draws: nat -> Word32)
    requires Inv(s) && Decode(data).Some? && Decode(data).value.code != ConfigureRequest
    ensures var s' := Receive(s, data, draws).state;
      && MagicAgrees(s'.offer.desired, s'.magic)
      && s'.offer == ReceiveAnswer(s.offer, Decode(data).value).offer
      && s'.peerAuth == s.peerAuth
  {
    var frame := Decode(data).value;
    var opts := DecodeOptions(frame.data);
    if frame.code == ConfigureNak {
      AdoptKeepsMagic(s.offer.desired, s.magic, opts);
    } else if frame.code == ConfigureReject {
      DropKeepsMagic(s.offer.desired, s.magic, opts);
    }
  }

  /** For any frame whatever, duplicates and wrong lengths included. */
  lemma ReceiveKeepsInv(s: State, data: seq<Byte>, draws: nat -> Word32)
    requires Inv(s)
    ensures Inv(Receive(s, data, draws).state)
  {
    if Decode(data).Some? {
      var frame := Decode(data).value;
      if frame.code == ConfigureRequest {
        RecordedAuthIsMsChapV2(s.magic, s.peerAuth, DecodeOptions(frame.data), draws);
      } else {
        AnswerKeepsMagic(s, data, draws);
        ReceiveKeepsSound(s.offer, frame);
      }
    }
  }

  lemma OwnStepsKeepInv(s: State, info: seq<Byte>)
    requires Inv(s)
    ensures Inv(Start(s).state) && Inv(RejectProtocol(s, info).state)
  {
  }

  /** An Echo-Reply carries the magic number currently offered, then the peer's bytes after its own four. */
  lemma EchoCarriesOfferedMagic(s: State, data: seq<Byte>, draws: nat -> Word32)
    requires Inv(s)
    requires Decode(data).Some? && Decode(data).value.code == EchoRequest
    ensures var frame, r := Decode(data).value, Receive(s, data, draws);
      && r.state == s
      && exists echo ::
        && r.sends == [Encode(EchoReply, frame.id, echo)]
        && |echo| == (if |frame.data| > 4 then |frame.data| else 4)
        && (forall i :: 4 <= i < |frame.data| ==> echo[i] == frame.data[i])
        && (forall o :: o in s.offer.desired && o.kind == 5 && |o.data| == 4 ==> echo[..4] == o.data)
  {
    var frame := Decode(data).value;
    var echo := EchoData(s.magic, frame.data);
    assert echo[..4] == Be32(s.magic);
    assert Receive(s, data, draws).sends == [Encode(EchoReply, frame.id, echo)];
  }

  // ----- How long an answer is -----

  /** Bytes of the counter-proposals: five for an authentication, six for a magic number. */
  function CounterBytes(asked: seq<Opt>): nat {
    if asked == [] then 0
    else (if asked[0].kind == 3 then 5 else 6) + CounterBytes(asked[1..])
  }

  /** Data bytes of the reply to a Configure-Request: what is refused, else what is countered, else all of it. */
  function AnswerData(magic: Word32, data: seq<Byte>): nat {
    var opts := DecodeOptions(data);
    if Unacceptables(opts) != [] then |EncodeOptions(Unacceptables(opts))|
    else if ToChange(magic, opts) != [] then CounterBytes(ToChange(magic, opts))
    else |data|
  }

  predicate AllMustChange(magic: Word32, opts: seq<Opt>) {
    forall i :: 0 <= i < |opts| ==> MustChange(magic, opts[i])
  }

  lemma {:induction false} ToChangeMust(magic: Word32, opts: seq<Opt>)
    ensures AllMustChange(magic, ToChange(magic, opts))
  {
    if opts != [] {
      ToChangeMust(magic, opts[1..]);
    }
  }

  lemma {:induction false} CounterLength(magic: Word32, asked: seq<Opt>, proposals: seq<Opt>)
    requires AllCounter(asked, proposals) && AllMustChange(magic, asked)
    ensures |EncodeOptions(proposals)| == CounterBytes(asked)
    decreases |asked|
  {
    if asked != [] {
      assert Counters(asked[0], proposals[0]) && MustChange(magic, asked[0]);
      CounterLength(magic, asked[1..], proposals[1..]);
    }
  }

  /** An authentication takes at least four bytes in the request, a magic number six. */
  lemma {:induction false} CounterGrows(magic: Word32, asked: seq<Opt>)
    requires AllMustChange(magic, asked)
    ensures 4 * CounterBytes(asked) <= 5 * |EncodeOptions(asked)|
    decreases |asked|
  {
    if asked != [] {
      assert MustChange(magic, asked[0]);
      CounterGrows(magic, asked[1..]);
    }
  }

  lemma DecodedOptionsFit(buf: seq<Byte>)
    ensures |EncodeOptions(DecodeOptions(buf))| <= |buf|
  {
    DecodedOptionsArePrefix(buf);
  }

  /** A Reject never outgrows the request; a Nak grows it by at most a quarter. */
  lemma AnswerGrows(magic: Word32, data: seq<Byte>)
    ensures 4 * AnswerData(magic, data) <= 5 * |data|
  {
    var opts := DecodeOptions(data);
    DecodedOptionsFit(data);
    SelectProperties(opts, Unacceptable);
    SelectProperties(opts, o => MustChange(magic, o));
    ToChangeMust(magic, opts);
    CounterGrows(magic, ToChange(magic, opts));
  }

  lemma AnswerLength(s: State, frame: Frame, draws: nat -> Word32)
    ensures var r := AnswerRequest(s, frame, draws);
      |r.sends| == 1 && |r.sends[0]| == 4 + AnswerData(s.magic, frame.data)
  {
    var opts := DecodeOptions(frame.data);
    var judged := JudgeAll(s.magic, s.peerAuth, opts, draws);
    JudgedSplit(s.magic, s.peerAuth, opts, draws);
    ToChangeMust(s.magic, opts);
    CounterLength(s.magic, ToChange(s.magic, opts), judged.naks);
  }

  /** Bytes of the longest frame LCP sends in answer to `n` received data bytes. */
  predicate SendFits(wire: seq<Byte>, n: nat) {
    4 * |wire| <= 16 + 5 * n || |wire| <= 4 + 3 * 255
  }

  /** How long the one frame sent is: exactly, in answer to a request or an echo; bounded otherwise. */
  lemma ReceiveSendLengths(s: State, data: seq<Byte>, draws: nat -> Word32)
    requires Inv(s)
    ensures var r := Receive(s, data, draws);
      && |r.sends| <= 1
      && (r.sends != [] ==> Decode(data).Some? && SendFits(r.sends[0], |data| - 4))
      && (Decode(data).Some? ==>
            var frame := Decode(data).value;
            if frame.code == ConfigureRequest then
              r.sends != [] && |r.sends[0]| == 4 + AnswerData(s.magic, frame.data)
            else if frame.code == EchoRequest then
              r.sends != [] && |r.sends[0]| == 4 + (if |frame.data| > 4 then |frame.data| else 4)
            else r.sends != [] ==> |r.sends[0]| <= 4 + 3 * 255)
  {
    if Decode(data).Some? {
      var frame := Decode(data).value;
      if frame.code == ConfigureRequest {
        AnswerLength(s, frame, draws);
        AnswerGrows(s.magic, frame.data);
      } else {
        OwnRequestLength(s.offer, frame);
      }
    }
  }

  lemma OwnRequestLength(o: Offer, frame: Frame)
    requires Sound(o.desired) && |o.desired| <= 3
    ensures var sends := ReceiveAnswer(o, frame).sends;
      |sends| <= 1 && (sends != [] ==> |sends[0]| <= 4 + 3 * 255)
  {
    ReceiveKeepsSound(o, frame);
    EncodedLength(ReceiveAnswer(o, frame).offer.desired);
  }
}
