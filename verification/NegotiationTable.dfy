/**
 What LCP and IPCP do with every payload, code by code, in the octets of RFC 1661 section 5 and the
 option types of RFC 1661 section 6, RFC 2759 section 4, RFC 1332 and RFC 1877.
 */
module NegotiationTable {
  import opened Wrappers
  import opened Bytes
  import opened RfcSyntax
  import opened OwnOptions
  import Conformance
  import Cp
  import Lcp
  import LcpLaws
  import Ipcp
  import IpcpLaws

  function NextId(id: Byte): Byte {
    if id == 255 then 0 else id + 1
  }

  // ----- Our own options -----

  /** The last value suggested for a kind. */
  function LastOf(options: seq<ConfigOption>, kind: Byte): Option<seq<Byte>> {
    if options == [] then None
    else
      var last := |options| - 1;
      if options[last].kind == kind then Some(options[last].data) else LastOf(options[..last], kind)
  }

  predicate FirstOfItsKind(options: seq<ConfigOption>, i: nat)
    requires i < |options|
  {
    forall j :: 0 <= j < i ==> options[j].kind != options[i].kind
  }

  /** Each option takes the last value suggested for its kind, if there is one; of several of a kind only the first. */
  predicate Adopted(before: seq<ConfigOption>, suggested: seq<ConfigOption>, after: seq<ConfigOption>) {
    && |after| == |before|
    && forall i :: 0 <= i < |before| ==>
         && after[i].kind == before[i].kind
         && after[i].data ==
              var value := LastOf(suggested, before[i].kind);
              if value.Some? && FirstOfItsKind(before, i) then value.value else before[i].data
  }

  /** The options of no rejected kind, in order. */
  function Remaining(desired: seq<ConfigOption>, rejected: seq<ConfigOption>): seq<ConfigOption> {
    Select(desired, (o: ConfigOption) => LastOf(rejected, o.kind).None?)
  }

  /** Acks, Naks and Rejects count when they name the last request; a Nak or Reject draws a new request. */
  predicate AnswerTaken(o: Offer, p: ControlPacket, o': Offer, sends: seq<seq<Byte>>) {
    if o.lastSentId != Some(p.id) then o' == o && sends == []
    else if p.code == 2 then o' == o.(localUp := true) && sends == []
    else
      && (if p.code == 3 then Adopted(o.desired, ReadOptions(p.data), o'.desired)
          else o'.desired == Remaining(o.desired, ReadOptions(p.data)))
      && o' == Offer(NextId(o.identifier), o'.desired, Some(NextId(o.identifier)), false)
      && sends == [PacketOctets(1, NextId(o.identifier), OptionsOctets(o'.desired))]
  }

  lemma {:induction false} LastOfIsThere(options: seq<ConfigOption>, kind: Byte)
    ensures LastOf(options, kind).Some? <==> HasKind(options, kind)
    decreases |options|
  {
    if options != [] {
      var last := |options| - 1;
      LastOfIsThere(options[..last], kind);
      assert options[last].kind == kind ==> HasKind(options, kind);
      if HasKind(options[..last], kind) {
        var i :| 0 <= i < last && options[..last][i].kind == kind;
        assert options[i].kind == kind;
      }
      if HasKind(options, kind) && options[last].kind != kind {
        var i :| 0 <= i < |options| && options[i].kind == kind;
        assert options[..last][i].kind == kind;
      }
    }
  }

  lemma AdoptChanges(desired: seq<ConfigOption>, s: ConfigOption)
    ensures var after := Adopt(desired, s);
      forall i :: 0 <= i < |desired| ==>
        after[i].data == if desired[i].kind == s.kind && FirstOfItsKind(desired, i) then s.data else desired[i].data
  {
    var found := FirstOfKind(desired, s.kind);
    forall i | 0 <= i < |desired|
      ensures Adopt(desired, s)[i].data
        == if desired[i].kind == s.kind && FirstOfItsKind(desired, i) then s.data else desired[i].data
    {
      if desired[i].kind == s.kind {
        assert found.Some? && found.value <= i;
        assert FirstOfItsKind(desired, i) <==> found.value == i;
      }
    }
  }

  lemma {:induction false} AdoptAllAdopts(desired: seq<ConfigOption>, suggested: seq<ConfigOption>)
    ensures Adopted(desired, suggested, AdoptAll(desired, suggested))
    decreases |suggested|
  {
    if suggested != [] {
      var last := |suggested| - 1;
      var before := AdoptAll(desired, suggested[..last]);
      AdoptAllAdopts(desired, suggested[..last]);
      AdoptChanges(before, suggested[last]);
      forall i | 0 <= i < |desired|
        ensures FirstOfItsKind(before, i) <==> FirstOfItsKind(desired, i)
      {
      }
    }
  }

  lemma {:induction false} DropLeavesRemaining(desired: seq<ConfigOption>, rejected: seq<ConfigOption>)
    ensures Drop(desired, rejected) == Remaining(desired, rejected)
    decreases |desired|
  {
    if desired != [] {
      DropLeavesRemaining(desired[1..], rejected);
      LastOfIsThere(rejected, desired[0].kind);
    }
  }

  lemma RequestOctets(o: Offer)
    ensures SendRequest(o).sends == [PacketOctets(1, NextId(o.identifier), OptionsOctets(o.desired))]
    ensures SendRequest(o).offer == o.(identifier := NextId(o.identifier), lastSentId := Some(NextId(o.identifier)))
  {
    Conformance.WritesOptions(o.desired);
    Conformance.WritesControl(1, NextId(o.identifier), OptionsOctets(o.desired));
  }

  lemma AnswersAreTaken(o: Offer, p: ControlPacket)
    requires 2 <= p.code <= 4
    ensures var step := ReceiveAnswer(o, Cp.Frame(Conformance.ControlCode(p.code), p.id, p.data));
      AnswerTaken(o, p, step.offer, step.sends)
  {
    var options := ReadOptions(p.data);
    Conformance.ReadsOptions(p.data);
    if p.code == 3 {
      AdoptAllAdopts(o.desired, options);
      RequestOctets(o.(desired := AdoptAll(o.desired, options), localUp := false));
    } else if p.code == 4 {
      DropLeavesRemaining(o.desired, options);
      RequestOctets(o.(desired := Drop(o.desired, options), localUp := false));
    }
  }

  // ----- LCP: the peer's options -----

  /** In order, MS-CHAPv2 for every other authentication and a number drawn for every magic number that is ours. */
  function Proposals(magic: Word32, options: seq<ConfigOption>, draws: nat -> Word32): seq<ConfigOption> {
    if options == [] then []
    else
      var last := |options| - 1;
      Proposals(magic, options[..last], draws)
      + (if !LcpLaws.MustChange(magic, options[last]) then []
         else if options[last].kind == 3 then [Cp.Opt(3, [0xC2, 0x23, 0x81])]
         else [Cp.Opt(5, Be32(draws(last)))])
  }

  predicate AsksForLogin(options: seq<ConfigOption>) {
    exists o :: o in options && LcpLaws.AsksMsChapV2(o)
  }

  /** A Reject of what is refused; else a Nak with proposals for what must change; else an Ack of the same octets. */
  predicate LcpRequestAnswered(s: Lcp.State, p: ControlPacket, draws: nat -> Word32, s': Lcp.State, sends: seq<seq<Byte>>) {
    var options := ReadOptions(p.data);
    var refused, proposals := LcpLaws.Unacceptables(options), Proposals(s.magic, options, draws);
    && s' == s.(remoteUp := refused == [] && proposals == [],
                peerAuth := if AsksForLogin(options) then Some(Lcp.PeerAuth(0xC223, 0x81)) else s.peerAuth)
    && sends == [if refused != [] then PacketOctets(4, p.id, OptionsOctets(refused))
                 else if proposals != [] then PacketOctets(3, p.id, OptionsOctets(proposals))
                 else PacketOctets(2, p.id, p.data)]
  }

  /** The last magic number of four octets among the suggestions, else the one in use. */
  function MagicSuggested(magic: Word32, suggested: seq<ConfigOption>): Word32 {
    if suggested == [] then magic
    else
      var last := |suggested| - 1;
      if suggested[last].kind == 5 && |suggested[last].data| == 4 then FromBe32(suggested[last].data)
      else MagicSuggested(magic, suggested[..last])
  }

  /** Every payload LCP may receive. */
  predicate LcpTakes(s: Lcp.State, payload: seq<Byte>, draws: nat -> Word32, s': Lcp.State, sends: seq<seq<Byte>>) {
    match ReadControl(payload)
    case None => s' == s && sends == []
    case Some(p) =>
      if p.code == 1 then LcpRequestAnswered(s, p, draws, s', sends)
      else if 2 <= p.code <= 4 then
        && AnswerTaken(s.offer, p, s'.offer, sends)
        && s' == s.(offer := s'.offer,
                    magic := if p.code == 3 && s.offer.lastSentId == Some(p.id)
                             then MagicSuggested(s.magic, ReadOptions(p.data)) else s.magic)
      else if p.code == 5 then
        s' == s.(offer := s.offer.(localUp := false), remoteUp := false) && sends == [PacketOctets(6, p.id, [])]
      else if p.code == 9 then
        s' == s && sends == [PacketOctets(10, p.id, Be32(s.magic) + (if |p.data| <= 4 then [] else p.data[4..]))]
      else s' == s && sends == []
  }

  lemma {:induction false} LcpJudgements(s: Lcp.State, options: seq<ConfigOption>, draws: nat -> Word32)
    ensures var j := Lcp.JudgeAll(s.magic, s.peerAuth, options, draws);
      && j.rejects == LcpLaws.Unacceptables(options)
      && j.naks == Proposals(s.magic, options, draws)
      && j.peerAuth == if AsksForLogin(options) then Some(Lcp.PeerAuth(0xC223, 0x81)) else s.peerAuth
    decreases |options|
  {
    if options != [] {
      var last := |options| - 1;
      LcpJudgements(s, options[..last], draws);
      LcpLaws.JudgementOf(s.magic, options[last], draws(last));
      assert options == options[..last] + [options[last]];
      SelectSnoc(options[..last], options[last], LcpLaws.Unacceptable);
      assert AsksForLogin(options) <==> AsksForLogin(options[..last]) || LcpLaws.AsksMsChapV2(options[last]);
    }
  }

  lemma LcpRequestIsAnswered(s: Lcp.State, p: ControlPacket, draws: nat -> Word32)
    requires p.code == 1
    ensures var r := Lcp.AnswerRequest(s, Cp.Frame(Conformance.ControlCode(p.code), p.id, p.data), draws);
      LcpRequestAnswered(s, p, draws, r.state, r.sends)
  {
    var options := ReadOptions(p.data);
    var refused, proposals := LcpLaws.Unacceptables(options), Proposals(s.magic, options, draws);
    Conformance.ReadsOptions(p.data);
    LcpJudgements(s, options, draws);
    Conformance.WritesOptions(refused);
    Conformance.WritesOptions(proposals);
    Conformance.WritesControl(4, p.id, OptionsOctets(refused));
    Conformance.WritesControl(3, p.id, OptionsOctets(proposals));
    Conformance.WritesControl(2, p.id, p.data);
  }

  lemma MagicIsSuggested(magic: Word32, suggested: seq<ConfigOption>)
    ensures Lcp.MagicAfter(magic, suggested) == MagicSuggested(magic, suggested)
  {
  }

  /** From every state, every payload is taken as the table says, and LCP is up when both sides are. */
  lemma LcpFollowsTable(s: Lcp.State, payload: seq<Byte>, draws: nat -> Word32)
    ensures var r := Lcp.Receive(s, payload, draws);
      LcpTakes(s, payload, draws, r.state, r.sends) && r.up == (r.state.offer.localUp && r.state.remoteUp)
  {
    Conformance.ReadsControl(payload);
    if ReadControl(payload).Some? {
      var p := ReadControl(payload).value;
      if p.code == 1 {
        LcpRequestIsAnswered(s, p, draws);
      } else if 2 <= p.code <= 4 {
        AnswersAreTaken(s.offer, p);
        Conformance.ReadsOptions(p.data);
        MagicIsSuggested(s.magic, ReadOptions(p.data));
      } else {
        Conformance.WritesControl(6, p.id, []);
        Conformance.WritesControl(10, p.id, Lcp.EchoData(s.magic, p.data));
      }
    }
  }

  // ----- IPCP -----

  /** The last value of four octets given for a kind. */
  function LastAddress(options: seq<ConfigOption>, kind: Byte): Option<Bytes4> {
    if options == [] then None
    else
      var last := |options| - 1;
      if options[last].kind == kind && |options[last].data| == 4 then Some(options[last].data)
      else LastAddress(options[..last], kind)
  }

  function Either(a: Option<Bytes4>, b: Option<Bytes4>): Option<Bytes4> {
    if a.Some? then a else b
  }

  predicate IpcpRequestAnswered(s: Ipcp.State, p: ControlPacket, s': Ipcp.State, sends: seq<seq<Byte>>) {
    var options := ReadOptions(p.data);
    var refused := IpcpLaws.Unacceptables(options);
    && s' == s.(remoteUp := refused == [],
                negotiated := s.negotiated.(peerIp := Either(LastAddress(options, 3), s.negotiated.peerIp)))
    && sends == [if refused != [] then PacketOctets(4, p.id, OptionsOctets(refused)) else PacketOctets(2, p.id, p.data)]
  }

  /** The addresses asked for under types 3, 129 and 131 are reported. */
  function Reported(c: Ipcp.Config, desired: seq<ConfigOption>): Ipcp.Config {
    Ipcp.Config(
      Either(LastAddress(desired, 3), c.localIp), c.peerIp,
      Either(LastAddress(desired, 129), c.dns1), Either(LastAddress(desired, 131), c.dns2))
  }

  /** Every payload IPCP may receive. */
  predicate IpcpTakes(s: Ipcp.State, payload: seq<Byte>, s': Ipcp.State, sends: seq<seq<Byte>>) {
    match ReadControl(payload)
    case None => s' == s && sends == []
    case Some(p) =>
      if p.code == 1 then IpcpRequestAnswered(s, p, s', sends)
      else if 2 <= p.code <= 4 then
        && AnswerTaken(s.offer, p, s'.offer, sends)
        && s' == s.(offer := s'.offer,
                    negotiated := if p.code == 2 && s.offer.lastSentId == Some(p.id)
                                  then Reported(s.negotiated, s.offer.desired) else s.negotiated)
      else if p.code == 5 then
        s' == s.(offer := s.offer.(localUp := false), remoteUp := false) && sends == [PacketOctets(6, p.id, [])]
      else s' == s && sends == []
  }

  lemma {:induction false} PeerAddress(peerIp: Option<Bytes4>, options: seq<ConfigOption>)
    ensures Ipcp.JudgeAll(peerIp, options).peerIp == Either(LastAddress(options, 3), peerIp)
    decreases |options|
  {
    if options != [] {
      PeerAddress(peerIp, options[..|options| - 1]);
    }
  }

  lemma {:induction false} CaptureReports(c: Ipcp.Config, desired: seq<ConfigOption>)
    ensures Ipcp.CaptureAll(c, desired) == Reported(c, desired)
    decreases |desired|
  {
    if desired != [] {
      CaptureReports(c, desired[..|desired| - 1]);
    }
  }

  lemma IpcpRequestIsAnswered(s: Ipcp.State, p: ControlPacket)
    requires p.code == 1
    ensures var r := Ipcp.AnswerRequest(s, Cp.Frame(Conformance.ControlCode(p.code), p.id, p.data));
      IpcpRequestAnswered(s, p, r.state, r.sends)
  {
    var refused := IpcpLaws.Unacceptables(ReadOptions(p.data));
    Conformance.ReadsOptions(p.data);
    IpcpLaws.JudgedRejects(s.negotiated.peerIp, ReadOptions(p.data));
    PeerAddress(s.negotiated.peerIp, ReadOptions(p.data));
    Conformance.WritesOptions(refused);
    Conformance.WritesControl(4, p.id, OptionsOctets(refused));
    Conformance.WritesControl(2, p.id, p.data);
  }

  /** From every state, every payload is taken as the table says, and IPCP is up when both sides are. */
  lemma IpcpFollowsTable(s: Ipcp.State, payload: seq<Byte>)
    ensures var r := Ipcp.Receive(s, payload);
      IpcpTakes(s, payload, r.state, r.sends) && r.up == (r.state.offer.localUp && r.state.remoteUp)
  {
    Conformance.ReadsControl(payload);
    if ReadControl(payload).Some? {
      var p := ReadControl(payload).value;
      if p.code == 1 {
        IpcpRequestIsAnswered(s, p);
      } else if 2 <= p.code <= 4 {
        AnswersAreTaken(s.offer, p);
        CaptureReports(s.negotiated, s.offer.desired);
      } else {
        Conformance.WritesControl(6, p.id, []);
      }
    }
  }

  // ----- The first requests -----

  lemma ThreeOptions(a: ConfigOption, b: ConfigOption, c: ConfigOption)
    ensures Cp.EncodeOptions([a, b, c]) == Cp.OptBytes(a) + (Cp.OptBytes(b) + Cp.OptBytes(c))
  {
    assert [a, b, c][1..] == [b, c] && [b, c][1..] == [c] && [c][1..] == [];
    assert Cp.EncodeOptions([c]) == Cp.OptBytes(c);
  }

  lemma ShortFrame(code: Byte, id: Byte, data: seq<Byte>)
    requires |data| < 252
    ensures Cp.FrameBytes(code, id, data) == [code, id, 0, 4 + |data|] + data
  {
    assert Cp.FrameHead(code, id, 4 + |data|) == [code, id, 0, 4 + |data|];
  }

  /** Magic number, PFC and ACFC are offered first. */
  lemma FirstLcpRequest(magic: Word32)
    ensures Lcp.Start(Lcp.Initial(magic)).sends == [[1, 1, 0, 14, 5, 6] + Be32(magic) + [7, 2, 8, 2]]
  {
    var o := Lcp.Initial(magic).offer.desired;
    var data := [5, 6] + Be32(magic) + [7, 2, 8, 2];
    ThreeOptions(o[0], o[1], o[2]);
    assert o == [o[0], o[1], o[2]];
    assert Cp.EncodeOptions(o) == data;
    ShortFrame(1, 1, data);
    assert [1, 1, 0, 14] + data == [1, 1, 0, 14, 5, 6] + Be32(magic) + [7, 2, 8, 2];
  }

  /** Address and both name servers are asked for, not specified yet. */
  lemma FirstIpcpRequest()
    ensures Ipcp.Start(Ipcp.INITIAL).sends
      == [[1, 1, 0, 22, 3, 6, 0, 0, 0, 0, 129, 6, 0, 0, 0, 0, 131, 6, 0, 0, 0, 0]]
  {
    var o := Ipcp.INITIAL.offer.desired;
    var data := [3, 6, 0, 0, 0, 0, 129, 6, 0, 0, 0, 0, 131, 6, 0, 0, 0, 0];
    ThreeOptions(o[0], o[1], o[2]);
    assert o == [o[0], o[1], o[2]];
    assert Cp.EncodeOptions(o) == data;
    ShortFrame(1, 1, data);
    assert [1, 1, 0, 22] + data == [1, 1, 0, 22, 3, 6, 0, 0, 0, 0, 129, 6, 0, 0, 0, 0, 131, 6, 0, 0, 0, 0];
  }
}
