/** Consequences of the reply table: what is sent reads back, and when a login ends. */
module ReplyLaws {
  import opened Wrappers
  import opened Bytes
  import opened RfcSyntax
  import opened NegotiationTable
  import opened Engine
  import opened ReplyTable
  import Conformance
  import Packet
  import Cp

  /** What is carried in a message that fits reads back, field by field. */
  lemma CarriedReadsBack(protocol: Word16, code: Byte, id: Byte, data: seq<Byte>)
    requires |data| <= 0xFFFF - 12 && protocol != 0xFF03
    ensures var payload := PacketOctets(code, id, data);
      && ReadMessage(Carried(protocol, payload)) == Ok(DataMessage(PppOctets(protocol, payload)))
      && ReadPpp(PppOctets(protocol, payload)) == Some(PppFrame(protocol, payload))
      && ReadControl(payload) == Some(Cp.RawFrame(code, id, data))
  {
    var payload := PacketOctets(code, id, data);
    var frame := PppOctets(protocol, payload);
    Conformance.WritesDataMessages(frame);
    Conformance.ReadsMessages(Carried(protocol, payload));
    Packet.DataRoundTrip(frame, []);
    assert Packet.EncodeData(frame) + [] == Packet.EncodeData(frame);
    assert frame[2..] == Octets(protocol) + payload && frame[2..][2..] == payload;
    Conformance.WritesControl(code, id, data);
    Cp.RawRoundTrip(code, id, data, []);
    Conformance.ReadsControl(payload);
  }

  /** The one message with which a frame of a protocol that is not spoken is answered. */
  predicate QuotedBack(s: State, frame: seq<Byte>, t: Turn) {
    var id := NextId(s.lcp.offer.identifier);
    var payload := PacketOctets(8, id, FromProtocol(frame));
    && t.state == s.(lcp := s.lcp.(offer := s.lcp.offer.(identifier := id)))
    && t.reply == Events([Send(Carried(0xC021, payload))])
    && (|FromProtocol(frame)| <= 0xFFFF - 12 ==>
          && ReadMessage(Carried(0xC021, payload)) == Ok(DataMessage(PppOctets(0xC021, payload)))
          && ReadPpp(PppOctets(0xC021, payload)) == Some(PppFrame(0xC021, payload))
          && ReadControl(payload) == Some(Cp.RawFrame(8, id, FromProtocol(frame))))
  }

  /**
   From every state, a frame of any protocol but IPv4, IPCP, LCP and CHAP draws one Protocol-Reject, which the
   server reads as code 8 with the protocol number and everything behind it, whether or not the frame had its
   Address and Control octets; nothing changes but the identifier.
   */
  lemma UnspokenIsQuoted(env: Env, s: State, frame: seq<Byte>, draws: Draws)
    requires ReadPpp(frame).Some? && Unspoken(ReadPpp(frame).value.protocol)
    ensures QuotedBack(s, frame, OnPppFrame(env, s, frame, draws))
  {
    ProtocolIsRejected(env, s, frame, draws);
    if |FromProtocol(frame)| <= 0xFFFF - 12 {
      CarriedReadsBack(0xC021, 8, NextId(s.lcp.offer.identifier), FromProtocol(frame));
    }
  }

  /** One Terminate-Ack without data, and both sides down. */
  predicate TakenDown(s: State, protocol: Word16, id: Byte, t: Turn) {
    && t.reply == Events([Trace, Trace, Send(Carried(protocol, PacketOctets(6, id, [])))])
    && (protocol == 0xC021 ==>
          t.state == s.(lcp := s.lcp.(offer := s.lcp.offer.(localUp := false), remoteUp := false)))
    && (protocol == 0x8021 ==>
          t.state == s.(ipcp := s.ipcp.(offer := s.ipcp.offer.(localUp := false), remoteUp := false)))
  }

  lemma LcpTerminateIsAcked(s: State, payload: seq<Byte>, draws: Draws)
    requires ReadControl(payload).Some? && ReadControl(payload).value.code == 5
    ensures TakenDown(s, 0xC021, ReadControl(payload).value.id, HandleLcp(s, payload, draws))
  {
    CarriedReadsBack(0xC021, 6, ReadControl(payload).value.id, []);
    LcpIsAnswered(s, payload, draws);
  }

  lemma IpcpTerminateIsAcked(env: Env, s: State, payload: seq<Byte>)
    requires ReadControl(payload).Some? && ReadControl(payload).value.code == 5
    ensures TakenDown(s, 0x8021, ReadControl(payload).value.id, HandleIpcp(env, s, payload))
  {
    CarriedReadsBack(0x8021, 6, ReadControl(payload).value.id, []);
    IpcpIsAnswered(env, s, payload);
  }

  // ----- When a login ends -----

  /** Unreadable, or a malformed Challenge, a Success that proves nothing, or any other code. */
  ghost predicate EndsLogin(env: Env, s: State, payload: seq<Byte>) {
    match ReadControl(payload)
    case None => true
    case Some(p) =>
      if p.code == 1 then p.data == [] || |p.data| <= p.data[0] || p.data[0] != 16
      else if p.code == 3 then !Proves(env, s, p.data)
      else true
  }

  predicate EndsInFatal(r: Reply) {
    r.Events? && r.list != [] && r.list[|r.list| - 1].Fatal?
  }

  predicate MentionsFatal(r: Reply) {
    r.Events? && exists i :: 0 <= i < |r.list| && r.list[i].Fatal?
  }

  /** From every state: the reply to a CHAP payload ends in a failure exactly then, and mentions none otherwise. */
  lemma LoginEndsExactly(env: Env, s: State, payload: seq<Byte>, draws: Draws)
    ensures var r := HandleChap(env, s, payload, draws).reply;
      && (EndsInFatal(r) <==> EndsLogin(env, s, payload))
      && (MentionsFatal(r) <==> EndsLogin(env, s, payload))
  {
    ChapIsAnswered(env, s, payload, draws);
    FatalShown(env, s, payload, draws, HandleChap(env, s, payload, draws));
  }

  lemma FatalShown(env: Env, s: State, payload: seq<Byte>, draws: Draws, t: Turn)
    requires ChapAnswered(env, s, payload, draws, t)
    ensures EndsInFatal(t.reply) <==> EndsLogin(env, s, payload)
    ensures MentionsFatal(t.reply) <==> EndsLogin(env, s, payload)
  {
    if EndsInFatal(t.reply) {
      assert t.reply.list[|t.reply.list| - 1].Fatal?;
    }
  }
}
