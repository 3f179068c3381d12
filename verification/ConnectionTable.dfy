/** What the connection loop does with every input, in the octets on the wire, and why it ends. */
module ConnectionTable {
  import opened Wrappers
  import opened Bytes
  import opened RfcSyntax
  import opened Engine
  import opened Connection
  import opened ReplyTable
  import Conformance
  import Http
  import Ipcp
  import Packet
  import Ppp
  import Replies

  // ----- Why a packet ends the connection -----

  function EndedAfter(negotiated: Ipcp.Config, tunnelOk: bool): Option<End> {
    if negotiated.localIp.None? || negotiated.peerIp.None? then Some(NoAddresses)
    else if !tunnelOk then Some(TunnelNotCreated)
    else None
  }

  function ReasonOf(reply: Reply, tunnelOk: bool): Option<End> {
    match reply
    case Panicked => Some(EnginePanicked)
    case Events(list) =>
      if list == [] then None
      else
        match list[|list| - 1]
        case Disconnected => Some(ServerDisconnected)
        case Fatal(reason) => Some(EngineFailed(reason))
        case Established(negotiated, _) => EndedAfter(negotiated, tunnelOk)
        case _ => None
  }

  lemma {:induction false} LastEventDecides(c: Conn, list: seq<Event>, tunnelOk: bool)
    requires c.ended.None? && forall i :: 0 <= i < |list| - 1 ==> !Replies.Lifecycle(list[i])
    ensures HandleEvents(c, list, tunnelOk).conn.ended == ReasonOf(Events(list), tunnelOk)
    decreases |list|
  {
    if |list| > 1 {
      LastEventDecides(c, list[1..], tunnelOk);
      assert list[1..][|list| - 2] == list[|list| - 1];
      assert !Replies.Lifecycle(list[0]);
    } else if |list| == 1 {
      assert list[1..] == [];
    }
  }

  lemma ReplyEnds(c: Conn, reply: Reply, tunnelOk: bool)
    requires c.ended.None? && (reply.Events? ==> Replies.Disciplined(reply.list))
    ensures OnReply(c, reply, tunnelOk).conn.ended == ReasonOf(reply, tunnelOk)
  {
    if reply.Events? {
      LastEventDecides(c, reply.list, tunnelOk);
    }
  }

  lemma SettledEnds(c: Conn, t: Turn, tunnelOk: bool)
    requires c.ended.None? && (t.reply.Events? ==> Replies.Disciplined(t.reply.list))
    ensures Settle(c, t, tunnelOk).conn.ended == ReasonOf(t.reply, tunnelOk)
  {
    ReplyEnds(c.(engine := t.state, handled := c.handled + 1), t.reply, tunnelOk);
  }

  /** In every state, for every packet: the last event decides whether the connection ends, and why. */
  lemma PacketEnds(env: Env, c: Conn, p: Packet.Packet, luck: Luck)
    requires c.ended.None?
    ensures HandlePacket(env, c, p, luck).conn.ended == ReasonOf(OnPacket(env, c.engine, p, luck.draws).reply, luck.tunnel)
  {
    Replies.StepIsDisciplined(env, c.engine, p, luck.draws);
    SettledEnds(c, OnPacket(env, c.engine, p, luck.draws), luck.tunnel);
  }

  // ----- Inputs other than SSTP bytes -----

  predicate OtherTaken(c: Conn, i: Input, s: Step) {
    match i
    case Tick =>
      s == if !c.framing then Step(c, [])
           else if c.echoes >= 4 then Step(c.(ended := Some(NotAnswering)), [])
           else Step(c.(echoes := c.echoes + 1), [ToServer([0x10, 0x01, 0x00, 0x08, 0x00, 0x08, 0x00, 0x00])])
    case FromTunnel(ip) => s == Step(c, if c.tunnel.Some? then [ToServer(Carried(0x0021, ip))] else [])
    case Disconnect =>
      s == if !c.framing then Step(c, [])
           else Step(c.(ended := Some(StoppedByUser)), [ToServer([0x10, 0x01, 0x00, 0x08, 0x00, 0x06, 0x00, 0x00])])
    case Chunk(bytes) =>
      bytes == [] ==> s == Step(c.(ended := Some(if c.framing then ServerClosed else ClosedInHandshake)), [])
  }

  /** Every live connection and every input. */
  lemma EveryInputIsTaken(env: Env, c: Conn, i: Input, luck: nat -> Luck)
    requires c.ended.None?
    ensures OtherTaken(c, i, OnInput(env, c, i, luck))
  {
    ShortMessage(8);
    ShortMessage(6);
    if i.FromTunnel? {
      WrapIsCarried(Ppp.Ip, 0x0021, i.packet);
    }
  }

  /** One attribute, the encapsulated protocol PPP. */
  lemma RequestIs()
    ensures ConnectRequestPacket() == [0x10, 0x01, 0x00, 0x0E, 0x00, 0x01, 0x00, 0x01, 0x00, 0x01, 0x00, 0x06, 0x00, 0x01]
  {
    var attr := Packet.Attr(Packet.EncapProtocol, [0, 1]);
    assert [attr][1..] == [];
    RequestHeads();
    assert Packet.AttrBytes(attr) == [0x00, 0x01, 0x00, 0x06, 0x00, 0x01];
    assert Packet.AttrsBytes([attr]) == Packet.AttrBytes(attr);
  }

  lemma RequestHeads()
    ensures Packet.CtrlHead(14, Packet.MsgCode(Packet.ConnectRequest), 1) == [0x10, 0x01, 0x00, 0x0E, 0x00, 0x01, 0x00, 0x01]
    ensures Packet.AttrHead(Packet.AttrCode(Packet.EncapProtocol), 6) == [0x00, 0x01, 0x00, 0x06]
  {
  }

  /** Bytes of the HTTP response: more are needed, or it is refused, or the rest is kept and CONNECT_REQ written. */
  predicate ResponseTaken(c: Conn, got: seq<Byte>, s: Step) {
    match Http.ParseResponse(got)
    case Err(HeadersIncomplete) => s == Step(c.(httpBuf := got), [])
    case Err(e) => s == Step(c.(httpBuf := got, ended := Some(HttpFailed(e))), [])
    case Ok((code, offset)) =>
      && offset <= |got|
      && s == Step(
           c.(framing := true, httpBuf := got, buf := c.buf + got[offset..]),
           [Progress,
            ToServer([0x10, 0x01, 0x00, 0x0E, 0x00, 0x01, 0x00, 0x01, 0x00, 0x01, 0x00, 0x06, 0x00, 0x01]),
            Progress])
  }

  lemma ResponseIsTaken(c: Conn, bytes: seq<Byte>)
    requires bytes != []
    ensures ResponseTaken(c, c.httpBuf + bytes, OnHttpRead(c, bytes))
  {
    RequestIs();
  }

  // ----- SSTP bytes -----

  /** The first message of the buffer is answered and its events obeyed; what follows it is handled unless it ended the connection. */
  ghost predicate FirstTaken(env: Env, c: Conn, luck: nat -> Luck, s: Step) {
    match ReadMessage(c.buf)
    case Err(MoreNeeded) => s == Step(c, [])
    case Err(fault) => s == Step(c.(ended := Some(MalformedPacket(Conformance.ErrorOf(fault)))), [])
    case Ok(m) => exists t: Turn :: Answered(env, c.engine, m, luck(c.handled).draws, t) && TurnTaken(env, c, luck, t, s)
  }

  predicate TurnTaken(env: Env, c: Conn, luck: nat -> Luck, t: Turn, s: Step)
    requires ReadMessage(c.buf).Ok?
  {
    var rest := c.buf[Number(c.buf[2], c.buf[3])..];
    var one := OnReply(c.(buf := rest, engine := t.state, handled := c.handled + 1), t.reply, luck(c.handled).tunnel);
    && one.conn.ended == ReasonOf(t.reply, luck(c.handled).tunnel)
    && s == if one.conn.ended.Some? then one else Then(one.outs, HandlePackets(env, one.conn, luck))
  }

  lemma TurnIsTaken(env: Env, c: Conn, luck: nat -> Luck, p: Packet.Packet, t: Turn)
    requires c.ended.None? && ReadMessage(c.buf).Ok? && Packet.Decode(c.buf) == Ok(p)
    requires t == OnPacket(env, c.engine, p, luck(c.handled).draws)
    ensures TurnTaken(env, c, luck, t, HandlePackets(env, c, luck))
  {
    var next := c.(buf := c.buf[Packet.PacketLength(c.buf)..]);
    Conformance.NumbersAgree(c.buf[2], c.buf[3], [0, 0, 0, 0]);
    PacketIsReply(env, next, p, luck(c.handled), t);
    PacketEnds(env, next, p, luck(c.handled));
  }

  /** Every live connection, whatever its buffer holds. */
  lemma MessagesAreTaken(env: Env, c: Conn, luck: nat -> Luck)
    requires c.ended.None?
    ensures FirstTaken(env, c, luck, HandlePackets(env, c, luck))
  {
    Conformance.ReadsMessages(c.buf);
    if ReadMessage(c.buf).Ok? {
      var p := Packet.Decode(c.buf).value;
      EveryMessageIsAnswered(env, c.engine, c.buf, luck(c.handled).draws);
      TurnIsTaken(env, c, luck, p, OnPacket(env, c.engine, p, luck(c.handled).draws));
    }
  }

  // ----- A refused login -----

  /** A CHAP Failure (RFC 1994 section 4.2). */
  predicate RefusesLogin(m: Message) {
    m.DataMessage? && ReadPpp(m.frame).Some? && ReadPpp(m.frame).value.protocol == 0xC223
    && ReadControl(ReadPpp(m.frame).value.information).Some?
    && ReadControl(ReadPpp(m.frame).value.information).value.code == 4
  }

  lemma RefusalIsFatal(env: Env, s: State, m: Message, draws: Draws, t: Turn)
    requires RefusesLogin(m) && Answered(env, s, m, draws, t)
    ensures t.reply == Events([Trace, Fatal(ChapFailed)])
  {
  }

  lemma RefusalEnds(env: Env, c: Conn, luck: nat -> Luck, t: Turn, s: Step)
    requires ReadMessage(c.buf).Ok? && TurnTaken(env, c, luck, t, s) && t.reply == Events([Trace, Fatal(ChapFailed)])
    ensures s.conn.ended == Some(EngineFailed(ChapFailed))
  {
  }

  lemma FirstRefusalEnds(env: Env, c: Conn, luck: nat -> Luck, s: Step)
    requires FirstTaken(env, c, luck, s) && ReadMessage(c.buf).Ok? && RefusesLogin(ReadMessage(c.buf).value)
    ensures s.conn.ended == Some(EngineFailed(ChapFailed))
  {
    var m := ReadMessage(c.buf).value;
    var t: Turn :| Answered(env, c.engine, m, luck(c.handled).draws, t) && TurnTaken(env, c, luck, t, s);
    RefusalIsFatal(env, c.engine, m, luck(c.handled).draws, t);
    RefusalEnds(env, c, luck, t, s);
  }

  /** A read that completes a CHAP Failure ends the connection, from every state and whatever follows. */
  lemma RefusedLoginEnds(env: Env, c: Conn, bytes: seq<Byte>, luck: nat -> Luck)
    requires c.framing && c.ended.None? && bytes != []
    requires ReadMessage(c.buf + bytes).Ok? && RefusesLogin(ReadMessage(c.buf + bytes).value)
    ensures OnInput(env, c, Chunk(bytes), luck).conn.ended == Some(EngineFailed(ChapFailed))
  {
    var got := c.(echoes := 0, buf := c.buf + bytes);
    MessagesAreTaken(env, got, luck);
    FirstRefusalEnds(env, got, luck, HandlePackets(env, got, luck));
  }
}
