/**
 An honest server at the other end of a connection: its bytes, cut into reads in any way behind its
 HTTP response, bring the interface up with the addresses it assigned.
 */
module HonestConnection {
  import opened Wrappers
  import opened Bytes
  import opened RfcSyntax
  import opened Packet
  import opened Engine
  import opened Connection
  import opened ConnectionLaws
  import opened ConnectionRuns
  import opened ConnectionStreams
  import opened Server
  import Replies
  import ReplyTable
  import EngineRuns
  import EngineLaws
  import Streams
  import Http
  import Handshake
  import Completeness
  import ConnectionTable
  import Sizes
  import Conformance
  import Ipcp

  // ----- What goes over the wire in a play -----

  /** The server's bytes. */
  function ServerBytes(env: Env, cfg: Config, w: World, moves: seq<Turned>): seq<Byte>
    requires Legal(env, cfg, w, moves)
    decreases |moves|
  {
    if moves == [] then []
    else
      DoMove(cfg, w.server, moves[0].move).bytes
      + ServerBytes(env, cfg, Advance(env, cfg, w, moves[0].move, moves[0].draws), moves[1..])
  }

  /** The packets of the client. */
  function ClientSends(env: Env, cfg: Config, w: World, moves: seq<Turned>): seq<seq<Byte>>
    requires Legal(env, cfg, w, moves)
    decreases |moves|
  {
    if moves == [] then []
    else
      var next := Advance(env, cfg, w, moves[0].move, moves[0].draws);
      (if next.lastReply.Events? then SendsOf(next.lastReply.list) else []) + ClientSends(env, cfg, next, moves[1..])
  }

  /** The random numbers of the play are those a connection draws from its packet `handled` on. */
  ghost predicate SameLuck(moves: seq<Turned>, handled: nat, luck: nat -> Luck) {
    forall k :: 0 <= k < |moves| ==> moves[k].draws == luck(handled + k).draws
  }

  lemma SameLuckTail(moves: seq<Turned>, handled: nat, luck: nat -> Luck, next: nat)
    requires moves != [] && SameLuck(moves, handled, luck) && next == handled + 1
    ensures moves[0].draws == luck(handled).draws && SameLuck(moves[1..], next, luck)
  {
    assert moves[0].draws == luck(handled + 0).draws;
    forall k | 0 <= k < |moves| - 1
      ensures moves[1..][k].draws == luck(next + k).draws
    {
      assert moves[k + 1].draws == luck(handled + (k + 1)).draws;
    }
  }

  // ----- Every move of the server is one whole packet -----

  lemma CarriedIsWhole(number: Word16, payload: seq<Byte>)
    requires |payload| <= Sizes.MAX_PAYLOAD
    ensures Sizes.WholePacket(Carried(number, payload))
  {
    var p := Conformance.ProtocolNumbered(number);
    ReplyTable.WrapIsCarried(p, number, payload);
    Sizes.WrapIsWhole(p, payload);
  }

  lemma AckIsWhole(cfg: Config)
    ensures Sizes.WholePacket(ConnectAckPacket(cfg))
  {
    var attr := Attr(CryptoBindRequest, [0, 0, 0, cfg.hashByte] + cfg.nonce);
    Completeness.AckAttr(cfg);
    assert [attr][1..] == [];
    assert AttrsBytes([attr]) == AttrBytes(attr);
    Sizes.CtrlIsWhole(ConnectAck, [attr]);
  }

  lemma AsideIsWhole(a: Aside)
    requires Sendable(a)
    ensures Sizes.WholePacket(AsideBytes(a))
  {
    match a
    case KeepAlive =>
      Conformance.WritesControlMessages(8, [], EchoRequest, []);
      Sizes.CtrlIsWhole(EchoRequest, []);
    case LcpEcho(id, data) => CarriedIsWhole(0xC021, PacketOctets(9, id, data));
    case OtherProtocol(frame) =>
      Conformance.WritesDataMessages(frame);
      DataRoundTrip(frame, []);
      assert EncodeData(frame) + [] == EncodeData(frame);
  }

  lemma MoveIsWhole(env: Env, cfg: Config, magic: Word32, w: World, m: Move, draws: Draws, bytes: seq<Byte>)
    requires Handshake.Fair(env, cfg, magic)
    requires Completeness.OnTrack(env, cfg, magic, w) && Enabled(w.server, m)
    requires bytes == DoMove(cfg, w.server, m).bytes
    ensures Sizes.WholePacket(bytes)
  {
    var e, srv := w.engine, w.server;
    match m
    case AckConnect => AckIsWhole(cfg);
    case ReplyLcp =>
      Handshake.LcpReplied(cfg, magic, e.lcp, srv, draws.magics);
      CarriedIsWhole(0xC021, AnswerLcp(cfg, srv.lcpRequest.value));
    case OwnLcp =>
      Handshake.OwnRequestsFit(cfg);
      CarriedIsWhole(0xC021, PacketOctets(1, cfg.lcpId, LcpOwnData(cfg)));
    case SendChallenge =>
      CarriedIsWhole(0xC223, PacketOctets(1, cfg.chapId, ChallengeData(cfg)));
    case Judge =>
      Completeness.VerdictHeard(env, cfg, magic, e, srv, draws);
      CarriedIsWhole(0xC223, Judgement(cfg, srv.response.value).1);
    case ReplyIpcp =>
      Handshake.IpcpReplied(cfg, e.ipcp, srv);
      CarriedIsWhole(0x8021, AnswerIpcp(cfg, srv.ipcpRequest.value));
    case OwnIpcp =>
      Handshake.OwnRequestsFit(cfg);
      CarriedIsWhole(0x8021, PacketOctets(1, cfg.ipcpId, IpcpOwnData(cfg)));
    case Says(aside) => AsideIsWhole(aside);
  }

  // ----- One reply in the loop -----

  /** What the end of the handshake makes of the connection. */
  function TunnelAfter(negotiated: Ipcp.Config, tunnelOk: bool): Option<TunnelEnd> {
    if negotiated.localIp.Some? && negotiated.peerIp.Some? && tunnelOk
    then Some(TunnelEnd(negotiated.localIp.value, negotiated.peerIp.value)) else None
  }

  /** The interface was reported up last, if it came up. */
  predicate ReportsUp(outs: seq<Output>, negotiated: Ipcp.Config, up: bool) {
    if up then outs != [] && outs[|outs| - 1] == Up(negotiated) && !HasUp(outs[..|outs| - 1])
    else !HasUp(outs)
  }

  lemma SmoothEvents(c: Conn, list: seq<Event>, tunnelOk: bool)
    requires forall i :: 0 <= i < |list| ==> !Replies.Lifecycle(list[i])
    ensures var s := HandleEvents(c, list, tunnelOk);
      s.conn == c && !HasUp(s.outs) && WritesOf(s.outs) == SendsOf(list)
  {
    NothingDropped(c, list, tunnelOk);
    PlainThen(c, list, [], tunnelOk);
    NoUpInPlain(c.tunnel.Some?, list);
    assert list + [] == list;
    assert PlainOutputs(c.tunnel.Some?, list) + [] == PlainOutputs(c.tunnel.Some?, list);
  }

  lemma {:induction false} NoUpInPlain(up: bool, list: seq<Event>)
    requires forall i :: 0 <= i < |list| ==> !Replies.Lifecycle(list[i])
    ensures !HasUp(PlainOutputs(up, list))
  {
    if list != [] {
      NoUpInPlain(up, list[1..]);
      var all, rest := PlainOutputs(up, list), PlainOutputs(up, list[1..]);
      HasUpConcat(all[..|all| - |rest|], rest);
      assert all == all[..|all| - |rest|] + rest;
    }
  }

  lemma LastEvent(c: Conn, e: Event, tunnelOk: bool)
    requires c.tunnel.None? && c.ended.None? && e.Established?
    ensures var s := HandleEvents(c, [e], tunnelOk);
      && s.conn == c.(tunnel := TunnelAfter(e.negotiated, tunnelOk), ended := ConnectionTable.EndedAfter(e.negotiated, tunnelOk))
      && s.outs == if s.conn.tunnel.Some? then [Up(e.negotiated)] else []
  {
    assert [e][1..] == [];
  }

  lemma LastEvents(c: Conn, list: seq<Event>, tunnelOk: bool)
    requires c.tunnel.None? && c.ended.None?
    requires list != [] && list[|list| - 1].Established?
    requires forall i :: 0 <= i < |list| - 1 ==> !Replies.Lifecycle(list[i])
    ensures var s, negotiated := HandleEvents(c, list, tunnelOk), list[|list| - 1].negotiated;
      && s.conn == c.(tunnel := TunnelAfter(negotiated, tunnelOk), ended := ConnectionTable.EndedAfter(negotiated, tunnelOk))
      && ReportsUp(s.outs, negotiated, s.conn.tunnel.Some?)
  {
    var last := |list| - 1;
    var plain := PlainOutputs(false, list[..last]);
    assert list == list[..last] + [list[last]];
    PlainThen(c, list[..last], [list[last]], tunnelOk);
    LastEvent(c, list[last], tunnelOk);
    NoUpInPlain(false, list[..last]);
    UpBehind(plain, HandleEvents(c, [list[last]], tunnelOk).outs, list[last].negotiated);
  }

  lemma UpBehind(plain: seq<Output>, end: seq<Output>, negotiated: Ipcp.Config)
    requires !HasUp(plain) && (end == [] || end == [Up(negotiated)])
    ensures ReportsUp(plain + end, negotiated, end != [])
  {
    if end == [] {
      assert plain + end == plain;
    } else {
      assert (plain + end)[..|plain|] == plain;
    }
  }

  /** Where one move of the server leaves the connection. */
  predicate Moved(cfg: Config, c: Conn, w: World, tunnelOk: bool, s: Step) {
    var done := w.engine.phase == EstablishedPhase;
    var negotiated := Handshake.ExpectedConfig(cfg);
    && s.conn == c.(
         engine := w.engine, handled := c.handled + 1,
         tunnel := if done then TunnelAfter(negotiated, tunnelOk) else None,
         ended := if done then ConnectionTable.EndedAfter(negotiated, tunnelOk) else None)
    && w.lastReply.Events? && WritesOf(s.outs) == SendsOf(w.lastReply.list)
    && ReportsUp(s.outs, negotiated, s.conn.tunnel.Some?)
  }

  lemma ReplyMoved(cfg: Config, c: Conn, w: World, tunnelOk: bool)
    requires c.tunnel.None? && c.ended.None?
    requires Completeness.Smooth(w.lastReply) && Replies.Disciplined(w.lastReply.list)
    requires w.engine.phase == EstablishedPhase ==> Completeness.Done(cfg, w)
    requires w.engine.phase != EstablishedPhase ==>
      forall i :: 0 <= i < |w.lastReply.list| ==> !w.lastReply.list[i].Established?
    ensures Moved(cfg, c, w, tunnelOk, Settle(c, Turn(w.engine, w.lastReply), tunnelOk))
  {
    var list := w.lastReply.list;
    var after := c.(engine := w.engine, handled := c.handled + 1);
    assert forall i :: 0 <= i < |list| ==> list[i] in list;
    NothingDropped(after, list, tunnelOk);
    if w.engine.phase == EstablishedPhase {
      LastEvents(after, list, tunnelOk);
    } else {
      SmoothEvents(after, list, tunnelOk);
    }
  }

  lemma OneMove(env: Env, cfg: Config, magic: Word32, c: Conn, w: World, m: Move, luck: Luck)
    requires Handshake.Fair(env, cfg, magic)
    requires Completeness.OnTrack(env, cfg, magic, w) && Enabled(w.server, m)
    requires c.engine == w.engine && c.tunnel.None? && c.ended.None?
    ensures var bytes := DoMove(cfg, w.server, m).bytes;
      && Decode(bytes).Ok?
      && Moved(cfg, c, Advance(env, cfg, w, m, luck.draws), luck.tunnel, HandlePacket(env, c, Decode(bytes).value, luck))
  {
    MoveIsWhole(env, cfg, magic, w, m, luck.draws, DoMove(cfg, w.server, m).bytes);
    Completeness.EveryMoveKeepsTrack(env, cfg, magic, w, m, luck.draws);
    var p := Decode(DoMove(cfg, w.server, m).bytes).value;
    var next := Advance(env, cfg, w, m, luck.draws);
    EngineLaws.StepBinds(env, w.engine, EngineRuns.Input(p, luck.draws));
    ReplyMoved(cfg, c, next, luck.tunnel);
  }

  // ----- A whole play, one packet after another -----

  lemma NextPacket(env: Env, c: Conn, wire: seq<Byte>, rest: seq<Byte>, luck: nat -> Luck)
    requires Sizes.WholePacket(wire)
    ensures var one := HandlePacket(env, c.(buf := rest), Decode(wire).value, luck(c.handled));
      HandlePackets(env, c.(buf := wire + rest), luck)
      == if one.conn.ended.Some? then one else Then(one.outs, HandlePackets(env, one.conn, luck))
  {
    Streams.DecodeStable(wire, rest);
    assert (wire + rest)[|wire|..] == rest;
  }

  /** Where a play leaves the connection. */
  predicate Played(cfg: Config, c: Conn, w: World, moves: nat, sends: seq<seq<Byte>>, luck: nat -> Luck, s: Step) {
    var done := w.engine.phase == EstablishedPhase;
    var negotiated := Handshake.ExpectedConfig(cfg);
    var tunnelOk := s.conn.handled > 0 && luck(s.conn.handled - 1).tunnel;
    && s.conn == c.(
         buf := [], engine := w.engine, handled := c.handled + moves,
         tunnel := if done then TunnelAfter(negotiated, tunnelOk) else None,
         ended := if done then ConnectionTable.EndedAfter(negotiated, tunnelOk) else None)
    && WritesOf(s.outs) == sends
    && ReportsUp(s.outs, negotiated, s.conn.tunnel.Some?)
  }

  lemma PlayedThen(cfg: Config, c: Conn, one: Step, w: World, moves: nat, sends: seq<seq<Byte>>, luck: nat -> Luck, s: Step)
    requires one.conn.tunnel.None? && one.conn.ended.None? && !HasUp(one.outs)
    requires one.conn == c.(buf := one.conn.buf, engine := one.conn.engine, handled := c.handled + 1)
    requires Played(cfg, one.conn, w, moves, sends, luck, s)
    ensures Played(cfg, c, w, moves + 1, WritesOf(one.outs) + sends, luck, Then(one.outs, s))
  {
    WritesOfConcat(one.outs, s.outs);
    HasUpConcat(one.outs, s.outs);
    if s.conn.tunnel.Some? {
      var n := |s.outs| - 1;
      HasUpConcat(one.outs, s.outs[..n]);
      assert (one.outs + s.outs)[..|one.outs| + n] == one.outs + s.outs[..n];
    }
  }

  /** Once the client is established, an honest server has no move left. */
  lemma NoMoreMoves(env: Env, cfg: Config, magic: Word32, w: World, moves: seq<Turned>)
    requires Completeness.OnTrack(env, cfg, magic, w) && w.engine.phase == EstablishedPhase
    requires Legal(env, cfg, w, moves)
    ensures moves == []
  {
    Completeness.DoneIsStuck(env, cfg, magic, w);
  }

  /** The connection's step on the first packet of a play. */
  function FirstStep(env: Env, cfg: Config, w: World, moves: seq<Turned>, c: Conn, luck: nat -> Luck): Step
    requires Legal(env, cfg, w, moves) && moves != []
  {
    var next := Advance(env, cfg, w, moves[0].move, moves[0].draws);
    var primed := c.(buf := ServerBytes(env, cfg, next, moves[1..]));
    match Decode(DoMove(cfg, w.server, moves[0].move).bytes)
    case Ok(p) => HandlePacket(env, primed, p, luck(c.handled))
    case Err(_) => Step(primed, [])
  }

  /** The first packet is handled as the play says, and the others after it. */
  predicate FirstHandled(env: Env, cfg: Config, w: World, moves: seq<Turned>, c: Conn, luck: nat -> Luck)
    requires Legal(env, cfg, w, moves) && moves != []
  {
    var next, one := Advance(env, cfg, w, moves[0].move, moves[0].draws), FirstStep(env, cfg, w, moves, c, luck);
    && Moved(cfg, c.(buf := ServerBytes(env, cfg, next, moves[1..])), next, luck(c.handled).tunnel, one)
    && HandlePackets(env, c.(buf := ServerBytes(env, cfg, w, moves)), luck)
       == if one.conn.ended.Some? then one else Then(one.outs, HandlePackets(env, one.conn, luck))
  }

  lemma FirstMove(env: Env, cfg: Config, magic: Word32, w: World, moves: seq<Turned>, c: Conn, luck: nat -> Luck)
    requires Handshake.Fair(env, cfg, magic) && Completeness.OnTrack(env, cfg, magic, w)
    requires Legal(env, cfg, w, moves) && moves != [] && moves[0].draws == luck(c.handled).draws
    requires c.engine == w.engine && c.tunnel.None? && c.ended.None?
    ensures Completeness.OnTrack(env, cfg, magic, Advance(env, cfg, w, moves[0].move, moves[0].draws))
    ensures FirstHandled(env, cfg, w, moves, c, luck)
  {
    var m, wire := moves[0].move, DoMove(cfg, w.server, moves[0].move).bytes;
    var next := Advance(env, cfg, w, m, moves[0].draws);
    var rest := ServerBytes(env, cfg, next, moves[1..]);
    MoveIsWhole(env, cfg, magic, w, m, moves[0].draws, wire);
    Completeness.EveryMoveKeepsTrack(env, cfg, magic, w, m, moves[0].draws);
    OneMove(env, cfg, magic, c.(buf := rest), w, m, luck(c.handled));
    NextPacket(env, c, wire, rest, luck);
  }

  lemma PlayTail(env: Env, cfg: Config, w: World, moves: seq<Turned>, next: World)
    requires Legal(env, cfg, w, moves) && moves != [] && next == Advance(env, cfg, w, moves[0].move, moves[0].draws)
    requires next.lastReply.Events?
    ensures Legal(env, cfg, next, moves[1..])
    ensures Play(env, cfg, w, moves) == Play(env, cfg, next, moves[1..])
    ensures ClientSends(env, cfg, w, moves) == SendsOf(next.lastReply.list) + ClientSends(env, cfg, next, moves[1..])
  {
  }

  /** The connection follows the play to its end. */
  predicate FollowsPlay(env: Env, cfg: Config, w: World, moves: seq<Turned>, c: Conn, luck: nat -> Luck)
    requires Legal(env, cfg, w, moves)
  {
    Played(cfg, c, Play(env, cfg, w, moves), |moves|, ClientSends(env, cfg, w, moves), luck,
           HandlePackets(env, c.(buf := ServerBytes(env, cfg, w, moves)), luck))
  }

  /** A connection in the middle of an honest handshake. */
  ghost predicate InStep(env: Env, cfg: Config, magic: Word32, w: World, c: Conn) {
    && Handshake.Fair(env, cfg, magic) && Completeness.OnTrack(env, cfg, magic, w)
    && c.engine == w.engine && c.tunnel.None? && c.ended.None? && w.engine.phase != EstablishedPhase
  }

  /** What is left to show behind the first move. */
  predicate RestFollows(env: Env, cfg: Config, w: World, moves: seq<Turned>, c: Conn, luck: nat -> Luck)
    requires Legal(env, cfg, w, moves) && moves != []
  {
    var next := Advance(env, cfg, w, moves[0].move, moves[0].draws);
    if next.engine.phase == EstablishedPhase then moves[1..] == []
    else FollowsPlay(env, cfg, next, moves[1..], FirstStep(env, cfg, w, moves, c, luck).conn, luck)
  }

  /** The first step and what follows it, put together. */
  lemma Joined(cfg: Config, c: Conn, next: World, last: World, left: nat, sends: seq<seq<Byte>>, luck: nat -> Luck,
               rest: seq<Byte>, one: Step, tail: Step)
    requires c.tunnel.None? && c.ended.None?
    requires Moved(cfg, c.(buf := rest), next, luck(c.handled).tunnel, one)
    requires if next.engine.phase == EstablishedPhase
      then left == 0 && last == next && rest == [] && sends == [] && tail == Step(one.conn, [])
      else Played(cfg, one.conn, last, left, sends, luck, tail)
    ensures Played(cfg, c, last, left + 1, SendsOf(next.lastReply.list) + sends, luck,
                   if one.conn.ended.Some? then one else Then(one.outs, tail))
  {
    if next.engine.phase == EstablishedPhase {
      assert one.outs + [] == one.outs;
      assert SendsOf(next.lastReply.list) + [] == SendsOf(next.lastReply.list);
    } else {
      PlayedThen(cfg, c, one, last, left, sends, luck, tail);
    }
  }

  lemma EmptyPlay(env: Env, cfg: Config, w: World, moves: seq<Turned>, c: Conn, luck: nat -> Luck)
    requires Legal(env, cfg, w, moves)
    ensures moves == [] ==>
      Play(env, cfg, w, moves) == w && ClientSends(env, cfg, w, moves) == [] && ServerBytes(env, cfg, w, moves) == []
    ensures c.buf == [] ==> HandlePackets(env, c, luck) == Step(c, [])
  {
  }

  lemma JoinMoves(env: Env, cfg: Config, w: World, moves: seq<Turned>, c: Conn, luck: nat -> Luck)
    requires Legal(env, cfg, w, moves) && moves != [] && c.tunnel.None? && c.ended.None?
    requires FirstHandled(env, cfg, w, moves, c, luck) && RestFollows(env, cfg, w, moves, c, luck)
    ensures FollowsPlay(env, cfg, w, moves, c, luck)
  {
    var next := Advance(env, cfg, w, moves[0].move, moves[0].draws);
    var one := FirstStep(env, cfg, w, moves, c, luck);
    PlayTail(env, cfg, w, moves, next);
    EmptyPlay(env, cfg, next, moves[1..], one.conn, luck);
    Joined(cfg, c, next, Play(env, cfg, next, moves[1..]), |moves| - 1, ClientSends(env, cfg, next, moves[1..]),
           luck, ServerBytes(env, cfg, next, moves[1..]), one,
           HandlePackets(env, one.conn, luck));
  }

  /** The connection stays in step with the play, or the play is over. */
  lemma NextInStep(env: Env, cfg: Config, magic: Word32, w: World, moves: seq<Turned>, c: Conn, luck: nat -> Luck)
    requires InStep(env, cfg, magic, w, c) && Legal(env, cfg, w, moves)
    requires moves != [] && moves[0].draws == luck(c.handled).draws
    ensures var next, one := Advance(env, cfg, w, moves[0].move, moves[0].draws), FirstStep(env, cfg, w, moves, c, luck);
      if next.engine.phase == EstablishedPhase then moves[1..] == []
      else InStep(env, cfg, magic, next, one.conn) && one.conn.handled == c.handled + 1
  {
    var next := Advance(env, cfg, w, moves[0].move, moves[0].draws);
    FirstMove(env, cfg, magic, w, moves, c, luck);
    if next.engine.phase == EstablishedPhase {
      NoMoreMoves(env, cfg, magic, next, moves[1..]);
    }
  }

  lemma {:induction false} PlayIsHandled(env: Env, cfg: Config, magic: Word32, w: World, moves: seq<Turned>, c: Conn, luck: nat -> Luck)
    requires InStep(env, cfg, magic, w, c) && Legal(env, cfg, w, moves) && SameLuck(moves, c.handled, luck)
    ensures FollowsPlay(env, cfg, w, moves, c, luck)
    decreases |moves|, 1
  {
    if moves == [] {
      EmptyPlay(env, cfg, w, moves, c.(buf := []), luck);
    } else {
      SameLuckTail(moves, c.handled, luck, c.handled + 1);
      RestIsHandled(env, cfg, magic, w, moves, c, luck);
      FirstMove(env, cfg, magic, w, moves, c, luck);
      JoinMoves(env, cfg, w, moves, c, luck);
    }
  }

  lemma {:induction false} RestIsHandled(env: Env, cfg: Config, magic: Word32, w: World, moves: seq<Turned>, c: Conn, luck: nat -> Luck)
    requires InStep(env, cfg, magic, w, c) && moves != [] && Legal(env, cfg, w, moves) && SameLuck(moves, c.handled, luck)
    ensures RestFollows(env, cfg, w, moves, c, luck)
    decreases |moves|, 0
  {
    var next := Advance(env, cfg, w, moves[0].move, moves[0].draws);
    SameLuckTail(moves, c.handled, luck, c.handled + 1);
    NextInStep(env, cfg, magic, w, moves, c, luck);
    if next.engine.phase != EstablishedPhase {
      var after := FirstStep(env, cfg, w, moves, c, luck).conn;
      SameLuckTail(moves, c.handled, luck, after.handled);
      PlayIsHandled(env, cfg, magic, next, moves[1..], after, luck);
    }
  }

  // ----- From the first byte on -----

  /** Where the connection stands after reading everything the server sent in a play. */
  predicate Outcome(cfg: Config, w: World, moves: nat, sends: seq<seq<Byte>>, luck: nat -> Luck, t: Trail) {
    var negotiated := Handshake.ExpectedConfig(cfg);
    var done, tunnelOk := w.engine.phase == EstablishedPhase, moves > 0 && luck(moves - 1).tunnel;
    && t.conn.engine == w.engine
    && WritesOf(t.outs) == [ConnectRequestPacket()] + sends
    && t.conn.tunnel == (if done then TunnelAfter(negotiated, tunnelOk) else None)
    && t.conn.ended == (if done then ConnectionTable.EndedAfter(negotiated, tunnelOk) else None)
    && ReportsUp(t.outs, negotiated, t.conn.tunnel.Some?)
  }

  lemma GreetedOutcome(cfg: Config, magic: Word32, bytes: seq<Byte>, w: World, moves: nat, sends: seq<seq<Byte>>, luck: nat -> Luck, s: Step, t: Trail)
    requires Played(cfg, Framed(magic, bytes), w, moves, sends, luck, s)
    requires SameBehaviour(AsStep(t), Then(Greeting(ConnectRequestPacket()), s))
    ensures Outcome(cfg, w, moves, sends, luck, t)
  {
    var hello := Greeting(ConnectRequestPacket());
    GreetingWrites(ConnectRequestPacket());
    WritesOfConcat(hello, s.outs);
    HasUpConcat(hello, s.outs);
    if s.conn.tunnel.Some? {
      var n := |s.outs| - 1;
      HasUpConcat(hello, s.outs[..n]);
      assert (hello + s.outs)[..|hello| + n] == hello + s.outs[..n];
    }
  }

  lemma GreetingWrites(request: seq<Byte>)
    ensures WritesOf(Greeting(request)) == [request] && !HasUp(Greeting(request))
  {
    OneWrite(request);
    WritesOfConcat([Progress], [ToServer(request)]);
    WritesOfConcat([Progress, ToServer(request)], [Progress]);
    assert [Progress] + [ToServer(request)] == [Progress, ToServer(request)];
    assert [Progress, ToServer(request)] + [Progress] == Greeting(request);
    assert [Output.Progress][1..] == [];
  }

  /** The headers are read to their end, and the handover keeps the rest of the stream. */
  lemma HeadersAreRead(chunks: seq<seq<Byte>>, head: seq<Byte>, bytes: seq<Byte>)
    requires AllNonEmpty(chunks) && Flatten(chunks) == head + bytes
    requires Http.ParseResponse(head) == Ok((200, |head|))
    ensures Streams.ReadHttp([], chunks).Switched? && Streams.ReadHttp([], chunks).offset == |head|
    ensures Flatten(chunks)[|head|..] == bytes
  {
    Http.ParseResponseStable(head, bytes);
    Streams.ReadHttpIsParse([], chunks);
    AllReceived(chunks);
    assert [] + Flatten(chunks) == Flatten(chunks);
  }

  /**
   An honest server behind any good response, its bytes cut into reads in any way: the client writes
   exactly its packets of the play, and once the server has nothing left to do, and not before, the
   interface is up with the addresses the server assigned, unless the server refuses to assign any
   or the interface cannot be created, with which the connection ends.
   */
  lemma HonestServerComesUp(
    env: Env, cfg: Config, magic: Word32, asides: nat, moves: seq<Turned>, head: seq<Byte>, chunks: seq<seq<Byte>>, luck: nat -> Luck)
    requires Handshake.Fair(env, cfg, magic)
    requires Legal(env, cfg, NewWorld(magic, asides), moves) && SameLuck(moves, 0, luck)
    requires Http.ParseResponse(head) == Ok((200, |head|))
    requires AllNonEmpty(chunks) && Flatten(chunks) == head + ServerBytes(env, cfg, NewWorld(magic, asides), moves)
    requires var h := Streams.ReadHttp([], chunks); h.Switched? ==> h.later != []
    ensures var w := Play(env, cfg, NewWorld(magic, asides), moves);
      && Outcome(cfg, w, |moves|, ClientSends(env, cfg, NewWorld(magic, asides), moves), luck,
                 RunFrom(env, NewConn(magic), Reads(chunks), luck))
      && (Completeness.Stuck(w.server) <==> w.engine.phase == EstablishedPhase)
  {
    var start := NewWorld(magic, asides);
    var bytes := ServerBytes(env, cfg, start, moves);
    HeadersAreRead(chunks, head, bytes);
    OnlyTheStreamMatters(env, magic, chunks, luck);
    Completeness.HonestServerSucceeds(env, cfg, magic, asides, moves);
    HandledFromStart(env, cfg, magic, start, moves, luck);
    GreetedOutcome(cfg, magic, bytes, Play(env, cfg, start, moves), |moves|, ClientSends(env, cfg, start, moves), luck,
                   HandlePackets(env, Framed(magic, bytes), luck), RunFrom(env, NewConn(magic), Reads(chunks), luck));
  }

  lemma HandledFromStart(env: Env, cfg: Config, magic: Word32, start: World, moves: seq<Turned>, luck: nat -> Luck)
    requires Handshake.Fair(env, cfg, magic) && start == NewWorld(magic, start.server.asides)
    requires Legal(env, cfg, start, moves) && SameLuck(moves, 0, luck)
    ensures var bytes := ServerBytes(env, cfg, start, moves);
      Played(cfg, Framed(magic, bytes), Play(env, cfg, start, moves), |moves|, ClientSends(env, cfg, start, moves), luck,
             HandlePackets(env, Framed(magic, bytes), luck))
  {
    var c := Framed(magic, ServerBytes(env, cfg, start, moves));
    PlayIsHandled(env, cfg, magic, start, moves, c, luck);
    assert c.(buf := ServerBytes(env, cfg, start, moves)) == c;
  }
}
