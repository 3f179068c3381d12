/**
 The connection loop: bytes read from the server drive the engine, IP packets go to and come from
 the tunnel interface, a timer sends echoes. Every wait of the loop is an input here; what the
 loop writes, delivers or reports is an output.
 */
module Connection {
  import opened Wrappers
  import opened Bytes
  import opened Primitives
  import opened Packet
  import opened Engine
  import Http
  import Ipcp
  import Ppp
  import Tunnel

  const MAX_UNANSWERED_ECHOES := 4

  datatype TunnelEnd = TunnelEnd(local: Ipcp.Address, peer: Ipcp.Address)

  /** Why the loop returned. */
  datatype End =
    | ClosedInHandshake
    | HttpFailed(http: Http.ParseError)
    | StoppedByUser
    | ServerClosed
    | ServerDisconnected
    | MalformedPacket(error: DecodeError)
    | EngineFailed(reason: FatalReason)
    | EnginePanicked
    | NoAddresses
    | TunnelNotCreated
    | NotAnswering

  datatype Conn = Conn(
    /** the HTTP response has been read */
    framing: bool,
    httpBuf: seq<Byte>,
    /** the reader's buffer */
    buf: seq<Byte>,
    engine: State,
    tunnel: Option<TunnelEnd>,
    echoes: nat,
    /** packets handed to the engine so far; it selects their random inputs */
    handled: nat,
    ended: Option<End>)

  datatype Output = ToServer(bytes: seq<Byte>) | ToTunnel(packet: seq<Byte>) | Up(negotiated: Ipcp.Config) | Progress

  datatype Input = Chunk(bytes: seq<Byte>) | Tick | FromTunnel(packet: seq<Byte>) | Disconnect

  /** What chance decides while one packet is handled: random numbers, and whether the interface can be created. */
  datatype Luck = Luck(draws: Draws, tunnel: bool)

  datatype Step = Step(conn: Conn, outs: seq<Output>)

  function NewConn(magic: Word32): Conn {
    Conn(false, [], [], Initial(magic), None, 0, 0, None)
  }

  function Then(outs: seq<Output>, s: Step): Step {
    s.(outs := outs + s.outs)
  }

  lemma ThenThen(a: seq<Output>, b: seq<Output>, s: Step)
    ensures Then(a, Then(b, s)) == Then(a + b, s)
    ensures Then([], s) == s
  {
    assert a + (b + s.outs) == a + b + s.outs;
    assert [] + s.outs == s.outs;
  }

  function Stop(c: Conn, why: End): Step {
    Step(c.(ended := Some(why)), [])
  }

  /** The events of one packet, in order, up to the first that ends the connection. */
  function HandleEvents(c: Conn, list: seq<Event>, tunnelOk: bool): (s: Step)
    ensures s.conn == c.(tunnel := s.conn.tunnel, ended := s.conn.ended)
    decreases |list|
  {
    if list == [] then Step(c, [])
    else
      match list[0]
      case Send(bytes) => Then([ToServer(bytes)], HandleEvents(c, list[1..], tunnelOk))
      case Trace => Then([Progress], HandleEvents(c, list[1..], tunnelOk))
      case DeliverIpPacket(ip) =>
        Then(if c.tunnel.Some? then [ToTunnel(ip)] else [], HandleEvents(c, list[1..], tunnelOk))
      case Established(negotiated, _) =>
        if negotiated.localIp.None? || negotiated.peerIp.None? then Stop(c, NoAddresses)
        else if !tunnelOk then Stop(c, TunnelNotCreated)
        else
          var end := TunnelEnd(negotiated.localIp.value, negotiated.peerIp.value);
          Then([Up(negotiated)], HandleEvents(c.(tunnel := Some(end)), list[1..], tunnelOk))
      case Disconnected => Stop(c, ServerDisconnected)
      case Fatal(reason) => Stop(c, EngineFailed(reason))
  }

  function OnReply(c: Conn, reply: Reply, tunnelOk: bool): (s: Step)
    ensures s.conn.buf == c.buf
  {
    match reply
    case Panicked => Stop(c, EnginePanicked)
    case Events(list) => HandleEvents(c, list, tunnelOk)
  }

  /** The engine's new state, then its reply. */
  function Settle(c: Conn, t: Turn, tunnelOk: bool): (s: Step)
    ensures s.conn.buf == c.buf
  {
    OnReply(c.(engine := t.state, handled := c.handled + 1), t.reply, tunnelOk)
  }

  function HandlePacket(env: Env, c: Conn, p: Packet, luck: Luck): (s: Step)
    ensures s.conn.buf == c.buf
  {
    Settle(c, OnPacket(env, c.engine, p, luck.draws), luck.tunnel)
  }

  lemma PacketIsReply(env: Env, c: Conn, p: Packet, luck: Luck, t: Turn)
    requires t == OnPacket(env, c.engine, p, luck.draws)
    ensures HandlePacket(env, c, p, luck)
      == OnReply(c.(engine := t.state, handled := c.handled + 1), t.reply, luck.tunnel)
  {
  }

  /** The inner loop: whole packets are handled until none is left or the connection ends. */
  function HandlePackets(env: Env, c: Conn, luck: nat -> Luck): Step
    decreases |c.buf|
  {
    match Decode(c.buf)
    case Err(Incomplete) => Step(c, [])
    case Err(e) => Stop(c, MalformedPacket(e))
    case Ok(p) =>
      var one := HandlePacket(env, c.(buf := c.buf[PacketLength(c.buf)..]), p, luck(c.handled));
      if one.conn.ended.Some? then one else Then(one.outs, HandlePackets(env, one.conn, luck))
  }

  /** What follows a good HTTP response. */
  function Greeting(request: seq<Byte>): seq<Output> {
    [Progress, ToServer(request), Progress]
  }

  /** A read during the HTTP handshake; an empty one means the server has closed. */
  function OnHttpRead(c: Conn, bytes: seq<Byte>): Step {
    if bytes == [] then Stop(c, ClosedInHandshake)
    else
      var got := c.httpBuf + bytes;
      match Http.ParseResponse(got)
      case Err(HeadersIncomplete) => Step(c.(httpBuf := got), [])
      case Err(e) => Stop(c.(httpBuf := got), HttpFailed(e))
      case Ok((_, offset)) =>
        Http.OnlyStatus200(got);
        Step(c.(framing := true, httpBuf := got, buf := c.buf + got[offset..]), Greeting(ConnectRequestPacket()))
  }

  function OnRead(env: Env, c: Conn, bytes: seq<Byte>, luck: nat -> Luck): Step {
    if bytes == [] then Stop(c, ServerClosed)
    else HandlePackets(env, c.(echoes := 0, buf := c.buf + bytes), luck)
  }

  function OnTick(c: Conn): Step {
    if c.echoes >= MAX_UNANSWERED_ECHOES then Stop(c, NotAnswering)
    else Step(c.(echoes := c.echoes + 1), [ToServer(EchoRequestPacket())])
  }

  /** One turn of the loop. What it does not listen for in its present state, it leaves alone. */
  function OnInput(env: Env, c: Conn, i: Input, luck: nat -> Luck): Step {
    if c.ended.Some? then Step(c, [])
    else
      match i
      case Chunk(bytes) => if c.framing then OnRead(env, c, bytes, luck) else OnHttpRead(c, bytes)
      case Tick => if c.framing then OnTick(c) else Step(c, [])
      case FromTunnel(ip) => if c.tunnel.Some? then Step(c, [ToServer(Tunnel.IpFrame(ip))]) else Step(c, [])
      case Disconnect =>
        if c.framing then Then([ToServer(DisconnectPacket())], Stop(c, StoppedByUser)) else Step(c, [])
  }

  // ----- The loop, over its variables -----

  class Connection {
    const reader: PacketReader
    const engine: Engine
    var framing: bool
    var httpBuf: seq<Byte>
    var tunnel: Option<TunnelEnd>
    var echoes: nat
    var ended: Option<End>
    var handled: nat

    ghost function Model(): Conn
      reads this, reader, engine, engine.lcp, engine.ipcp
    {
      Conn(framing, httpBuf, reader.buf, engine.Model(), tunnel, echoes, handled, ended)
    }

    constructor (pr: Primitives, username: seq<Byte>, password: Text, certDer: seq<Byte>, magic: Word32)
      ensures Model() == NewConn(magic) && engine.env == NewEnv(pr, username, password, certDer)
      ensures fresh(this) && fresh(reader) && fresh(engine) && fresh(engine.lcp) && fresh(engine.ipcp)
    {
      reader := new PacketReader();
      engine := new Engine(pr, username, password, certDer, magic);
      framing := false;
      httpBuf := [];
      tunnel := None;
      echoes := 0;
      ended := None;
      handled := 0;
    }

    /** One read of the HTTP loop. */
    method HttpRead(bytes: seq<Byte>) returns (outs: seq<Output>)
      requires ended.None? && !framing
      modifies this, reader
      ensures Step(Model(), outs) == OnHttpRead(old(Model()), bytes)
    {
      outs := [];
      if bytes == [] {
        ended := Some(ClosedInHandshake);
        return;
      }
      httpBuf := httpBuf + bytes;
      Http.OnlyStatus200(httpBuf);
      match Http.ParseResponse(httpBuf) {
        case Ok((_, bodyOffset)) =>
          framing := true;
          outs := [Progress];
          reader.Push(httpBuf[bodyOffset..]);
          var request := ConnectRequestPacket();
          outs := outs + [ToServer(request)];
          outs := outs + [Progress];
          assert outs == Greeting(request);
        case Err(HeadersIncomplete) =>
        case Err(e) =>
          ended := Some(HttpFailed(e));
      }
    }

    /** The inner `for event in ..`, with its early returns. */
    method ReactTo(list: seq<Event>, tunnelOk: bool) returns (outs: seq<Output>)
      requires ended.None?
      modifies this`tunnel, this`ended
      ensures Step(Model(), outs) == HandleEvents(old(Model()), list, tunnelOk)
    {
      outs := [];
      for i := 0 to |list|
        invariant ended.None?
        invariant Then(outs, HandleEvents(Model(), list[i..], tunnelOk)) == HandleEvents(old(Model()), list, tunnelOk)
      {
        ghost var left := list[i..];
        assert left[0] == list[i] && left[1..] == list[i + 1..];
        ghost var before := outs;
        match list[i] {
          case Send(bytes) =>
            outs := outs + [ToServer(bytes)];
          case Trace =>
            outs := outs + [Progress];
          case DeliverIpPacket(ip) =>
            if tunnel.Some? {
              outs := outs + [ToTunnel(ip)];
            } else {
              assert outs + [] == outs;
            }
          case Established(negotiated, _) =>
            if negotiated.localIp.None? || negotiated.peerIp.None? {
              ended := Some(NoAddresses);
              return;
            }
            if !tunnelOk {
              ended := Some(TunnelNotCreated);
              return;
            }
            tunnel := Some(TunnelEnd(negotiated.localIp.value, negotiated.peerIp.value));
            outs := outs + [Up(negotiated)];
          case Disconnected =>
            ended := Some(ServerDisconnected);
            return;
          case Fatal(reason) =>
            ended := Some(EngineFailed(reason));
            return;
        }
        assert outs == before + outs[|before|..];
        ThenThen(before, outs[|before|..], HandleEvents(Model(), list[i + 1..], tunnelOk));
      }
      assert list[|list|..] == [];
    }

    /** One packet: the engine, then its events. */
    method Dispatch(p: Packet, luck: Luck) returns (outs: seq<Output>)
      requires ended.None?
      modifies this, engine, engine.lcp, engine.ipcp
      ensures Step(Model(), outs) == HandlePacket(engine.env, old(Model()), p, luck)
    {
      ghost var before := Model();
      handled := handled + 1;
      var reply := engine.Receive(p, luck.draws);
      ghost var t := Turn(engine.Model(), reply);
      PacketIsReply(engine.env, before, p, luck, t);
      assert Model() == before.(engine := t.state, handled := before.handled + 1);
      outs := Obey(reply, luck.tunnel);
    }

    method Obey(reply: Reply, tunnelOk: bool) returns (outs: seq<Output>)
      requires ended.None?
      modifies this`tunnel, this`ended
      ensures Step(Model(), outs) == OnReply(old(Model()), reply, tunnelOk)
    {
      match reply
      case Panicked =>
        ended := Some(EnginePanicked);
        return [];
      case Events(list) =>
        outs := ReactTo(list, tunnelOk);
    }

    /** The read branch, with the loop over `next_packet`. */
    method Read(bytes: seq<Byte>, luck: nat -> Luck) returns (outs: seq<Output>)
      requires ended.None? && framing
      modifies this, reader, engine, engine.lcp, engine.ipcp
      ensures Step(Model(), outs) == OnRead(engine.env, old(Model()), bytes, luck)
    {
      outs := [];
      if bytes == [] {
        ended := Some(ServerClosed);
        return;
      }
      echoes := 0;
      reader.Push(bytes);
      ghost var start := Model();
      while true
        invariant ended.None?
        invariant Then(outs, HandlePackets(engine.env, Model(), luck)) == HandlePackets(engine.env, start, luck)
        decreases |reader.buf|
      {
        var next := reader.NextPacket();
        match next {
          case Ok(None) =>
            return;
          case Err(e) =>
            ended := Some(MalformedPacket(e));
            return;
          case Ok(Some(p)) =>
            var more := Dispatch(p, luck(handled));
            ThenThen(outs, more, HandlePackets(engine.env, Model(), luck));
            outs := outs + more;
            if ended.Some? {
              return;
            }
        }
      }
    }

    method IdleTick() returns (outs: seq<Output>)
      requires ended.None? && framing
      modifies this`echoes, this`ended
      ensures Step(Model(), outs) == OnTick(old(Model()))
    {
      if echoes >= MAX_UNANSWERED_ECHOES {
        ended := Some(NotAnswering);
        return [];
      }
      echoes := echoes + 1;
      var echo := BuildCtrl(EchoRequest, []);
      outs := [ToServer(echo)];
    }

    /** A packet from the interface, wrapped and written. */
    method Forward(ip: seq<Byte>) returns (outs: seq<Output>)
      requires ended.None? && tunnel.Some?
      ensures forall luck :: Step(Model(), outs) == OnInput(engine.env, Model(), FromTunnel(ip), luck)
    {
      var ppp := Ppp.BuildFrame(Ppp.Ip, ip);
      var frame := BuildData(ppp);
      outs := [ToServer(frame)];
    }
  }
}
