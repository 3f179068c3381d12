/** Whole runs of a connection: any inputs in any order, with any luck. */
module ConnectionRuns {
  import opened Wrappers
  import opened Bytes
  import opened Packet
  import opened Engine
  import opened Replies
  import opened Connection
  import opened ConnectionLaws
  import Tunnel
  import Ppp
  import Ipcp

  /** A connection, everything it has put out, and the echoes it has sent since the last read. */
  datatype Trail = Trail(conn: Conn, outs: seq<Output>, echoesSent: nat)

  predicate IsEcho(o: Output) {
    o.ToServer? && IsControl(o.bytes, EchoRequest)
  }

  function CountEchoes(outs: seq<Output>): nat {
    if outs == [] then 0
    else (if IsEcho(outs[0]) then 1 else 0) + CountEchoes(outs[1..])
  }

  /** A way of taking one step. */
  type Stepper = (Conn, Input) -> Step

  function Extend(step: Stepper, t: Trail, i: Input): Trail {
    var s := step(t.conn, i);
    Trail(s.conn, t.outs + s.outs, if i.Chunk? then 0 else t.echoesSent + CountEchoes(s.outs))
  }

  function Fold(step: Stepper, c: Conn, inputs: seq<Input>): Trail {
    if inputs == [] then Trail(c, [], 0)
    else Extend(step, Fold(step, c, inputs[..|inputs| - 1]), inputs[|inputs| - 1])
  }

  function Turns(env: Env, luck: nat -> Luck): Stepper {
    (c, i) => OnInput(env, c, i, luck)
  }

  function RunFrom(env: Env, c: Conn, inputs: seq<Input>, luck: nat -> Luck): Trail {
    Fold(Turns(env, luck), c, inputs)
  }

  // ----- No traffic before the handshake has ended -----

  /** IP traffic in either direction. */
  predicate IsTraffic(o: Output) {
    o.ToTunnel? || (o.ToServer? && IsIpFrame(o.bytes))
  }

  predicate HasUp(outs: seq<Output>) {
    exists j :: 0 <= j < |outs| && outs[j].Up?
  }

  /** All traffic comes after the tunnel was reported up. */
  predicate Gated(outs: seq<Output>) {
    forall i :: 0 <= i < |outs| && IsTraffic(outs[i]) ==> HasUp(outs[..i])
  }

  /** The tunnel is reported up right after a CONNECTED was written. */
  predicate Announced(outs: seq<Output>) {
    forall i :: 0 <= i < |outs| && outs[i].Up? ==> i > 0 && outs[i - 1].ToServer? && IsControl(outs[i - 1].bytes, Connected)
  }

  predicate NoTraffic(outs: seq<Output>) {
    forall i :: 0 <= i < |outs| ==> !IsTraffic(outs[i])
  }

  /** What one step may put out: the tunnel is up, or it comes up, or there is no traffic. */
  predicate Orderly(c: Conn, s: Step) {
    && Announced(s.outs)
    && (c.tunnel.None? ==> Gated(s.outs))
    && (s.conn.tunnel.Some? ==> c.tunnel.Some? || HasUp(s.outs))
    && (c.tunnel.Some? ==> s.conn.tunnel.Some?)
  }

  lemma HasUpConcat(a: seq<Output>, b: seq<Output>)
    ensures HasUp(a + b) <==> HasUp(a) || HasUp(b)
  {
    if HasUp(a) {
      var j :| 0 <= j < |a| && a[j].Up?;
      assert (a + b)[j].Up?;
    }
    if HasUp(b) {
      var j :| 0 <= j < |b| && b[j].Up?;
      assert (a + b)[|a| + j].Up?;
    }
    if HasUp(a + b) {
      var j :| 0 <= j < |a + b| && (a + b)[j].Up?;
      if j < |a| {
        assert a[j].Up?;
      } else {
        assert b[j - |a|].Up?;
      }
    }
  }

  lemma GatedConcat(a: seq<Output>, b: seq<Output>)
    requires Gated(a) && (HasUp(a) || Gated(b))
    ensures Gated(a + b)
  {
    var ab := a + b;
    forall i | 0 <= i < |ab| && IsTraffic(ab[i])
      ensures HasUp(ab[..i])
    {
      if i < |a| {
        assert ab[..i] == a[..i];
        assert IsTraffic(a[i]);
      } else {
        assert ab[..i] == a + b[..i - |a|];
        assert IsTraffic(b[i - |a|]);
        HasUpConcat(a, b[..i - |a|]);
      }
    }
  }

  lemma AnnouncedConcat(a: seq<Output>, b: seq<Output>)
    requires Announced(a) && Announced(b)
    ensures Announced(a + b)
  {
    var ab := a + b;
    forall i | 0 <= i < |ab| && ab[i].Up?
      ensures i > 0 && ab[i - 1].ToServer? && IsControl(ab[i - 1].bytes, Connected)
    {
      if i < |a| {
        assert a[i].Up?;
      } else {
        assert b[i - |a|].Up?;
      }
    }
  }

  lemma OrderlyThen(c: Conn, first: Step, second: Step)
    requires Orderly(c, first) && Orderly(first.conn, second)
    ensures Orderly(c, Then(first.outs, second))
  {
    AnnouncedConcat(first.outs, second.outs);
    HasUpConcat(first.outs, second.outs);
    if c.tunnel.None? {
      if HasUp(first.outs) || Gated(second.outs) {
        GatedConcat(first.outs, second.outs);
      }
    }
  }

  /** Events without a lifecycle event put out nothing that needs an order. */
  lemma PlainIsOrderly(up: bool, list: seq<Event>)
    requires forall i :: 0 <= i < |list| ==> !Lifecycle(list[i])
    requires forall i :: 0 <= i < |list| && list[i].Send? ==> !IsIpFrame(list[i].bytes)
    ensures !HasUp(PlainOutputs(up, list))
    ensures !up ==> NoTraffic(PlainOutputs(up, list))
  {
    if list != [] {
      PlainIsOrderly(up, list[1..]);
      assert list[0].Send? ==> !IsIpFrame(list[0].bytes);
      var first := PlainOutputs(up, list)[..|PlainOutputs(up, list)| - |PlainOutputs(up, list[1..])|];
      assert PlainOutputs(up, list) == first + PlainOutputs(up, list[1..]);
      HasUpConcat(first, PlainOutputs(up, list[1..]));
    }
  }

  lemma PlainSnoc(up: bool, list: seq<Event>, bytes: seq<Byte>)
    requires forall i :: 0 <= i < |list| ==> !Lifecycle(list[i])
    ensures PlainOutputs(up, list + [Send(bytes)]) == PlainOutputs(up, list) + [ToServer(bytes)]
  {
    var all := list + [Send(bytes)];
    if list == [] {
      assert all == [Send(bytes)] && all[1..] == [];
    } else {
      PlainSnoc(up, list[1..], bytes);
      assert all[1..] == list[1..] + [Send(bytes)] && all[0] == list[0];
    }
  }

  lemma EventsOrderly(c: Conn, list: seq<Event>, tunnelOk: bool)
    requires Disciplined(list)
    ensures Orderly(c, HandleEvents(c, list, tunnelOk))
  {
    if list == [] || !Lifecycle(list[|list| - 1]) {
      PlainThen(c, list, [], tunnelOk);
      assert list + [] == list;
      PlainIsOrderly(c.tunnel.Some?, list);
      assert HandleEvents(c, [], tunnelOk) == Step(c, []);
      assert PlainOutputs(c.tunnel.Some?, list) + [] == PlainOutputs(c.tunnel.Some?, list);
    } else {
      var last := |list| - 1;
      assert list == list[..last] + [list[last]];
      PlainThen(c, list[..last], [list[last]], tunnelOk);
      PlainIsOrderly(c.tunnel.Some?, list[..last]);
      EndOrderly(c, list, tunnelOk);
    }
  }

  lemma EndOrderly(c: Conn, list: seq<Event>, tunnelOk: bool)
    requires Disciplined(list) && list != [] && Lifecycle(list[|list| - 1])
    requires var plain := PlainOutputs(c.tunnel.Some?, list[..|list| - 1]);
      !HasUp(plain) && (c.tunnel.None? ==> NoTraffic(plain))
    ensures Orderly(c, Then(PlainOutputs(c.tunnel.Some?, list[..|list| - 1]), HandleEvents(c, [list[|list| - 1]], tunnelOk)))
  {
    var n, e := |list|, list[|list| - 1];
    var plain := PlainOutputs(c.tunnel.Some?, list[..n - 1]);
    OneLifecycleEvent(c, e, tunnelOk);
    if HandleEvents(c, [e], tunnelOk).outs == [] {
      assert plain + [] == plain;
    } else {
      assert list[..n - 1] == list[..n - 2] + [list[n - 2]];
      PlainSnoc(c.tunnel.Some?, list[..n - 2], list[n - 2].bytes);
      UpAfterPlain(plain, e.negotiated);
    }
  }

  lemma OneLifecycleEvent(c: Conn, e: Event, tunnelOk: bool)
    requires Lifecycle(e)
    ensures var s := HandleEvents(c, [e], tunnelOk);
      if s.outs == [] then s.conn.tunnel == c.tunnel
      else e.Established? && s.outs == [Up(e.negotiated)] && s.conn.tunnel.Some?
  {
    assert [e][1..] == [];
  }

  lemma UpAfterPlain(plain: seq<Output>, negotiated: Ipcp.Config)
    requires !HasUp(plain)
    requires plain != [] && plain[|plain| - 1].ToServer? && IsControl(plain[|plain| - 1].bytes, Connected)
    ensures Announced(plain + [Up(negotiated)]) && HasUp(plain + [Up(negotiated)])
    ensures NoTraffic(plain) ==> Gated(plain + [Up(negotiated)])
  {
    assert (plain + [Up(negotiated)])[|plain|].Up?;
  }

  lemma SettledOrderly(c: Conn, t: Turn, tunnelOk: bool)
    requires t.reply.Events? ==> Disciplined(t.reply.list)
    ensures Orderly(c, Settle(c, t, tunnelOk))
  {
    if t.reply.Events? {
      EventsOrderly(c.(engine := t.state, handled := c.handled + 1), t.reply.list, tunnelOk);
    }
  }

  lemma PacketOrderly(env: Env, c: Conn, p: Packet, luck: Luck)
    ensures Orderly(c, HandlePacket(env, c, p, luck))
  {
    StepIsDisciplined(env, c.engine, p, luck.draws);
    SettledOrderly(c, OnPacket(env, c.engine, p, luck.draws), luck.tunnel);
  }

  lemma PacketsOrderly(env: Env, c: Conn, luck: nat -> Luck)
    ensures Orderly(c, HandlePackets(env, c, luck))
    decreases |c.buf|
  {
    match Decode(c.buf)
    case Err(_) =>
    case Ok(p) =>
      var next := c.(buf := c.buf[PacketLength(c.buf)..]);
      var one := HandlePacket(env, next, p, luck(c.handled));
      PacketOrderly(env, next, p, luck(c.handled));
      if one.conn.ended.None? {
        PacketsOrderly(env, one.conn, luck);
        OrderlyThen(next, one, HandlePackets(env, one.conn, luck));
      }
  }

  /** Control packets and progress reports need no order. */
  lemma QuietIsOrderly(c: Conn, s: Step)
    requires NoTraffic(s.outs) && !HasUp(s.outs) && s.conn.tunnel == c.tunnel
    ensures Orderly(c, s)
  {
  }

  lemma HttpOrderly(c: Conn, bytes: seq<Byte>)
    ensures Orderly(c, OnHttpRead(c, bytes))
  {
    ControlBytes(ConnectRequest, [Attr(EncapProtocol, [0, 1])]);
    QuietIsOrderly(c, OnHttpRead(c, bytes));
  }

  lemma ReadOrderly(env: Env, c: Conn, bytes: seq<Byte>, luck: nat -> Luck)
    ensures Orderly(c, OnRead(env, c, bytes, luck))
  {
    if bytes != [] {
      PacketsOrderly(env, c.(echoes := 0, buf := c.buf + bytes), luck);
    }
  }

  lemma OwnPacketsOrderly(c: Conn)
    ensures Orderly(c, OnTick(c))
    ensures Orderly(c, Then([ToServer(DisconnectPacket())], Stop(c, StoppedByUser)))
  {
    ControlBytes(EchoRequest, []);
    ControlBytes(MsgType.Disconnect, []);
    QuietIsOrderly(c, OnTick(c));
    QuietIsOrderly(c, Then([ToServer(DisconnectPacket())], Stop(c, StoppedByUser)));
  }

  lemma InputOrderly(env: Env, c: Conn, i: Input, luck: nat -> Luck)
    ensures Orderly(c, OnInput(env, c, i, luck))
  {
    QuietIsOrderly(c, Step(c, []));
    match i
    case Chunk(bytes) =>
      HttpOrderly(c, bytes);
      ReadOrderly(env, c, bytes, luck);
    case FromTunnel(_) =>
    case _ => OwnPacketsOrderly(c);
  }

  lemma {:induction false} OrderlyFold(step: Stepper, c: Conn, inputs: seq<Input>)
    requires forall c: Conn, i: Input :: Orderly(c, step(c, i))
    requires c.tunnel.None?
    ensures var t := Fold(step, c, inputs);
      && Gated(t.outs) && Announced(t.outs)
      && (t.conn.tunnel.Some? ==> HasUp(t.outs))
    decreases |inputs|
  {
    if inputs != [] {
      var last := |inputs| - 1;
      var before := Fold(step, c, inputs[..last]);
      OrderlyFold(step, c, inputs[..last]);
      var s := step(before.conn, inputs[last]);
      assert Orderly(before.conn, s);
      GatedConcat(before.outs, s.outs);
      AnnouncedConcat(before.outs, s.outs);
      HasUpConcat(before.outs, s.outs);
    }
  }

  /**
   In every run, all IP traffic, in either direction, comes after the tunnel was reported up, and
   the tunnel is reported up only right after a CONNECTED was written.
   */
  lemma NoTrafficBeforeConnected(env: Env, magic: Word32, inputs: seq<Input>, luck: nat -> Luck)
    ensures var t := RunFrom(env, NewConn(magic), inputs, luck);
      && Gated(t.outs) && Announced(t.outs)
      && (t.conn.tunnel.Some? ==> HasUp(t.outs))
  {
    var step := Turns(env, luck);
    forall c: Conn, i: Input
      ensures Orderly(c, step(c, i))
    {
      InputOrderly(env, c, i, luck);
    }
    OrderlyFold(step, NewConn(magic), inputs);
  }

  // ----- Echoes -----

  lemma EchoOrNot(ip: seq<Byte>)
    ensures IsEcho(ToServer(EchoRequestPacket())) && !IsEcho(ToServer(Tunnel.IpFrame(ip)))
  {
    ControlBytes(EchoRequest, []);
    DataBytes(Ppp.Ip, ip);
  }

  lemma CountOne(o: Output)
    ensures CountEchoes([o]) == if IsEcho(o) then 1 else 0
    ensures CountEchoes([]) == 0
  {
    assert [o][1..] == [];
  }

  /** What handling packets leaves alone. */
  lemma PacketsKeepEchoes(env: Env, c: Conn, luck: nat -> Luck)
    ensures var s := HandlePackets(env, c, luck); s.conn.echoes == c.echoes && s.conn.framing == c.framing
    decreases |c.buf|
  {
    if Decode(c.buf).Ok? {
      var one := HandlePacket(env, c.(buf := c.buf[PacketLength(c.buf)..]), Decode(c.buf).value, luck(c.handled));
      if one.conn.ended.None? {
        PacketsKeepEchoes(env, one.conn, luck);
      }
    }
  }

  predicate Counting(c: Conn) {
    c.echoes <= 4 && (!c.framing ==> c.echoes == 0)
  }

  /** What one input does to the counter. */
  predicate Counts(c: Conn, i: Input, s: Step) {
    && Counting(s.conn)
    && (c.ended.Some? ==> s == Step(c, []))
    && (s.conn.ended.None? ==> s.conn.echoes == if i.Chunk? then 0 else c.echoes + CountEchoes(s.outs))
  }

  lemma EchoStep(env: Env, c: Conn, i: Input, luck: nat -> Luck)
    requires Counting(c)
    ensures Counts(c, i, OnInput(env, c, i, luck))
  {
    if c.ended.None? {
      match i
      case Chunk(bytes) => ChunkResetsEchoes(env, c, bytes, luck);
      case Tick => TickEchoes(c);
      case FromTunnel(ip) => ForwardEchoes(ip);
      case Disconnect =>
    }
  }

  lemma TickEchoes(c: Conn)
    requires c.ended.None?
    ensures var s := OnTick(c);
      if s.conn.ended.None? then CountEchoes(s.outs) == 1 else s.outs == []
  {
    EchoCounts();
  }

  lemma EchoCounts()
    ensures CountEchoes([ToServer(EchoRequestPacket())]) == 1
  {
    EchoOrNot([]);
    OneEcho(EchoRequestPacket());
  }

  lemma OneEcho(bytes: seq<Byte>)
    requires IsEcho(ToServer(bytes))
    ensures CountEchoes([ToServer(bytes)]) == 1
  {
    CountOne(ToServer(bytes));
  }

  lemma ForwardEchoes(ip: seq<Byte>)
    ensures CountEchoes([ToServer(Tunnel.IpFrame(ip))]) == 0
  {
    EchoOrNot(ip);
    CountOne(ToServer(Tunnel.IpFrame(ip)));
  }

  lemma ChunkResetsEchoes(env: Env, c: Conn, bytes: seq<Byte>, luck: nat -> Luck)
    requires c.ended.None? && Counting(c)
    ensures var s := if c.framing then OnRead(env, c, bytes, luck) else OnHttpRead(c, bytes);
      && s.conn.echoes <= 4
      && (s.conn.ended.None? ==> s.conn.echoes == 0)
      && (!s.conn.framing ==> s.conn.echoes == 0)
  {
    if c.framing && bytes != [] {
      PacketsKeepEchoes(env, c.(echoes := 0, buf := c.buf + bytes), luck);
    }
  }

  lemma {:induction false} CountingFold(step: Stepper, c: Conn, inputs: seq<Input>)
    requires forall c: Conn, i: Input :: Counting(c) ==> Counts(c, i, step(c, i))
    requires Counting(c) && c.echoes == 0
    ensures var t := Fold(step, c, inputs);
      Counting(t.conn) && (t.conn.ended.None? ==> t.conn.echoes == t.echoesSent)
    decreases |inputs|
  {
    if inputs != [] {
      var last := |inputs| - 1;
      CountingFold(step, c, inputs[..last]);
      var before := Fold(step, c, inputs[..last]);
      assert Counts(before.conn, inputs[last], step(before.conn, inputs[last]));
    }
  }

  /** In every live run the counter is the number of echoes sent since the last read, and at most four. */
  lemma EchoesAreCounted(env: Env, magic: Word32, inputs: seq<Input>, luck: nat -> Luck)
    ensures var t := RunFrom(env, NewConn(magic), inputs, luck);
      && t.conn.echoes <= 4
      && (t.conn.ended.None? ==> t.conn.echoes == t.echoesSent)
  {
    var step := Turns(env, luck);
    forall c: Conn, i: Input | Counting(c)
      ensures Counts(c, i, step(c, i))
    {
      EchoStep(env, c, i, luck);
    }
    CountingFold(step, NewConn(magic), inputs);
  }

  predicate Silent(inputs: seq<Input>) {
    forall i :: 0 <= i < |inputs| ==> inputs[i].Tick? || inputs[i].FromTunnel?
  }

  function Ticks(inputs: seq<Input>): nat {
    if inputs == [] then 0
    else Ticks(inputs[..|inputs| - 1]) + (if inputs[|inputs| - 1].Tick? then 1 else 0)
  }

  /** While nothing arrives, the fifth tick, counted from the last read, ends the connection; nothing else does. */
  lemma {:induction false} FifthSilentTickEnds(env: Env, c: Conn, inputs: seq<Input>, luck: nat -> Luck)
    requires c.framing && c.ended.None? && c.echoes <= 4 && Silent(inputs)
    ensures var t := RunFrom(env, c, inputs, luck);
      && t.conn.framing
      && (t.conn.ended == Some(NotAnswering) <==> c.echoes + Ticks(inputs) > 4)
      && (t.conn.ended.None? ==> t.conn.echoes == c.echoes + Ticks(inputs))
      && (t.conn.ended.None? || t.conn.ended == Some(NotAnswering))
    decreases |inputs|
  {
    if inputs != [] {
      FifthSilentTickEnds(env, c, inputs[..|inputs| - 1], luck);
    }
  }
}
