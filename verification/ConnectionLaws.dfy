/** The connection loop's guarantees, for every run. */
module ConnectionLaws {
  import opened Bytes
  import opened Packet
  import opened Engine
  import opened Replies
  import opened Connection

  // ----- Events before a lifecycle event -----

  /** What a list without lifecycle events makes the loop do. */
  function PlainOutputs(up: bool, list: seq<Event>): seq<Output>
    requires forall i :: 0 <= i < |list| ==> !Lifecycle(list[i])
  {
    if list == [] then []
    else
      (match list[0]
       case Send(bytes) => [ToServer(bytes)]
       case DeliverIpPacket(ip) => if up then [ToTunnel(ip)] else []
       case _ => [Progress])
      + PlainOutputs(up, list[1..])
  }

  lemma PlainThen(c: Conn, a: seq<Event>, b: seq<Event>, tunnelOk: bool)
    requires forall i :: 0 <= i < |a| ==> !Lifecycle(a[i])
    ensures HandleEvents(c, a + b, tunnelOk) == Then(PlainOutputs(c.tunnel.Some?, a), HandleEvents(c, b, tunnelOk))
    decreases |a|
  {
    ThenThen([], [], HandleEvents(c, b, tunnelOk));
    if a == [] {
      assert a + b == b;
    } else {
      PlainThen(c, a[1..], b, tunnelOk);
      assert (a + b)[0] == a[0] && (a + b)[1..] == a[1..] + b;
      var rest := PlainOutputs(c.tunnel.Some?, a[1..]);
      var now := PlainOutputs(c.tunnel.Some?, a);
      assert now == now[..|now| - |rest|] + rest;
      ThenThen(now[..|now| - |rest|], rest, HandleEvents(c, b, tunnelOk));
    }
  }

  /** The writes the engine asked for. */
  function SendsOf(list: seq<Event>): seq<seq<Byte>> {
    if list == [] then []
    else (if list[0].Send? then [list[0].bytes] else []) + SendsOf(list[1..])
  }

  function WritesOf(outs: seq<Output>): seq<seq<Byte>> {
    if outs == [] then []
    else (if outs[0].ToServer? then [outs[0].bytes] else []) + WritesOf(outs[1..])
  }

  lemma WritesOfConcat(a: seq<Output>, b: seq<Output>)
    ensures WritesOf(a + b) == WritesOf(a) + WritesOf(b)
  {
    if a == [] {
      assert a + b == b;
    } else {
      WritesOfConcat(a[1..], b);
      assert (a + b)[0] == a[0] && (a + b)[1..] == a[1..] + b;
      Associate(if a[0].ToServer? then [a[0].bytes] else [], WritesOf(a[1..]), WritesOf(b));
    }
  }

  /** Returning on a lifecycle event drops no Send when that event is the last. */
  lemma NothingDropped(c: Conn, list: seq<Event>, tunnelOk: bool)
    requires forall i :: 0 <= i < |list| - 1 ==> !Lifecycle(list[i])
    ensures WritesOf(HandleEvents(c, list, tunnelOk).outs) == SendsOf(list)
    decreases |list|
  {
    if list != [] {
      var s := HandleEvents(c, list, tunnelOk);
      if Lifecycle(list[0]) {
        assert |list| == 1 && list[1..] == [];
        assert s.outs == [] || (s.outs[1..] == [] && !s.outs[0].ToServer?);
      } else {
        NothingDropped(c, list[1..], tunnelOk);
        var rest := HandleEvents(c, list[1..], tunnelOk).outs;
        assert s.outs == rest || s.outs[1..] == rest;
      }
    }
  }

  /**
   For every packet in every state: unless the engine panics, everything it wants sent is written,
   in order, whether or not the connection ends on this packet.
   */
  lemma EverySendIsWritten(env: Env, c: Conn, p: Packet, luck: Luck)
    ensures var reply := OnPacket(env, c.engine, p, luck.draws).reply;
      reply.Events? ==> WritesOf(HandlePacket(env, c, p, luck).outs) == SendsOf(reply.list)
  {
    var t := OnPacket(env, c.engine, p, luck.draws);
    StepIsDisciplined(env, c.engine, p, luck.draws);
    if t.reply.Events? {
      SettledSends(c, t, luck.tunnel);
    }
  }

  lemma SettledSends(c: Conn, t: Turn, tunnelOk: bool)
    requires t.reply.Events? && Disciplined(t.reply.list)
    ensures WritesOf(Settle(c, t, tunnelOk).outs) == SendsOf(t.reply.list)
  {
    NothingDropped(c.(engine := t.state, handled := c.handled + 1), t.reply.list, tunnelOk);
  }
}
