/** Connections and byte streams: how reads are cut does not matter, and the tunnel is transparent end to end. */
module ConnectionStreams {
  import opened Wrappers
  import opened Bytes
  import opened Packet
  import opened Engine
  import opened Connection
  import opened ConnectionLaws
  import opened ConnectionRuns
  import Streams
  import Http
  import Tunnel
  import Ppp

  // ----- How reads are cut -----

  /** The same outputs and the same state; an ended connection may have left different bytes unread. */
  predicate SameStep(a: Step, b: Step) {
    && a.outs == b.outs
    && a.conn == b.conn.(buf := a.conn.buf)
    && (a.conn.ended.None? ==> a == b)
  }

  function WithBuf(s: Step, buf: seq<Byte>): Step {
    s.(conn := s.conn.(buf := buf))
  }

  lemma EventsIgnoreBuf(c: Conn, list: seq<Event>, tunnelOk: bool, buf: seq<Byte>)
    ensures HandleEvents(c.(buf := buf), list, tunnelOk) == WithBuf(HandleEvents(c, list, tunnelOk), buf)
    decreases |list|
  {
    if list != [] {
      match list[0]
      case Established(negotiated, _) =>
        if negotiated.localIp.Some? && negotiated.peerIp.Some? {
          var end := TunnelEnd(negotiated.localIp.value, negotiated.peerIp.value);
          EventsIgnoreBuf(c.(tunnel := Some(end)), list[1..], tunnelOk, buf);
        }
      case _ =>
        EventsIgnoreBuf(c, list[1..], tunnelOk, buf);
    }
  }

  lemma SettleIgnoresBuf(c: Conn, t: Turn, tunnelOk: bool, buf: seq<Byte>)
    ensures Settle(c.(buf := buf), t, tunnelOk) == WithBuf(Settle(c, t, tunnelOk), buf)
  {
    if t.reply.Events? {
      EventsIgnoreBuf(c.(engine := t.state, handled := c.handled + 1), t.reply.list, tunnelOk, buf);
    }
  }

  /** Handling what a prefix holds first, then the rest with the following bytes, is handling it all. */
  lemma {:induction false} PacketsPrefix(env: Env, c: Conn, more: seq<Byte>, luck: nat -> Luck)
    requires c.ended.None?
    ensures var first := HandlePackets(env, c, luck);
      var whole := HandlePackets(env, c.(buf := c.buf + more), luck);
      if first.conn.ended.Some? then SameStep(first, whole)
      else Then(first.outs, HandlePackets(env, first.conn.(buf := first.conn.buf + more), luck)) == whole
    decreases |c.buf|
  {
    var whole := HandlePackets(env, c.(buf := c.buf + more), luck);
    match Decode(c.buf)
    case Err(Incomplete) =>
      ThenThen([], [], whole);
    case Err(_) =>
      Streams.DecodeStable(c.buf, more);
    case Ok(p) =>
      Streams.DecodeStable(c.buf, more);
      var n := PacketLength(c.buf);
      assert (c.buf + more)[n..] == c.buf[n..] + more;
      var t := OnPacket(env, c.engine, p, luck(c.handled).draws);
      var one := Settle(c.(buf := c.buf[n..]), t, luck(c.handled).tunnel);
      SettleIgnoresBuf(c.(buf := c.buf[n..]), t, luck(c.handled).tunnel, c.buf[n..] + more);
      if one.conn.ended.None? {
        PacketsPrefix(env, one.conn, more, luck);
        var rest := HandlePackets(env, one.conn, luck);
        ThenThen(one.outs, rest.outs, HandlePackets(env, rest.conn.(buf := rest.conn.buf + more), luck));
      }
  }

  /** Two reads come to the same as one read of the joined bytes. */
  lemma ReadsMerge(env: Env, c: Conn, a: seq<Byte>, b: seq<Byte>, luck: nat -> Luck)
    requires c.ended.None? && a != [] && b != []
    ensures var first, both := OnRead(env, c, a, luck), OnRead(env, c, a + b, luck);
      if first.conn.ended.Some? then SameStep(first, both)
      else Then(first.outs, OnRead(env, first.conn, b, luck)) == both
  {
    var pushed := c.(echoes := 0, buf := c.buf + a);
    PacketsPrefix(env, pushed, b, luck);
    PacketsKeepEchoes(env, pushed, luck);
    Associate(c.buf, a, b);
    PushTwice(env, c, a, b, luck);
  }

  lemma PushTwice(env: Env, c: Conn, a: seq<Byte>, b: seq<Byte>, luck: nat -> Luck)
    requires a != [] && b != []
    ensures var pushed := c.(echoes := 0, buf := c.buf + a);
      && OnRead(env, c, a, luck) == HandlePackets(env, pushed, luck)
      && OnRead(env, c, a + b, luck) == HandlePackets(env, pushed.(buf := pushed.buf + b), luck)
  {
    Associate(c.buf, a, b);
  }

  function Reads(chunks: seq<seq<Byte>>): (inputs: seq<Input>)
    ensures |inputs| == |chunks|
  {
    seq(|chunks|, i requires 0 <= i < |chunks| => Chunk(chunks[i]))
  }

  predicate AllNonEmpty(chunks: seq<seq<Byte>>) {
    forall i :: 0 <= i < |chunks| ==> chunks[i] != []
  }

  function AsStep(t: Trail): Step {
    Step(t.conn, t.outs)
  }

  lemma FlattenSnoc(chunks: seq<seq<Byte>>)
    requires chunks != []
    ensures Flatten(chunks) == Flatten(chunks[..|chunks| - 1]) + chunks[|chunks| - 1]
  {
    var last := chunks[|chunks| - 1];
    FlattenAppend(chunks[..|chunks| - 1], [last]);
    assert chunks == chunks[..|chunks| - 1] + [last];
    FlattenOne(last);
  }

  lemma FlattenOne(chunk: seq<Byte>)
    ensures Flatten([chunk]) == chunk
  {
    var none: seq<seq<Byte>> := [];
    assert [chunk][1..] == none;
    assert chunk + [] == chunk;
  }

  /** However the bytes are cut into reads, the connection does what one read of them all does. */
  lemma {:induction false} CutsDoNotMatter(env: Env, c: Conn, chunks: seq<seq<Byte>>, luck: nat -> Luck)
    requires c.framing && c.ended.None?
    requires chunks != [] && AllNonEmpty(chunks)
    ensures SameStep(AsStep(RunFrom(env, c, Reads(chunks), luck)), OnRead(env, c, Flatten(chunks), luck))
    decreases |chunks|
  {
    var last := |chunks| - 1;
    var prefix := chunks[..last];
    assert Reads(chunks)[..last] == Reads(prefix);
    FlattenSnoc(chunks);
    if prefix == [] {
      assert Flatten(chunks) == chunks[last];
      OneRead(env, c, chunks, luck);
    } else {
      CutsDoNotMatter(env, c, prefix, luck);
      assert prefix[0] == chunks[0] && Flatten(prefix) != [];
      ReadsMerge(env, c, Flatten(prefix), chunks[last], luck);
      LastRead(env, c, chunks, luck);
    }
  }

  lemma OneRead(env: Env, c: Conn, chunks: seq<seq<Byte>>, luck: nat -> Luck)
    requires c.framing && c.ended.None? && |chunks| == 1
    ensures AsStep(RunFrom(env, c, Reads(chunks), luck)) == OnRead(env, c, chunks[0], luck)
  {
    assert Reads(chunks) == [Chunk(chunks[0])];
    OneInput(env, c, Chunk(chunks[0]), luck);
  }

  lemma OneInput(env: Env, c: Conn, i: Input, luck: nat -> Luck)
    ensures AsStep(RunFrom(env, c, [i], luck)) == OnInput(env, c, i, luck)
  {
    assert [i][..0] == [];
    assert RunFrom(env, c, [], luck) == Trail(c, [], 0);
    ThenThen([], [], OnInput(env, c, i, luck));
  }

  lemma LastRead(env: Env, c: Conn, chunks: seq<seq<Byte>>, luck: nat -> Luck)
    requires c.framing && c.ended.None? && chunks != []
    requires var before := OnRead(env, c, Flatten(chunks[..|chunks| - 1]), luck);
      SameStep(AsStep(RunFrom(env, c, Reads(chunks[..|chunks| - 1]), luck)), before)
    ensures var before := OnRead(env, c, Flatten(chunks[..|chunks| - 1]), luck);
      SameStep(AsStep(RunFrom(env, c, Reads(chunks), luck)),
               if before.conn.ended.Some? then before
               else Then(before.outs, OnRead(env, before.conn, chunks[|chunks| - 1], luck)))
  {
    var last := |chunks| - 1;
    assert Reads(chunks)[..last] == Reads(chunks[..last]);
    var before := RunFrom(env, c, Reads(chunks[..last]), luck);
    KeepsFraming(env, c, Flatten(chunks[..last]), luck);
    if before.conn.ended.Some? {
      assert before.outs + [] == before.outs;
    }
  }

  lemma KeepsFraming(env: Env, c: Conn, bytes: seq<Byte>, luck: nat -> Luck)
    requires c.framing
    ensures OnRead(env, c, bytes, luck).conn.framing
  {
    if bytes != [] {
      PacketsKeepEchoes(env, c.(echoes := 0, buf := c.buf + bytes), luck);
    }
  }

  // ----- From the HTTP response on -----

  /** The first input can be taken off a run. */
  lemma {:induction false} FoldTail(step: Stepper, c: Conn, inputs: seq<Input>)
    requires inputs != []
    ensures var first := step(c, inputs[0]);
      AsStep(Fold(step, c, inputs)) == Then(first.outs, AsStep(Fold(step, first.conn, inputs[1..])))
    decreases |inputs|
  {
    var first, last := step(c, inputs[0]), |inputs| - 1;
    if last == 0 {
      ThenThen([], first.outs, Step(first.conn, []));
      assert first.outs + [] == first.outs;
      assert inputs[..0] == [];
    } else {
      FoldTail(step, c, inputs[..last]);
      assert inputs[..last][1..] == inputs[1..][..last - 1];
      var middle := Fold(step, first.conn, inputs[1..][..last - 1]);
      ThenThen(first.outs, middle.outs, step(middle.conn, inputs[last]));
    }
  }

  datatype HttpEnd = HttpEnd(conn: Conn, outs: seq<Output>, later: seq<seq<Byte>>)

  /** The HTTP loop on its own: reads until the response parses or the connection ends. */
  function HttpLoop(c: Conn, chunks: seq<seq<Byte>>): HttpEnd
    decreases |chunks|
  {
    if chunks == [] || c.framing || c.ended.Some? then HttpEnd(c, [], chunks)
    else
      var s := OnHttpRead(c, chunks[0]);
      var end := HttpLoop(s.conn, chunks[1..]);
      end.(outs := s.outs + end.outs)
  }

  /** It ends as the stream-level reading of the chunks says. */
  lemma {:induction false} HttpLoopIsReadHttp(c: Conn, chunks: seq<seq<Byte>>)
    requires !c.framing && c.ended.None? && c.buf == []
    ensures var end := HttpLoop(c, chunks);
      match Streams.ReadHttp(c.httpBuf, chunks)
      case Waiting => end == HttpEnd(c.(httpBuf := c.httpBuf + Flatten(chunks)), [], [])
      case Closed => end.conn.ended == Some(ClosedInHandshake) && end.outs == []
      case Refused(e) => end.conn.ended == Some(HttpFailed(e)) && end.outs == []
      case Switched(_, left, later) =>
        end == HttpEnd(c.(framing := true, buf := left, httpBuf := end.conn.httpBuf), Greeting(ConnectRequestPacket()), later)
    decreases |chunks|
  {
    if chunks == [] {
      assert c.httpBuf + Flatten(chunks) == c.httpBuf;
    } else if chunks[0] == [] {
      StopsHere(c, chunks, OnHttpRead(c, chunks[0]));
    } else {
      var got := c.httpBuf + chunks[0];
      var s := OnHttpRead(c, chunks[0]);
      Http.OnlyStatus200(got);
      match Http.ParseResponse(got)
      case Err(HeadersIncomplete) =>
        MoreHeaders(c, chunks);
        HttpLoopIsReadHttp(s.conn, chunks[1..]);
        Associate(c.httpBuf, chunks[0], Flatten(chunks[1..]));
      case Err(_) =>
        StopsHere(c, chunks, s);
      case Ok(_) =>
        LastHttpRead(c, chunks);
    }
  }

  lemma MoreHeaders(c: Conn, chunks: seq<seq<Byte>>)
    requires !c.framing && c.ended.None? && chunks != [] && chunks[0] != []
    requires Http.ParseResponse(c.httpBuf + chunks[0]) == Err(Http.HeadersIncomplete)
    ensures OnHttpRead(c, chunks[0]) == Step(c.(httpBuf := c.httpBuf + chunks[0]), [])
    ensures HttpLoop(c, chunks) == HttpLoop(c.(httpBuf := c.httpBuf + chunks[0]), chunks[1..])
  {
    var end := HttpLoop(c.(httpBuf := c.httpBuf + chunks[0]), chunks[1..]);
    assert [] + end.outs == end.outs;
  }

  lemma LastHttpRead(c: Conn, chunks: seq<seq<Byte>>)
    requires !c.framing && c.ended.None? && c.buf == [] && chunks != [] && chunks[0] != []
    requires Http.ParseResponse(c.httpBuf + chunks[0]).Ok?
    ensures var got := c.httpBuf + chunks[0];
      var offset := Http.ParseResponse(got).value.1;
      && offset <= |got|
      && HttpLoop(c, chunks) == HttpEnd(c.(framing := true, buf := got[offset..], httpBuf := got), Greeting(ConnectRequestPacket()), chunks[1..])
  {
    var got := c.httpBuf + chunks[0];
    Http.OnlyStatus200(got);
    var offset := Http.ParseResponse(got).value.1;
    assert [] + got[offset..] == got[offset..];
    StopsHere(c, chunks, OnHttpRead(c, chunks[0]));
  }

  lemma StopsHere(c: Conn, chunks: seq<seq<Byte>>, s: Step)
    requires !c.framing && c.ended.None? && chunks != []
    requires s == OnHttpRead(c, chunks[0]) && (s.conn.framing || s.conn.ended.Some?)
    ensures HttpLoop(c, chunks) == HttpEnd(s.conn, s.outs, chunks[1..])
  {
    NothingMore(s.outs);
    assert HttpLoop(s.conn, chunks[1..]) == HttpEnd(s.conn, [], chunks[1..]);
  }

  lemma NothingMore(outs: seq<Output>)
    ensures outs + [] == outs
  {
  }

  /** A run over reads starts with the HTTP loop. */
  lemma {:induction false} FoldStartsWithHttp(step: Stepper, c: Conn, chunks: seq<seq<Byte>>)
    requires forall c: Conn, bytes: seq<Byte> ::
      !c.framing && c.ended.None? ==> step(c, Chunk(bytes)) == OnHttpRead(c, bytes)
    ensures var end := HttpLoop(c, chunks);
      AsStep(Fold(step, c, Reads(chunks))) == Then(end.outs, AsStep(Fold(step, end.conn, Reads(end.later))))
    decreases |chunks|
  {
    ThenThen([], [], AsStep(Fold(step, c, Reads(chunks))));
    if chunks != [] && !c.framing && c.ended.None? {
      var s := OnHttpRead(c, chunks[0]);
      FoldStartsWithHttp(step, s.conn, chunks[1..]);
      FoldTail(step, c, Reads(chunks));
      assert Reads(chunks)[0] == Chunk(chunks[0]) && Reads(chunks)[1..] == Reads(chunks[1..]);
      var end := HttpLoop(s.conn, chunks[1..]);
      ThenThen(s.outs, end.outs, AsStep(Fold(step, end.conn, Reads(end.later))));
    }
  }

  lemma RunStartsWithHttp(env: Env, c: Conn, chunks: seq<seq<Byte>>, luck: nat -> Luck)
    ensures var end := HttpLoop(c, chunks);
      AsStep(RunFrom(env, c, Reads(chunks), luck))
      == Then(end.outs, AsStep(RunFrom(env, end.conn, Reads(end.later), luck)))
  {
    FoldStartsWithHttp(Turns(env, luck), c, chunks);
  }

  /** The connection after the HTTP response, with everything that follows it in the reader. */
  function Framed(magic: Word32, bytes: seq<Byte>): Conn {
    NewConn(magic).(framing := true, buf := bytes)
  }

  /** The same behaviour, up to buffers that are no longer read. */
  predicate SameBehaviour(a: Step, b: Step) {
    && a.outs == b.outs
    && a.conn == b.conn.(httpBuf := a.conn.httpBuf, buf := a.conn.buf)
    && (b.conn.ended.None? ==> a.conn.buf == b.conn.buf)
  }

  /** From the handover on: the over-read bytes and the later reads are one stream. */
  lemma BehindTheResponse(env: Env, c: Conn, later: seq<seq<Byte>>, luck: nat -> Luck)
    requires c.framing && c.ended.None? && c.echoes == 0 && later != [] && AllNonEmpty(later)
    ensures SameBehaviour(AsStep(RunFrom(env, c, Reads(later), luck)),
                          HandlePackets(env, c.(httpBuf := [], buf := c.buf + Flatten(later)), luck))
  {
    CutsDoNotMatter(env, c, later, luck);
    assert later[0] != [] && Flatten(later) != [];
    OneReadIsOnePass(env, c, Flatten(later), luck);
    HttpBufUnused(env, c.(buf := c.buf + Flatten(later)), [], luck);
  }

  lemma OneReadIsOnePass(env: Env, c: Conn, bytes: seq<Byte>, luck: nat -> Luck)
    requires c.echoes == 0 && bytes != []
    ensures OnRead(env, c, bytes, luck) == HandlePackets(env, c.(buf := c.buf + bytes), luck)
  {
    assert c.(echoes := 0, buf := c.buf + bytes) == c.(buf := c.buf + bytes);
  }

  /**
   What a connection does depends on the bytes it reads, not on how they are cut: whenever the
   response parses and some read follows, every cut leads to the greeting and then to what one
   pass over the whole stream behind the response does.
   */
  lemma OnlyTheStreamMatters(env: Env, magic: Word32, chunks: seq<seq<Byte>>, luck: nat -> Luck)
    requires AllNonEmpty(chunks)
    ensures var h, stream := Streams.ReadHttp([], chunks), Flatten(chunks);
      h.Switched? && h.later != [] ==>
        && h.offset <= |stream|
        && SameBehaviour(
             AsStep(RunFrom(env, NewConn(magic), Reads(chunks), luck)),
             Then(Greeting(ConnectRequestPacket()), HandlePackets(env, Framed(magic, stream[h.offset..]), luck)))
  {
    var h, stream := Streams.ReadHttp([], chunks), Flatten(chunks);
    RunStartsWithHttp(env, NewConn(magic), chunks, luck);
    HttpLoopIsReadHttp(NewConn(magic), chunks);
    HandoverKeepsStream(chunks);
    if h.Switched? && h.later != [] {
      LaterNonEmpty([], chunks);
      var c := HttpLoop(NewConn(magic), chunks).conn;
      BehindTheResponse(env, c, h.later, luck);
      assert c.(httpBuf := [], buf := c.buf + Flatten(h.later)) == Framed(magic, stream[h.offset..]);
    }
  }

  lemma AllReceived(chunks: seq<seq<Byte>>)
    requires AllNonEmpty(chunks)
    ensures Streams.Received(chunks) == chunks
  {
    if chunks != [] {
      assert chunks[0] != [];
      AllReceived(chunks[1..]);
    }
  }

  lemma HandoverKeepsStream(chunks: seq<seq<Byte>>)
    requires AllNonEmpty(chunks)
    ensures var h, stream := Streams.ReadHttp([], chunks), Flatten(chunks);
      h.Switched? ==> h.offset <= |stream| && stream[h.offset..] == h.left + Flatten(h.later)
  {
    Streams.ReadHttpIsParse([], chunks);
    AllReceived(chunks);
    assert [] + Flatten(chunks) == Flatten(chunks);
    LaterNonEmpty([], chunks);
    if Streams.ReadHttp([], chunks).Switched? {
      AllReceived(Streams.ReadHttp([], chunks).later);
    }
  }

  lemma LaterNonEmpty(buf: seq<Byte>, chunks: seq<seq<Byte>>)
    requires AllNonEmpty(chunks)
    ensures var h := Streams.ReadHttp(buf, chunks); h.Switched? ==> AllNonEmpty(h.later)
    decreases |chunks|
  {
    if chunks != [] {
      LaterNonEmpty(buf + chunks[0], chunks[1..]);
    }
  }

  lemma HttpBufUnused(env: Env, c: Conn, http: seq<Byte>, luck: nat -> Luck)
    ensures var s := HandlePackets(env, c, luck);
      HandlePackets(env, c.(httpBuf := http), luck) == s.(conn := s.conn.(httpBuf := http))
    decreases |c.buf|
  {
    if Decode(c.buf).Ok? {
      var t := OnPacket(env, c.engine, Decode(c.buf).value, luck(c.handled).draws);
      var next := c.(buf := c.buf[PacketLength(c.buf)..]);
      var one := Settle(next, t, luck(c.handled).tunnel);
      SettleIgnoresHttp(next, t, luck(c.handled).tunnel, http);
      if one.conn.ended.None? {
        HttpBufUnused(env, one.conn, http, luck);
      }
    }
  }

  lemma SettleIgnoresHttp(c: Conn, t: Turn, tunnelOk: bool, http: seq<Byte>)
    ensures var s := Settle(c, t, tunnelOk);
      Settle(c.(httpBuf := http), t, tunnelOk) == s.(conn := s.conn.(httpBuf := http))
  {
    if t.reply.Events? {
      EventsIgnoreHttp(c.(engine := t.state, handled := c.handled + 1), t.reply.list, tunnelOk, http);
    }
  }

  lemma EventsIgnoreHttp(c: Conn, list: seq<Event>, tunnelOk: bool, http: seq<Byte>)
    ensures var s := HandleEvents(c, list, tunnelOk);
      HandleEvents(c.(httpBuf := http), list, tunnelOk) == s.(conn := s.conn.(httpBuf := http))
    decreases |list|
  {
    if list != [] {
      match list[0]
      case Established(negotiated, _) =>
        if negotiated.localIp.Some? && negotiated.peerIp.Some? {
          var end := TunnelEnd(negotiated.localIp.value, negotiated.peerIp.value);
          EventsIgnoreHttp(c.(tunnel := Some(end)), list[1..], tunnelOk, http);
        }
      case _ =>
        EventsIgnoreHttp(c, list[1..], tunnelOk, http);
    }
  }

  // ----- The tunnel, end to end -----

  function Forwards(ips: seq<seq<Byte>>): (inputs: seq<Input>)
    ensures |inputs| == |ips|
  {
    seq(|ips|, i requires 0 <= i < |ips| => FromTunnel(ips[i]))
  }

  lemma {:induction false} FoldForwards(step: Stepper, c: Conn, ips: seq<seq<Byte>>)
    requires forall ip: seq<Byte> :: step(c, FromTunnel(ip)) == Step(c, [ToServer(Tunnel.IpFrame(ip))])
    ensures var t := Fold(step, c, Forwards(ips));
      t.conn == c && WritesOf(t.outs) == Tunnel.Frames(ips)
    decreases |ips|
  {
    if ips != [] {
      var last := |ips| - 1;
      FoldForwards(step, c, ips[..last]);
      assert Forwards(ips)[..last] == Forwards(ips[..last]);
      var frame := Tunnel.IpFrame(ips[last]);
      assert step(c, FromTunnel(ips[last])) == Step(c, [ToServer(frame)]);
      WritesOfConcat(Fold(step, c, Forwards(ips[..last])).outs, [ToServer(frame)]);
      OneWrite(frame);
      assert Tunnel.Frames(ips) == Tunnel.Frames(ips[..last]) + [frame];
    }
  }

  /** What a connection writes for the packets read from its interface. */
  lemma ForwardsAreWritten(env: Env, c: Conn, ips: seq<seq<Byte>>, luck: nat -> Luck)
    requires c.ended.None? && c.tunnel.Some?
    ensures var t := RunFrom(env, c, Forwards(ips), luck);
      t.conn == c && WritesOf(t.outs) == Tunnel.Frames(ips)
  {
    FoldForwards(Turns(env, luck), c, ips);
  }

  lemma OneWrite(bytes: seq<Byte>)
    ensures WritesOf([ToServer(bytes)]) == [bytes]
  {
    var o := ToServer(bytes);
    assert [o][1..] == [];
  }

  function Deliveries(up: bool, ips: seq<seq<Byte>>): seq<Output> {
    if !up || ips == [] then [] else [ToTunnel(ips[0])] + Deliveries(up, ips[1..])
  }

  /** Handling a stream of framed IP packets delivers each one, if the tunnel is up, and changes nothing else. */
  lemma {:induction false} IpStreamHandled(env: Env, c: Conn, ips: seq<seq<Byte>>, luck: nat -> Luck)
    requires c.ended.None? && Tunnel.AllFit(ips)
    ensures HandlePackets(env, c.(buf := Tunnel.IpStream(ips)), luck)
      == Step(c.(buf := [], handled := c.handled + |ips|), Deliveries(c.tunnel.Some?, ips))
    decreases |ips|
  {
    if ips == [] {
      assert Decode([]) == Err(Incomplete);
    } else {
      assert |ips[0]| <= Tunnel.MAX_IP;
      Tunnel.IpStreamCons(ips);
      FirstIpPacket(env, c, ips[0], Tunnel.IpStream(ips[1..]), luck);
      IpStreamHandled(env, c.(handled := c.handled + 1), ips[1..], luck);
    }
  }

  function Delivery(up: bool, ip: seq<Byte>): seq<Output> {
    if up then [ToTunnel(ip)] else []
  }

  lemma FirstIpPacket(env: Env, c: Conn, ip: seq<Byte>, rest: seq<Byte>, luck: nat -> Luck)
    requires c.ended.None? && |ip| <= Tunnel.MAX_IP
    ensures HandlePackets(env, c.(buf := Tunnel.IpFrame(ip) + rest), luck)
      == Then(Delivery(c.tunnel.Some?, ip), HandlePackets(env, c.(buf := rest, handled := c.handled + 1), luck))
  {
    var frame := Ppp.Encode(Ppp.Ip, ip);
    DataRoundTrip(frame, rest);
    OneIpPacket(env, c.(buf := rest), ip, luck(c.handled));
    FirstPacket(env, c, Tunnel.IpFrame(ip), Data(frame), rest, luck, Delivery(c.tunnel.Some?, ip));
  }

  lemma FirstPacket(env: Env, c: Conn, wire: seq<Byte>, p: Packet, rest: seq<Byte>, luck: nat -> Luck, outs: seq<Output>)
    requires c.ended.None?
    requires Decode(wire + rest) == Ok(p) && PacketLength(wire + rest) == |wire|
    requires HandlePacket(env, c.(buf := rest), p, luck(c.handled)) == Step(c.(buf := rest, handled := c.handled + 1), outs)
    ensures HandlePackets(env, c.(buf := wire + rest), luck)
      == Then(outs, HandlePackets(env, c.(buf := rest, handled := c.handled + 1), luck))
  {
    assert (wire + rest)[|wire|..] == rest;
  }

  lemma OneIpPacket(env: Env, c: Conn, ip: seq<Byte>, luck: Luck)
    requires c.ended.None?
    ensures HandlePacket(env, c, Data(Ppp.Encode(Ppp.Ip, ip)), luck)
      == Step(c.(handled := c.handled + 1), Delivery(c.tunnel.Some?, ip))
  {
    Tunnel.IpIsDelivered(env, c.engine, ip, luck.draws);
    OneDelivery(c.(handled := c.handled + 1), ip, luck.tunnel);
  }

  lemma OneDelivery(c: Conn, ip: seq<Byte>, tunnelOk: bool)
    ensures HandleEvents(c, [DeliverIpPacket(ip)], tunnelOk) == Step(c, Delivery(c.tunnel.Some?, ip))
  {
    var e := DeliverIpPacket(ip);
    assert [e][1..] == [];
    assert HandleEvents(c, [], tunnelOk) == Step(c, []);
    assert Delivery(c.tunnel.Some?, ip) + [] == Delivery(c.tunnel.Some?, ip);
  }

  /** A stream of framed IP packets, read in any chunks, is delivered packet by packet. */
  lemma StreamIsDelivered(env: Env, c: Conn, ips: seq<seq<Byte>>, chunks: seq<seq<Byte>>, luck: nat -> Luck)
    requires c.framing && c.ended.None? && c.buf == [] && Tunnel.AllFit(ips)
    requires chunks != [] && AllNonEmpty(chunks) && Flatten(chunks) == Tunnel.IpStream(ips)
    ensures AsStep(RunFrom(env, c, Reads(chunks), luck))
      == Step(c.(echoes := 0, handled := c.handled + |ips|), Deliveries(c.tunnel.Some?, ips))
  {
    CutsDoNotMatter(env, c, chunks, luck);
    assert chunks[0] != [] && Flatten(chunks) != [];
    assert c.buf + Flatten(chunks) == Tunnel.IpStream(ips);
    IpStreamHandled(env, c.(echoes := 0), ips, luck);
  }

  /**
   Packets read from one connection's interface, written by it, carried in any chunks and read by
   another connection, come out of that one's interface as the same packets in the same order;
   before its tunnel is up they are dropped. Neither connection ends, and no byte is left over.
   */
  lemma TunnelEndToEnd(
    env: Env, sender: Conn, ips: seq<seq<Byte>>, luck: nat -> Luck,
    env': Env, receiver: Conn, chunks: seq<seq<Byte>>, luck': nat -> Luck)
    requires sender.ended.None? && sender.tunnel.Some? && Tunnel.AllFit(ips)
    requires receiver.framing && receiver.ended.None? && receiver.buf == []
    requires chunks != [] && AllNonEmpty(chunks)
    requires Flatten(chunks) == Flatten(WritesOf(RunFrom(env, sender, Forwards(ips), luck).outs))
    ensures var t := RunFrom(env', receiver, Reads(chunks), luck');
      && t.outs == Deliveries(receiver.tunnel.Some?, ips)
      && t.conn == receiver.(echoes := 0, handled := receiver.handled + |ips|)
  {
    ForwardsAreWritten(env, sender, ips, luck);
    StreamIsDelivered(env', receiver, ips, chunks, luck');
  }
}
