/**
 Reading packets off a byte stream that arrives in arbitrary chunks: the HTTP read loop, the
 handover of the bytes it over-read, and `push`/`next_packet` until no whole packet is left.
 */
module Streams {
  import opened Wrappers
  import opened Bytes
  import opened Packet
  import Http

  /** What came out of a stream: the packets, the bytes not yet consumed, and a hard error if any. */
  datatype Parsed = Parsed(packets: seq<Packet>, rest: seq<Byte>, error: Option<DecodeError>)

  function After(packets: seq<Packet>, p: Parsed): Parsed {
    p.(packets := packets + p.packets)
  }

  /** `next_packet` until it yields nothing more. */
  function Drain(buf: seq<Byte>): Parsed
    decreases |buf|
  {
    match Decode(buf)
    case Err(Incomplete) => Parsed([], buf, None)
    case Err(e) => Parsed([], buf, Some(e))
    case Ok(p) => After([p], Drain(buf[PacketLength(buf)..]))
  }

  /** What is read before an empty read, which means that the server has closed. */
  function Received(chunks: seq<seq<Byte>>): seq<seq<Byte>> {
    if chunks == [] || chunks[0] == [] then [] else [chunks[0]] + Received(chunks[1..])
  }

  /** One `push` and one drain for each read; an empty read or a hard error ends the connection. */
  function Feed(buf: seq<Byte>, chunks: seq<seq<Byte>>): Parsed
    decreases |chunks|
  {
    if chunks == [] || chunks[0] == [] then Parsed([], buf, None)
    else
      var first := Drain(buf + chunks[0]);
      if first.error.Some? then first
      else After(first.packets, Feed(first.rest, chunks[1..]))
  }

  predicate SameOutcome(a: Parsed, b: Parsed) {
    && a.packets == b.packets
    && a.error == b.error
    && (a.error.None? ==> a.rest == b.rest)
  }

  lemma AfterAfter(a: seq<Packet>, b: seq<Packet>, p: Parsed)
    ensures After(a, After(b, p)) == After(a + b, p)
    ensures After([], p) == p
  {
    assert a + (b + p.packets) == a + b + p.packets;
    assert [] + p.packets == p.packets;
  }

  // ----- Chunking independence of the packet reader -----

  /** A buffer that decodes, or fails hard, does the same whatever bytes follow it. */
  lemma DecodeStable(buf: seq<Byte>, more: seq<Byte>)
    requires Decode(buf) != Err(Incomplete)
    ensures Decode(buf + more) == Decode(buf)
    ensures Decode(buf).Ok? ==> PacketLength(buf + more) == PacketLength(buf)
  {
    var whole := buf + more;
    assert whole[..4] == buf[..4];
    assert whole[2] == buf[2] && whole[3] == buf[3];
    var n := Word(buf[2], buf[3]);
    if n <= |buf| {
      assert whole[..n] == buf[..n];
      if n >= 8 {
        assert whole[8..n] == buf[8..n];
        assert whole[4] == buf[4] && whole[5] == buf[5] && whole[6] == buf[6] && whole[7] == buf[7];
      }
      if n >= 4 {
        assert whole[4..n] == buf[4..n];
      }
    }
  }

  /** Draining a prefix first, then what is left with the following bytes, is draining it all. */
  lemma {:induction false} DrainPrefix(buf: seq<Byte>, more: seq<Byte>)
    ensures var first := Drain(buf);
      if first.error.Some?
      then SameOutcome(first, Drain(buf + more))
      else After(first.packets, Drain(first.rest + more)) == Drain(buf + more)
    decreases |buf|
  {
    match Decode(buf)
    case Err(Incomplete) =>
      AfterAfter([], [], Drain(buf + more));
    case Err(_) =>
      DecodeStable(buf, more);
    case Ok(p) =>
      DecodeStable(buf, more);
      var n := PacketLength(buf);
      DrainPrefix(buf[n..], more);
      assert (buf + more)[n..] == buf[n..] + more;
      var tail := Drain(buf[n..]);
      AfterAfter([p], tail.packets, Drain(tail.rest + more));
  }

  /** Nothing is left to drain once a drain has finished without an error. */
  lemma DrainRestIsDry(buf: seq<Byte>)
    requires Drain(buf).error.None?
    ensures Decode(Drain(buf).rest) == Err(Incomplete)
    decreases |buf|
  {
    if Decode(buf).Ok? {
      DrainRestIsDry(buf[PacketLength(buf)..]);
    }
  }

  lemma ReceivedCons(chunks: seq<seq<Byte>>)
    requires chunks != [] && chunks[0] != []
    ensures Flatten(Received(chunks)) == chunks[0] + Flatten(Received(chunks[1..]))
  {
    assert Received(chunks)[1..] == Received(chunks[1..]);
  }

  /** However a stream is cut, the reader yields what parsing it in one piece yields. */
  lemma {:induction false} FeedIsDrain(buf: seq<Byte>, chunks: seq<seq<Byte>>)
    requires Received(chunks) != [] || Decode(buf) == Err(Incomplete)
    ensures SameOutcome(Feed(buf, chunks), Drain(buf + Flatten(Received(chunks))))
    decreases |chunks|
  {
    if Received(chunks) == [] {
      assert buf + Flatten([]) == buf;
    } else {
      var more := Flatten(Received(chunks[1..]));
      var first := Drain(buf + chunks[0]);
      ReceivedCons(chunks);
      DrainPrefix(buf + chunks[0], more);
      assert buf + chunks[0] + more == buf + Flatten(Received(chunks));
      if first.error.None? {
        DrainRestIsDry(buf + chunks[0]);
        FeedIsDrain(first.rest, chunks[1..]);
      }
    }
  }

  // ----- The HTTP read loop and the handover -----

  datatype Handshake =
    | Waiting
    | Closed
    | Refused(error: Http.ParseError)
    | Switched(offset: nat, left: seq<Byte>, later: seq<seq<Byte>>)

  /** Reads until the response parses or the server closes; `left` is what the reader is primed with. */
  function ReadHttp(buf: seq<Byte>, chunks: seq<seq<Byte>>): Handshake
    decreases |chunks|
  {
    if chunks == [] then Waiting
    else if chunks[0] == [] then Closed
    else
      var got := buf + chunks[0];
      match Http.ParseResponse(got)
      case Err(HeadersIncomplete) => ReadHttp(got, chunks[1..])
      case Err(e) => Refused(e)
      case Ok((_, offset)) =>
        if offset <= |got| then Switched(offset, got[offset..], chunks[1..]) else Waiting
  }

  datatype Session =
    | NoHeaders
    | HttpFailed(error: Http.ParseError)
    | Stream(offset: nat, parsed: Parsed)

  /** The whole read side of a connection, chunk by chunk. */
  function ReadChunks(chunks: seq<seq<Byte>>): Session {
    match ReadHttp([], chunks)
    case Waiting => NoHeaders
    case Closed => NoHeaders
    case Refused(e) => HttpFailed(e)
    case Switched(offset, left, later) => Stream(offset, Feed(left, later))
  }

  /** The same bytes parsed in one piece. */
  function ReadWhole(stream: seq<Byte>): Session {
    match Http.ParseResponse(stream)
    case Err(HeadersIncomplete) => NoHeaders
    case Err(e) => HttpFailed(e)
    case Ok((_, offset)) => if offset <= |stream| then Stream(offset, Drain(stream[offset..])) else NoHeaders
  }

  predicate SameSession(a: Session, b: Session) {
    match (a, b)
    case (Stream(i, p), Stream(j, q)) => i == j && SameOutcome(p, q)
    case (Stream(_, _), _) => false
    case (_, Stream(_, _)) => false
    case (_, _) => a == b
  }

  /**
   The bytes over-read with the HTTP headers are pushed into the reader, but the reader is
   drained only after a further read. They are stranded when no read follows, or only the empty
   one of a server that closes, and they hold a whole packet (or a hard error).
   */
  predicate Stranded(chunks: seq<seq<Byte>>) {
    var h := ReadHttp([], chunks);
    h.Switched? && Received(h.later) == [] && Decode(h.left) != Err(Incomplete)
  }

  predicate HandshakeFits(h: Handshake, stream: seq<Byte>) {
    match h
    case Waiting => Http.ParseResponse(stream) == Err(Http.HeadersIncomplete)
    case Closed => Http.ParseResponse(stream) == Err(Http.HeadersIncomplete)
    case Refused(e) => Http.ParseResponse(stream) == Err(e) && e != Http.HeadersIncomplete
    case Switched(offset, left, later) =>
      && Http.ParseResponse(stream) == Ok((200, offset))
      && offset <= |stream|
      && stream[offset..] == left + Flatten(Received(later))
  }

  /** A response that has been read, and what comes behind it. */
  lemma ResponseFits(got: seq<Byte>, more: seq<Byte>)
    requires Http.ParseResponse(got) != Err(Http.HeadersIncomplete)
    ensures Http.ParseResponse(got + more) == Http.ParseResponse(got)
    ensures Http.ParseResponse(got).Ok? ==>
      var (code, offset) := Http.ParseResponse(got).value;
      code == 200 && offset <= |got| && (got + more)[offset..] == got[offset..] + more
  {
    Http.ParseResponseStable(got, more);
    Http.OnlyStatus200(got);
  }

  lemma {:induction false} ReadHttpIsParse(buf: seq<Byte>, chunks: seq<seq<Byte>>)
    requires Http.ParseResponse(buf) == Err(Http.HeadersIncomplete)
    ensures HandshakeFits(ReadHttp(buf, chunks), buf + Flatten(Received(chunks)))
    ensures ReadHttp(buf, chunks).Waiting? ==> Received(chunks) == chunks
    ensures ReadHttp(buf, chunks).Closed? ==> |Received(chunks)| < |chunks|
    decreases |chunks|
  {
    if Received(chunks) == [] {
      assert buf + Flatten([]) == buf;
    } else {
      var got, more := buf + chunks[0], Flatten(Received(chunks[1..]));
      ReceivedCons(chunks);
      assert got + more == buf + Flatten(Received(chunks));
      if Http.ParseResponse(got) == Err(Http.HeadersIncomplete) {
        ReadHttpIsParse(got, chunks[1..]);
      } else {
        ResponseFits(got, more);
      }
    }
  }

  /**
   Chunking independence of the whole read side: same header offset, same packets, same first
   hard error and no byte lost or repeated, for exactly those reads that do not strand the
   handover. What would come behind an empty read is not part of the stream.
   */
  lemma ChunkingIndependence(chunks: seq<seq<Byte>>)
    ensures SameSession(ReadChunks(chunks), ReadWhole(Flatten(Received(chunks)))) <==> !Stranded(chunks)
  {
    BothReadings(chunks);
    var h := ReadHttp([], chunks);
    if h.Switched? {
      HandoverAgrees(h.left, h.later);
    }
  }

  /** Both readings come to the same header offset and the same bytes behind it. */
  lemma BothReadings(chunks: seq<seq<Byte>>)
    ensures var h := ReadHttp([], chunks);
      var inChunks, whole := ReadChunks(chunks), ReadWhole(Flatten(Received(chunks)));
      if h.Switched?
      then inChunks == Stream(h.offset, Feed(h.left, h.later))
           && whole == Stream(h.offset, Drain(h.left + Flatten(Received(h.later))))
      else inChunks == whole
  {
    ReadHttpIsParse([], chunks);
    assert [] + Flatten(Received(chunks)) == Flatten(Received(chunks));
  }

  /** The handover agrees with one-piece parsing exactly when it strands nothing. */
  lemma HandoverAgrees(left: seq<Byte>, later: seq<seq<Byte>>)
    ensures SameOutcome(Feed(left, later), Drain(left + Flatten(Received(later))))
      <==> Received(later) != [] || Decode(left) == Err(Incomplete)
  {
    if Received(later) != [] || Decode(left) == Err(Incomplete) {
      FeedIsDrain(left, later);
    } else {
      assert left + Flatten([]) == left;
    }
  }

  /**
   A server that pipelines a whole packet behind a good response is not answered, whatever the
   headers and the packet, exactly as long as it sends nothing more, closing included.
   */
  lemma PipelinedPacketIsStranded(head: seq<Byte>, packet: seq<Byte>, later: seq<seq<Byte>>)
    requires Http.ParseResponse(head) == Ok((200, |head|)) && Decode(packet).Ok?
    ensures Stranded([head + packet] + later) <==> Received(later) == []
  {
    Http.ParseResponseStable(head, packet);
    assert (head + packet)[|head|..] == packet;
    SwitchesAtOnce(head + packet, later, |head|);
  }

  lemma SwitchesAtOnce(got: seq<Byte>, later: seq<seq<Byte>>, offset: nat)
    requires got != [] && offset <= |got| && Http.ParseResponse(got) == Ok((200, offset))
    ensures ReadHttp([], [got] + later) == Switched(offset, got[offset..], later)
  {
    assert [] + got == got;
    assert ([got] + later)[0] == got && ([got] + later)[1..] == later;
  }
}
