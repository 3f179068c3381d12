/**
 Framing shared by the PPP control protocols (RFC 1661 section 5): the
 Code/Identifier/Length/Data header and the Type/Length/Data options.
 */
module Cp {
  import opened Wrappers
  import opened Bytes

  // ----- The bare header, also used by CHAP with its own codes -----

  datatype RawFrame = RawFrame(code: Byte, id: Byte, data: seq<Byte>)

  function FrameHead(code: Byte, id: Byte, total: nat): (h: seq<Byte>)
    ensures |h| == 4 && h[0] == code && h[1] == id
    ensures Word(h[2], h[3]) == Low16(total)
  {
    var len := Be16(total);
    [code, id, len[0], len[1]]
  }

  function FrameBytes(code: Byte, id: Byte, data: seq<Byte>): seq<Byte> {
    FrameHead(code, id, 4 + |data|) + data
  }

  function ReadFrame(buf: seq<Byte>): Option<RawFrame> {
    if |buf| < 4 then None
    else
      var len := Word(buf[2], buf[3]);
      if len < 4 || len > |buf| then None
      else Some(RawFrame(buf[0], buf[1], buf[4..len]))
  }

  method BuildFrame(code: Byte, id: Byte, data: seq<Byte>) returns (out: seq<Byte>)
    ensures out == FrameBytes(code, id, data)
  {
    var len := 4 + |data|;
    out := [code];
    out := out + [id];
    out := out + Be16(len);
    assert out == FrameHead(code, id, len);
    out := out + data;
  }

  /** A frame survives encoding, with any bytes after it, exactly when its length fits 16 bits. */
  lemma RawRoundTrip(code: Byte, id: Byte, data: seq<Byte>, more: seq<Byte>)
    ensures ReadFrame(FrameBytes(code, id, data) + more) == Some(RawFrame(code, id, data)) <==> |data| <= 0xFFFF - 4
    ensures ReadFrame(FrameBytes(code, id, data)) == Some(RawFrame(code, id, data)) <==> |data| <= 0xFFFF - 4
  {
    var wire := FrameBytes(code, id, data);
    var buf := wire + more;
    assert wire + [] == wire;
    assert Word(buf[2], buf[3]) == Low16(|wire|);
    assert Word(wire[2], wire[3]) == Low16(|wire|);
    if |data| <= 0xFFFF - 4 {
      assert buf[4..|wire|] == data;
      assert wire[4..] == data;
    }
  }

  // ----- LCP and IPCP codes -----

  datatype Code =
    | ConfigureRequest
    | ConfigureAck
    | ConfigureNak
    | ConfigureReject
    | TerminateRequest
    | TerminateAck
    | CodeReject
    | ProtocolReject
    | EchoRequest
    | EchoReply
    | DiscardRequest
    | UnknownCode(code: Byte)

  function CodeByte(c: Code): Byte {
    match c
    case ConfigureRequest => 1
    case ConfigureAck => 2
    case ConfigureNak => 3
    case ConfigureReject => 4
    case TerminateRequest => 5
    case TerminateAck => 6
    case CodeReject => 7
    case ProtocolReject => 8
    case EchoRequest => 9
    case EchoReply => 10
    case DiscardRequest => 11
    case UnknownCode(v) => v
  }

  function CodeFromByte(v: Byte): (c: Code)
    ensures CodeByte(c) == v
  {
    match v
    case 1 => ConfigureRequest
    case 2 => ConfigureAck
    case 3 => ConfigureNak
    case 4 => ConfigureReject
    case 5 => TerminateRequest
    case 6 => TerminateAck
    case 7 => CodeReject
    case 8 => ProtocolReject
    case 9 => EchoRequest
    case 10 => EchoReply
    case 11 => DiscardRequest
    case _ => UnknownCode(v)
  }

  datatype Frame = Frame(code: Code, id: Byte, data: seq<Byte>)

  function Encode(code: Code, id: Byte, data: seq<Byte>): seq<Byte> {
    FrameBytes(CodeByte(code), id, data)
  }

  function Decode(buf: seq<Byte>): Option<Frame> {
    match ReadFrame(buf)
    case None => None
    case Some(raw) => Some(Frame(CodeFromByte(raw.code), raw.id, raw.data))
  }

  /** A frame with a known code survives encoding when it fits its length field. */
  lemma FrameRoundTrip(code: Code, id: Byte, data: seq<Byte>)
    requires !code.UnknownCode? && |data| <= 0xFFFF - 4
    ensures Decode(Encode(code, id, data)) == Some(Frame(code, id, data))
  {
    RawRoundTrip(CodeByte(code), id, data, []);
    assert CodeFromByte(CodeByte(code)) == code;
  }

  // ----- Options -----

  datatype Opt = Opt(kind: Byte, data: seq<Byte>)

  const MAX_OPT_DATA := 253

  /** The option's length byte can express it. */
  predicate Small(o: Opt) {
    |o.data| <= MAX_OPT_DATA
  }

  predicate AllSmall(opts: seq<Opt>) {
    forall i :: 0 <= i < |opts| ==> Small(opts[i])
  }

  function OptBytes(o: Opt): seq<Byte> {
    [o.kind, Low8(2 + |o.data|)] + o.data
  }

  function EncodeOptions(opts: seq<Opt>): seq<Byte> {
    if opts == [] then [] else OptBytes(opts[0]) + EncodeOptions(opts[1..])
  }

  function DecodeOptions(buf: seq<Byte>): (opts: seq<Opt>)
    ensures AllSmall(opts)
  {
    if |buf| < 2 then []
    else
      var len := buf[1];
      if len < 2 || len > |buf| then []
      else [Opt(buf[0], buf[2..len])] + DecodeOptions(buf[len..])
  }

  method BuildOptions(opts: seq<Opt>) returns (out: seq<Byte>)
    ensures out == EncodeOptions(opts)
  {
    out := [];
    for i := 0 to |opts|
      invariant out == EncodeOptions(opts[..i])
    {
      var o := opts[i];
      EncodeSnoc(opts[..i], o);
      assert opts[..i + 1] == opts[..i] + [o];
      var bytes := [o.kind, Low8(2 + |o.data|)];
      bytes := bytes + o.data;
      out := out + bytes;
    }
    assert opts[..|opts|] == opts;
  }

  method ReadOptions(buf: seq<Byte>) returns (opts: seq<Opt>)
    ensures opts == DecodeOptions(buf)
  {
    opts := [];
    var pos := 0;
    while pos + 2 <= |buf|
      invariant 0 <= pos <= |buf|
      invariant DecodeOptions(buf) == opts + DecodeOptions(buf[pos..])
    {
      var kind, len := buf[pos], buf[pos + 1];
      if len < 2 || pos + len > |buf| {
        break;
      }
      NextOption(buf, pos);
      var o := Opt(kind, buf[pos + 2..pos + len]);
      Associate(opts, [o], DecodeOptions(buf[pos + len..]));
      opts := opts + [o];
      pos := pos + len;
    }
    assert DecodeOptions(buf[pos..]) == [];
  }

  lemma NextOption(buf: seq<Byte>, pos: nat)
    requires pos + 2 <= |buf| && 2 <= buf[pos + 1] <= |buf| - pos
    ensures var len := buf[pos + 1];
      DecodeOptions(buf[pos..]) == [Opt(buf[pos], buf[pos + 2..pos + len])] + DecodeOptions(buf[pos + len..])
  {
    var tail, len := buf[pos..], buf[pos + 1];
    assert tail[2..len] == buf[pos + 2..pos + len];
    assert tail[len..] == buf[pos + len..];
  }

  lemma {:induction false} EncodeSnoc(opts: seq<Opt>, o: Opt)
    ensures EncodeOptions(opts + [o]) == EncodeOptions(opts) + OptBytes(o)
    decreases |opts|
  {
    if opts == [] {
      assert opts + [o] == [o];
      assert EncodeOptions([o][1..]) == [];
    } else {
      EncodeSnoc(opts[1..], o);
      assert (opts + [o])[0] == opts[0] && (opts + [o])[1..] == opts[1..] + [o];
      Associate(OptBytes(opts[0]), EncodeOptions(opts[1..]), OptBytes(o));
    }
  }

  /** Options are self-delimiting exactly when each one fits its length byte. */
  lemma OptionsRoundTrip(a: seq<Opt>, b: seq<Byte>)
    ensures DecodeOptions(EncodeOptions(a) + b) == a + DecodeOptions(b) <==> AllSmall(a)
  {
    if AllSmall(a) {
      SmallOptionsRoundTrip(a, b);
    }
    var decoded := DecodeOptions(EncodeOptions(a) + b);
    if decoded == a + DecodeOptions(b) {
      forall i | 0 <= i < |a|
        ensures Small(a[i])
      {
        assert a[i] == decoded[i];
      }
    }
  }

  lemma {:induction false} SmallOptionsRoundTrip(a: seq<Opt>, b: seq<Byte>)
    requires AllSmall(a)
    ensures DecodeOptions(EncodeOptions(a) + b) == a + DecodeOptions(b)
  {
    if a == [] {
      assert EncodeOptions(a) + b == b;
    } else {
      var o, rest := a[0], EncodeOptions(a[1..]);
      assert EncodeOptions(a) + b == OptBytes(o) + (rest + b);
      OneOption(o, rest + b);
      SmallOptionsRoundTrip(a[1..], b);
      HeadThenTail(a, DecodeOptions(b));
    }
  }

  lemma OneOption(o: Opt, tail: seq<Byte>)
    requires Small(o)
    ensures DecodeOptions(OptBytes(o) + tail) == [o] + DecodeOptions(tail)
  {
    var n, whole := 2 + |o.data|, OptBytes(o) + tail;
    assert |OptBytes(o)| == n;
    assert whole[2..n] == o.data;
    assert whole[n..] == tail;
  }

  lemma OptionsRoundTripAlone(a: seq<Opt>)
    requires AllSmall(a)
    ensures DecodeOptions(EncodeOptions(a)) == a
  {
    SmallOptionsRoundTrip(a, []);
    assert EncodeOptions(a) + [] == EncodeOptions(a);
  }

  lemma PrefixGoesOn(buf: seq<Byte>, n: nat, inner: seq<Byte>)
    requires n <= |buf| && inner <= buf[n..]
    ensures buf[..n] + inner <= buf
    ensures buf[n..][|inner|..] == buf[|buf[..n] + inner|..]
  {
  }

  /** Decoding loses only a tail that holds no option; re-encoding gives back the bytes before it. */
  lemma {:induction false} DecodedOptionsArePrefix(buf: seq<Byte>)
    ensures var prefix := EncodeOptions(DecodeOptions(buf));
      prefix <= buf && DecodeOptions(buf[|prefix|..]) == []
  {
    var opts := DecodeOptions(buf);
    if opts != [] {
      var len := buf[1];
      var tail := buf[len..];
      DecodedOptionsArePrefix(tail);
      assert opts[1..] == DecodeOptions(tail);
      var inner := EncodeOptions(DecodeOptions(tail));
      assert OptBytes(opts[0]) == buf[..len];
      assert EncodeOptions(opts) == buf[..len] + inner;
      PrefixGoesOn(buf, len, inner);
    } else {
      assert buf[0..] == buf;
    }
  }
}
