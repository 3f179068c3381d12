/**
 SSTP wire framing: the 4-byte packet header, the control header and its attributes.
 */
module Packet {
  import opened Wrappers
  import opened Bytes

  const PROTO_VERSION: Byte := 0x10
  const HEADER_LEN := 4
  const CTRL_HEADER_LEN := 4
  const ATTR_HEADER_LEN := 4

  datatype MsgType =
    | ConnectRequest
    | ConnectAck
    | ConnectNak
    | Connected
    | Abort
    | Disconnect
    | DisconnectAck
    | EchoRequest
    | EchoReply
    | UnknownMsg(code: Word16)

  function MsgCode(m: MsgType): Word16 {
    match m
    case ConnectRequest => 1
    case ConnectAck => 2
    case ConnectNak => 3
    case Connected => 4
    case Abort => 5
    case Disconnect => 6
    case DisconnectAck => 7
    case EchoRequest => 8
    case EchoReply => 9
    case UnknownMsg(v) => v
  }

  function MsgFromCode(v: Word16): (m: MsgType)
    ensures MsgCode(m) == v
  {
    match v
    case 1 => ConnectRequest
    case 2 => ConnectAck
    case 3 => ConnectNak
    case 4 => Connected
    case 5 => Abort
    case 6 => Disconnect
    case 7 => DisconnectAck
    case 8 => EchoRequest
    case 9 => EchoReply
    case _ => UnknownMsg(v)
  }

  datatype AttrType =
    | NoError
    | EncapProtocol
    | StatusInfo
    | CryptoBind
    | CryptoBindRequest
    | UnknownAttr(code: Byte)

  function AttrCode(t: AttrType): Byte {
    match t
    case NoError => 0
    case EncapProtocol => 1
    case StatusInfo => 2
    case CryptoBind => 3
    case CryptoBindRequest => 4
    case UnknownAttr(v) => v
  }

  function AttrFromCode(v: Byte): (t: AttrType)
    ensures AttrCode(t) == v
  {
    match v
    case 0 => NoError
    case 1 => EncapProtocol
    case 2 => StatusInfo
    case 3 => CryptoBind
    case 4 => CryptoBindRequest
    case _ => UnknownAttr(v)
  }

  datatype Attr = Attr(attrType: AttrType, data: seq<Byte>)

  datatype Packet =
    | Data(frame: seq<Byte>)
    | Ctrl(msgType: MsgType, attrs: seq<Attr>)

  datatype MalformedReason = LengthBelowHeader | ShortControl | AttrHeaderPastEnd | AttrLengthInvalid

  datatype DecodeError = Incomplete | BadVersion(version: Byte) | Malformed(why: MalformedReason)

  /** A packet whose `Unknown` codes are not the code of a known type. */
  predicate Canonical(m: MsgType, attrs: seq<Attr>) {
    && (m.UnknownMsg? ==> m.code == 0 || m.code > 9)
    && forall i :: 0 <= i < |attrs| ==> CanonicalAttr(attrs[i])
  }

  predicate CanonicalAttr(a: Attr) {
    a.attrType.UnknownAttr? ==> a.attrType.code > 4
  }

  // ----- Encoding -----

  /** The 4-byte header of a data packet of `total` bytes. */
  function DataHead(total: nat): (h: seq<Byte>)
    ensures |h| == 4 && h[0] == PROTO_VERSION && h[1] == 0
    ensures Word(h[2], h[3]) == Low16(total)
  {
    var len := Be16(total);
    [PROTO_VERSION, 0, len[0], len[1]]
  }

  /** The packet and control headers of a control packet of `total` bytes. */
  function CtrlHead(total: nat, code: Word16, count: nat): (h: seq<Byte>)
    ensures |h| == 8 && h[0] == PROTO_VERSION && h[1] == 1
    ensures Word(h[2], h[3]) == Low16(total)
    ensures Word(h[4], h[5]) == code
    ensures Word(h[6], h[7]) == Low16(count)
  {
    var len, c, n := Be16(total), Be16(code), Be16(count);
    [PROTO_VERSION, 1, len[0], len[1], c[0], c[1], n[0], n[1]]
  }

  /** The 4-byte header of an attribute that is `total` bytes long with its header. */
  function AttrHead(code: Byte, total: nat): (h: seq<Byte>)
    ensures |h| == 4 && h[1] == code
    ensures Word(h[2], h[3]) == Low16(total)
  {
    var len := Be16(total);
    [0, code, len[0], len[1]]
  }

  function EncodeData(frame: seq<Byte>): seq<Byte> {
    DataHead(HEADER_LEN + |frame|) + frame
  }

  function AttrBytes(a: Attr): seq<Byte> {
    AttrHead(AttrCode(a.attrType), ATTR_HEADER_LEN + |a.data|) + a.data
  }

  function AttrsBytes(attrs: seq<Attr>): seq<Byte> {
    if attrs == [] then [] else AttrBytes(attrs[0]) + AttrsBytes(attrs[1..])
  }

  function EncodeCtrl(m: MsgType, attrs: seq<Attr>): seq<Byte> {
    var body := AttrsBytes(attrs);
    CtrlHead(HEADER_LEN + CTRL_HEADER_LEN + |body|, MsgCode(m), |attrs|) + body
  }

  /** `encode_data` as it is written: pushes onto an output buffer. */
  method BuildData(frame: seq<Byte>) returns (out: seq<Byte>)
    ensures out == EncodeData(frame)
  {
    var totalLen := HEADER_LEN + |frame|;
    out := [PROTO_VERSION];
    out := out + [0];
    out := out + Be16(totalLen);
    assert out == DataHead(totalLen);
    out := out + frame;
  }

  lemma AttrsBytesSnoc(attrs: seq<Attr>, a: Attr)
    ensures AttrsBytes(attrs + [a]) == AttrsBytes(attrs) + AttrBytes(a)
  {
    if attrs == [] {
      assert attrs + [a] == [a];
      assert AttrsBytes([a][1..]) == [];
      assert AttrBytes(a) + [] == AttrBytes(a);
    } else {
      AttrsBytesSnoc(attrs[1..], a);
      assert (attrs + [a])[0] == attrs[0] && (attrs + [a])[1..] == attrs[1..] + [a];
      Associate(AttrBytes(attrs[0]), AttrsBytes(attrs[1..]), AttrBytes(a));
    }
  }

  /**
   `encode_ctrl` as it is written: a zeroed header, the attributes pushed one by one, and the
   total length patched in at the end.
   */
  method BuildCtrl(m: MsgType, attrs: seq<Attr>) returns (out: seq<Byte>)
    ensures out == EncodeCtrl(m, attrs)
  {
    var header := StartCtrl(m, |attrs|);
    out := AppendAttrs(header, attrs);
    var total := Be16(|out|);
    PatchLength(header, AttrsBytes(attrs), total);
    out := out[2 := total[0]][3 := total[1]];
  }

  method AppendAttrs(before: seq<Byte>, attrs: seq<Attr>) returns (out: seq<Byte>)
    ensures out == before + AttrsBytes(attrs)
  {
    out := before;
    for i := 0 to |attrs|
      invariant out == before + AttrsBytes(attrs[..i])
    {
      AttrsBytesSnoc(attrs[..i], attrs[i]);
      assert attrs[..i + 1] == attrs[..i] + [attrs[i]];
      out := AppendAttr(out, attrs[i]);
    }
    assert attrs[..|attrs|] == attrs;
  }

  /** The zeroed eight header bytes with everything but the length filled in. */
  method StartCtrl(m: MsgType, count: nat) returns (out: seq<Byte>)
    ensures |out| == 8
    ensures forall total: nat :: out[2 := Be16(total)[0]][3 := Be16(total)[1]] == CtrlHead(total, MsgCode(m), count)
  {
    var code, n := Be16(MsgCode(m)), Be16(count);
    out := Zeros(HEADER_LEN + CTRL_HEADER_LEN);
    out := out[0 := PROTO_VERSION][1 := 1];
    out := out[4 := code[0]][5 := code[1]][6 := n[0]][7 := n[1]];
  }

  method AppendAttr(before: seq<Byte>, a: Attr) returns (out: seq<Byte>)
    ensures out == before + AttrBytes(a)
  {
    var attrLen := ATTR_HEADER_LEN + |a.data|;
    out := before + [0];
    out := out + [AttrCode(a.attrType)];
    out := out + Be16(attrLen);
    assert out == before + AttrHead(AttrCode(a.attrType), attrLen);
    out := out + a.data;
    assert before + AttrHead(AttrCode(a.attrType), attrLen) + a.data == before + AttrBytes(a);
  }

  lemma PatchLength(header: seq<Byte>, body: seq<Byte>, total: seq<Byte>)
    requires |header| == 8 && |total| == 2
    ensures (header + body)[2 := total[0]][3 := total[1]] == header[2 := total[0]][3 := total[1]] + body
  {
  }

  // ----- Decoding -----

  function ParseAttrs(body: seq<Byte>, count: nat): Result<seq<Attr>, DecodeError> {
    if count == 0 then Ok([])
    else if |body| < ATTR_HEADER_LEN then Err(Malformed(AttrHeaderPastEnd))
    else
      var attrLen := Word(body[2], body[3]);
      if attrLen < ATTR_HEADER_LEN || |body| < attrLen then Err(Malformed(AttrLengthInvalid))
      else
        match ParseAttrs(body[attrLen..], count - 1)
        case Err(e) => Err(e)
        case Ok(rest) => Ok([Attr(AttrFromCode(body[1]), body[ATTR_HEADER_LEN..attrLen])] + rest)
  }

  function Decode(buf: seq<Byte>): Result<Packet, DecodeError> {
    if |buf| < HEADER_LEN then Err(Incomplete)
    else if buf[0] != PROTO_VERSION then Err(BadVersion(buf[0]))
    else
      var length := Word(buf[2], buf[3]);
      if length < HEADER_LEN then Err(Malformed(LengthBelowHeader))
      else if |buf| < length then Err(Incomplete)
      else if buf[1] % 2 == 0 then Ok(Data(buf[HEADER_LEN..length]))
      else if length < HEADER_LEN + CTRL_HEADER_LEN then Err(Malformed(ShortControl))
      else
        match ParseAttrs(buf[HEADER_LEN + CTRL_HEADER_LEN..length], Word(buf[6], buf[7]))
        case Err(e) => Err(e)
        case Ok(attrs) => Ok(Ctrl(MsgFromCode(Word(buf[4], buf[5])), attrs))
  }

  /** `decode` as it is written: a loop over the attributes with a running position. */
  method DecodePacket(buf: seq<Byte>) returns (r: Result<Packet, DecodeError>)
    ensures r == Decode(buf)
  {
    if |buf| < HEADER_LEN {
      return Err(Incomplete);
    }
    if buf[0] != PROTO_VERSION {
      return Err(BadVersion(buf[0]));
    }
    var flags := buf[1];
    var length := Word(buf[2], buf[3]);
    if length < HEADER_LEN {
      return Err(Malformed(LengthBelowHeader));
    }
    if |buf| < length {
      return Err(Incomplete);
    }
    if flags % 2 == 0 {
      return Ok(Data(buf[HEADER_LEN..length]));
    }
    if length < HEADER_LEN + CTRL_HEADER_LEN {
      return Err(Malformed(ShortControl));
    }
    var msgType := MsgFromCode(Word(buf[4], buf[5]));
    var nattr := Word(buf[6], buf[7]);
    var attrs := DecodeAttrs(buf, length, nattr);
    match attrs
    case Err(e) => return Err(e);
    case Ok(list) => return Ok(Ctrl(msgType, list));
  }

  /** The attribute loop of `decode`, with its running position. */
  method DecodeAttrs(buf: seq<Byte>, length: nat, nattr: nat) returns (r: Result<seq<Attr>, DecodeError>)
    requires 8 <= length <= |buf|
    ensures r == ParseAttrs(buf[8..length], nattr)
  {
    var attrs: seq<Attr> := [];
    var pos := HEADER_LEN + CTRL_HEADER_LEN;
    ghost var whole := ParseAttrs(buf[8..length], nattr);
    for i := 0 to nattr
      invariant 8 <= pos <= length
      invariant whole == Prepend(attrs, ParseAttrs(buf[pos..length], nattr - i))
    {
      if pos + ATTR_HEADER_LEN > length {
        return Err(Malformed(AttrHeaderPastEnd));
      }
      OneAttr(buf, pos, length, nattr - i);
      var attrType := AttrFromCode(buf[pos + 1]);
      var attrLen := Word(buf[pos + 2], buf[pos + 3]);
      if attrLen < ATTR_HEADER_LEN || pos + attrLen > length {
        return Err(Malformed(AttrLengthInvalid));
      }
      var data := buf[pos + ATTR_HEADER_LEN..pos + attrLen];
      PrependOne(attrs, Attr(attrType, data), ParseAttrs(buf[pos + attrLen..length], nattr - i - 1));
      attrs := attrs + [Attr(attrType, data)];
      pos := pos + attrLen;
    }
    assert attrs + [] == attrs;
    return Ok(attrs);
  }

  /** One round of the attribute loop. */
  lemma OneAttr(buf: seq<Byte>, pos: nat, length: nat, left: nat)
    requires left > 0 && pos + ATTR_HEADER_LEN <= length <= |buf|
    ensures var attrLen := Word(buf[pos + 2], buf[pos + 3]);
      ParseAttrs(buf[pos..length], left)
      == if attrLen < ATTR_HEADER_LEN || pos + attrLen > length then Err(Malformed(AttrLengthInvalid))
         else Prepend([Attr(AttrFromCode(buf[pos + 1]), buf[pos + ATTR_HEADER_LEN..pos + attrLen])],
                      ParseAttrs(buf[pos + attrLen..length], left - 1))
  {
    var body, attrLen := buf[pos..length], Word(buf[pos + 2], buf[pos + 3]);
    assert body[1] == buf[pos + 1] && body[2] == buf[pos + 2] && body[3] == buf[pos + 3];
    if attrLen >= ATTR_HEADER_LEN && pos + attrLen <= length {
      SliceOfSlice(buf, pos, length, ATTR_HEADER_LEN, attrLen);
      SliceOfSlice(buf, pos, length, attrLen, length - pos);
      assert body[attrLen..] == buf[pos + attrLen..length];
    }
  }

  function Prepend(done: seq<Attr>, r: Result<seq<Attr>, DecodeError>): (p: Result<seq<Attr>, DecodeError>)
    ensures done == [] ==> p == r
  {
    assert done == [] && r.Ok? ==> done + r.value == r.value;
    if r.Ok? then Ok(done + r.value) else r
  }

  lemma PrependOne(done: seq<Attr>, a: Attr, r: Result<seq<Attr>, DecodeError>)
    ensures Prepend(done, Prepend([a], r)) == Prepend(done + [a], r)
  {
    if r.Ok? {
      assert done + ([a] + r.value) == done + [a] + r.value;
    }
  }

  /** The length field of a buffer that holds a whole packet; `next_packet` drains this many bytes. */
  function PacketLength(buf: seq<Byte>): (n: nat)
    requires Decode(buf).Ok?
    ensures 4 <= n <= |buf|
  {
    Word(buf[2], buf[3])
  }

  // ----- Round trips -----

  /** The bytes of the attributes that were read never exceed the body they were read from. */
  lemma ParsedAttrsFit(body: seq<Byte>, count: nat)
    requires ParseAttrs(body, count).Ok?
    ensures |AttrsBytes(ParseAttrs(body, count).value)| <= |body|
    ensures |ParseAttrs(body, count).value| == count
    ensures forall i :: 0 <= i < count ==> CanonicalAttr(ParseAttrs(body, count).value[i])
  {
    if count > 0 {
      var attrLen := Word(body[2], body[3]);
      ParsedAttrsFit(body[attrLen..], count - 1);
      var attrs := ParseAttrs(body, count).value;
      assert attrs[1..] == ParseAttrs(body[attrLen..], count - 1).value;
      assert |AttrBytes(attrs[0])| == attrLen;
    }
  }

  lemma {:induction false} ParseEncodedAttrs(attrs: seq<Attr>, rest: seq<Byte>)
    requires forall i :: 0 <= i < |attrs| ==> CanonicalAttr(attrs[i])
    requires |AttrsBytes(attrs)| <= 0xFFFF
    ensures ParseAttrs(AttrsBytes(attrs) + rest, |attrs|) == Ok(attrs)
  {
    if attrs != [] {
      var a, tail := attrs[0], attrs[1..];
      var first := AttrBytes(a);
      var whole := AttrsBytes(attrs) + rest;
      assert whole == first + (AttrsBytes(tail) + rest);
      assert whole[1] == AttrCode(a.attrType);
      assert whole[2] == first[2] && whole[3] == first[3];
      assert Word(whole[2], whole[3]) == |first|;
      assert whole[|first|..] == AttrsBytes(tail) + rest;
      assert whole[4..|first|] == a.data;
      ParseEncodedAttrs(tail, rest);
      assert [a] + tail == attrs;
    }
  }

  /**
   A control packet, with any bytes after it, decodes to itself exactly when its codes are
   canonical and it fits the 16-bit length field.
   */
  lemma CtrlRoundTrip(m: MsgType, attrs: seq<Attr>, rest: seq<Byte>)
    ensures Decode(EncodeCtrl(m, attrs) + rest) == Ok(Ctrl(m, attrs))
      <==> Canonical(m, attrs) && |EncodeCtrl(m, attrs)| <= 0xFFFF
  {
    if Canonical(m, attrs) && |EncodeCtrl(m, attrs)| <= 0xFFFF {
      DecodeEncodedCtrl(m, attrs, rest);
    }
    if Decode(EncodeCtrl(m, attrs) + rest) == Ok(Ctrl(m, attrs)) {
      DecodedCtrlFits(m, attrs, rest);
    }
  }

  lemma DecodeEncodedCtrl(m: MsgType, attrs: seq<Attr>, rest: seq<Byte>)
    requires Canonical(m, attrs) && |EncodeCtrl(m, attrs)| <= 0xFFFF
    ensures Decode(EncodeCtrl(m, attrs) + rest) == Ok(Ctrl(m, attrs))
  {
    var buf, n := EncodeCtrl(m, attrs) + rest, |EncodeCtrl(m, attrs)|;
    CtrlHeader(m, attrs, rest);
    AttrsAreLong(attrs);
    ParseEncodedAttrs(attrs, []);
    assert AttrsBytes(attrs) + [] == AttrsBytes(attrs);
    assert MsgFromCode(MsgCode(m)) == m;
  }

  lemma DecodedCtrlFits(m: MsgType, attrs: seq<Attr>, rest: seq<Byte>)
    requires Decode(EncodeCtrl(m, attrs) + rest) == Ok(Ctrl(m, attrs))
    ensures Canonical(m, attrs) && |EncodeCtrl(m, attrs)| <= 0xFFFF
  {
    var buf := EncodeCtrl(m, attrs) + rest;
    var length := Word(buf[2], buf[3]);
    CtrlHeader(m, attrs, rest);
    ParsedAttrsFit(buf[8..length], Word(buf[6], buf[7]));
    assert MsgFromCode(MsgCode(m)) == m;
  }

  /** Where the header fields of an encoded control packet end up. */
  lemma CtrlHeader(m: MsgType, attrs: seq<Attr>, rest: seq<Byte>)
    ensures var body, wire := AttrsBytes(attrs), EncodeCtrl(m, attrs);
      var buf := wire + rest;
      && |wire| == 8 + |body|
      && buf[0] == PROTO_VERSION && buf[1] == 1
      && Word(buf[2], buf[3]) == Low16(|wire|)
      && Word(buf[4], buf[5]) == MsgCode(m)
      && Word(buf[6], buf[7]) == Low16(|attrs|)
      && buf[8..|wire|] == body
  {
    var head := CtrlHead(8 + |AttrsBytes(attrs)|, MsgCode(m), |attrs|);
    var buf := EncodeCtrl(m, attrs) + rest;
    Associate(head, AttrsBytes(attrs), rest);
    assert forall i :: 0 <= i < 8 ==> buf[i] == head[i];
  }

  lemma AttrsAreLong(attrs: seq<Attr>)
    ensures |AttrsBytes(attrs)| >= 4 * |attrs|
  {
  }

  /** A data packet, with any bytes after it, decodes to its frame exactly when it fits. */
  lemma DataRoundTrip(frame: seq<Byte>, rest: seq<Byte>)
    ensures Decode(EncodeData(frame) + rest) == Ok(Data(frame)) <==> |frame| <= 0xFFFF - 4
    ensures |frame| <= 0xFFFF - 4 ==> PacketLength(EncodeData(frame) + rest) == |EncodeData(frame)|
  {
    var wire := EncodeData(frame);
    var buf := wire + rest;
    assert Word(buf[2], buf[3]) == Low16(|wire|);
    if |frame| <= 0xFFFF - 4 {
      assert buf[4..|wire|] == frame;
    }
  }

  // ----- The incremental reader -----

  datatype Next = Next(result: Result<Option<Packet>, DecodeError>, rest: seq<Byte>)

  /** What `next_packet` returns on a buffer, and the buffer it leaves. */
  function NextOf(buf: seq<Byte>): Next {
    match Decode(buf)
    case Ok(p) => Next(Ok(Some(p)), buf[PacketLength(buf)..])
    case Err(Incomplete) => Next(Ok(None), buf)
    case Err(e) => Next(Err(e), buf)
  }

  class PacketReader {
    var buf: seq<Byte>

    constructor ()
      ensures buf == []
    {
      buf := [];
    }

    method Push(bytes: seq<Byte>)
      modifies this
      ensures buf == old(buf) + bytes
    {
      buf := buf + bytes;
    }

    method NextPacket() returns (r: Result<Option<Packet>, DecodeError>)
      modifies this
      ensures Next(r, buf) == NextOf(old(buf))
    {
      var decoded := DecodePacket(buf);
      match decoded
      case Ok(p) =>
        var consumed := Word(buf[2], buf[3]);
        buf := buf[consumed..];
        r := Ok(Some(p));
      case Err(Incomplete) =>
        r := Ok(None);
      case Err(e) =>
        r := Err(e);
    }
  }
}
