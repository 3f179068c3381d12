/** The client's readers and writers are those of the standards: same numbers, same octets, same errors. */
module Conformance {
  import opened Wrappers
  import opened Bytes
  import opened RfcSyntax
  import Packet
  import Ppp
  import Cp
  import ChapFsm

  // ----- Numbers -----

  lemma NumbersAgree(high: Byte, low: Byte, b: Bytes4)
    ensures Word(high, low) == Number(high, low)
    ensures FromBe32(b) == LongNumber(b)
  {
  }

  lemma OctetsAgree(n: nat)
    ensures Be16(n) == Octets(n)
  {
    var a, b := Be16(n), Octets(n);
    assert 0x100 * (a[0] - b[0]) == b[1] - a[1];
  }

  lemma LongOctetsAgree(n: Word32)
    ensures LongNumber(Be32(n)) == n
  {
    NumbersAgree(0, 0, Be32(n));
  }

  // ----- SSTP messages -----

  /** Message types 1 to 9 ([MS-SSTP] section 2.2.2). */
  const MESSAGE_TYPES: seq<Packet.MsgType> :=
    [Packet.ConnectRequest, Packet.ConnectAck, Packet.ConnectNak, Packet.Connected, Packet.Abort,
     Packet.Disconnect, Packet.DisconnectAck, Packet.EchoRequest, Packet.EchoReply]

  function MessageType(kind: Word16): Packet.MsgType {
    if 1 <= kind <= 9 then MESSAGE_TYPES[kind - 1] else Packet.UnknownMsg(kind)
  }

  /** Attribute identifiers 0 to 4 ([MS-SSTP] section 2.2.4). */
  const ATTRIBUTE_TYPES: seq<Packet.AttrType> :=
    [Packet.NoError, Packet.EncapProtocol, Packet.StatusInfo, Packet.CryptoBind, Packet.CryptoBindRequest]

  function AttributeType(id: Byte): Packet.AttrType {
    if id <= 4 then ATTRIBUTE_TYPES[id] else Packet.UnknownAttr(id)
  }

  function Attr(a: Attribute): Packet.Attr {
    Packet.Attr(AttributeType(a.id), a.value)
  }

  function Attrs(attributes: seq<Attribute>): seq<Packet.Attr> {
    if attributes == [] then [] else [Attr(attributes[0])] + Attrs(attributes[1..])
  }

  /** The packet a message is for the client. */
  function PacketOf(m: Message): Packet.Packet {
    match m
    case DataMessage(frame) => Packet.Data(frame)
    case ControlMessage(kind, attributes) => Packet.Ctrl(MessageType(kind), Attrs(attributes))
  }

  /** The error a fault is for the client. */
  function ErrorOf(f: Fault): Packet.DecodeError {
    match f
    case MoreNeeded => Packet.Incomplete
    case OtherVersion(version) => Packet.BadVersion(version)
    case LengthBelowFour => Packet.Malformed(Packet.LengthBelowHeader)
    case LengthBelowEight => Packet.Malformed(Packet.ShortControl)
    case NoAttributeHeader => Packet.Malformed(Packet.AttrHeaderPastEnd)
    case AttributeLength => Packet.Malformed(Packet.AttrLengthInvalid)
  }

  lemma MessageCodes(kind: Word16)
    ensures Packet.MsgFromCode(kind) == MessageType(kind) && Packet.MsgCode(MessageType(kind)) == kind
  {
  }

  lemma AttributeCodes(id: Byte)
    ensures Packet.AttrFromCode(id) == AttributeType(id) && Packet.AttrCode(AttributeType(id)) == id
  {
  }

  lemma {:induction false} ReadsAttributes(body: seq<Byte>, count: nat)
    ensures Packet.ParseAttrs(body, count)
      == match ReadAttributes(body, count) case Ok(attributes) => Ok(Attrs(attributes)) case Err(f) => Err(ErrorOf(f))
    decreases count
  {
    if count > 0 && |body| >= 4 {
      NumbersAgree(body[2], body[3], [0, 0, 0, 0]);
      var length := Number(body[2], body[3]);
      if 4 <= length <= |body| {
        ReadsAttributes(body[length..], count - 1);
        AttributeCodes(body[1]);
        if ReadAttributes(body[length..], count - 1).Ok? {
          var attributes := ReadAttributes(body, count).value;
          assert attributes[1..] == ReadAttributes(body[length..], count - 1).value;
        }
      }
    }
  }

  /** The packet of the message that was read, or the error of the fault. */
  predicate SameReading(decoded: Result<Packet.Packet, Packet.DecodeError>, read: Result<Message, Fault>) {
    decoded == match read case Ok(m) => Ok(PacketOf(m)) case Err(f) => Err(ErrorOf(f))
  }

  /** Every buffer decodes to what the reference reads, with the same error if it reads nothing. */
  lemma ReadsMessages(buf: seq<Byte>)
    ensures SameReading(Packet.Decode(buf), ReadMessage(buf))
  {
    if |buf| >= 8 {
      NumbersAgree(buf[2], buf[3], [0, 0, 0, 0]);
      NumbersAgree(buf[4], buf[5], [0, 0, 0, 0]);
      NumbersAgree(buf[6], buf[7], [0, 0, 0, 0]);
      var length := Number(buf[2], buf[3]);
      if 8 <= length <= |buf| {
        ReadsAttributes(buf[8..length], Number(buf[6], buf[7]));
        MessageCodes(Number(buf[4], buf[5]));
      }
    }
  }

  lemma {:induction false} WritesAttributes(attributes: seq<Attribute>)
    ensures Packet.AttrsBytes(Attrs(attributes)) == AttributesOctets(attributes)
    ensures |Attrs(attributes)| == |attributes|
    decreases |attributes|
  {
    if attributes != [] {
      var a := attributes[0];
      WritesAttributes(attributes[1..]);
      AttributeCodes(a.id);
      OctetsAgree(4 + |a.value|);
      assert Packet.AttrHead(a.id, 4 + |a.value|) == [0, a.id] + Octets(4 + |a.value|);
      assert Attrs(attributes)[1..] == Attrs(attributes[1..]);
    }
  }

  lemma WritesHead(total: nat, kind: Word16, count: nat)
    ensures Packet.CtrlHead(total, kind, count) == [0x10, 0x01] + Octets(total) + Octets(kind) + Octets(count)
  {
    OctetsAgree(total);
    OctetsAgree(kind);
    OctetsAgree(count);
  }

  /** Every control packet is written as the reference writes it, the oversize ones included. */
  lemma WritesControlMessages(kind: Word16, attributes: seq<Attribute>, m: Packet.MsgType, attrs: seq<Packet.Attr>)
    requires m == MessageType(kind) && attrs == Attrs(attributes)
    ensures Packet.EncodeCtrl(m, attrs) == ControlOctets(kind, attributes)
  {
    WritesAttributes(attributes);
    MessageCodes(kind);
    WritesHead(8 + |AttributesOctets(attributes)|, kind, |attributes|);
  }

  lemma WritesDataMessages(frame: seq<Byte>)
    ensures Packet.EncodeData(frame) == DataOctets(frame)
  {
    OctetsAgree(4 + |frame|);
    assert Packet.DataHead(4 + |frame|) == [0x10, 0x00] + Octets(4 + |frame|);
  }

  // ----- PPP frames -----

  /** The protocol of a number: IPv4, LCP, PAP, CHAP, IPCP, or none the client knows. */
  function ProtocolNumbered(number: Word16): Ppp.Protocol {
    if number == 0x0021 then Ppp.Ip
    else if number == 0x8021 then Ppp.Ipcp
    else if number == 0xC021 then Ppp.Lcp
    else if number == 0xC023 then Ppp.Pap
    else if number == 0xC223 then Ppp.Chap
    else Ppp.UnknownProtocol(number)
  }

  lemma ReadsPpp(frame: seq<Byte>)
    ensures Ppp.StripAddressControl(frame) == FromProtocol(frame)
    ensures Ppp.Decode(frame)
      == match ReadPpp(frame)
         case None => None
         case Some(f) => Some(Ppp.Split(ProtocolNumbered(f.protocol), f.information))
  {
    var rest := FromProtocol(frame);
    if |rest| >= 2 {
      NumbersAgree(rest[0], rest[1], [0, 0, 0, 0]);
    }
  }

  lemma WritesPpp(protocol: Word16, information: seq<Byte>)
    ensures Ppp.Encode(ProtocolNumbered(protocol), information) == PppOctets(protocol, information)
  {
    OctetsAgree(protocol);
    assert Ppp.FrameHead(ProtocolNumbered(protocol)) == [0xFF, 0x03] + Octets(protocol);
  }

  // ----- LCP, IPCP and CHAP packets -----

  /** Codes 1 to 11 (RFC 1661 section 5). */
  const CONTROL_CODES: seq<Cp.Code> :=
    [Cp.ConfigureRequest, Cp.ConfigureAck, Cp.ConfigureNak, Cp.ConfigureReject, Cp.TerminateRequest, Cp.TerminateAck,
     Cp.CodeReject, Cp.ProtocolReject, Cp.EchoRequest, Cp.EchoReply, Cp.DiscardRequest]

  function ControlCode(v: Byte): Cp.Code {
    if 1 <= v <= 11 then CONTROL_CODES[v - 1] else Cp.UnknownCode(v)
  }

  /** Codes 1 to 4 (RFC 1994 section 4). */
  const CHAP_CODES: seq<ChapFsm.Code> := [ChapFsm.Challenge, ChapFsm.Response, ChapFsm.Success, ChapFsm.Failure]

  function ChapCode(v: Byte): ChapFsm.Code {
    if 1 <= v <= 4 then CHAP_CODES[v - 1] else ChapFsm.UnknownCode(v)
  }

  lemma ReadsControl(buf: seq<Byte>)
    ensures Cp.ReadFrame(buf) == ReadControl(buf)
    ensures Cp.Decode(buf)
      == match ReadControl(buf) case None => None case Some(p) => Some(Cp.Frame(ControlCode(p.code), p.id, p.data))
    ensures ChapFsm.Decode(buf)
      == match ReadControl(buf) case None => None case Some(p) => Some(ChapFsm.Frame(ChapCode(p.code), p.id, p.data))
  {
    if |buf| >= 4 {
      NumbersAgree(buf[2], buf[3], [0, 0, 0, 0]);
    }
  }

  lemma WritesControl(code: Byte, id: Byte, data: seq<Byte>)
    ensures Cp.FrameBytes(code, id, data) == PacketOctets(code, id, data)
    ensures Cp.Encode(ControlCode(code), id, data) == PacketOctets(code, id, data)
    ensures ChapFsm.Encode(ChapCode(code), id, data) == PacketOctets(code, id, data)
  {
    OctetsAgree(4 + |data|);
    assert Cp.FrameHead(code, id, 4 + |data|) == [code, id] + Octets(4 + |data|);
  }

  // ----- Options -----

  lemma {:induction false} ReadsOptions(buf: seq<Byte>)
    ensures Cp.DecodeOptions(buf) == ReadOptions(buf)
    decreases |buf|
  {
    if |buf| >= 2 && 2 <= buf[1] <= |buf| {
      ReadsOptions(buf[buf[1]..]);
    }
  }

  lemma {:induction false} WritesOptions(options: seq<ConfigOption>)
    ensures Cp.EncodeOptions(options) == OptionsOctets(options)
    decreases |options|
  {
    if options != [] {
      WritesOptions(options[1..]);
    }
  }
}
