/**
 Reference syntax, written from the standards in literal numbers and without the client's tables:
 messages ([MS-SSTP] section 2.2), PPP frames (RFC 1661 sections 2 and 6.6), the packets of LCP, IPCP and
 CHAP (RFC 1661 section 5, RFC 1994 section 4) and their options (RFC 1661 section 6).
 */
module RfcSyntax {
  import opened Wrappers
  import opened Bytes
  import Cp

  // ----- Numbers, most significant octet first -----

  function Number(high: Byte, low: Byte): nat {
    256 * high + low
  }

  function LongNumber(b: Bytes4): nat {
    256 * (256 * Number(b[0], b[1]) + b[2]) + b[3]
  }

  /** Two octets; a number that takes more loses its multiples of 65536. */
  function Octets(n: nat): (b: seq<Byte>)
    ensures |b| == 2 && Number(b[0], b[1]) == Low16(n)
  {
    var w: int := Low16(n);
    assert w == 256 * (w / 256) + w % 256;
    var high: int, low: int :| 0 <= high < 256 && 0 <= low < 256 && w == 256 * high + low;
    [high, low]
  }

  // ----- SSTP messages -----

  datatype Attribute = Attribute(id: Byte, value: seq<Byte>)

  datatype Message = DataMessage(frame: seq<Byte>) | ControlMessage(kind: Word16, attributes: seq<Attribute>)

  datatype Fault =
    | MoreNeeded
    | OtherVersion(version: Byte)
    | LengthBelowFour
    | LengthBelowEight
    | NoAttributeHeader
    | AttributeLength

  /** `count` attributes: a reserved octet, the identifier, a length that counts these four octets, the value. */
  function ReadAttributes(body: seq<Byte>, count: nat): Result<seq<Attribute>, Fault> {
    if count == 0 then Ok([])
    else if |body| < 4 then Err(NoAttributeHeader)
    else
      var length := Number(body[2], body[3]);
      if length < 4 || length > |body| then Err(AttributeLength)
      else
        match ReadAttributes(body[length..], count - 1)
        case Err(fault) => Err(fault)
        case Ok(others) => Ok([Attribute(body[1], body[4..length])] + others)
  }

  /** Version 1.0, the C bit, the length; a control message has its type and its number of attributes next. */
  function ReadMessage(buf: seq<Byte>): Result<Message, Fault> {
    if |buf| < 4 then Err(MoreNeeded)
    else if buf[0] != 0x10 then Err(OtherVersion(buf[0]))
    else
      var length := Number(buf[2], buf[3]);
      if length < 4 then Err(LengthBelowFour)
      else if length > |buf| then Err(MoreNeeded)
      else if buf[1] % 2 != 1 then Ok(DataMessage(buf[4..length]))
      else if length < 8 then Err(LengthBelowEight)
      else
        match ReadAttributes(buf[8..length], Number(buf[6], buf[7]))
        case Err(fault) => Err(fault)
        case Ok(attributes) => Ok(ControlMessage(Number(buf[4], buf[5]), attributes))
  }

  function AttributesOctets(attributes: seq<Attribute>): seq<Byte> {
    if attributes == [] then []
    else
      var a := attributes[0];
      ([0, a.id] + Octets(4 + |a.value|) + a.value) + AttributesOctets(attributes[1..])
  }

  function ControlOctets(kind: Word16, attributes: seq<Attribute>): seq<Byte> {
    var body := AttributesOctets(attributes);
    ([0x10, 0x01] + Octets(8 + |body|) + Octets(kind) + Octets(|attributes|)) + body
  }

  function DataOctets(frame: seq<Byte>): seq<Byte> {
    ([0x10, 0x00] + Octets(4 + |frame|)) + frame
  }

  /** The value of the first attribute with the given identifier. */
  function FirstValue(attributes: seq<Attribute>, id: Byte): Option<seq<Byte>> {
    if attributes == [] then None
    else if attributes[0].id == id then Some(attributes[0].value)
    else FirstValue(attributes[1..], id)
  }

  // ----- PPP frames -----

  datatype PppFrame = PppFrame(protocol: Word16, information: seq<Byte>)

  /** The Protocol field onward; the Address and Control octets may have been left out. */
  function FromProtocol(frame: seq<Byte>): seq<Byte> {
    if |frame| >= 2 && frame[0] == 0xFF && frame[1] == 0x03 then frame[2..] else frame
  }

  function ReadPpp(frame: seq<Byte>): Option<PppFrame> {
    var rest := FromProtocol(frame);
    if |rest| < 2 then None else Some(PppFrame(Number(rest[0], rest[1]), rest[2..]))
  }

  function PppOctets(protocol: Word16, information: seq<Byte>): seq<Byte> {
    ([0xFF, 0x03] + Octets(protocol)) + information
  }

  /** Neither IPv4 nor IPCP, LCP or CHAP. */
  predicate Unspoken(protocol: Word16) {
    protocol != 0x0021 && protocol != 0x8021 && protocol != 0xC021 && protocol != 0xC223
  }

  /** A PPP frame in a data message. */
  function Carried(protocol: Word16, information: seq<Byte>): seq<Byte> {
    DataOctets(PppOctets(protocol, information))
  }

  // ----- LCP, IPCP and CHAP packets: a code, an identifier, a length that counts these four octets -----

  type ControlPacket = Cp.RawFrame

  function ReadControl(buf: seq<Byte>): Option<ControlPacket> {
    if |buf| < 4 then None
    else
      var length := Number(buf[2], buf[3]);
      if length < 4 || length > |buf| then None
      else Some(Cp.RawFrame(buf[0], buf[1], buf[4..length]))
  }

  function PacketOctets(code: Byte, id: Byte, data: seq<Byte>): seq<Byte> {
    ([code, id] + Octets(4 + |data|)) + data
  }

  // ----- Configuration options: a type, a length that counts both octets, the value -----

  type ConfigOption = Cp.Opt

  /** Reading stops at what is no option. */
  function ReadOptions(buf: seq<Byte>): seq<ConfigOption> {
    if |buf| < 2 then []
    else
      var length: int := buf[1];
      if length < 2 || length > |buf| then []
      else [Cp.Opt(buf[0], buf[2..length])] + ReadOptions(buf[length..])
  }

  function OptionsOctets(options: seq<ConfigOption>): seq<Byte> {
    if options == [] then []
    else ([options[0].kind, Low8(2 + |options[0].data|)] + options[0].data) + OptionsOctets(options[1..])
  }
}
