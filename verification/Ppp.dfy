/** The outermost PPP frame: an Address/Control prefix and a protocol number. */
module Ppp {
  import opened Wrappers
  import opened Bytes

  const ADDRESS_CONTROL: seq<Byte> := [0xFF, 0x03]

  datatype Protocol = Ip | Lcp | Pap | Chap | Ipcp | UnknownProtocol(code: Word16)

  function ProtocolCode(p: Protocol): Word16 {
    match p
    case Ip => 0x0021
    case Lcp => 0xC021
    case Pap => 0xC023
    case Chap => 0xC223
    case Ipcp => 0x8021
    case UnknownProtocol(v) => v
  }

  function ProtocolFromCode(v: Word16): (p: Protocol)
    ensures ProtocolCode(p) == v
  {
    match v
    case 0x0021 => Ip
    case 0xC021 => Lcp
    case 0xC023 => Pap
    case 0xC223 => Chap
    case 0x8021 => Ipcp
    case _ => UnknownProtocol(v)
  }

  predicate Canonical(p: Protocol) {
    p.UnknownProtocol? ==> p.code !in {0x0021, 0xC021, 0xC023, 0xC223, 0x8021}
  }

  datatype Split = Split(protocol: Protocol, payload: seq<Byte>)

  function StripAddressControl(frame: seq<Byte>): seq<Byte> {
    if |frame| >= 2 && frame[0] == 0xFF && frame[1] == 0x03 then frame[2..] else frame
  }

  function FrameHead(p: Protocol): (h: seq<Byte>)
    ensures |h| == 4 && h[0] == 0xFF && h[1] == 0x03 && Word(h[2], h[3]) == ProtocolCode(p)
  {
    var code := Be16(ProtocolCode(p));
    [0xFF, 0x03, code[0], code[1]]
  }

  function Encode(p: Protocol, payload: seq<Byte>): seq<Byte> {
    FrameHead(p) + payload
  }

  method BuildFrame(p: Protocol, payload: seq<Byte>) returns (out: seq<Byte>)
    ensures out == Encode(p, payload)
  {
    out := ADDRESS_CONTROL;
    out := out + Be16(ProtocolCode(p));
    assert out == FrameHead(p);
    out := out + payload;
  }

  function Decode(frame: seq<Byte>): Option<Split> {
    var rest := StripAddressControl(frame);
    if |rest| < 2 then None
    else Some(Split(ProtocolFromCode(Word(rest[0], rest[1])), rest[2..]))
  }

  /**
   A frame decodes to what was encoded exactly when its protocol is canonical. Without the
   prefix (a peer that negotiated ACFC) it does too, unless the protocol number looks like
   the prefix itself.
   */
  lemma FrameRoundTrip(p: Protocol, payload: seq<Byte>)
    ensures Decode(Encode(p, payload)) == Some(Split(p, payload)) <==> Canonical(p)
    ensures StripAddressControl(Encode(p, payload)) == Be16(ProtocolCode(p)) + payload
    ensures Decode(Be16(ProtocolCode(p)) + payload) == Some(Split(p, payload))
      <==> Canonical(p) && ProtocolCode(p) != 0xFF03
  {
    var bare := Be16(ProtocolCode(p)) + payload;
    var wire := Encode(p, payload);
    assert wire[2..] == bare;
    assert bare[2..] == payload;
    assert |bare[2..]| == |bare| - 2;
    if Canonical(p) {
      assert ProtocolFromCode(ProtocolCode(p)) == p;
    }
  }
}
