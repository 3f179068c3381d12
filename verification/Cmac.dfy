/** The crypto-binding message that ends the SSTP handshake ([MS-SSTP] section 2.2.11). */
module Cmac {
  import opened Bytes
  import opened Primitives
  import opened Packet

  const SEED: seq<Byte> := Ascii("SSTP inner method derived CMK")

  datatype HashAlgo = Sha1 | Sha256

  function DigestLen(a: HashAlgo): (n: Byte)
    ensures n == 20 || n == 32
  {
    match a
    case Sha1 => 20
    case Sha256 => 32
  }

  function WireByte(a: HashAlgo): Byte {
    match a
    case Sha1 => 1
    case Sha256 => 2
  }

  function Hmac(pr: Primitives, a: HashAlgo, key: seq<Byte>, message: seq<Byte>): (mac: seq<Byte>)
    ensures |mac| == DigestLen(a)
  {
    match a
    case Sha1 => pr.hmacSha1(key, message)
    case Sha256 => pr.hmacSha256(key, message)
  }

  function Hlak(sendKey: Bytes16, recvKey: Bytes16): Bytes32 {
    sendKey + recvKey
  }

  /** `make_hlak` as it is written: two slices of a zeroed buffer. */
  method MakeHlak(sendKey: Bytes16, recvKey: Bytes16) returns (hlak: Bytes32)
    ensures hlak == Hlak(sendKey, recvKey)
  {
    var out := Zeros(32);
    out := sendKey + out[16..];
    out := out[..16] + recvKey;
    hlak := out;
  }

  function CompoundMac(pr: Primitives, a: HashAlgo, sendKey: Bytes16, recvKey: Bytes16, message: seq<Byte>): (mac: seq<Byte>)
    ensures |mac| == DigestLen(a)
  {
    var t1 := Hmac(pr, a, Hlak(sendKey, recvKey), SEED + [DigestLen(a), 0, 1]);
    Hmac(pr, a, t1, message)
  }

  method ComputeMac(pr: Primitives, a: HashAlgo, sendKey: Bytes16, recvKey: Bytes16, message: seq<Byte>) returns (mac: seq<Byte>)
    ensures mac == CompoundMac(pr, a, sendKey, recvKey, message)
  {
    var hlak := MakeHlak(sendKey, recvKey);
    var t1 := Hmac(pr, a, hlak, SEED + [DigestLen(a), 0, 1]);
    mac := Hmac(pr, a, t1, message);
  }

  /** Three zero bytes, the hash algorithm, nonce, certificate hash. */
  function BindHead(a: HashAlgo, nonce: Bytes32, certHash: Bytes32): (d: seq<Byte>)
    ensures |d| == 68
  {
    [0, 0, 0, WireByte(a)] + nonce + certHash
  }

  function BindData(a: HashAlgo, nonce: Bytes32, certHash: Bytes32, macField: Bytes32): (d: seq<Byte>)
    ensures |d| == 100
  {
    BindHead(a, nonce, certHash) + macField
  }

  /** A CONNECTED packet with the given contents of the MAC field. */
  function ConnectedPacket(a: HashAlgo, nonce: Bytes32, certHash: Bytes32, macField: Bytes32): seq<Byte> {
    EncodeCtrl(Connected, [Attr(CryptoBind, BindData(a, nonce, certHash, macField))])
  }

  const MAC_OFFSET := 80

  function PadMac(mac: seq<Byte>): Bytes32
    requires |mac| <= 32
  {
    mac + Zeros(32 - |mac|)
  }

  function ConnectedMessage(pr: Primitives, a: HashAlgo, nonce: Bytes32, certHash: Bytes32, sendKey: Bytes16, recvKey: Bytes16): seq<Byte> {
    var mac := CompoundMac(pr, a, sendKey, recvKey, ConnectedPacket(a, nonce, certHash, Zeros(32)));
    ConnectedPacket(a, nonce, certHash, PadMac(mac))
  }

  /** `build_connected_message` as it is written: fills a buffer, encodes it, patches the MAC in place. */
  method BuildConnected(pr: Primitives, a: HashAlgo, nonce: Bytes32, certHash: Bytes32, sendKey: Bytes16, recvKey: Bytes16)
    returns (pkt: seq<Byte>)
    ensures pkt == ConnectedMessage(pr, a, nonce, certHash, sendKey, recvKey)
  {
    var attrData := FillBindData(a, nonce, certHash);
    pkt := BuildCtrl(Connected, [Attr(CryptoBind, attrData)]);
    var mac := ComputeMac(pr, a, sendKey, recvKey, pkt);
    ConnectedSplit(a, nonce, certHash, Zeros(32));
    ConnectedSplit(a, nonce, certHash, PadMac(mac));
    PatchTail(ConnectedHead(a, nonce, certHash), mac);
    pkt := pkt[..MAC_OFFSET] + mac + pkt[MAC_OFFSET + |mac|..];
  }

  /** The 100-byte attribute buffer with its MAC field still zero. */
  method FillBindData(a: HashAlgo, nonce: Bytes32, certHash: Bytes32) returns (d: seq<Byte>)
    ensures d == BindData(a, nonce, certHash, Zeros(32))
  {
    d := Zeros(100);
    d := d[3 := WireByte(a)];
    assert d[..4] == [0, 0, 0, WireByte(a)];
    d := d[..4] + nonce + d[36..];
    assert d[..36] == [0, 0, 0, WireByte(a)] + nonce;
    d := d[..36] + certHash + d[68..];
    assert d[..68] == [0, 0, 0, WireByte(a)] + nonce + certHash;
    assert d[68..] == Zeros(32);
    assert d == d[..68] + d[68..];
  }

  lemma PatchTail(head: seq<Byte>, mac: seq<Byte>)
    requires |mac| <= 32
    ensures var zeroed := head + Zeros(32);
      zeroed[..|head|] + mac + zeroed[|head| + |mac|..] == head + PadMac(mac)
  {
    var zeroed := head + Zeros(32);
    assert zeroed[|head| + |mac|..] == Zeros(32 - |mac|);
    assert zeroed[..|head|] == head;
  }

  /** Everything before the MAC field. */
  function ConnectedHead(a: HashAlgo, nonce: Bytes32, certHash: Bytes32): (h: seq<Byte>)
    ensures |h| == MAC_OFFSET
  {
    CtrlHead(112, MsgCode(Connected), 1) + AttrHead(AttrCode(CryptoBind), 104) + BindHead(a, nonce, certHash)
  }

  lemma ConnectedSplit(a: HashAlgo, nonce: Bytes32, certHash: Bytes32, macField: Bytes32)
    ensures ConnectedPacket(a, nonce, certHash, macField) == ConnectedHead(a, nonce, certHash) + macField
    ensures |ConnectedPacket(a, nonce, certHash, macField)| == 112
  {
    var attr := Attr(CryptoBind, BindData(a, nonce, certHash, macField));
    assert [attr][1..] == [];
    var head := AttrHead(AttrCode(CryptoBind), 104);
    assert AttrBytes(attr) == head + (BindHead(a, nonce, certHash) + macField);
    assert AttrsBytes([attr]) == AttrBytes(attr) + [] == AttrBytes(attr);
    Associate(head, BindHead(a, nonce, certHash), macField);
    Associate(CtrlHead(112, MsgCode(Connected), 1), head + BindHead(a, nonce, certHash), macField);
    Associate(CtrlHead(112, MsgCode(Connected), 1), head, BindHead(a, nonce, certHash));
  }
}
