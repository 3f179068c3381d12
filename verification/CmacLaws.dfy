/** Byte-level layout of the CONNECTED message, and what a server recomputes from it. */
module CmacLaws {
  import opened Wrappers
  import opened Bytes
  import opened Primitives
  import opened Packet
  import opened Cmac
  import Mppe
  import Rfc

  /** The packet with its MAC field zeroed again. */
  function Rezeroed(pkt: seq<Byte>): seq<Byte>
    requires |pkt| == 112
  {
    pkt[..80] + Zeros(32)
  }

  /**
   The message decodes to one 100-byte CRYPTO_BIND attribute with every field in its place; it
   differs from the zero-MAC packet in the natural MAC bytes only, and the MAC of the packet with
   that field zeroed again is the one it carries.
   */
  lemma ConnectedLayout(pr: Primitives, a: HashAlgo, nonce: Bytes32, certHash: Bytes32, sendKey: Bytes16, recvKey: Bytes16)
    ensures var pkt := ConnectedMessage(pr, a, nonce, certHash, sendKey, recvKey);
      && |pkt| == 112
      && Decode(pkt) == Ok(Ctrl(Connected, [Attr(CryptoBind, pkt[12..112])]))
      && pkt[..16] == [0x10, 0x01, 0x00, 0x70, 0x00, 0x04, 0x00, 0x01, 0x00, 0x03, 0x00, 0x68, 0x00, 0x00, 0x00,
                       if a == Sha256 then 2 else 1]
      && pkt[16..48] == nonce
      && pkt[48..80] == certHash
      && Rezeroed(pkt) == ConnectedPacket(a, nonce, certHash, Zeros(32))
      && pkt[80..80 + DigestLen(a)] == CompoundMac(pr, a, sendKey, recvKey, Rezeroed(pkt))
      && pkt[80 + DigestLen(a)..112] == Zeros(32 - DigestLen(a))
  {
    var mac := CompoundMac(pr, a, sendKey, recvKey, ConnectedPacket(a, nonce, certHash, Zeros(32)));
    var field := PadMac(mac);
    var pkt := ConnectedPacket(a, nonce, certHash, field);
    ConnectedSplit(a, nonce, certHash, field);
    ConnectedSplit(a, nonce, certHash, Zeros(32));
    HeadFields(a, nonce, certHash);
    assert pkt[80..112] == field;
    assert pkt[80..80 + |mac|] == field[..|mac|] == mac;
    assert pkt[80 + |mac|..112] == field[|mac|..];
    assert pkt[..80] == ConnectedHead(a, nonce, certHash);
    ConnectedDecodes(a, nonce, certHash, field);
    BindBytes(a, nonce, certHash, field);
    var head := ConnectedHead(a, nonce, certHash);
    assert pkt[..16] == head[..16] && pkt[16..48] == head[16..48] && pkt[48..80] == head[48..80];
  }

  lemma HeadFields(a: HashAlgo, nonce: Bytes32, certHash: Bytes32)
    ensures var h := ConnectedHead(a, nonce, certHash);
      && h[..16] == [0x10, 0x01, 0x00, 0x70, 0x00, 0x04, 0x00, 0x01, 0x00, 0x03, 0x00, 0x68, 0x00, 0x00, 0x00,
                     if a == Sha256 then 2 else 1]
      && h[16..48] == nonce && h[48..80] == certHash
  {
    var h, bind := ConnectedHead(a, nonce, certHash), BindHead(a, nonce, certHash);
    FixedHead();
    assert h[..12] == CtrlHead(112, MsgCode(Connected), 1) + AttrHead(AttrCode(CryptoBind), 104);
    assert h[12..16] == bind[..4] && h[16..48] == bind[4..36] && h[48..80] == bind[36..68];
    assert h[..16] == h[..12] + h[12..16];
  }

  lemma FixedHead()
    ensures CtrlHead(112, MsgCode(Connected), 1) + AttrHead(AttrCode(CryptoBind), 104)
      == [0x10, 0x01, 0x00, 0x70, 0x00, 0x04, 0x00, 0x01, 0x00, 0x03, 0x00, 0x68]
  {
  }

  lemma Pieces(pkt: seq<Byte>, n: nat)
    requires |pkt| == 112 && n <= 32
    ensures pkt[..80] == pkt[..16] + pkt[16..48] + pkt[48..80]
    ensures pkt == pkt[..80] + (pkt[80..80 + n] + pkt[80 + n..112])
  {
  }

  /** Octet for octet, the message is that of [MS-SSTP] with the server's, mirrored keys. */
  lemma ConnectedIsStandard(pr: Primitives, hash: Byte, nonce: Bytes32, certHash: Bytes32, client: Mppe.Keys)
    requires hash == 1 || hash == 2
    ensures ConnectedMessage(pr, Rfc.HashNumbered(hash), nonce, certHash, client.sendKey, client.recvKey)
      == Rfc.ConnectedOctets(pr, hash, nonce, certHash, Mppe.Keys(client.recvKey, client.sendKey))
  {
    var a := Rfc.HashNumbered(hash);
    var pkt := ConnectedMessage(pr, a, nonce, certHash, client.sendKey, client.recvKey);
    ConnectedLayout(pr, a, nonce, certHash, client.sendKey, client.recvKey);
    Pieces(pkt, DigestLen(a));
    Rfc.MacIsStandard(pr, hash, client, Rezeroed(pkt));
  }

  lemma ConnectedDecodes(a: HashAlgo, nonce: Bytes32, certHash: Bytes32, macField: Bytes32)
    ensures Decode(ConnectedPacket(a, nonce, certHash, macField))
      == Ok(Ctrl(Connected, [Attr(CryptoBind, BindData(a, nonce, certHash, macField))]))
  {
    var pkt := ConnectedPacket(a, nonce, certHash, macField);
    ConnectedSplit(a, nonce, certHash, macField);
    DecodeEncodedCtrl(Connected, [Attr(CryptoBind, BindData(a, nonce, certHash, macField))], []);
    assert pkt + [] == pkt;
  }

  lemma BindBytes(a: HashAlgo, nonce: Bytes32, certHash: Bytes32, macField: Bytes32)
    ensures ConnectedPacket(a, nonce, certHash, macField)[12..112] == BindData(a, nonce, certHash, macField)
  {
    ConnectedSplit(a, nonce, certHash, macField);
    var before := CtrlHead(112, MsgCode(Connected), 1) + AttrHead(AttrCode(CryptoBind), 104);
    var bind := BindHead(a, nonce, certHash);
    assert (before + bind + macField)[12..112] == bind + macField;
  }
}
