/** MPPE key derivation from an MS-CHAPv2 exchange (RFC 3079 section 3). */
module Mppe {
  import opened Bytes
  import opened Primitives

  const MASTER_KEY_MAGIC: seq<Byte> := Ascii("This is the MPPE Master Key")
  const CLIENT_SEND_MAGIC: seq<Byte> :=
    Ascii("On the client side, this is the send key; on the server side, it is the receive key.")
  const CLIENT_RECV_MAGIC: seq<Byte> :=
    Ascii("On the client side, this is the receive key; on the server side, it is the send key.")

  datatype Keys = Keys(sendKey: Bytes16, recvKey: Bytes16)

  function PasswordHashHash(pr: Primitives, password: Text): Bytes16 {
    pr.md4(pr.md4(Doubled(Utf8(password))))
  }

  /** `password_hash_hash` as it is written: the bytes are doubled in a loop. */
  method ComputePasswordHashHash(pr: Primitives, password: Text) returns (h: Bytes16)
    ensures h == PasswordHashHash(pr, password)
  {
    var bytes := Utf8(password);
    var utf16le: seq<Byte> := [];
    for i := 0 to |bytes|
      invariant utf16le == Doubled(bytes[..i])
    {
      DoubledAppend(bytes[..i], [bytes[i]]);
      assert bytes[..i + 1] == bytes[..i] + [bytes[i]];
      assert Doubled([bytes[i]]) == [bytes[i], 0];
      utf16le := utf16le + [bytes[i]];
      utf16le := utf16le + [0];
    }
    assert bytes[..|bytes|] == bytes;
    h := pr.md4(pr.md4(utf16le));
  }

  function MasterKey(pr: Primitives, hashHash: Bytes16, nt: Bytes24): Bytes16 {
    pr.sha1(hashHash + nt + MASTER_KEY_MAGIC)[..16]
  }

  function SessionKey(pr: Primitives, master: Bytes16, sending: bool, isServer: bool): Bytes16 {
    var magic := if sending != isServer then CLIENT_SEND_MAGIC else CLIENT_RECV_MAGIC;
    pr.sha1(master + Zeros(40) + magic + seq(40, i => 0xF2))[..16]
  }

  function GetKeys(pr: Primitives, password: Text, nt: Bytes24, isServer: bool): Keys {
    var master := MasterKey(pr, PasswordHashHash(pr, password), nt);
    Keys(SessionKey(pr, master, true, isServer), SessionKey(pr, master, false, isServer))
  }

  /** `mppe_get_keys` over the doubling loop. */
  method ComputeKeys(pr: Primitives, password: Text, nt: Bytes24, isServer: bool) returns (keys: Keys)
    ensures keys == GetKeys(pr, password, nt, isServer)
  {
    var hashHash := ComputePasswordHashHash(pr, password);
    var master := MasterKey(pr, hashHash, nt);
    var recvKey := SessionKey(pr, master, false, isServer);
    var sendKey := SessionKey(pr, master, true, isServer);
    keys := Keys(sendKey, recvKey);
  }
}
