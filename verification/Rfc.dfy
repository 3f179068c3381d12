/**
 Reference definitions, written from the standards and not from the client: MS-CHAPv2 (RFC 2759
 section 8), MPPE keys (RFC 3079 section 3) and the compound MAC of [MS-SSTP]. The client's byte work
 is proved equal to them.
 */
module Rfc {
  import opened Bytes
  import opened Primitives
  import opened Chap
  import Mppe
  import Cmac

  // ----- RFC 2759 section 8.6: DES with a seven-octet key -----

  function Weight(bit: bool, w: bv8): bv8 {
    if bit then w else 0
  }

  function One(bit: bool): nat {
    if bit then 1 else 0
  }

  /** Seven key bits, most significant first, and the bit that makes the number of ones odd. */
  function OddOctet(b0: bool, b1: bool, b2: bool, b3: bool, b4: bool, b5: bool, b6: bool): bv8 {
    var even := (One(b0) + One(b1) + One(b2) + One(b3) + One(b4) + One(b5) + One(b6)) % 2 == 0;
    Weight(b0, 0x80) | Weight(b1, 0x40) | Weight(b2, 0x20) | Weight(b3, 0x10)
    | Weight(b4, 0x08) | Weight(b5, 0x04) | Weight(b6, 0x02) | Weight(even, 0x01)
  }

  /** The seven octets as 56 bits, most significant first. */
  function KeyBits(seven: seq<bv8>): (bits: seq<bool>)
    requires |seven| == 7
    ensures |bits| == 56
  {
    seq(56, k requires 0 <= k < 56 => InputBit(seven, k))
  }

  function KeyOctet(bits: seq<bool>, m: nat): bv8
    requires |bits| == 56 && m < 8
  {
    var k := 7 * m;
    OddOctet(bits[k], bits[k + 1], bits[k + 2], bits[k + 3], bits[k + 4], bits[k + 5], bits[k + 6])
  }

  function DesKey(seven: seq<bv8>): Key
    requires |seven| == 7
  {
    var bits := KeyBits(seven);
    seq(8, m requires 0 <= m < 8 => KeyOctet(bits, m))
  }

  /** Octets as bit vectors, and back. */
  function Vectors(octets: seq<Byte>): (v: seq<bv8>)
    ensures |v| == |octets|
  {
    seq(|octets|, i requires 0 <= i < |octets| => octets[i] as bv8)
  }

  function Values(v: seq<bv8>): (octets: seq<Byte>)
    ensures |octets| == |v|
  {
    seq(|v|, i requires 0 <= i < |v| => v[i] as int)
  }

  function DesEncrypt(pr: Primitives, clear: Bytes8, key: seq<Byte>): Bytes8
    requires |key| == 7
  {
    pr.des(Values(DesKey(Vectors(key))), clear)
  }

  lemma SameConversions(octets: seq<Byte>, v: seq<bv8>)
    ensures ToBits(octets) == Vectors(octets) && FromBits(v) == Values(v)
  {
  }

  lemma OddOctetBits(b0: bool, b1: bool, b2: bool, b3: bool, b4: bool, b5: bool, b6: bool)
    ensures var o := OddOctet(b0, b1, b2, b3, b4, b5, b6);
      && Bit(o, 0) == b0 && Bit(o, 1) == b1 && Bit(o, 2) == b2 && Bit(o, 3) == b3
      && Bit(o, 4) == b4 && Bit(o, 5) == b5 && Bit(o, 6) == b6
      && PopCount(o) % 2 == 1
  {
  }

  lemma SameSevenBits(a: bv8, b: bv8)
    requires Bit(a, 0) == Bit(b, 0) && Bit(a, 1) == Bit(b, 1) && Bit(a, 2) == Bit(b, 2) && Bit(a, 3) == Bit(b, 3)
    requires Bit(a, 4) == Bit(b, 4) && Bit(a, 5) == Bit(b, 5) && Bit(a, 6) == Bit(b, 6)
    ensures a & 0xFE == b & 0xFE
  {
  }

  lemma PrefixBit(input: seq<bv8>, k: nat)
    requires |input| >= 8 && k < 56
    ensures InputBit(input[..7], k) == InputBit(input, k)
  {
  }

  lemma SameOctet(a: bv8, b0: bool, b1: bool, b2: bool, b3: bool, b4: bool, b5: bool, b6: bool)
    requires Bit(a, 0) == b0 && Bit(a, 1) == b1 && Bit(a, 2) == b2 && Bit(a, 3) == b3
    requires Bit(a, 4) == b4 && Bit(a, 5) == b5 && Bit(a, 6) == b6
    requires PopCount(a) % 2 == 1
    ensures a == OddOctet(b0, b1, b2, b3, b4, b5, b6)
  {
    var o := OddOctet(b0, b1, b2, b3, b4, b5, b6);
    OddOctetBits(b0, b1, b2, b3, b4, b5, b6);
    SameSevenBits(a, o);
    OddParityUnique(a, o);
  }

  /** A byte of odd parity that carries the right seven bits. */
  ghost predicate Carries(a: bv8, bits: seq<bool>, m: nat)
    requires |bits| == 56 && m < 8
  {
    && PopCount(a) % 2 == 1
    && forall j: nat :: j < 7 ==> Bit(a, j) == bits[7 * m + j]
  }

  lemma CarriesOnly(a: bv8, bits: seq<bool>, m: nat)
    requires |bits| == 56 && m < 8 && Carries(a, bits, m)
    ensures a == KeyOctet(bits, m)
  {
    var k := 7 * m;
    SameOctet(a, bits[k], bits[k + 1], bits[k + 2], bits[k + 3], bits[k + 4], bits[k + 5], bits[k + 6]);
  }

  lemma KeyOctetIs(input: seq<bv8>, m: nat)
    requires |input| >= 8 && m < 8
    ensures MakeKey(input)[m] == KeyOctet(KeyBits(input[..7]), m)
  {
    var a, bits := MakeKey(input)[m], KeyBits(input[..7]);
    KeyBitsAreInputBits(input, m, 0);
    forall j: nat | j < 7
      ensures Bit(a, j) == bits[7 * m + j]
    {
      KeyBitsAreInputBits(input, m, j);
      PrefixBit(input, 7 * m + j);
    }
    CarriesOnly(a, bits, m);
  }

  /** The client's shifting expansion builds the standard's key. */
  lemma ExpansionIsStandard(input: seq<bv8>)
    requires |input| >= 8
    ensures MakeKey(input) == DesKey(input[..7])
  {
    forall m: nat | m < 8
      ensures MakeKey(input)[m] == DesKey(input[..7])[m]
    {
      KeyOctetIs(input, m);
    }
  }

  // ----- RFC 2759 sections 8.1 to 8.5 -----

  /** Zero-padded to 21 octets. */
  function ZPasswordHash(hash: Bytes16): (z: seq<Byte>)
    ensures |z| == 21
  {
    hash + Zeros(5)
  }

  function Response(pr: Primitives, challenge: Bytes8, hash: Bytes16): Bytes24 {
    var z := ZPasswordHash(hash);
    DesEncrypt(pr, challenge, z[0..7]) + DesEncrypt(pr, challenge, z[7..14]) + DesEncrypt(pr, challenge, z[14..21])
  }

  lemma SameOctets(hash: Bytes16, from: nat)
    requires from + 7 <= 21
    ensures ToBits(Padded(hash))[from..][..7] == ToBits(ZPasswordHash(hash)[from..from + 7])
  {
    var a, b := ToBits(Padded(hash))[from..][..7], ToBits(ZPasswordHash(hash)[from..from + 7]);
    forall k | 0 <= k < 7
      ensures a[k] == b[k]
    {
      assert Padded(hash)[from + k] == ZPasswordHash(hash)[from + k];
    }
  }

  lemma DesBlockIsStandard(pr: Primitives, hash: Bytes16, challenge: Bytes8, i: nat)
    requires i < 3
    ensures DesBlock(pr, hash, challenge, i) == DesEncrypt(pr, challenge, ZPasswordHash(hash)[7 * i..7 * i + 7])
  {
    var from := 7 * i;
    var key := ZPasswordHash(hash)[from..from + 7];
    ExpansionIsStandard(ToBits(Padded(hash))[from..]);
    SameOctets(hash, from);
    SameConversions(key, DesKey(ToBits(key)));
  }

  lemma ResponseIsStandard(pr: Primitives, challenge: Bytes8, hash: Bytes16)
    ensures ChallengeResponse(pr, challenge, hash) == Response(pr, challenge, hash)
  {
    DesBlockIsStandard(pr, hash, challenge, 0);
    DesBlockIsStandard(pr, hash, challenge, 1);
    DesBlockIsStandard(pr, hash, challenge, 2);
  }

  /** The user name as the peer presents it, without a domain and its backslash in front of it. */
  function UserName(name: seq<Byte>): seq<Byte> {
    if name == [] || name[|name| - 1] == 92 then []
    else UserName(name[..|name| - 1]) + [name[|name| - 1]]
  }

  lemma {:induction false} UserNameAfterDomain(domain: seq<Byte>, user: seq<Byte>)
    requires BACKSLASH !in user
    requires domain == [] || domain[|domain| - 1] == BACKSLASH
    ensures UserName(domain + user) == user
    decreases |user|
  {
    if user == [] {
      assert domain + user == domain;
    } else {
      var last := |user| - 1;
      UserNameAfterDomain(domain, user[..last]);
      assert (domain + user)[..|domain + user| - 1] == domain + user[..last];
      assert (domain + user)[|domain + user| - 1] == user[last];
      assert user[..last] + [user[last]] == user;
    }
  }

  lemma {:induction false} UserPartSplits(name: seq<Byte>)
    ensures var user := UserPart(name);
      && |user| <= |name| && BACKSLASH !in user
      && name == name[..|name| - |user|] + user
      && (|user| < |name| ==> name[|name| - |user| - 1] == BACKSLASH)
  {
    if BACKSLASH in name {
      UserPartSplits(name[1..]);
      var user := UserPart(name[1..]);
      assert UserPart(name) == user;
      assert name == [name[0]] + name[1..];
      if |user| < |name| - 1 {
        assert name[|name| - |user| - 1] == name[1..][|name| - 1 - |user| - 1];
      } else {
        assert user == name[1..];
        WholeTail(name);
      }
    }
  }

  lemma WholeTail(name: seq<Byte>)
    requires BACKSLASH in name && BACKSLASH !in name[1..]
    ensures name[0] == BACKSLASH
  {
    assert name == [name[0]] + name[1..];
  }

  /** Taking what follows the last backslash is taking the user name. */
  lemma UserPartIsUserName(name: seq<Byte>)
    ensures UserPart(name) == UserName(name)
  {
    UserPartSplits(name);
    var n := |name| - |UserPart(name)|;
    UserNameAfterDomain(name[..n], UserPart(name));
  }

  function PasswordHash(pr: Primitives, password: Text): Bytes16 {
    pr.md4(Utf16le(password))
  }

  function Challenge(pr: Primitives, peer: Bytes16, authenticator: Bytes16, name: seq<Byte>): Bytes8 {
    pr.sha1(peer + authenticator + UserName(name))[..8]
  }

  function GenerateNtResponse(pr: Primitives, authenticator: Bytes16, peer: Bytes16, name: seq<Byte>, password: Text): Bytes24 {
    Response(pr, Challenge(pr, peer, authenticator, name), PasswordHash(pr, password))
  }

  /** The client's response is the one the standard asks for. */
  lemma NtResponseIsStandard(pr: Primitives, authenticator: Bytes16, peer: Bytes16, name: seq<Byte>, password: Text)
    ensures NtResponse(pr, authenticator, peer, name, password) == GenerateNtResponse(pr, authenticator, peer, name, password)
  {
    UserPartIsUserName(name);
    ResponseIsStandard(pr, Challenge(pr, peer, authenticator, name), PasswordHash(pr, password));
  }

  // ----- RFC 2759 section 8.7 -----

  const HEX_DIGITS: string := "0123456789ABCDEF"

  /** Upper-case hexadecimal text. */
  function HexText(octets: seq<Byte>): string {
    if octets == [] then ""
    else [HEX_DIGITS[octets[0] / 16], HEX_DIGITS[octets[0] % 16]] + HexText(octets[1..])
  }

  const SIGNING: seq<Byte> := Ascii("Magic server to client signing constant")
  const PADDING: seq<Byte> := Ascii("Pad to make it do more than one iteration")

  function GenerateAuthenticatorResponse(
    pr: Primitives, password: Text, nt: Bytes24, peer: Bytes16, authenticator: Bytes16, name: seq<Byte>): seq<Byte>
  {
    var hashHash := pr.md4(PasswordHash(pr, password));
    var digest := pr.sha1(hashHash + nt + SIGNING);
    var challenge := Challenge(pr, peer, authenticator, name);
    var final := pr.sha1(digest + challenge + PADDING);
    Ascii("S=") + Ascii(HexText(final))
  }

  lemma HexDigitIs(n: nat)
    requires n < 16
    ensures HexDigit(n) == HEX_DIGITS[n] as int
  {
  }

  lemma {:induction false} HexIsHexText(octets: seq<Byte>)
    ensures Hex(octets) == Ascii(HexText(octets))
  {
    if octets != [] {
      HexIsHexText(octets[1..]);
      PairIs(octets[0]);
      AsciiAppend([HEX_DIGITS[octets[0] / 16], HEX_DIGITS[octets[0] % 16]], HexText(octets[1..]));
    }
  }

  lemma PairIs(octet: Byte)
    ensures Ascii([HEX_DIGITS[octet / 16], HEX_DIGITS[octet % 16]]) == [HexDigit(octet / 16), HexDigit(octet % 16)]
  {
    HexDigitIs(octet / 16);
    HexDigitIs(octet % 16);
  }

  lemma AsciiAppend(a: string, b: string)
    ensures Ascii(a + b) == Ascii(a) + Ascii(b)
  {
  }

  /** The authenticator response the client expects is the one the standard asks for. */
  lemma AuthenticatorResponseIsStandard(
    pr: Primitives, password: Text, nt: Bytes24, peer: Bytes16, authenticator: Bytes16, name: seq<Byte>)
    ensures AuthenticatorResponse(pr, password, nt, peer, authenticator, name)
      == GenerateAuthenticatorResponse(pr, password, nt, peer, authenticator, name)
  {
    UserPartIsUserName(name);
    var hashHash := pr.md4(PasswordHash(pr, password));
    var digest := pr.sha1(hashHash + nt + AUTH_RESPONSE_MAGIC1);
    HexIsHexText(pr.sha1(digest + Challenge(pr, peer, authenticator, name) + AUTH_RESPONSE_MAGIC2));
  }

  // ----- RFC 3079 section 3 -----

  const MAGIC1: seq<Byte> := Ascii("This is the MPPE Master Key")
  const MAGIC2: seq<Byte> :=
    Ascii("On the client side, this is the send key; on the server side, it is the receive key.")
  const MAGIC3: seq<Byte> :=
    Ascii("On the client side, this is the receive key; on the server side, it is the send key.")

  function StartKey(pr: Primitives, master: Bytes16, magic: seq<Byte>): Bytes16 {
    pr.sha1(master + Zeros(40) + magic + seq(40, i => 0xF2))[..16]
  }

  /** The keys of one side: what the client sends with, the server receives with, and the reverse. */
  function KeysFrom(pr: Primitives, hashHash: Bytes16, nt: Bytes24, isServer: bool): Mppe.Keys {
    var master := pr.sha1(hashHash + nt + MAGIC1)[..16];
    if isServer then Mppe.Keys(StartKey(pr, master, MAGIC3), StartKey(pr, master, MAGIC2))
    else Mppe.Keys(StartKey(pr, master, MAGIC2), StartKey(pr, master, MAGIC3))
  }

  function MppeKeys(pr: Primitives, password: Text, nt: Bytes24, isServer: bool): Mppe.Keys {
    KeysFrom(pr, pr.md4(PasswordHash(pr, password)), nt, isServer)
  }

  /** Each side sends with what the other receives with. */
  lemma SidesMirror(pr: Primitives, password: Text, nt: Bytes24)
    ensures var client := MppeKeys(pr, password, nt, false);
      MppeKeys(pr, password, nt, true) == Mppe.Keys(client.recvKey, client.sendKey)
  {
  }

  /** A zero octet behind every octet. */
  function Interleaved(octets: seq<Byte>): seq<Byte> {
    seq(2 * |octets|, k requires 0 <= k < 2 * |octets| => if k % 2 == 0 then octets[k / 2] else 0)
  }

  lemma {:induction false} DoubledIsInterleaved(octets: seq<Byte>)
    ensures Doubled(octets) == Interleaved(octets)
    decreases |octets|
  {
    DoubledAppend(octets, []);
    if octets != [] {
      DoubledIsInterleaved(octets[1..]);
      var a, b := Doubled(octets), Interleaved(octets);
      forall k | 2 <= k < |a|
        ensures a[k] == b[k]
      {
        assert a[k] == Doubled(octets[1..])[k - 2];
        assert k % 2 == (k - 2) % 2 && k / 2 == (k - 2) / 2 + 1;
      }
    }
  }

  /** Whatever the password, the keys are those of the standard's derivation from its UTF-8 octets, interleaved with zeros. */
  lemma KeysOfAnyPassword(pr: Primitives, password: Text, nt: Bytes24, isServer: bool)
    ensures Mppe.GetKeys(pr, password, nt, isServer)
      == KeysFrom(pr, pr.md4(pr.md4(Interleaved(Utf8(password)))), nt, isServer)
  {
    DoubledIsInterleaved(Utf8(password));
  }

  /** For ASCII passwords the derived keys are the standard's, on either side. */
  lemma KeysAreStandard(pr: Primitives, password: Text, nt: Bytes24, isServer: bool)
    requires IsAscii(password)
    ensures Mppe.GetKeys(pr, password, nt, isServer) == MppeKeys(pr, password, nt, isServer)
  {
    PasswordEncodingsAgree(password);
  }

  function Filled(first: Byte, last: Byte): Bytes16 {
    [first] + Zeros(14) + [last]
  }

  /** Some block that begins with `first` is none of the two texts. */
  function Unlike(first: Byte, s: seq<Byte>): (b: Bytes16)
    ensures b != s && b[0] == first
  {
    if Filled(first, 0) != s then Filled(first, 0)
    else
      assert Filled(first, 0)[15] == 0 && Filled(first, 1)[15] == 1;
      Filled(first, 1)
  }

  /** A hash that tells one text from another, in the first octet of whatever is hashed next. */
  function Telling(wanted: seq<Byte>, other: seq<Byte>): Primitives {
    var a, b := Unlike(0, other), Unlike(1, wanted);
    Primitives(
      (x: seq<Byte>) => if x == wanted || x == a then a else b,
      (x: seq<Byte>) => if x == [] then Zeros(20) else [x[0]] + Zeros(19),
      (x: seq<Byte>) => Zeros(32),
      (key: Bytes8, clear: Bytes8) => Zeros(8),
      (key: seq<Byte>, message: seq<Byte>) => Zeros(20),
      (key: seq<Byte>, message: seq<Byte>) => Zeros(32))
  }

  lemma TellingKeys(wanted: seq<Byte>, other: seq<Byte>, nt: Bytes24, isServer: bool)
    requires wanted != other
    ensures var pr := Telling(wanted, other);
      KeysFrom(pr, pr.md4(pr.md4(wanted)), nt, isServer) != KeysFrom(pr, pr.md4(pr.md4(other)), nt, isServer)
  {
    var pr := Telling(wanted, other);
    var a, b := Unlike(0, other), Unlike(1, wanted);
    assert a[0] != b[0];
    assert pr.md4(pr.md4(wanted)) == a && pr.md4(pr.md4(other)) == b;
    FirstOctet(pr, wanted, other, a, nt, isServer);
    FirstOctet(pr, wanted, other, b, nt, isServer);
  }

  lemma FirstOctet(pr: Primitives, wanted: seq<Byte>, other: seq<Byte>, hashHash: Bytes16, nt: Bytes24, isServer: bool)
    requires pr == Telling(wanted, other)
    ensures KeysFrom(pr, hashHash, nt, isServer).sendKey[0] == hashHash[0]
  {
  }

  /** The keys are the standard's for all primitives exactly when the password is ASCII. */
  lemma KeysAreStandardExactlyForAscii(password: Text, nt: Bytes24, isServer: bool)
    ensures (forall pr :: Mppe.GetKeys(pr, password, nt, isServer) == MppeKeys(pr, password, nt, isServer)) <==> IsAscii(password)
  {
    if IsAscii(password) {
      forall pr
        ensures Mppe.GetKeys(pr, password, nt, isServer) == MppeKeys(pr, password, nt, isServer)
      {
        KeysAreStandard(pr, password, nt, isServer);
      }
    } else {
      var wanted, other := Utf16le(password), Interleaved(Utf8(password));
      var pr := Telling(wanted, other);
      PasswordEncodingsAgree(password);
      DoubledIsInterleaved(Utf8(password));
      KeysOfAnyPassword(pr, password, nt, isServer);
      TellingKeys(wanted, other, nt, isServer);
      assert Mppe.GetKeys(pr, password, nt, isServer) != MppeKeys(pr, password, nt, isServer);
    }
  }

  // ----- The compound MAC of [MS-SSTP] -----

  const CMK_SEED: seq<Byte> := Ascii("SSTP inner method derived CMK")

  /** The hash a CONNECTED message announces: 1 is SHA-1, 2 is SHA-256 ([MS-SSTP] section 2.2.7). */
  predicate Offers(bitmask: Byte, hash: Byte)
    requires hash == 1 || hash == 2
  {
    if hash == 1 then bitmask % 2 == 1 else bitmask % 4 >= 2
  }

  /** SHA-256 where it is offered, else SHA-1; one that is offered, if the bitmask offers either. */
  function AnnouncedHash(bitmask: Byte): (hash: Byte)
    ensures hash == 1 || hash == 2
    ensures Offers(bitmask, 1) || Offers(bitmask, 2) ==> Offers(bitmask, hash)
  {
    if Offers(bitmask, 2) then 2 else 1
  }

  /** The algorithm of a number. */
  function HashNumbered(hash: Byte): Cmac.HashAlgo {
    if hash == 2 then Cmac.Sha256 else Cmac.Sha1
  }

  /** As a server computes it: its receive key comes first in the higher-layer key. */
  function ServerMac(pr: Primitives, hash: Byte, keys: Mppe.Keys, message: seq<Byte>): (mac: seq<Byte>)
    ensures |mac| == if hash == 2 then 32 else 20
  {
    var hlak := keys.recvKey + keys.sendKey;
    if hash == 2 then pr.hmacSha256(pr.hmacSha256(hlak, CMK_SEED + [32, 0] + [1]), message)
    else pr.hmacSha1(pr.hmacSha1(hlak, CMK_SEED + [20, 0] + [1]), message)
  }

  lemma MacIsStandard(pr: Primitives, hash: Byte, client: Mppe.Keys, message: seq<Byte>)
    requires hash == 1 || hash == 2
    ensures Cmac.CompoundMac(pr, HashNumbered(hash), client.sendKey, client.recvKey, message)
      == ServerMac(pr, hash, Mppe.Keys(client.recvKey, client.sendKey), message)
  {
    assert CMK_SEED + [20, 0, 1] == CMK_SEED + [20, 0] + [1];
    assert CMK_SEED + [32, 0, 1] == CMK_SEED + [32, 0] + [1];
  }

  /** Octets 0 to 47 of a CONNECTED message: header, one attribute of 104 octets, hash, nonce. */
  function ConnectedStart(hash: Byte, nonce: Bytes32): seq<Byte> {
    [0x10, 0x01, 0x00, 0x70, 0x00, 0x04, 0x00, 0x01, 0x00, 0x03, 0x00, 0x68, 0x00, 0x00, 0x00, hash] + nonce
  }

  /** The message ([MS-SSTP] section 2.2.11): its MAC is that of the same octets with zeros in its place, padded with zeros. */
  function ConnectedOctets(pr: Primitives, hash: Byte, nonce: Bytes32, certHash: Bytes32, server: Mppe.Keys): seq<Byte> {
    var head := ConnectedStart(hash, nonce) + certHash;
    var mac := ServerMac(pr, hash, server, head + Zeros(32));
    head + (mac + Zeros(32 - |mac|))
  }
}
