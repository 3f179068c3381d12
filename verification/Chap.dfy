/** MS-CHAPv2 (RFC 2759 section 8): DES key expansion, responses and authenticator responses. */
module Chap {
  import opened Bytes
  import opened Primitives

  function NtPasswordHash(pr: Primitives, password: Text): Bytes16 {
    pr.md4(Utf16le(password))
  }

  const BACKSLASH: Byte := 92

  /** The part of the name after the last backslash. */
  function UserPart(name: seq<Byte>): seq<Byte> {
    if BACKSLASH !in name then name else UserPart(name[1..])
  }

  lemma UserPartDropsDomain(domain: seq<Byte>, user: seq<Byte>)
    requires BACKSLASH !in user
    ensures UserPart(domain + [BACKSLASH] + user) == user
  {
    var name := domain + [BACKSLASH] + user;
    assert name[|domain|] == BACKSLASH;
    if domain == [] {
      assert name[1..] == user;
    } else {
      UserPartDropsDomain(domain[1..], user);
      assert name[1..] == domain[1..] + [BACKSLASH] + user;
    }
  }

  function ChallengeHash(pr: Primitives, peer: Bytes16, auth: Bytes16, username: seq<Byte>): Bytes8 {
    pr.sha1(peer + auth + UserPart(username))[..8]
  }

  // ----- DES key expansion (RFC 2759 sections 8.5 and 8.6) -----

  function ToBits(s: seq<Byte>): (b: seq<bv8>)
    ensures |b| == |s|
  {
    seq(|s|, i requires 0 <= i < |s| => s[i] as bv8)
  }

  function FromBits(b: seq<bv8>): (s: seq<Byte>)
    ensures |s| == |b|
  {
    seq(|b|, i requires 0 <= i < |b| => b[i] as int)
  }

  /** Bit `j` of a byte, the most significant being bit 0. */
  function Bit(b: bv8, j: nat): bool
    requires j < 8
  {
    match j
    case 0 => b & 0x80 != 0
    case 1 => b & 0x40 != 0
    case 2 => b & 0x20 != 0
    case 3 => b & 0x10 != 0
    case 4 => b & 0x08 != 0
    case 5 => b & 0x04 != 0
    case 6 => b & 0x02 != 0
    case 7 => b & 0x01 != 0
  }

  function InputBit(input: seq<bv8>, k: nat): bool
    requires k < 8 * |input|
  {
    Bit(input[k / 8], k % 8)
  }

  function PopCount(b: bv8): nat {
    (if Bit(b, 0) then 1 else 0) + (if Bit(b, 1) then 1 else 0) +
    (if Bit(b, 2) then 1 else 0) + (if Bit(b, 3) then 1 else 0) +
    (if Bit(b, 4) then 1 else 0) + (if Bit(b, 5) then 1 else 0) +
    (if Bit(b, 6) then 1 else 0) + (if Bit(b, 7) then 1 else 0)
  }

  function WindowAt(hi: bv8, lo: bv8, shift: nat): bv8
    requires shift <= 8
  {
    var word := ((hi as bv16) << 8) | (lo as bv16);
    ((word >> shift) & 0xFE) as bv8
  }

  function Get7Bits(input: seq<bv8>, startBit: nat): bv8
    requires startBit / 8 + 1 < |input|
  {
    var i := startBit / 8;
    WindowAt(input[i], input[i + 1], 15 - (startBit % 8 + 7))
  }

  function SetOddParity(b: bv8): bv8 {
    if PopCount(b) % 2 == 0 then b | 1 else b
  }

  type Key = k: seq<bv8> | |k| == 8 witness seq(8, i => 0)

  /** The seven-byte key needs one byte of lookahead. */
  function MakeKey(input: seq<bv8>): Key
    requires |input| >= 8
  {
    seq(8, i requires 0 <= i < 8 => SetOddParity(Get7Bits(input, i * 7)))
  }

  method FillKey(input: seq<bv8>) returns (out: Key)
    requires |input| >= 8
    ensures out == MakeKey(input)
  {
    var slots := new bv8[8](i => 0);
    for i := 0 to 8
      invariant forall k :: 0 <= k < i ==> slots[k] == SetOddParity(Get7Bits(input, k * 7))
    {
      slots[i] := SetOddParity(Get7Bits(input, i * 7));
    }
    out := slots[..];
  }

  lemma ParityIsOdd(b: bv8)
    requires b & 1 == 0
    ensures SetOddParity(b) & 0xFE == b
    ensures PopCount(SetOddParity(b)) % 2 == 1
  {
    assert forall j: nat :: j < 7 ==> Bit(b | 1, j) == Bit(b, j);
  }

  /** Odd parity leaves one choice for the low bit. */
  lemma OddParityUnique(a: bv8, b: bv8)
    requires a & 0xFE == b & 0xFE && PopCount(a) % 2 == 1 && PopCount(b) % 2 == 1
    ensures a == b
  {
    forall j: nat | j < 7
      ensures Bit(a, j) == Bit(b, j)
    {
      SameTopBits(a, b, j);
    }
    assert Bit(a, 7) == Bit(b, 7);
  }

  lemma SameTopBits(a: bv8, b: bv8, j: nat)
    requires a & 0xFE == b & 0xFE && j < 7
    ensures Bit(a, j) == Bit(b, j)
  {
  }

  /** The low `m` bits of one byte, then the leading bits of the next, parity slot clear. */
  function Blend(hi: bv8, lo: bv8, m: nat): bv8
    requires 1 <= m <= 7
  {
    ((hi << (8 - m)) | (lo >> m)) & 0xFE
  }

  /** The top seven bits of key byte `m`. */
  function Window(input: seq<bv8>, m: nat): bv8
    requires m < 8 <= |input|
  {
    if m == 0 then input[0] & 0xFE else Blend(input[m - 1], input[m], m)
  }

  lemma WindowSplit(hi: bv8, lo: bv8, m: nat)
    requires 1 <= m <= 7
    ensures WindowAt(hi, lo, m) == Blend(hi, lo, m)
  {
    match m
    case 1 =>
    case 2 =>
    case 3 =>
    case 4 =>
    case 5 =>
    case 6 =>
    case 7 =>
  }

  lemma WindowWhole(hi: bv8, lo: bv8)
    ensures WindowAt(hi, lo, 8) == hi & 0xFE
  {
  }

  lemma LowBitClear(b: bv8)
    ensures (b & 0xFE) & 1 == 0
  {
  }

  lemma KeyByte(input: seq<bv8>, m: nat)
    requires m < 8 <= |input|
    ensures MakeKey(input)[m] & 0xFE == Window(input, m)
    ensures PopCount(MakeKey(input)[m]) % 2 == 1
  {
    WindowRead(input, m);
    LowBitClear(if m == 0 then input[0] else (input[m - 1] << (8 - m)) | (input[m] >> m));
    ParityIsOdd(Window(input, m));
  }

  lemma WindowRead(input: seq<bv8>, m: nat)
    requires m < 8 <= |input|
    ensures Get7Bits(input, m * 7) == Window(input, m)
  {
    if m == 0 {
      WindowWhole(input[0], input[1]);
    } else {
      DivideBack(m - 1, 8 - m, 8);
      WindowSplit(input[m - 1], input[m], m);
    }
  }

  lemma BitOfMaskedOr(a: bv8, b: bv8, j: nat)
    requires j < 7
    ensures Bit((a | b) & 0xFE, j) == (Bit(a, j) || Bit(b, j))
  {
    match j
    case 0 =>
    case 1 =>
    case 2 =>
    case 3 =>
    case 4 =>
    case 5 =>
    case 6 =>
  }

  lemma BitOfLeftShift(b: bv8, k: nat, j: nat)
    requires 1 <= k <= 7 && j < 8
    ensures Bit(b << k, j) == (j + k < 8 && Bit(b, j + k))
  {
    match k
    case 1 =>
    case 2 =>
    case 3 =>
    case 4 =>
    case 5 =>
    case 6 =>
    case 7 =>
  }

  lemma BitOfRightShift(b: bv8, k: nat, j: nat)
    requires 1 <= k <= 7 && j < 8
    ensures Bit(b >> k, j) == (k <= j && Bit(b, j - k))
  {
    match k
    case 1 =>
    case 2 =>
    case 3 =>
    case 4 =>
    case 5 =>
    case 6 =>
    case 7 =>
  }

  lemma BitOfBlend(a: bv8, b: bv8, hi: bv8, lo: bv8, m: nat, j: nat)
    requires 1 <= m <= 7 && j < 7
    requires a == hi << (8 - m) && b == lo >> m
    ensures Bit(Blend(hi, lo, m), j) == (Bit(a, j) || Bit(b, j))
  {
    BitOfMaskedOr(a, b, j);
  }

  lemma WindowBit(hi: bv8, lo: bv8, m: nat, j: nat)
    requires 1 <= m <= 7 && j < 7
    ensures Bit(Blend(hi, lo, m), j) == if j < m then Bit(hi, 8 - m + j) else Bit(lo, j - m)
  {
    BitOfBlend(hi << (8 - m), lo >> m, hi, lo, m, j);
    BitOfLeftShift(hi, 8 - m, j);
    BitOfRightShift(lo, m, j);
  }

  lemma BitPosition(m: nat, j: nat)
    requires 1 <= m < 8 && j < 7
    ensures (7 * m + j) / 8 == if j < m then m - 1 else m
    ensures (7 * m + j) % 8 == if j < m then 8 - m + j else j - m
  {
  }

  lemma WindowBits(input: seq<bv8>, m: nat, j: nat)
    requires m < 8 <= |input| && j < 7
    ensures Bit(Window(input, m), j) == InputBit(input, 7 * m + j)
  {
    if m == 0 {
      SameTopBits(input[0] & 0xFE, input[0], j);
    } else {
      WindowBit(input[m - 1], input[m], m, j);
      BitPosition(m, j);
    }
  }

  /** The top seven bits of the eight key bytes are the first 56 input bits, in order. */
  lemma KeyBitsAreInputBits(input: seq<bv8>, m: nat, j: nat)
    requires m < 8 <= |input| && j < 7
    ensures Bit(MakeKey(input)[m], j) == InputBit(input, 7 * m + j)
    ensures PopCount(MakeKey(input)[m]) % 2 == 1
  {
    var key := MakeKey(input);
    KeyByte(input, m);
    TopBitsAlone(key[m], Window(input, m));
    SameTopBits(key[m], Window(input, m), j);
    WindowBits(input, m, j);
  }

  lemma TopBitsAlone(a: bv8, w: bv8)
    requires a & 0xFE == w
    ensures w & 0xFE == w
  {
  }

  /** Seven bits of `a` from position `m + 1`, then the leading bits of `b`. */
  function PackPair(a: bv8, b: bv8, m: nat): bv8
    requires m < 7
  {
    ((a >> 1) << (m + 1)) | (b >> (7 - m))
  }

  /** Back from a DES key to the seven bytes it carries. */
  function PackKey(key: Key): (input: seq<bv8>)
    ensures |input| == 7
  {
    seq(7, m requires 0 <= m < 7 => PackPair(key[m], key[m + 1], m))
  }

  lemma PackByte(hi: bv8, mid: bv8, lo: bv8, m: nat)
    requires 1 <= m <= 6
    ensures PackPair(Blend(hi, mid, m), Blend(mid, lo, m + 1), m) == mid
  {
    match m
    case 1 =>
    case 2 =>
    case 3 =>
    case 4 =>
    case 5 =>
    case 6 =>
  }

  lemma PackFirst(a: bv8, b: bv8)
    ensures PackPair(a & 0xFE, Blend(a, b, 1), 0) == a
  {
  }

  lemma WindowsPack(input: seq<bv8>, m: nat)
    requires m < 7 && |input| >= 8
    ensures PackPair(Window(input, m), Window(input, m + 1), m) == input[m]
  {
    if m == 0 {
      PackFirst(input[0], input[1]);
    } else {
      PackByte(input[m - 1], input[m], input[m + 1], m);
    }
  }

  lemma PackIgnoresParity(a: bv8, b: bv8, m: nat)
    requires m < 7
    ensures PackPair(a, b, m) == PackPair(a & 0xFE, b & 0xFE, m)
  {
    match m
    case 0 =>
    case 1 =>
    case 2 =>
    case 3 =>
    case 4 =>
    case 5 =>
    case 6 =>
  }

  /** Packing inverts the expansion, and the lookahead byte never matters. */
  lemma PackInvertsExpansion(input: seq<bv8>)
    requires |input| >= 8
    ensures PackKey(MakeKey(input)) == input[..7]
    ensures forall x: bv8 :: MakeKey(input[..7] + [x]) == MakeKey(input)
  {
    forall m | 0 <= m < 7
      ensures PackKey(MakeKey(input))[m] == input[m]
    {
      PackedByte(input, m);
    }
    forall x: bv8
      ensures MakeKey(input[..7] + [x]) == MakeKey(input)
    {
      LookaheadIgnored(input, x);
    }
  }

  lemma PackedByte(input: seq<bv8>, m: nat)
    requires m < 7 && |input| >= 8
    ensures PackKey(MakeKey(input))[m] == input[m]
  {
    var key := MakeKey(input);
    KeyByte(input, m);
    KeyByte(input, m + 1);
    PackIgnoresParity(key[m], key[m + 1], m);
    WindowsPack(input, m);
  }

  lemma LookaheadIgnored(input: seq<bv8>, x: bv8)
    requires |input| >= 8
    ensures MakeKey(input[..7] + [x]) == MakeKey(input)
  {
    var other := input[..7] + [x];
    forall m: nat | m < 8
      ensures MakeKey(other)[m] == MakeKey(input)[m]
    {
      KeyByte(input, m);
      KeyByte(other, m);
      if m == 7 {
        LastWindow(input[6], input[7], x);
      }
      OddParityUnique(MakeKey(other)[m], MakeKey(input)[m]);
    }
  }

  lemma LastWindow(b: bv8, x: bv8, y: bv8)
    ensures Blend(b, x, 7) == Blend(b, y, 7)
  {
  }

  /** Every odd-parity DES key is the expansion of the seven bytes it packs to. */
  lemma ExpansionInvertsPack(key: Key, x: bv8)
    requires forall m :: 0 <= m < 8 ==> PopCount(key[m]) % 2 == 1
    ensures MakeKey(PackKey(key) + [x]) == key
  {
    var input := PackKey(key) + [x];
    forall m: nat | m < 8
      ensures MakeKey(input)[m] == key[m]
    {
      KeyByte(input, m);
      RepackedWindow(key, x, m);
      OddParityUnique(MakeKey(input)[m], key[m]);
    }
  }

  lemma RepackedWindow(key: Key, x: bv8, m: nat)
    requires m < 8
    ensures Window(PackKey(key) + [x], m) == key[m] & 0xFE
  {
    if m == 0 {
      FirstRepacked(key[0], key[1]);
    } else if m == 7 {
      LastRepacked(key[6], key[7], x);
    } else {
      MiddleRepacked(key[m - 1], key[m], key[m + 1], m);
    }
  }

  lemma FirstRepacked(a: bv8, b: bv8)
    ensures PackPair(a, b, 0) & 0xFE == a & 0xFE
  {
  }

  lemma LastRepacked(a: bv8, b: bv8, x: bv8)
    ensures Blend(PackPair(a, b, 6), x, 7) == b & 0xFE
  {
  }

  lemma MiddleRepacked(a: bv8, b: bv8, c: bv8, m: nat)
    requires 1 <= m <= 6
    ensures Blend(PackPair(a, b, m - 1), PackPair(b, c, m), m) == b & 0xFE
  {
    match m
    case 1 =>
    case 2 =>
    case 3 =>
    case 4 =>
    case 5 =>
    case 6 =>
  }

  // ----- Responses (RFC 2759 sections 8.1, 8.5 and 8.7) -----

  /** The password hash, padded with zeros to 24 bytes. */
  function Padded(hash: Bytes16): (z: seq<Byte>)
    ensures |z| == 24
  {
    hash + Zeros(8)
  }

  function DesBlock(pr: Primitives, hash: Bytes16, challenge: Bytes8, i: nat): Bytes8
    requires i < 3
  {
    pr.des(FromBits(MakeKey(ToBits(Padded(hash))[7 * i..])), challenge)
  }

  function ChallengeResponse(pr: Primitives, challenge: Bytes8, hash: Bytes16): Bytes24 {
    DesBlock(pr, hash, challenge, 0) + DesBlock(pr, hash, challenge, 1) + DesBlock(pr, hash, challenge, 2)
  }

  /** `challenge_response` as it is written: three slices of the padded hash, three blocks of output. */
  method FillResponse(pr: Primitives, challenge: Bytes8, hash: Bytes16) returns (response: Bytes24)
    ensures response == ChallengeResponse(pr, challenge, hash)
  {
    var zpadded := ToBits(hash + Zeros(8));
    var out := Zeros(24);
    ghost var whole := ChallengeResponse(pr, challenge, hash);
    for i := 0 to 3
      invariant |out| == 24
      invariant out[..8 * i] == whole[..8 * i]
    {
      var key := FillKey(zpadded[7 * i..]);
      var block := pr.des(FromBits(key), challenge);
      assert block == whole[8 * i..8 * i + 8];
      out := out[..8 * i] + block + out[8 * i + 8..];
    }
    assert out == out[..24] && whole == whole[..24];
    response := out;
  }

  /** The three DES keys carry the 16-byte hash and five zero bytes, nothing more and nothing twice. */
  lemma KeysCoverHash(hash: Bytes16)
    ensures var z := ToBits(Padded(hash));
      PackKey(MakeKey(z[0..])) + PackKey(MakeKey(z[7..])) + PackKey(MakeKey(z[14..])) == ToBits(hash) + ToBits(Zeros(5))
  {
    var z := ToBits(Padded(hash));
    PackInvertsExpansion(z[0..]);
    PackInvertsExpansion(z[7..]);
    PackInvertsExpansion(z[14..]);
    assert z[0..][..7] == z[..7] && z[7..][..7] == z[7..14] && z[14..][..7] == z[14..21];
    assert z[..7] + z[7..14] + z[14..21] == z[..21];
    assert z[..21] == ToBits(hash) + ToBits(Zeros(5));
  }

  function NtResponse(pr: Primitives, auth: Bytes16, peer: Bytes16, username: seq<Byte>, password: Text): Bytes24 {
    ChallengeResponse(pr, ChallengeHash(pr, peer, auth, username), NtPasswordHash(pr, password))
  }

  /** `generate_nt_response` over the loop that fills the response. */
  method GenerateNtResponse(pr: Primitives, auth: Bytes16, peer: Bytes16, username: seq<Byte>, password: Text)
    returns (response: Bytes24)
    ensures response == NtResponse(pr, auth, peer, username, password)
  {
    response := FillResponse(pr, ChallengeHash(pr, peer, auth, username), NtPasswordHash(pr, password));
  }

  /** A domain prefix in the user name changes no response. */
  lemma DomainPrefixIgnored(pr: Primitives, auth: Bytes16, peer: Bytes16, domain: seq<Byte>, user: seq<Byte>, password: Text)
    requires BACKSLASH !in user
    ensures NtResponse(pr, auth, peer, domain + [BACKSLASH] + user, password) == NtResponse(pr, auth, peer, user, password)
  {
    UserPartDropsDomain(domain, user);
  }

  const AUTH_RESPONSE_MAGIC1: seq<Byte> := Ascii("Magic server to client signing constant")
  const AUTH_RESPONSE_MAGIC2: seq<Byte> := Ascii("Pad to make it do more than one iteration")

  function HexDigit(n: nat): Byte
    requires n < 16
  {
    if n < 10 then 48 + n else 55 + n
  }

  function Hex(s: seq<Byte>): (h: seq<Byte>)
    ensures |h| == 2 * |s|
  {
    if s == [] then [] else [HexDigit(s[0] / 16), HexDigit(s[0] % 16)] + Hex(s[1..])
  }

  function AuthenticatorResponse(pr: Primitives, password: Text, nt: Bytes24, peer: Bytes16, auth: Bytes16, username: seq<Byte>): seq<Byte> {
    var hashHash := pr.md4(NtPasswordHash(pr, password));
    var digest1 := pr.sha1(hashHash + nt + AUTH_RESPONSE_MAGIC1);
    var digest2 := pr.sha1(digest1 + ChallengeHash(pr, peer, auth, username) + AUTH_RESPONSE_MAGIC2);
    Ascii("S=") + Hex(digest2)
  }
}
