/**
 The cryptographic primitives, as unknown functions of known output size, and the text
 encodings their inputs are built with. Every theorem holds for every choice of primitives.
 */
module Primitives {
  import opened Bytes

  datatype Primitives = Primitives(
    md4: seq<Byte> -> Bytes16,
    sha1: seq<Byte> -> Bytes20,
    sha256: seq<Byte> -> Bytes32,
    /** DES on one block: key, clear text. */
    des: (Bytes8, Bytes8) -> Bytes8,
    /** HMAC: key, message. */
    hmacSha1: (seq<Byte>, seq<Byte>) -> Bytes20,
    hmacSha256: (seq<Byte>, seq<Byte>) -> Bytes32)

  function Ascii(s: string): (b: seq<Byte>)
    ensures |b| == |s|
  {
    seq(|s|, i requires 0 <= i < |s| => (s[i] as int) % 0x100)
  }

  // ----- Passwords -----

  /** A Unicode scalar value, the element of a Rust `str`. */
  type Scalar = c: int | 0 <= c < 0xD800 || 0xE000 <= c < 0x11_0000

  type Text = seq<Scalar>

  predicate IsAscii(t: Text) {
    forall i :: 0 <= i < |t| ==> t[i] < 0x80
  }

  function Le16(u: Word16): seq<Byte> {
    [u % 0x100, u / 0x100]
  }

  /** `encode_utf16`, each unit in little-endian order. */
  function Utf16leOne(c: Scalar): seq<Byte> {
    if c < 0x1_0000 then Le16(c)
    else
      var v := c - 0x1_0000;
      Le16(0xD800 + v / 0x400) + Le16(0xDC00 + v % 0x400)
  }

  function Utf16le(t: Text): seq<Byte> {
    if t == [] then [] else Utf16leOne(t[0]) + Utf16le(t[1..])
  }

  function Utf8One(c: Scalar): seq<Byte> {
    if c < 0x80 then [c]
    else if c < 0x800 then [0xC0 + c / 0x40, 0x80 + c % 0x40]
    else if c < 0x1_0000 then [0xE0 + c / 0x1000, 0x80 + c / 0x40 % 0x40, 0x80 + c % 0x40]
    else [0xF0 + c / 0x4_0000, 0x80 + c / 0x1000 % 0x40, 0x80 + c / 0x40 % 0x40, 0x80 + c % 0x40]
  }

  function Utf8(t: Text): seq<Byte> {
    if t == [] then [] else Utf8One(t[0]) + Utf8(t[1..])
  }

  /** Each byte followed by a zero byte. */
  function Doubled(b: seq<Byte>): seq<Byte> {
    if b == [] then [] else [b[0], 0] + Doubled(b[1..])
  }

  lemma DoubledAppend(a: seq<Byte>, b: seq<Byte>)
    ensures Doubled(a + b) == Doubled(a) + Doubled(b)
    ensures |Doubled(a)| == 2 * |a|
  {
    if a == [] {
      assert a + b == b;
    } else {
      DoubledAppend(a[1..], b);
      assert (a + b)[0] == a[0] && (a + b)[1..] == a[1..] + b;
      Associate([a[0], 0], Doubled(a[1..]), Doubled(b));
    }
  }

  lemma {:induction false} EncodingLengths(t: Text)
    ensures |Utf16le(t)| <= 2 * |Utf8(t)|
    ensures |Utf16le(t)| == 2 * |Utf8(t)| <==> IsAscii(t)
  {
    if t != [] {
      EncodingLengths(t[1..]);
      assert IsAscii(t) <==> t[0] < 0x80 && IsAscii(t[1..]) by {
        assert forall i :: 1 <= i < |t| ==> t[i] == t[1..][i - 1];
      }
    }
  }

  lemma {:induction false} AsciiEncodings(t: Text)
    requires IsAscii(t)
    ensures Utf16le(t) == Doubled(Utf8(t))
  {
    if t != [] {
      AsciiEncodings(t[1..]);
      assert Utf8(t) == [t[0]] + Utf8(t[1..]);
      assert Utf8(t)[1..] == Utf8(t[1..]);
      assert Utf16leOne(t[0]) == [t[0], 0];
    }
  }

  /**
   The authentication code hashes UTF-16LE, the MPPE key derivation doubles UTF-8 bytes: the
   two hash inputs are the same exactly for ASCII passwords.
   */
  lemma PasswordEncodingsAgree(t: Text)
    ensures Utf16le(t) == Doubled(Utf8(t)) <==> IsAscii(t)
  {
    EncodingLengths(t);
    DoubledAppend(Utf8(t), []);
    if IsAscii(t) {
      AsciiEncodings(t);
    }
  }
}
