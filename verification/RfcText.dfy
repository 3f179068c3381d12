/**
 Text as the standards encode and compare it: UTF-16 (RFC 2781), UTF-8 (RFC 3629), white space, letters
 of either case. The client's encoders and its comparison are proved equal to these definitions.
 */
module RfcText {
  import opened Bytes
  import opened Primitives
  import opened ChapFsm

  // ----- ASCII -----

  lemma AsciiIsCodes(s: string, i: nat)
    requires i < |s| && s[i] as int < 128
    ensures Ascii(s)[i] == s[i] as int
  {
  }

  // ----- UTF-16, least significant octet first -----

  function Unit(low: int, high: int): int {
    low + 256 * high
  }

  /** One unit, or a high and a low surrogate with ten bits each of what exceeds 0x10000. */
  predicate IsUtf16(b: seq<Byte>, c: Scalar) {
    if c < 0x1_0000 then |b| == 2 && Unit(b[0], b[1]) == c
    else
      && |b| == 4
      && 0xD800 <= Unit(b[0], b[1]) < 0xDC00
      && 0xDC00 <= Unit(b[2], b[3]) < 0xE000
      && c == 0x1_0000 + 1024 * (Unit(b[0], b[1]) - 0xD800) + (Unit(b[2], b[3]) - 0xDC00)
  }

  lemma Utf16IsStandard(c: Scalar)
    ensures IsUtf16(Utf16leOne(c), c)
    ensures forall b: seq<Byte> :: IsUtf16(b, c) ==> b == Utf16leOne(c)
  {
    var one := Utf16leOne(c);
    if c >= 0x1_0000 {
      var v := c - 0x1_0000;
      assert v == 1024 * (v / 0x400) + v % 0x400;
    }
    forall b: seq<Byte> | IsUtf16(b, c)
      ensures b == one
    {
      Utf16Unique(b, one, c);
    }
  }

  lemma Utf16Unique(a: seq<Byte>, b: seq<Byte>, c: Scalar)
    requires IsUtf16(a, c) && IsUtf16(b, c)
    ensures a == b
  {
    if c >= 0x1_0000 {
      assert Unit(a[0], a[1]) == Unit(b[0], b[1]);
    }
  }

  // ----- UTF-8 -----

  predicate Continues(b: Byte) {
    0x80 <= b < 0xC0
  }

  /** Six bits more, from a continuation octet. */
  function Further(bits: int, b: int): int {
    64 * bits + (b - 0x80)
  }

  function Leading(b: int, mark: int): int {
    b - mark
  }

  /** One to four octets, as few as the number of bits allows. */
  predicate IsUtf8(b: seq<Byte>, c: Scalar) {
    if c < 0x80 then b == [c]
    else if c < 0x800 then
      |b| == 2 && 0xC0 <= b[0] < 0xE0 && Continues(b[1]) && c == Further(Leading(b[0], 0xC0), b[1])
    else if c < 0x1_0000 then
      |b| == 3 && 0xE0 <= b[0] < 0xF0 && Continues(b[1]) && Continues(b[2])
      && c == Further(Further(Leading(b[0], 0xE0), b[1]), b[2])
    else
      |b| == 4 && 0xF0 <= b[0] < 0xF8 && Continues(b[1]) && Continues(b[2]) && Continues(b[3])
      && c == Further(Further(Further(Leading(b[0], 0xF0), b[1]), b[2]), b[3])
  }

  lemma Utf8IsStandard(c: Scalar)
    ensures IsUtf8(Utf8One(c), c)
    ensures forall b: seq<Byte> :: IsUtf8(b, c) ==> b == Utf8One(c)
  {
    Utf8Holds(c);
    forall b: seq<Byte> | IsUtf8(b, c)
      ensures b == Utf8One(c)
    {
      Utf8Unique(b, Utf8One(c), c);
    }
  }

  lemma Utf8Holds(c: Scalar)
    ensures IsUtf8(Utf8One(c), c)
  {
    var six := c / 0x40;
    assert c == 64 * six + c % 0x40;
    assert six == 64 * (six / 0x40) + six % 0x40;
    assert six / 0x40 == c / 0x1000;
    assert c / 0x1000 == 64 * (c / 0x4_0000) + c / 0x1000 % 0x40;
  }

  lemma Utf8Unique(a: seq<Byte>, b: seq<Byte>, c: Scalar)
    requires IsUtf8(a, c) && IsUtf8(b, c)
    ensures a == b
  {
  }

  // ----- White space -----

  /** The code points of Unicode's White_Space property. */
  predicate WhiteSpace(c: Scalar) {
    9 <= c <= 13 || c == 0x20 || c == 0x85 || c == 0xA0 || c == 0x1680 || 0x2000 <= c <= 0x200A
    || c == 0x2028 || c == 0x2029 || c == 0x202F || c == 0x205F || c == 0x3000
  }

  /** The octets begin with the white-space character `c`. */
  predicate BeginsWith(s: seq<Byte>, c: Scalar) {
    WhiteSpace(c) && Utf8One(c) <= s
  }

  lemma PunctuationOctets(c: Scalar)
    requires 0x2000 <= c < 0x2040
    ensures Utf8One(c) == [0xE2, 0x80, 0x80 + (c - 0x2000)]
  {
    Utf8Holds(c);
    Utf8Unique(Utf8One(c), [0xE2, 0x80, 0x80 + (c - 0x2000)], c);
  }

  lemma WhiteOctets(c: Scalar)
    requires WhiteSpace(c)
    ensures c < 0x80 ==> Utf8One(c) == [c]
    ensures c == 0x85 || c == 0xA0 ==> Utf8One(c) == [0xC2, c]
    ensures c == 0x1680 ==> Utf8One(c) == [0xE1, 0x9A, 0x80]
    ensures 0x2000 <= c < 0x2040 ==> Utf8One(c) == [0xE2, 0x80, 0x80 + (c - 0x2000)]
    ensures c == 0x205F ==> Utf8One(c) == [0xE2, 0x81, 0x9F]
    ensures c == 0x3000 ==> Utf8One(c) == [0xE3, 0x80, 0x80]
  {
    if 0x2000 <= c < 0x2040 {
      PunctuationOctets(c);
    }
  }

  lemma SpaceOfCharacter(s: seq<Byte>, c: Scalar)
    requires BeginsWith(s, c)
    ensures SpaceLength(s) == |Utf8One(c)|
  {
    var b := Utf8One(c);
    WhiteOctets(c);
    assert forall i :: 0 <= i < |b| ==> s[i] == b[i];
  }

  /** The character behind a positive `SpaceLength`. */
  function SpaceAt(s: seq<Byte>): Scalar
    requires SpaceLength(s) > 0
  {
    if SpaceLength(s) == 1 then s[0]
    else if SpaceLength(s) == 2 then s[1]
    else if s[0] == 0xE1 then 0x1680
    else if s[0] == 0xE3 then 0x3000
    else if s[1] == 0x81 then 0x205F
    else Further(0x80, s[2])
  }

  lemma CharacterOfSpace(s: seq<Byte>)
    requires SpaceLength(s) > 0
    ensures BeginsWith(s, SpaceAt(s))
  {
    var c := SpaceAt(s);
    assert WhiteSpace(c);
    WhiteOctets(c);
    assert Utf8One(c) == s[..|Utf8One(c)|];
  }

  /** What the client skips is exactly one white-space character. */
  lemma SpaceIsWhite(s: seq<Byte>)
    ensures SpaceLength(s) > 0 <==> exists c: Scalar :: BeginsWith(s, c)
  {
    if SpaceLength(s) > 0 {
      CharacterOfSpace(s);
    }
    if c: Scalar :| BeginsWith(s, c) {
      SpaceOfCharacter(s, c);
      Utf8IsStandard(c);
    }
  }

  // ----- Comparing -----

  /** The same octet, or the same letter in the other case. */
  predicate SameLetter(a: Byte, b: Byte) {
    a == b || (65 <= a <= 90 && b == a + 32) || (97 <= a <= 122 && b == a - 32)
  }

  predicate SameLetters(a: seq<Byte>, b: seq<Byte>) {
    |a| == |b| && forall i :: 0 <= i < |a| ==> SameLetter(a[i], b[i])
  }

  ghost predicate EndsWord(s: seq<Byte>) {
    s == [] || exists c: Scalar :: BeginsWith(s, c)
  }

  /** The expected text as a whole word, behind any white space and in letters of either case. */
  ghost predicate FirstWordIs(s: seq<Byte>, expected: seq<Byte>)
    decreases |s|
  {
    || (|s| >= |expected| && SameLetters(s[..|expected|], expected) && EndsWord(s[|expected|..]))
    || (exists c: Scalar :: BeginsWith(s, c) && |Utf8One(c)| > 0 && FirstWordIs(s[|Utf8One(c)|..], expected))
  }

  lemma IgnoringCase(a: seq<Byte>, b: seq<Byte>)
    ensures EqIgnoreCase(a, b) <==> SameLetters(a, b)
  {
    if EqIgnoreCase(a, b) {
      forall i | 0 <= i < |a|
        ensures SameLetter(a[i], b[i])
      {
        assert Lower(a[i]) == Lower(b[i]);
      }
    }
    if SameLetters(a, b) {
      forall i | 0 <= i < |a|
        ensures Lower(a[i]) == Lower(b[i])
      {
        assert SameLetter(a[i], b[i]);
      }
    }
  }

  /** The condition of `VerifiedMeansExpected`, without the client's skipping. */
  lemma {:induction false} FirstWordBehindSpace(s: seq<Byte>, expected: seq<Byte>)
    requires expected != [] && PlainBytes(expected)
    ensures var rest := SkipSpace(s);
      FirstWordIs(s, expected) <==>
        && |rest| >= |expected| && EqIgnoreCase(rest[..|expected|], expected)
        && (|rest| == |expected| || SpaceLength(rest[|expected|..]) > 0)
    decreases |s|
  {
    var n := SpaceLength(s);
    SpaceIsWhite(s);
    if n > 0 {
      CharacterOfSpace(s);
      SpaceOfCharacter(s, SpaceAt(s));
      FirstWordBehindSpace(s[n..], expected);
      forall c: Scalar | BeginsWith(s, c)
        ensures |Utf8One(c)| == n
      {
        SpaceOfCharacter(s, c);
      }
      if |s| >= |expected| && SameLetters(s[..|expected|], expected) {
        WordIsNoSpace(s, expected);
      }
    } else if |s| >= |expected| {
      IgnoringCase(s[..|expected|], expected);
      SpaceIsWhite(s[|expected|..]);
    }
  }

  lemma WordIsNoSpace(s: seq<Byte>, expected: seq<Byte>)
    requires expected != [] && PlainBytes(expected) && |s| >= |expected|
    requires SameLetters(s[..|expected|], expected)
    ensures SpaceLength(s) == 0
  {
    assert SameLetter(s[0], expected[0]);
  }
}
