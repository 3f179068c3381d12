/** The HTTP-like response that precedes the binary SSTP framing. */
module Http {
  import opened Wrappers
  import opened Bytes

  datatype ParseError = HeadersIncomplete | BadStatusLine | NonSuccessStatus(code: Word16)

  const CR: Byte := 13
  const LF: Byte := 10
  const SPACE: Byte := 32
  const PLUS: Byte := 43
  const HTTP_SLASH: seq<Byte> := [72, 84, 84, 80, 47]

  predicate EndsHeadersAt(buf: seq<Byte>, i: nat) {
    i + 4 <= |buf| && buf[i] == CR && buf[i + 1] == LF && buf[i + 2] == CR && buf[i + 3] == LF
  }

  /** `buf.windows(4).position(..)` */
  function FindDoubleCrlf(buf: seq<Byte>): (r: Option<nat>)
    ensures r.Some? ==> r.value + 4 <= |buf|
  {
    if |buf| < 4 then None
    else if EndsHeadersAt(buf, 0) then Some(0)
    else
      var r := FindDoubleCrlf(buf[1..]);
      if r.Some? then Some(r.value + 1) else None
  }

  /** Carriage return, line feed, twice. */
  predicate BlankLineAt(buf: seq<Byte>, i: nat) {
    i + 4 <= |buf| && buf[i..i + 4] == [13, 10, 13, 10]
  }

  ghost predicate FirstEnd(buf: seq<Byte>, r: Option<nat>) {
    && (r.Some? ==> BlankLineAt(buf, r.value))
    && forall i: nat :: (r.Some? ==> i < r.value) ==> !BlankLineAt(buf, i)
  }

  lemma EndsIsBlankLine(buf: seq<Byte>, i: nat)
    ensures EndsHeadersAt(buf, i) <==> BlankLineAt(buf, i)
  {
    if i + 4 <= |buf| {
      assert buf[i..i + 4] == [buf[i], buf[i + 1], buf[i + 2], buf[i + 3]];
    }
  }

  /** The position found is that of the first blank line, and the only such answer. */
  lemma {:induction false} FindDoubleCrlfIsFirst(buf: seq<Byte>, r: Option<nat>)
    ensures FirstEnd(buf, r) <==> r == FindDoubleCrlf(buf)
  {
    FoundIsFirst(buf);
  }

  lemma {:induction false} FoundIsFirst(buf: seq<Byte>)
    ensures FirstEnd(buf, FindDoubleCrlf(buf))
  {
    EndsIsBlankLine(buf, 0);
    if |buf| >= 4 && !EndsHeadersAt(buf, 0) {
      FoundIsFirst(buf[1..]);
      forall i: nat | i > 0
        ensures BlankLineAt(buf, i) <==> BlankLineAt(buf[1..], i - 1)
      {
        if i + 4 <= |buf| {
          assert buf[i..i + 4] == buf[1..][i - 1..i + 3];
        }
      }
    }
  }

  /** The bytes before the first `b`, or all of them. */
  function UpTo(s: seq<Byte>, b: Byte): (r: seq<Byte>)
    ensures r <= s
  {
    if s == [] || s[0] == b then [] else [s[0]] + UpTo(s[1..], b)
  }

  /** First line of the header text; a `\r` is dropped only when a `\n` follows it. */
  function StatusLine(header: seq<Byte>): seq<Byte> {
    var line := UpTo(header, LF);
    if |line| < |header| && line != [] && line[|line| - 1] == CR then line[..|line| - 1] else line
  }

  /** The second of the space-separated parts, if there is one. */
  function SecondPart(line: seq<Byte>): Option<seq<Byte>> {
    var first := UpTo(line, SPACE);
    if |first| == |line| then None else Some(UpTo(line[|first| + 1..], SPACE))
  }

  function Digits(s: seq<Byte>, acc: Word16): Option<Word16> {
    if s == [] then Some(acc)
    else if s[0] < 48 || s[0] > 57 then None
    else
      var next: int := 10 * (acc as int) + (s[0] - 48);
      if next > 0xFFFF then None else Digits(s[1..], next)
  }

  /** `str::parse::<u16>()`: one optional `+`, then at least one digit, no overflow. */
  function ParseU16(s: seq<Byte>): Option<Word16> {
    var digits := if s != [] && s[0] == PLUS then s[1..] else s;
    if digits == [] then None else Digits(digits, 0)
  }

  /** What the status line of a header block of `headerEnd` bytes comes to. */
  function ParseStatusLine(line: seq<Byte>, headerEnd: nat): Result<(Word16, nat), ParseError> {
    var part := SecondPart(line);
    var code := if part.Some? then ParseU16(part.value) else None;
    if code.None? || !(HTTP_SLASH <= UpTo(line, SPACE)) then Err(BadStatusLine)
    else if code.value != 200 then Err(NonSuccessStatus(code.value))
    else Ok((code.value, headerEnd + 4))
  }

  /** The status code of a complete header block and the offset of the byte after it. */
  function ParseResponse(buf: seq<Byte>): Result<(Word16, nat), ParseError> {
    match FindDoubleCrlf(buf)
    case None => Err(HeadersIncomplete)
    case Some(headerEnd) => ParseStatusLine(StatusLine(buf[..headerEnd]), headerEnd)
  }

  lemma OnlyStatus200(buf: seq<Byte>)
    ensures ParseResponse(buf).Ok? ==> ParseResponse(buf).value.0 == 200 && ParseResponse(buf).value.1 <= |buf|
  {
  }

  lemma BlankLineStable(buf: seq<Byte>, more: seq<Byte>, j: nat)
    requires j + 4 <= |buf|
    ensures BlankLineAt(buf + more, j) <==> BlankLineAt(buf, j)
  {
    assert (buf + more)[j..j + 4] == buf[j..j + 4];
  }

  lemma FirstEndStable(buf: seq<Byte>, more: seq<Byte>, i: nat)
    requires FirstEnd(buf, Some(i))
    ensures FirstEnd(buf + more, Some(i))
  {
    BlankLineStable(buf, more, i);
    forall j: nat | j < i
      ensures !BlankLineAt(buf + more, j)
    {
      BlankLineStable(buf, more, j);
    }
  }

  /** Once the headers are complete, bytes that arrive later change nothing. */
  lemma ParseResponseStable(buf: seq<Byte>, more: seq<Byte>)
    requires ParseResponse(buf) != Err(HeadersIncomplete)
    ensures ParseResponse(buf + more) == ParseResponse(buf)
  {
    var i := FindDoubleCrlf(buf).value;
    FoundIsFirst(buf);
    FirstEndStable(buf, more, i);
    FindDoubleCrlfIsFirst(buf + more, Some(i));
    assert (buf + more)[..i] == buf[..i];
  }
}
