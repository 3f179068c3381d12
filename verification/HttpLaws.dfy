/** What the handshake response means: the status line read by its parts, the number by its value. */
module HttpLaws {
  import opened Wrappers
  import opened Bytes
  import opened Http

  // ----- The status code -----

  predicate AllDigits(s: seq<Byte>) {
    forall i :: 0 <= i < |s| ==> 48 <= s[i] <= 57
  }

  /** The number a string of digits stands for. */
  function Decimal(s: seq<Byte>): nat
    requires AllDigits(s)
  {
    if s == [] then 0 else 10 * Decimal(s[..|s| - 1]) + (s[|s| - 1] - 48)
  }

  /** Reading digits from the left on top of `acc`, with no limit. */
  function Read(acc: nat, s: seq<Byte>): nat
    requires AllDigits(s)
    decreases |s|
  {
    if s == [] then acc else Read(10 * acc + (s[0] - 48), s[1..])
  }

  lemma {:induction false} ReadSnoc(acc: nat, s: seq<Byte>, d: Byte)
    requires AllDigits(s) && 48 <= d <= 57
    ensures AllDigits(s + [d]) && Read(acc, s + [d]) == 10 * Read(acc, s) + (d - 48)
    decreases |s|
  {
    var more := s + [d];
    if s == [] {
      assert more == [d] && more[1..] == [];
    } else {
      ReadSnoc(10 * acc + (s[0] - 48), s[1..], d);
      assert more[0] == s[0] && more[1..] == s[1..] + [d];
    }
  }

  lemma {:induction false} ReadIsDecimal(s: seq<Byte>)
    requires AllDigits(s)
    ensures Read(0, s) == Decimal(s)
  {
    if s != [] {
      var last := |s| - 1;
      ReadIsDecimal(s[..last]);
      ReadSnoc(0, s[..last], s[last]);
      assert s == s[..last] + [s[last]];
    }
  }

  lemma {:induction false} ReadGrows(acc: nat, s: seq<Byte>)
    requires AllDigits(s)
    ensures Read(acc, s) >= acc
    decreases |s|
  {
    if s != [] {
      ReadGrows(10 * acc + (s[0] - 48), s[1..]);
    }
  }

  lemma {:induction false} DigitsExact(s: seq<Byte>, acc: Word16)
    ensures Digits(s, acc) == if AllDigits(s) && Read(acc, s) <= 0xFFFF then Some(Read(acc, s)) else None
    decreases |s|
  {
    if s != [] && 48 <= s[0] <= 57 {
      var next: int := 10 * (acc as int) + (s[0] - 48);
      assert AllDigits(s) <==> AllDigits(s[1..]) by {
        assert forall i :: 1 <= i < |s| ==> s[i] == s[1..][i - 1];
      }
      if next <= 0xFFFF {
        DigitsExact(s[1..], next);
      } else if AllDigits(s) {
        ReadGrows(next, s[1..]);
      }
    }
  }

  /** An optional plus and digits, at least one, of a value below 65536. */
  function StatusCode(s: seq<Byte>): Option<Word16> {
    var digits := if s != [] && s[0] == 43 then s[1..] else s;
    if digits != [] && AllDigits(digits) && Decimal(digits) <= 0xFFFF then Some(Decimal(digits)) else None
  }

  lemma ParseU16Exact(s: seq<Byte>)
    ensures ParseU16(s) == StatusCode(s)
  {
    var digits := if s != [] && s[0] == 43 then s[1..] else s;
    DigitsExact(digits, 0);
    if AllDigits(digits) {
      ReadIsDecimal(digits);
    }
  }

  // ----- Every response -----

  /** The text before the first line feed, without a carriage return right before that line feed. */
  predicate IsFirstLine(header: seq<Byte>, line: seq<Byte>) {
    if 10 !in header then line == header
    else
      exists n :: 0 <= n < |header| && header[n] == 10 && 10 !in header[..n] && line == LineBefore(header, n)
  }

  /** The text before the first space, or all of it. */
  predicate IsFirstWord(line: seq<Byte>, word: seq<Byte>) {
    word <= line && 32 !in word && (|word| == |line| || line[|word|] == 32)
  }

  /** What is to become of a response with the given version and status code, `n` header bytes long. */
  function Outcome(version: seq<Byte>, code: Option<Word16>, n: nat): Result<(Word16, nat), ParseError> {
    if !([72, 84, 84, 80, 47] <= version) || code.None? then Err(BadStatusLine)
    else if code.value != 200 then Err(NonSuccessStatus(code.value))
    else Ok((200, n + 4))
  }

  lemma {:induction false} UpToIs(s: seq<Byte>, b: Byte, n: nat)
    requires n <= |s| && b !in s[..n] && (n == |s| || s[n] == b)
    ensures UpTo(s, b) == s[..n]
  {
    if n > 0 {
      assert s[0] == s[..n][0];
      assert s[1..][..n - 1] == s[..n][1..];
      UpToIs(s[1..], b, n - 1);
    }
  }

  /** The line in front of the line feed at `n`. */
  function LineBefore(header: seq<Byte>, n: nat): seq<Byte>
    requires n < |header|
  {
    if n > 0 && header[n - 1] == 13 then header[..n - 1] else header[..n]
  }

  lemma LineFeedAt(header: seq<Byte>, n: nat)
    requires n < |header| && header[n] == 10 && 10 !in header[..n]
    ensures StatusLine(header) == LineBefore(header, n)
  {
    UpToIs(header, LF, n);
  }

  lemma NoLineFeed(header: seq<Byte>)
    requires 10 !in header
    ensures StatusLine(header) == header
  {
    assert header[..|header|] == header;
    UpToIs(header, LF, |header|);
  }

  lemma StatusLineIsFirst(header: seq<Byte>, line: seq<Byte>)
    requires IsFirstLine(header, line)
    ensures StatusLine(header) == line
  {
    if 10 !in header {
      NoLineFeed(header);
    } else {
      var n :| 0 <= n < |header| && header[n] == 10 && 10 !in header[..n] && line == LineBefore(header, n);
      LineFeedAt(header, n);
    }
  }

  lemma WordIsFirst(line: seq<Byte>, word: seq<Byte>)
    requires IsFirstWord(line, word)
    ensures UpTo(line, SPACE) == word
  {
    UpToIs(line, SPACE, |word|);
  }

  /**
   Every response with complete headers, well-formed or not: without a second word on its first line it is
   refused; else the outcome is that of its first two words. Without a blank line, more is awaited.
   */
  lemma EveryResponse(buf: seq<Byte>, end: nat, line: seq<Byte>, version: seq<Byte>, code: seq<Byte>)
    requires FirstEnd(buf, Some(end)) && IsFirstLine(buf[..end], line) && IsFirstWord(line, version)
    ensures |version| == |line| ==> ParseResponse(buf) == Err(BadStatusLine)
    ensures |version| < |line| && IsFirstWord(line[|version| + 1..], code) ==> ParseResponse(buf) == Outcome(version, StatusCode(code), end)
    ensures ParseResponse(buf) != Err(HeadersIncomplete)
  {
    FindDoubleCrlfIsFirst(buf, Some(end));
    StatusLineIsFirst(buf[..end], line);
    WordIsFirst(line, version);
    if |version| < |line| && IsFirstWord(line[|version| + 1..], code) {
      WordIsFirst(line[|version| + 1..], code);
    }
    ParseU16Exact(code);
    ByWords(line, version, end);
  }

  lemma ByWords(line: seq<Byte>, version: seq<Byte>, end: nat)
    requires UpTo(line, SPACE) == version
    ensures ParseStatusLine(line, end)
      == Outcome(version, if |version| == |line| then None else ParseU16(UpTo(line[|version| + 1..], SPACE)), end)
  {
    var second := if |version| == |line| then None else Some(UpTo(line[|version| + 1..], SPACE));
    assert SecondPart(line) == second;
    ByParts(line, version, second, if second.None? then None else ParseU16(second.value), end);
  }

  lemma ByParts(line: seq<Byte>, version: seq<Byte>, second: Option<seq<Byte>>, code: Option<Word16>, end: nat)
    requires UpTo(line, SPACE) == version && SecondPart(line) == second
    requires code == if second.None? then None else ParseU16(second.value)
    ensures ParseStatusLine(line, end) == Outcome(version, code, end)
  {
  }

  lemma NoEndYet(buf: seq<Byte>)
    ensures FirstEnd(buf, None) <==> ParseResponse(buf) == Err(HeadersIncomplete)
  {
    FindDoubleCrlfIsFirst(buf, None);
  }

  // ----- A response by its parts -----

  predicate OneLine(s: seq<Byte>) {
    13 !in s && 10 !in s
  }

  predicate OneWord(s: seq<Byte>) {
    OneLine(s) && 32 !in s
  }

  /** A response by its parts: version, code, what may follow on the line, further header lines. */
  datatype Response = Response(version: seq<Byte>, code: seq<Byte>, reason: seq<Byte>, headers: seq<Byte>)

  predicate WellFormed(r: Response) {
    && OneWord(r.version) && OneWord(r.code)
    && OneLine(r.reason) && (r.reason == [] || r.reason[0] == 32)
    && (r.headers == [] || (|r.headers| >= 2 && r.headers[0] == 13 && r.headers[1] == 10))
  }

  function LineOf(r: Response): seq<Byte> {
    r.version + [32] + (r.code + r.reason)
  }

  function HeaderOf(r: Response): seq<Byte> {
    LineOf(r) + r.headers
  }

  lemma LineIsFirst(line: seq<Byte>, headers: seq<Byte>)
    requires OneLine(line)
    requires headers == [] || (|headers| >= 2 && headers[0] == 13 && headers[1] == 10)
    ensures IsFirstLine(line + headers, line)
  {
    var header := line + headers;
    if headers == [] {
      assert header == line;
    } else {
      var n := |line| + 1;
      assert header[n] == 10 && header[n - 1] == 13;
      assert header[..n] == line + [13];
      assert header[..n - 1] == line;
    }
  }

  lemma PartsAreWords(r: Response)
    requires WellFormed(r)
    ensures IsFirstWord(LineOf(r), r.version) && IsFirstWord(LineOf(r)[|r.version| + 1..], r.code)
  {
    assert LineOf(r)[|r.version| + 1..] == r.code + r.reason;
  }

  /**
   Every response, whatever its reason phrase, further headers and the bytes behind them: the
   outcome depends on version and code alone, and success points right behind the blank line.
   */
  lemma ResponseOutcome(r: Response, body: seq<Byte>)
    requires WellFormed(r)
    requires FirstEnd(HeaderOf(r) + [13, 10, 13, 10] + body, Some(|HeaderOf(r)|))
    ensures ParseResponse(HeaderOf(r) + [13, 10, 13, 10] + body) == Outcome(r.version, StatusCode(r.code), |HeaderOf(r)|)
  {
    var whole := HeaderOf(r) + [13, 10, 13, 10] + body;
    assert whole[..|HeaderOf(r)|] == HeaderOf(r);
    assert OneLine(LineOf(r));
    LineIsFirst(LineOf(r), r.headers);
    PartsAreWords(r);
    EveryResponse(whole, |HeaderOf(r)|, LineOf(r), r.version, r.code);
  }
}
