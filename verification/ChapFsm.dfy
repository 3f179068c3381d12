/** CHAP framing (RFC 1994 section 4) and the client side of an MS-CHAPv2 exchange. */
module ChapFsm {
  import opened Wrappers
  import opened Bytes
  import opened Primitives
  import Chap
  import Cp

  datatype Code = Challenge | Response | Success | Failure | UnknownCode(code: Byte)

  function CodeByte(c: Code): Byte {
    match c
    case Challenge => 1
    case Response => 2
    case Success => 3
    case Failure => 4
    case UnknownCode(v) => v
  }

  function CodeFromByte(v: Byte): (c: Code)
    ensures CodeByte(c) == v
  {
    match v
    case 1 => Challenge
    case 2 => Response
    case 3 => Success
    case 4 => Failure
    case _ => UnknownCode(v)
  }

  datatype Frame = Frame(code: Code, id: Byte, data: seq<Byte>)

  function Encode(code: Code, id: Byte, data: seq<Byte>): seq<Byte> {
    Cp.FrameBytes(CodeByte(code), id, data)
  }

  function Decode(buf: seq<Byte>): Option<Frame> {
    match Cp.ReadFrame(buf)
    case None => None
    case Some(raw) => Some(Frame(CodeFromByte(raw.code), raw.id, raw.data))
  }

  lemma FrameRoundTrip(code: Code, id: Byte, data: seq<Byte>)
    requires !code.UnknownCode? && |data| <= 0xFFFF - 4
    ensures Decode(Encode(code, id, data)) == Some(Frame(code, id, data))
  {
    Cp.RawRoundTrip(CodeByte(code), id, data, []);
    assert CodeFromByte(CodeByte(code)) == code;
  }

  datatype ChallengeInfo = ChallengeInfo(id: Byte, value: seq<Byte>, name: seq<Byte>)

  /** Value-Size, Value, Name. */
  function ParseChallenge(frame: Frame): Option<ChallengeInfo> {
    if frame.data == [] then None
    else
      var valueSize: int := frame.data[0];
      if |frame.data| < 1 + valueSize then None
      else Some(ChallengeInfo(frame.id, frame.data[1..1 + valueSize], frame.data[1 + valueSize..]))
  }

  /** What is kept after sending a Response. */
  datatype Pending = Pending(peerChallenge: Bytes16, ntResponse: Bytes24)

  datatype Answer = Answer(wire: seq<Byte>, pending: Pending)

  datatype ResponseError = BadChallengeLength(length: nat)

  const VALUE_LEN := 49

  /** PeerChallenge, eight reserved zero bytes, NtResponse, zero flags (RFC 2759 section 4). */
  function ResponseValue(pending: Pending): (value: seq<Byte>)
    ensures |value| == VALUE_LEN
  {
    pending.peerChallenge + Zeros(8) + pending.ntResponse + [0]
  }

  function ResponseData(pending: Pending, username: seq<Byte>): (data: seq<Byte>)
    ensures |data| == 1 + VALUE_LEN + |username|
  {
    [VALUE_LEN] + ResponseValue(pending) + username
  }

  /** `peer` is the freshly drawn peer challenge. */
  function BuildResponse(pr: Primitives, challenge: ChallengeInfo, username: seq<Byte>, password: Text, peer: Bytes16)
    : Result<Answer, ResponseError>
  {
    if |challenge.value| != 16 then Err(BadChallengeLength(|challenge.value|))
    else
      var pending := Pending(peer, Chap.NtResponse(pr, challenge.value, peer, username, password));
      Ok(Answer(Encode(Response, challenge.id, ResponseData(pending, username)), pending))
  }

  /** `build_response` as it is written: value and data are appended to buffers piece by piece. */
  method ComposeResponse(pr: Primitives, challenge: ChallengeInfo, username: seq<Byte>, password: Text, peer: Bytes16)
    returns (built: Result<Answer, ResponseError>)
    ensures built == BuildResponse(pr, challenge, username, password, peer)
  {
    if |challenge.value| != 16 {
      return Err(BadChallengeLength(|challenge.value|));
    }
    var ntResponse := Chap.GenerateNtResponse(pr, challenge.value, peer, username, password);
    var value := peer;
    value := value + Zeros(8);
    value := value + ntResponse;
    value := value + [0];
    assert value == ResponseValue(Pending(peer, ntResponse));
    var data := [Low8(|value|)];
    data := data + value;
    data := data + username;
    var wire := Cp.BuildFrame(CodeByte(Response), challenge.id, data);
    built := Ok(Answer(wire, Pending(peer, ntResponse)));
  }

  /** The server reads back the identifier, the peer challenge, the response and the name it was sent. */
  lemma ResponseReadsBack(id: Byte, pending: Pending, username: seq<Byte>)
    requires |username| <= 0xFFFF - 4 - 50
    ensures var frame := Decode(Encode(Response, id, ResponseData(pending, username)));
      && frame.Some? && frame.value.code == Response && frame.value.id == id
      && var data := frame.value.data;
      && |data| >= 50 && data[0] == VALUE_LEN
      && data[1..17] == pending.peerChallenge
      && data[17..25] == Zeros(8)
      && data[25..49] == pending.ntResponse
      && data[49] == 0
      && data[50..] == username
  {
    var data := ResponseData(pending, username);
    FrameRoundTrip(Response, id, data);
    var value := ResponseValue(pending);
    assert data[1..50] == value;
    assert data[1..17] == value[..16] && data[17..25] == value[16..24] && data[25..49] == value[24..48];
  }

  // ----- Verifying a Success message -----

  /** Length of the white-space character at the head of UTF-8 text, 0 if there is none. */
  function SpaceLength(s: seq<Byte>): (n: nat)
    ensures n <= |s|
  {
    if |s| >= 1 && (9 <= s[0] <= 13 || s[0] == 32) then 1
    else if |s| >= 2 && s[0] == 0xC2 && (s[1] == 0x85 || s[1] == 0xA0) then 2
    else if |s| >= 3 && s[0] == 0xE1 && s[1] == 0x9A && s[2] == 0x80 then 3
    else if |s| >= 3 && s[0] == 0xE2 && s[1] == 0x80 && (0x80 <= s[2] <= 0x8A || s[2] in {0xA8, 0xA9, 0xAF}) then 3
    else if |s| >= 3 && s[0] == 0xE2 && s[1] == 0x81 && s[2] == 0x9F then 3
    else if |s| >= 3 && s[0] == 0xE3 && s[1] == 0x80 && s[2] == 0x80 then 3
    else 0
  }

  function SkipSpace(s: seq<Byte>): seq<Byte> {
    var n := SpaceLength(s);
    if n == 0 then s else SkipSpace(s[n..])
  }

  function TakeToken(s: seq<Byte>): seq<Byte> {
    if s == [] || SpaceLength(s) > 0 then [] else [s[0]] + TakeToken(s[1..])
  }

  /** `text.split_whitespace().next()` */
  function FirstToken(s: seq<Byte>): Option<seq<Byte>> {
    var rest := SkipSpace(s);
    if rest == [] then None else Some(TakeToken(rest))
  }

  function Lower(b: Byte): Byte {
    if 65 <= b <= 90 then b + 32 else b
  }

  predicate EqIgnoreCase(a: seq<Byte>, b: seq<Byte>) {
    |a| == |b| && forall i :: 0 <= i < |a| ==> Lower(a[i]) == Lower(b[i])
  }

  predicate VerifySuccess(pr: Primitives, data: seq<Byte>, password: Text, pending: Pending, auth: Bytes16, username: seq<Byte>) {
    var expected := Chap.AuthenticatorResponse(pr, password, pending.ntResponse, pending.peerChallenge, auth, username);
    match FirstToken(data)
    case Some(token) => EqIgnoreCase(token, expected)
    case None => false
  }

  predicate PlainBytes(s: seq<Byte>) {
    forall i :: 0 <= i < |s| ==> 33 <= s[i] < 127
  }

  /** A token of plain ASCII is found whole in front of a space or the end. */
  lemma {:induction false} TokenBeforeSpace(token: seq<Byte>, tail: seq<Byte>)
    requires PlainBytes(token)
    requires tail == [] || SpaceLength(tail) > 0
    ensures TakeToken(token + tail) == token
  {
    if token == [] {
      assert token + tail == tail;
    } else {
      assert (token + tail)[1..] == token[1..] + tail;
      TokenBeforeSpace(token[1..], tail);
      assert (token + tail)[0] == token[0];
    }
  }

  lemma HexIsPlain(s: seq<Byte>)
    ensures PlainBytes(Chap.Hex(s))
  {
    if s != [] {
      HexIsPlain(s[1..]);
    }
  }

  /**
   The genuine authenticator response is accepted, alone or followed by white space and any
   further text; nothing whose first word is another text is accepted.
   */
  lemma GenuineSuccessVerifies(pr: Primitives, password: Text, pending: Pending, auth: Bytes16, username: seq<Byte>, tail: seq<Byte>)
    requires tail == [] || SpaceLength(tail) > 0
    ensures var genuine := Chap.AuthenticatorResponse(pr, password, pending.ntResponse, pending.peerChallenge, auth, username);
      VerifySuccess(pr, genuine + tail, password, pending, auth, username)
  {
    var genuine := Chap.AuthenticatorResponse(pr, password, pending.ntResponse, pending.peerChallenge, auth, username);
    GenuineIsPlain(pr, password, pending, auth, username);
    TokenBeforeSpace(genuine, tail);
    assert (genuine + tail)[0] == genuine[0];
  }

  lemma GenuineIsPlain(pr: Primitives, password: Text, pending: Pending, auth: Bytes16, username: seq<Byte>)
    ensures var genuine := Chap.AuthenticatorResponse(pr, password, pending.ntResponse, pending.peerChallenge, auth, username);
      PlainBytes(genuine) && |genuine| == 42
  {
    var hashHash := pr.md4(Chap.NtPasswordHash(pr, password));
    var digest1 := pr.sha1(hashHash + pending.ntResponse + Chap.AUTH_RESPONSE_MAGIC1);
    var challenge := Chap.ChallengeHash(pr, pending.peerChallenge, auth, username);
    HexIsPlain(pr.sha1(digest1 + challenge + Chap.AUTH_RESPONSE_MAGIC2));
    assert Ascii("S=") == [83, 61];
  }

  /** Accepted is what has, after leading white space, the 42 expected characters up to case as a whole word. */
  lemma VerifiedMeansExpected(pr: Primitives, data: seq<Byte>, password: Text, pending: Pending, auth: Bytes16, username: seq<Byte>)
    ensures var rest := SkipSpace(data);
      VerifySuccess(pr, data, password, pending, auth, username) <==>
        && |rest| >= 42
        && EqIgnoreCase(rest[..42], Chap.AuthenticatorResponse(pr, password, pending.ntResponse, pending.peerChallenge, auth, username))
        && (|rest| == 42 || SpaceLength(rest[42..]) > 0)
  {
    var rest := SkipSpace(data);
    var expected := Chap.AuthenticatorResponse(pr, password, pending.ntResponse, pending.peerChallenge, auth, username);
    GenuineIsPlain(pr, password, pending, auth, username);
    TokenIsPrefix(rest);
    if |rest| >= 42 && EqIgnoreCase(rest[..42], expected) && (|rest| == 42 || SpaceLength(rest[42..]) > 0) {
      SameUpToCaseIsPlain(rest[..42], expected);
      TokenBeforeSpace(rest[..42], rest[42..]);
      assert rest[..42] + rest[42..] == rest;
    }
  }

  lemma SameUpToCaseIsPlain(s: seq<Byte>, t: seq<Byte>)
    requires EqIgnoreCase(s, t) && PlainBytes(t)
    ensures PlainBytes(s)
  {
    forall i | 0 <= i < |s|
      ensures 33 <= s[i] < 127
    {
      assert Lower(s[i]) == Lower(t[i]);
    }
  }

  lemma TokenIsPrefix(s: seq<Byte>)
    ensures var token := TakeToken(s);
      token <= s && (|token| == |s| || SpaceLength(s[|token|..]) > 0)
  {
    if s != [] && SpaceLength(s) == 0 {
      TokenIsPrefix(s[1..]);
      var token := TakeToken(s);
      assert s[|token|..] == s[1..][|token| - 1..];
    } else {
      assert s[0..] == s;
    }
  }
}
