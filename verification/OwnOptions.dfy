/**
 Negotiating our own options (RFC 1661 sections 5.1-5.4): the part of the automaton that LCP
 and IPCP both have, over the fields both structs carry.
 */
module OwnOptions {
  import opened Wrappers
  import opened Bytes
  import opened Cp

  datatype Offer = Offer(identifier: Byte, desired: seq<Opt>, lastSentId: Option<Byte>, localUp: bool)

  /** A new state and the frames to send, in order. */
  datatype Step = Step(offer: Offer, sends: seq<seq<Byte>>)

  function Bump(id: Byte): Byte {
    (id + 1) % 0x100
  }

  function Request(id: Byte, desired: seq<Opt>): seq<Byte> {
    Encode(ConfigureRequest, id, EncodeOptions(desired))
  }

  function SendRequest(o: Offer): Step {
    var id := Bump(o.identifier);
    Step(o.(identifier := id, lastSentId := Some(id)), [Request(id, o.desired)])
  }

  // ----- Nak and Reject -----

  function FirstOfKind(opts: seq<Opt>, kind: Byte): (r: Option<nat>)
    ensures r.Some? ==> r.value < |opts| && opts[r.value].kind == kind
    ensures r.Some? ==> forall j :: 0 <= j < r.value ==> opts[j].kind != kind
    ensures r.None? ==> forall j :: 0 <= j < |opts| ==> opts[j].kind != kind
  {
    if opts == [] then None
    else if opts[0].kind == kind then Some(0)
    else
      var r := FirstOfKind(opts[1..], kind);
      if r.Some? then Some(r.value + 1) else None
  }

  /** One suggestion: the first option of that kind takes over the suggested data. */
  function Adopt(desired: seq<Opt>, s: Opt): (r: seq<Opt>)
    ensures |r| == |desired|
    ensures forall i :: 0 <= i < |r| ==> r[i].kind == desired[i].kind
  {
    match FirstOfKind(desired, s.kind)
    case None => desired
    case Some(i) => desired[i := Opt(desired[i].kind, s.data)]
  }

  function AdoptAll(desired: seq<Opt>, suggested: seq<Opt>): (r: seq<Opt>)
    ensures |r| == |desired|
    ensures forall i :: 0 <= i < |r| ==> r[i].kind == desired[i].kind
  {
    if suggested == [] then desired
    else
      var last := |suggested| - 1;
      Adopt(AdoptAll(desired, suggested[..last]), suggested[last])
  }

  predicate HasKind(opts: seq<Opt>, kind: Byte) {
    exists i :: 0 <= i < |opts| && opts[i].kind == kind
  }

  /** `desired.retain(..)`: drops every option of a rejected kind. */
  function Drop(desired: seq<Opt>, rejected: seq<Opt>): (r: seq<Opt>)
    ensures |r| <= |desired|
  {
    if desired == [] then []
    else
      var rest := Drop(desired[1..], rejected);
      if HasKind(rejected, desired[0].kind) then rest else [desired[0]] + rest
  }

  /** What one decoded frame does to our own negotiation. */
  function ReceiveAnswer(o: Offer, frame: Frame): Step {
    var current := o.lastSentId == Some(frame.id);
    match frame.code
    case ConfigureAck =>
      if current then Step(o.(localUp := true), []) else Step(o, [])
    case ConfigureNak =>
      if current
      then SendRequest(o.(desired := AdoptAll(o.desired, DecodeOptions(frame.data)), localUp := false))
      else Step(o, [])
    case ConfigureReject =>
      if current
      then SendRequest(o.(desired := Drop(o.desired, DecodeOptions(frame.data)), localUp := false))
      else Step(o, [])
    case TerminateRequest => Step(o.(localUp := false), [])
    case _ => Step(o, [])
  }

  // ----- Selecting options, in order -----

  function Select(opts: seq<Opt>, p: Opt -> bool): seq<Opt> {
    if opts == [] then []
    else if p(opts[0]) then [opts[0]] + Select(opts[1..], p)
    else Select(opts[1..], p)
  }

  lemma {:induction false} SelectSnoc(opts: seq<Opt>, o: Opt, p: Opt -> bool)
    ensures Select(opts + [o], p) == Select(opts, p) + (if p(o) then [o] else [])
    decreases |opts|
  {
    if opts == [] {
      assert opts + [o] == [o];
      assert [o][1..] == [];
    } else {
      SelectSnoc(opts[1..], o, p);
      assert (opts + [o])[1..] == opts[1..] + [o];
    }
  }

  lemma {:induction false} SelectProperties(opts: seq<Opt>, p: Opt -> bool)
    ensures Select(opts, p) == [] <==> forall o :: o in opts ==> !p(o)
    ensures |EncodeOptions(Select(opts, p))| <= |EncodeOptions(opts)|
    decreases |opts|
  {
    if opts != [] {
      SelectProperties(opts[1..], p);
      if p(opts[0]) {
        assert Select(opts, p)[1..] == Select(opts[1..], p);
      }
    }
  }

  // ----- Invariants of the offered options -----

  predicate Distinct(opts: seq<Opt>) {
    forall i, j :: 0 <= i < j < |opts| ==> opts[i].kind != opts[j].kind
  }

  /** Expressible on the wire, and no kind twice. */
  predicate Sound(opts: seq<Opt>) {
    AllSmall(opts) && Distinct(opts)
  }

  lemma {:induction false} DropProperties(desired: seq<Opt>, rejected: seq<Opt>)
    ensures forall o :: o in Drop(desired, rejected) <==> o in desired && !HasKind(rejected, o.kind)
    ensures Sound(desired) ==> Sound(Drop(desired, rejected))
    ensures |Drop(desired, rejected)| == |desired| <==> forall o :: o in desired ==> !HasKind(rejected, o.kind)
  {
    if desired != [] {
      DropProperties(desired[1..], rejected);
      DropCons(desired, rejected);
    }
  }

  lemma DropCons(desired: seq<Opt>, rejected: seq<Opt>)
    requires desired != []
    requires var rest := Drop(desired[1..], rejected);
      && (forall o :: o in rest <==> o in desired[1..] && !HasKind(rejected, o.kind))
      && (Sound(desired[1..]) ==> Sound(rest))
    ensures Sound(desired) ==> Sound(Drop(desired, rejected))
    ensures forall o :: o in Drop(desired, rejected) <==> o in desired && !HasKind(rejected, o.kind)
  {
    var rest := Drop(desired[1..], rejected);
    if Sound(desired) {
      forall i | 0 <= i < |rest|
        ensures rest[i].kind != desired[0].kind
      {
        assert rest[i] in desired[1..];
      }
    }
  }

  lemma DropSnoc(desired: seq<Opt>, o: Opt, rejected: seq<Opt>)
    ensures Drop(desired + [o], rejected) == Drop(desired, rejected) + (if HasKind(rejected, o.kind) then [] else [o])
  {
    if desired == [] {
      assert desired + [o] == [o];
      assert [o][1..] == [];
    } else {
      DropSnoc(desired[1..], o, rejected);
      assert (desired + [o])[1..] == desired[1..] + [o];
    }
  }

  /** `retain`: one pass that keeps, in order, exactly the options of no rejected kind. */
  method Retain(desired: seq<Opt>, rejected: seq<Opt>) returns (kept: seq<Opt>)
    ensures kept == Drop(desired, rejected)
    ensures forall o :: o in kept <==> o in desired && !HasKind(rejected, o.kind)
    ensures Sound(desired) ==> Sound(kept)
  {
    kept := [];
    for i := 0 to |desired|
      invariant kept == Drop(desired[..i], rejected)
    {
      DropSnoc(desired[..i], desired[i], rejected);
      assert desired[..i + 1] == desired[..i] + [desired[i]];
      var found := false;
      for j := 0 to |rejected|
        invariant found <==> exists k :: 0 <= k < j && rejected[k].kind == desired[i].kind
      {
        found := found || rejected[j].kind == desired[i].kind;
      }
      if !found {
        kept := kept + [desired[i]];
      }
    }
    assert desired[..|desired|] == desired;
    DropProperties(desired, rejected);
  }

  lemma AdoptKeepsSound(desired: seq<Opt>, suggested: seq<Opt>)
    requires Sound(desired) && AllSmall(suggested)
    ensures Sound(AdoptAll(desired, suggested))
  {
    if suggested != [] {
      AdoptKeepsSound(desired, suggested[..|suggested| - 1]);
    }
  }

  /** Every kind of `a` is a kind of `b`. */
  predicate KindsWithin(a: seq<Opt>, b: seq<Opt>) {
    forall i :: 0 <= i < |a| ==> HasKind(b, a[i].kind)
  }

  lemma DropWithin(desired: seq<Opt>, rejected: seq<Opt>)
    ensures KindsWithin(Drop(desired, rejected), desired)
  {
    DropProperties(desired, rejected);
    var left := Drop(desired, rejected);
    forall i | 0 <= i < |left|
      ensures HasKind(desired, left[i].kind)
    {
      assert left[i] in desired;
    }
  }

  lemma SameKindsWithin(a: seq<Opt>, b: seq<Opt>)
    requires |a| == |b| && forall i :: 0 <= i < |a| ==> a[i].kind == b[i].kind
    ensures KindsWithin(a, b)
  {
    forall i | 0 <= i < |a|
      ensures HasKind(b, a[i].kind)
    {
      assert b[i].kind == a[i].kind;
    }
  }

  /** Every frame keeps the offered options sound, and never brings a kind in. */
  lemma ReceiveKeepsSound(o: Offer, frame: Frame)
    requires Sound(o.desired)
    ensures var after := ReceiveAnswer(o, frame).offer;
      && Sound(after.desired)
      && |after.desired| <= |o.desired|
      && KindsWithin(after.desired, o.desired)
  {
    var opts := DecodeOptions(frame.data);
    match frame.code
    case ConfigureNak =>
      AdoptKeepsSound(o.desired, opts);
      SameKindsWithin(AdoptAll(o.desired, opts), o.desired);
      SameKindsWithin(o.desired, o.desired);
    case ConfigureReject =>
      DropProperties(o.desired, opts);
      DropWithin(o.desired, opts);
      SameKindsWithin(o.desired, o.desired);
    case _ =>
      SameKindsWithin(o.desired, o.desired);
  }

  /** The request on the wire carries exactly the options of `desired`, under the identifier awaited. */
  lemma RequestCarriesDesired(id: Byte, desired: seq<Opt>)
    requires AllSmall(desired) && |desired| <= 3
    ensures var frame := Decode(Request(id, desired));
      && frame == Some(Frame(ConfigureRequest, id, EncodeOptions(desired)))
      && DecodeOptions(frame.value.data) == desired
  {
    OptionsRoundTripAlone(desired);
    EncodedLength(desired);
    FrameRoundTrip(ConfigureRequest, id, EncodeOptions(desired));
  }

  lemma EncodedLength(opts: seq<Opt>)
    requires AllSmall(opts)
    ensures |EncodeOptions(opts)| <= 255 * |opts|
  {
    if opts != [] {
      assert Small(opts[0]);
      EncodedLength(opts[1..]);
    }
  }
}
