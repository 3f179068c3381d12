/** Tunnel transparency: IP packets come out of the tunnel as they went in. */
module Tunnel {
  import opened Wrappers
  import opened Bytes
  import opened Packet
  import opened Engine
  import Ppp
  import Streams

  /** What the connection writes for one packet read from the tunnel interface. */
  function IpFrame(ip: seq<Byte>): seq<Byte> {
    EncodeData(Ppp.Encode(Ppp.Ip, ip))
  }

  const MAX_IP := 65527

  function Frames(ips: seq<seq<Byte>>): (frames: seq<seq<Byte>>)
    ensures |frames| == |ips|
  {
    seq(|ips|, i requires 0 <= i < |ips| => IpFrame(ips[i]))
  }

  function IpStream(ips: seq<seq<Byte>>): seq<Byte> {
    Flatten(Frames(ips))
  }

  lemma IpStreamCons(ips: seq<seq<Byte>>)
    requires ips != []
    ensures IpStream(ips) == IpFrame(ips[0]) + IpStream(ips[1..])
  {
    assert Frames(ips)[1..] == Frames(ips[1..]);
  }

  function IpPackets(ips: seq<seq<Byte>>): (ps: seq<Packet>)
    ensures |ps| == |ips|
  {
    seq(|ips|, i requires 0 <= i < |ips| => Data(Ppp.Encode(Ppp.Ip, ips[i])))
  }

  predicate AllFit(ips: seq<seq<Byte>>) {
    forall i :: 0 <= i < |ips| ==> |ips[i]| <= MAX_IP
  }

  lemma DrainOne(frame: seq<Byte>, rest: seq<Byte>)
    requires |frame| <= 0xFFFF - 4
    ensures Streams.Drain(EncodeData(frame) + rest) == Streams.After([Data(frame)], Streams.Drain(rest))
  {
    DataRoundTrip(frame, rest);
    assert (EncodeData(frame) + rest)[|EncodeData(frame)|..] == rest;
  }

  lemma {:induction false} IpStreamDrains(ips: seq<seq<Byte>>)
    requires AllFit(ips)
    ensures Streams.Drain(IpStream(ips)) == Streams.Parsed(IpPackets(ips), [], None)
  {
    if ips != [] {
      assert |ips[0]| <= MAX_IP;
      IpStreamCons(ips);
      DrainOne(Ppp.Encode(Ppp.Ip, ips[0]), IpStream(ips[1..]));
      IpStreamDrains(ips[1..]);
      IpPacketsCons(ips);
    }
  }

  lemma IpPacketsCons(ips: seq<seq<Byte>>)
    requires ips != []
    ensures IpPackets(ips) == [Data(Ppp.Encode(Ppp.Ip, ips[0]))] + IpPackets(ips[1..])
  {
  }

  /** Feeding packets one after another; `draws` per packet. */
  function Feed(env: Env, s: State, packets: seq<Packet>, draws: nat -> Draws): (State, seq<Reply>) {
    if packets == [] then (s, [])
    else
      var last := |packets| - 1;
      var (before, replies) := Feed(env, s, packets[..last], draws);
      var t := OnPacket(env, before, packets[last], draws(last));
      (t.state, replies + [t.reply])
  }

  function Delivered(ips: seq<seq<Byte>>): (r: seq<Reply>)
    ensures |r| == |ips|
  {
    seq(|ips|, i requires 0 <= i < |ips| => Events([DeliverIpPacket(ips[i])]))
  }

  /** One IP packet is delivered as it is, by every state, and changes nothing. */
  lemma IpIsDelivered(env: Env, s: State, ip: seq<Byte>, draws: Draws)
    ensures OnPacket(env, s, Data(Ppp.Encode(Ppp.Ip, ip)), draws) == Turn(s, Events([DeliverIpPacket(ip)]))
  {
    Ppp.FrameRoundTrip(Ppp.Ip, ip);
  }

  /** A packet survives the wire exactly when it is at most 65527 bytes long. */
  lemma OnePacketSurvives(ip: seq<Byte>, more: seq<Byte>)
    ensures Decode(IpFrame(ip) + more) == Ok(Data(Ppp.Encode(Ppp.Ip, ip))) <==> |ip| <= MAX_IP
  {
    DataRoundTrip(Ppp.Encode(Ppp.Ip, ip), more);
  }

  lemma {:induction false} IpPacketsAreDelivered(env: Env, s: State, ips: seq<seq<Byte>>, draws: nat -> Draws)
    ensures Feed(env, s, IpPackets(ips), draws) == (s, Delivered(ips))
  {
    if ips != [] {
      var last := |ips| - 1;
      IpPacketsAreDelivered(env, s, ips[..last], draws);
      DeliveredSnoc(ips);
      IpIsDelivered(env, s, ips[last], draws(last));
    }
  }

  lemma DeliveredSnoc(ips: seq<seq<Byte>>)
    requires ips != []
    ensures var last := |ips| - 1;
      && IpPackets(ips)[..last] == IpPackets(ips[..last])
      && IpPackets(ips)[last] == Data(Ppp.Encode(Ppp.Ip, ips[last]))
      && Delivered(ips) == Delivered(ips[..last]) + [Events([DeliverIpPacket(ips[last])])]
  {
  }

  /**
   Any list of IP packets of up to 65527 bytes, framed, concatenated and cut into reads in any
   way, is delivered packet by packet in order, from every engine state, with nothing left over.
   */
  lemma TunnelIsTransparent(env: Env, s: State, ips: seq<seq<Byte>>, chunks: seq<seq<Byte>>, draws: nat -> Draws)
    requires AllFit(ips)
    requires Flatten(Streams.Received(chunks)) == IpStream(ips)
    ensures var parsed := Streams.Feed([], chunks);
      && parsed.error.None? && parsed.rest == []
      && Feed(env, s, parsed.packets, draws) == (s, Delivered(ips))
  {
    IpStreamDrains(ips);
    Streams.FeedIsDrain([], chunks);
    assert [] + IpStream(ips) == IpStream(ips);
    IpPacketsAreDelivered(env, s, ips, draws);
  }
}
