/** The counters of each port: they agree with what its queue gained and what it took in. */
module AsicPortCounters {
  import opened Basics
  import opened Ethernet
  import opened VirtualPort
  import opened Asic
  import opened AsicVerdict
  import AsicConservation
  import Vlan
  import Ipv4Packet
  import ArpPacket
  import Routing
  import FI = FaultInjector

  function Queued(s: State, p: PortId): (nat, nat)
  {
    if p in s.queues then (|s.queues[p].items|, AsicConservation.SizeOf(s.queues[p].items)) else (0, 0)
  }

  /** Port `p` counted as transmitted exactly what its queue gained, and every
      transmission it refused was too big. */
  ghost predicate Transmits(s: State, s': State, p: PortId)
    requires p in s.ports && p in s'.ports
  {
    var c, c' := s.ports[p].counters, s'.ports[p].counters;
    && c'.transmittedPackets - c.transmittedPackets == Queued(s', p).0 - Queued(s, p).0
    && c'.transmittedBytes - c.transmittedBytes == Queued(s', p).1 - Queued(s, p).1
    && c'.transmitDrops - c.transmitDrops == c'.transmitErrors - c.transmitErrors
  }

  /** What a port with this MTU counts as received, when it was offered a payload of that size, or none. */
  ghost predicate Receives(c: Counters, c': Counters, mtu: nat, offered: Option<nat>)
  {
    match offered
    case None =>
      && c'.receivedPackets == c.receivedPackets && c'.receivedBytes == c.receivedBytes
      && c'.receiveErrors == c.receiveErrors && c'.receiveDrops == c.receiveDrops
    case Some(size) =>
      var fits := size <= mtu;
      && c'.receivedPackets == c.receivedPackets + (if fits then 1 else 0)
      && c'.receivedBytes == c.receivedBytes + (if fits then size else 0)
      && c'.receiveDrops == c.receiveDrops + (if fits then 0 else 1)
      && c'.receiveErrors == c.receiveErrors + (if fits then 0 else 1)
  }

  ghost predicate Sends(s: State, s': State, p: PortId)
    requires p in s.ports && p in s'.ports
  {
    Transmits(s, s', p) && Receives(s.ports[p].counters, s'.ports[p].counters, 0, None)
  }

  lemma Untouched(s: State, s': State, p: PortId)
    requires p in s.ports && p in s'.ports && s'.ports[p] == s.ports[p] && Queued(s', p) == Queued(s, p)
    ensures Sends(s, s', p) && Transmits(s, s', p)
    ensures Receives(s.ports[p].counters, s'.ports[p].counters, s.ports[p].mtu, None)
  {
  }

  lemma OwnSends(s: State, id: PortId, frame: Bytes)
    requires id in s.ports && (EnqueueOne(s, id, frame).1.Sent? || EnqueueOne(s, id, frame).1.OverMtu?)
    ensures id in EnqueueOne(s, id, frame).0.ports && Sends(s, EnqueueOne(s, id, frame).0, id)
  {
    hide AsicConservation.SizeOf, FI.Inject;
    var (s', charge, _) := EnqueueOne(s, id, frame);
    if charge.Sent? {
      AsicConservation.SizeOfAppend(s.queues[id].items, charge.bytes);
    }
  }

  lemma EnqueueOneSends(s: State, id: PortId, frame: Bytes, p: PortId)
    requires p in s.ports
    ensures p in EnqueueOne(s, id, frame).0.ports && Sends(s, EnqueueOne(s, id, frame).0, p)
  {
    hide Sends, AsicConservation.SizeOf, FI.Inject;
    var (s', charge, _) := EnqueueOne(s, id, frame);
    if p != id || !(charge.Sent? || charge.OverMtu?) {
      Untouched(s, s', p);
    } else {
      hide EnqueueOne;
      OwnSends(s, id, frame);
    }
  }

  lemma {:induction false} EnqueueAllSends(s: State, ids: seq<PortId>, frame: Bytes, latency: int, p: PortId)
    requires p in s.ports
    ensures var s' := EnqueueAll(s, ids, frame, latency).state; p in s'.ports && Sends(s, s', p)
  {
    if ids != [] {
      hide EnqueueOne, Queued;
      var front := ids[..|ids| - 1];
      EnqueueAllSends(s, front, frame, latency, p);
      EnqueueOneSends(EnqueueAll(s, front, frame, latency).state, ids[|ids| - 1], frame, p);
    }
  }

  lemma RouteSends(s: State, frame: Frame, latency: int, now: int, p: PortId)
    requires p in s.ports
    ensures var s' := Route(s, frame, latency, now).0; p in s'.ports && Sends(s, s', p)
  {
    hide Encoding, Ipv4Packet.Parse, Ipv4Packet.Valid, EnqueueAll, Routing.Forward, Routing.Encapsulate;
    hide AsicConservation.SizeOf;
    match Ipv4Packet.Parse(frame.payload)
    case None =>
    case Some(packet) =>
      match Routing.Forward(s.routes, packet)
      case Dropped(_) =>
      case Forwarded(_, id, _) =>
        if id in s.ports {
          var e := Routing.Encapsulate(Routing.Forward(s.routes, packet), s.ports[id].mac, s.arpLifetime, s.arp, now);
          if e.Encapsulated? { EnqueueAllSends(s, [id], Encoding(e.frame), latency, p); }
        }
  }

  lemma SwitchSends(s: State, ingress: PortId, frame: Frame, latency: int, now: int, p: PortId)
    requires p in s.ports && ingress in s.ports && Vlan.ValidConfig(s.ports[ingress].config)
    ensures var s' := Switch(s, ingress, frame, latency, now).0; p in s'.ports && Sends(s, s', p)
  {
    hide Decision, EnqueueAll, Encoding, ArpPacket.Parse, Route, AsicConservation.SizeOf;
    var (macs, d) := Decision(s, ingress, frame, now);
    var s2 := s.(macs := macs);
    match d
    case Drop(_, _) =>
    case ToControlPlane(_) =>
    case RouteIpv4(_) => RouteSends(s2, frame, latency, now, p);
    case FloodInVlan(_, outputs) => EnqueueAllSends(s2, outputs, Encoding(frame), latency, p);
    case SwitchTo(_, outputs) => EnqueueAllSends(s2, outputs, Encoding(frame), latency, p);
  }

  /** The size of the payload that a packet offers to port `p`: it arrived there, the port
      works, fault injection let it through, and it parses. */
  ghost function OfferedTo(s: State, ingress: PortId, bytes: Bytes, p: PortId): Option<nat>
  {
    var r := FI.Inject(s.faults, ingress, bytes).1;
    if p == ingress && Works(s, ingress) && r.Passed? && Parse(r.bytes).Some? then Some(|Parse(r.bytes).value.payload|)
    else None
  }

  /** The counters of every port after a packet: what was transmitted is what its queue
      gained; the ingress port took in the payload of a frame that fits and dropped one
      that does not, as an error; no other port counts anything received. */
  lemma CountersExactly(s: State, ingress: PortId, bytes: Bytes, now: int, p: PortId)
    requires ValidState(s) && p in s.ports
    ensures var s' := ProcessPacket(s, ingress, bytes, now).0;
      && p in s'.ports && Transmits(s, s', p)
      && Receives(s.ports[p].counters, s'.ports[p].counters, s.ports[p].mtu, OfferedTo(s, ingress, bytes, p))
  {
    if frame :| Gets(s, ingress, bytes, frame) {
      hide Switch, Parse, Queued, FI.Inject;
      var s1 := Received(Arrived(s, ingress, bytes), ingress, frame);
      ReceivedCounts(s, ingress, bytes, frame, p);
      SwitchSends(s1, ingress, frame, FI.Inject(s.faults, ingress, bytes).1.latency, now, p);
      assert ProcessPacket(s, ingress, bytes, now).0 ==
             Switch(s1, ingress, frame, FI.Inject(s.faults, ingress, bytes).1.latency, now).0;
    } else {
      hide Switch, Parse, Queued;
      NothingSent(s, ingress, bytes, now, p);
    }
  }

  lemma ReceivedCounts(s: State, ingress: PortId, bytes: Bytes, frame: Frame, p: PortId)
    requires p in s.ports && ingress in s.ports && Gets(s, ingress, bytes, frame)
    ensures var s1 := Received(Arrived(s, ingress, bytes), ingress, frame);
      && p in s1.ports && s1.ports[p] == s.ports[p].(counters := s1.ports[p].counters)
      && Transmits(s, s1, p) && Queued(s1, p) == Queued(s, p)
      && Receives(s.ports[p].counters, s1.ports[p].counters, s.ports[p].mtu, OfferedTo(s, ingress, bytes, p))
  {
    hide Parse, AsicConservation.SizeOf;
  }

  lemma TooBig(s: State, ingress: PortId, bytes: Bytes, frame: Frame, now: int)
    requires ValidState(s) && Works(s, ingress) && FI.Inject(s.faults, ingress, bytes).1.Passed?
    requires Parse(FI.Inject(s.faults, ingress, bytes).1.bytes) == Some(frame)
    requires |frame.payload| > s.ports[ingress].mtu
    ensures var s' := ProcessPacket(s, ingress, bytes, now).0;
      && ingress in s'.ports && Transmits(s, s', ingress)
      && Receives(s.ports[ingress].counters, s'.ports[ingress].counters, s.ports[ingress].mtu, Some(|frame.payload|))
  {
    hide Switch, Parse, FI.Inject, AsicConservation.SizeOf;
  }

  lemma NothingSent(s: State, ingress: PortId, bytes: Bytes, now: int, p: PortId)
    requires ValidState(s) && p in s.ports && forall frame :: !Gets(s, ingress, bytes, frame)
    ensures var s' := ProcessPacket(s, ingress, bytes, now).0;
      && p in s'.ports && Transmits(s, s', p)
      && Receives(s.ports[p].counters, s'.ports[p].counters, s.ports[p].mtu, OfferedTo(s, ingress, bytes, p))
  {
    hide Switch, Parse, AsicConservation.SizeOf, Transmits, Receives;
    var s' := ProcessPacket(s, ingress, bytes, now).0;
    if OfferedTo(s, ingress, bytes, p).None? {
      if Works(s, ingress) && FI.Inject(s.faults, ingress, bytes).1.Passed? {
        match Parse(FI.Inject(s.faults, ingress, bytes).1.bytes)
        case None =>
        case Some(frame) => assert !Gets(s, ingress, bytes, frame);
      }
      Untouched(s, s', p);
    } else {
      var frame := Parse(FI.Inject(s.faults, ingress, bytes).1.bytes).value;
      assert !Gets(s, ingress, bytes, frame);
      TooBig(s, ingress, bytes, frame, now);
    }
  }
}
