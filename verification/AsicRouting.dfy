/** The end-to-end meaning of a routed packet, and of a dropped one. */
module AsicRouting {
  import opened Basics
  import opened Ethernet
  import opened VirtualPort
  import opened BoundedQueue
  import opened Asic
  import opened AsicInvariant
  import opened AsicForwarding
  import L2 = L2Forwarding
  import Vlan
  import MacTable
  import RT = RouteTable
  import Ipv4Packet
  import ArpPacket
  import ArpCache
  import Routing
  import FI = FaultInjector

  /** Only the route decision leads to a routed result. */
  lemma RoutedMeansRoute(s: State, ingress: PortId, frame: Frame, latency: int, now: int)
    requires ingress in s.ports && Vlan.ValidConfig(s.ports[ingress].config)
    requires Switch(s, ingress, frame, latency, now).1.disposition == Routed
    ensures var s2 := s.(macs := Decision(s, ingress, frame, now).0);
      Switch(s, ingress, frame, latency, now) == Route(s2, frame, latency, now)
  {
    hide EnqueueAll, Decision, Route, Encoding, ArpPacket.Parse;
  }

  /** What a routed result says about the route it took. */
  lemma RouteTaken(s: State, frame: Frame, latency: int, now: int)
    requires Route(s, frame, latency, now).1.disposition == Routed
    ensures Ipv4Packet.Parse(frame.payload).Some?
    ensures var p := Ipv4Packet.Parse(frame.payload).value;
      var fw := Routing.Forward(s.routes, p);
      && fw.Forwarded? && fw.port in s.ports
      && var e := Routing.Encapsulate(fw, s.ports[fw.port].mac, s.arpLifetime, s.arp, now);
         && e.Encapsulated?
         && Route(s, frame, latency, now) == EnqueueOutputs(s, Routed, [fw.port], Encoding(e.frame), latency)
  {
    hide EnqueueOutputs, Ipv4Packet.Parse, Ipv4Packet.Valid, Routing.Forward, Routing.Encapsulate, Encoding;
  }

  /** A batch for one port that was not empty sent the frame to that port. */
  lemma OneOutput(s: State, id: PortId, frame: Bytes, latency: int) returns (sent: Bytes)
    requires EnqueueAll(s, [id], frame, latency).outputs != []
    ensures var b := EnqueueAll(s, [id], frame, latency);
      && b.outputs == [id] && Delivered(frame, sent) && Appended(s, b.state, id, sent)
      && forall q {:trigger SameQueue(s, b.state, q)} :: q != id ==> SameQueue(s, b.state, q)
  {
    hide Delivered, Appended;
    EnqueueAllEffect(s, [id], frame, latency);
    var b := EnqueueAll(s, [id], frame, latency);
    hide EnqueueAll, SameQueue;
    assert forall i :: 0 <= i < |b.outputs| ==> b.outputs[i] in b.outputs && b.outputs[i] in [id];
    assert b.outputs == [id];
    assert DeliveredTo(s, b.state, id, frame);
    sent :| Delivered(frame, sent) && Appended(s, b.state, id, sent);
  }

  /** The bytes that end up on the egress queue of a routed packet. */
  lemma RoutedFrom(s: State, frame: Frame, latency: int, now: int)
    returns (p: Ipv4Packet.Packet, route: RT.Route, out: Frame, sent: Bytes)
    requires Route(s, frame, latency, now).1.disposition == Routed
    ensures Ipv4Packet.Parse(frame.payload) == Some(p)
    ensures route.port in s.ports && Operational(s.ports[route.port])
    ensures Routing.RoutedForm(p, out, route, s.routes, s.ports[route.port].mac, s.arpLifetime, s.arp, now)
    ensures Parse(sent) == Some(out) || Parse(sent) == Some(Misaddressed(out))
    ensures var (s', r) := Route(s, frame, latency, now);
      && r.outputs == [route.port] && Appended(s, s', route.port, sent)
      && forall q {:trigger SameQueue(s, s', q)} :: q != route.port ==> SameQueue(s, s', q)
  {
    RouteTaken(s, frame, latency, now);
    hide Route, Parse, Encoding, Ipv4Packet.Parse, Ipv4Packet.Valid, Routing.Forward, Routing.RoutedForm, EnqueueAll;
    hide SameQueue, Appended, Delivered, RT.LongestMatch;
    p := Ipv4Packet.Parse(frame.payload).value;
    var fw := Routing.Forward(s.routes, p);
    var mac := s.ports[fw.port].mac;
    Routing.RoutedBytes(s.routes, p, mac, s.arpLifetime, s.arp, now);
    route := RT.LongestMatch(s.routes, p.destination).value;
    out := Routing.Encapsulate(fw, mac, s.arpLifetime, s.arp, now).frame;
    sent := OneOutput(s, fw.port, Encoding(out), latency);
    OutputIsOperational(s, fw.port, Encoding(out), latency);
    DeliveredFrame(out, sent);
  }

  lemma OutputIsOperational(s: State, id: PortId, frame: Bytes, latency: int)
    requires EnqueueAll(s, [id], frame, latency).outputs != []
    ensures Usable(s, id)
  {
    EnqueueAllEffect(s, [id], frame, latency);
    var b := EnqueueAll(s, [id], frame, latency);
    hide EnqueueAll;
    assert b.outputs[0] in b.outputs;
  }

  /** The routed end-to-end theorem.  Whenever a packet is reported routed, one
      queue gained one byte string and no other queue changed; those bytes parse
      as a frame from the egress port's address to the unexpired neighbor of the
      next hop of the longest matching route, carrying the arrived IPv4 packet
      with its TTL exactly one less.  Injected corruption can only misaddress it. */
  lemma RoutedEndToEnd(s: State, ingress: PortId, bytes: Bytes, now: int)
    returns (arrived: Frame, p: Ipv4Packet.Packet, route: RT.Route, out: Frame, sent: Bytes)
    requires ValidState(s) && ProcessPacket(s, ingress, bytes, now).1.disposition == Routed
    ensures FI.Inject(s.faults, ingress, bytes).1.Passed?
    ensures Parse(FI.Inject(s.faults, ingress, bytes).1.bytes) == Some(arrived)
    ensures Ipv4Packet.Parse(arrived.payload) == Some(p)
    ensures route.port in s.ports && Operational(s.ports[route.port])
    ensures Routing.RoutedForm(p, out, route, s.routes, s.ports[route.port].mac, s.arpLifetime, s.arp, now)
    ensures Parse(sent) == Some(out) || Parse(sent) == Some(Misaddressed(out))
    ensures var (s', r) := ProcessPacket(s, ingress, bytes, now);
      && r.outputs == [route.port] && Appended(s, s', route.port, sent)
      && forall q {:trigger SameQueue(s, s', q)} :: q != route.port ==> SameQueue(s, s', q)
  {
    hide Switch, Route, Parse, Ipv4Packet.Parse, Routing.RoutedForm, ProcessPacket, Decision;
    hide ValidState, Received, Arrived, Misaddressed;
    var s1;
    arrived, s1 := Entry(s, ingress, bytes, now);
    EntryState(s, ingress, bytes, arrived, s1);
    IngressConfigured(s1, ingress, s, bytes, arrived);
    var latency := FI.Inject(s.faults, ingress, bytes).1.latency;
    RoutedMeansRoute(s1, ingress, arrived, latency, now);
    var s2 := s1.(macs := Decision(s1, ingress, arrived, now).0);
    p, route, out, sent := RoutedFrom(s2, arrived, latency, now);
    assert SamePort(s.ports[route.port], s1.ports[route.port]);
    QueuesFromStart(s, s2, Route(s2, arrived, latency, now).0, route.port, sent);
  }

  lemma IngressConfigured(s1: State, ingress: PortId, s: State, bytes: Bytes, frame: Frame)
    requires ValidState(s) && Enters(s, ingress, bytes, frame, s1)
    ensures ingress in s1.ports && Vlan.ValidConfig(s1.ports[ingress].config)
  {
    EntryState(s, ingress, bytes, frame, s1);
  }

  lemma QueuesFromStart(s: State, s2: State, s': State, id: PortId, sent: Bytes)
    requires s2.queues == s.queues
    requires Appended(s2, s', id, sent)
    requires forall q {:trigger SameQueue(s2, s', q)} :: q != id ==> SameQueue(s2, s', q)
    ensures Appended(s, s', id, sent)
    ensures forall q {:trigger SameQueue(s, s', q)} :: q != id ==> SameQueue(s, s', q)
  {
    forall q | q != id ensures SameQueue(s, s', q) {
      assert SameQueue(s2, s', q);
    }
  }

  // ---- Which packets are routed ----

  /** Everything a packet needs to be routed, when no faults are injected: two
      hops to live, a route, an operational egress port, an unexpired neighbor, a
      size that fits Ethernet and the port, and room in the queue. */
  ghost predicate Routable(s: State, frame: Frame, now: int)
  {
    match Ipv4Packet.Parse(frame.payload)
    case None => false
    case Some(p) =>
      match RT.LongestMatch(s.routes, p.destination)
      case None => false
      case Some(route) =>
        && p.timeToLive >= 2
        && Takes(s, route.port, HEADER_SIZE + Ipv4Packet.HEADER_SIZE + |p.payload|)
        && IsStation(s.ports[route.port].mac)
        && (var hop := if route.nextHop.Some? then route.nextHop.value else p.destination;
            ArpCache.Lookup(s.arpLifetime, s.arp, hop, now).Some?)
        && Ipv4Packet.HEADER_SIZE + |p.payload| <= MAXIMUM_PAYLOAD_SIZE
  }

  lemma QuietSingle(s: State, id: PortId, frame: Bytes, latency: int)
    requires FI.Quiet(s.faults)
    ensures EnqueueAll(s, [id], frame, latency).outputs != [] <==> Takes(s, id, |frame|)
  {
    QuietBatch(s, [id], frame, latency);
    hide EnqueueAll, Takes;
    assert [id][..0] == [];
    assert TakingPorts(s, [id][..0], |frame|) == [];
  }

  lemma FrameSize(out: Frame)
    requires out.tag.None?
    ensures |Encoding(out)| == HEADER_SIZE + |out.payload|
  {
  }

  lemma RouteOutcome(s: State, frame: Frame, latency: int, now: int)
    requires FI.Quiet(s.faults)
    ensures Route(s, frame, latency, now).1.disposition == Routed <==> Routable(s, frame, now)
  {
    hide EnqueueAll, Encoding, Ipv4Packet.Parse, RT.LongestMatch, ArpCache.Lookup, FI.Quiet, Ipv4Packet.Header, Takes;
    match Ipv4Packet.Parse(frame.payload)
    case None =>
    case Some(p) =>
      var fw := Routing.Forward(s.routes, p);
      if fw.Forwarded? {
        if fw.port in s.ports && Operational(s.ports[fw.port]) {
          var e := Routing.Encapsulate(fw, s.ports[fw.port].mac, s.arpLifetime, s.arp, now);
          if e.Encapsulated? {
            FrameSize(e.frame);
            QuietSingle(s, fw.port, Encoding(e.frame), latency);
          }
        } else {
          TakesNeedsPort(s, fw.port, HEADER_SIZE + Ipv4Packet.HEADER_SIZE + |p.payload|);
        }
      }
  }

  lemma TakesNeedsPort(s: State, id: PortId, size: nat)
    requires id !in s.ports || !Operational(s.ports[id])
    ensures !Takes(s, id, size)
  {
  }

  /** The frame is accepted into a VLAN, its source can be learned there, and it
      is addressed to that VLAN's router with an IPv4 payload. */
  ghost predicate ForRouter(s: State, ingress: PortId, frame: Frame, now: int)
    requires ingress in s.ports && Vlan.ValidConfig(s.ports[ingress].config)
  {
    match Vlan.Classify(frame, s.ports[ingress].config)
    case Dropped(_) => false
    case Accepted(vlan) =>
      && MacTable.Learned(s.macs, vlan, frame.source, ingress, now).1 !in {MacTable.Rejected, MacTable.StaticConflict}
      && vlan in s.routers && frame.destination == s.routers[vlan] && frame.etherType == ETHERTYPE_IPV4
  }

  lemma RouterDecision(s: State, ingress: PortId, frame: Frame, now: int)
    requires ingress in s.ports && Vlan.ValidConfig(s.ports[ingress].config)
    ensures Decision(s, ingress, frame, now).1.RouteIpv4? <==> ForRouter(s, ingress, frame, now)
  {
    hide MacTable.Learned, L2.Decide, Vlan.MemberVlan;
  }

  lemma SwitchRoutes(s: State, ingress: PortId, frame: Frame, latency: int, now: int)
    requires ingress in s.ports && Vlan.ValidConfig(s.ports[ingress].config) && FI.Quiet(s.faults)
    ensures Switch(s, ingress, frame, latency, now).1.disposition == Routed <==>
      ForRouter(s, ingress, frame, now) && Routable(s, frame, now)
  {
    hide Decision, ForRouter, Routable, EnqueueAll, Encoding, ArpPacket.Parse, Route, Vlan.ValidConfig, FI.Quiet;
    RouterDecision(s, ingress, frame, now);
    var s2 := s.(macs := Decision(s, ingress, frame, now).0);
    RouteOutcome(s2, frame, latency, now);
    RoutableSame(s, s2, frame, now);
  }

  /** Routability looks at routes, neighbors, port settings and queues only. */
  lemma RoutableSame(s: State, s': State, frame: Frame, now: int)
    requires AsicInvariant.SameConfig(s, s') && s'.queues == s.queues && s'.arp == s.arp
    ensures Routable(s', frame, now) <==> Routable(s, frame, now)
  {
    hide Ipv4Packet.Parse, RT.LongestMatch, ArpCache.Lookup;
    match Ipv4Packet.Parse(frame.payload)
    case None =>
    case Some(p) =>
      match RT.LongestMatch(s.routes, p.destination)
      case None =>
      case Some(route) =>
        if route.port in s.ports { assert SamePort(s.ports[route.port], s'.ports[route.port]); }
  }

  /** With fault injection off, a packet is routed if and only if it arrives on an
      operational port within its MTU, reaches the router and is routable. */
  lemma RoutedExactlyWhen(s: State, ingress: PortId, bytes: Bytes, now: int)
    requires ValidState(s) && FI.Quiet(s.faults)
    ensures ProcessPacket(s, ingress, bytes, now).1.disposition == Routed <==>
      && ingress in s.ports && Operational(s.ports[ingress])
      && Parse(bytes).Some? && |Parse(bytes).value.payload| <= s.ports[ingress].mtu
      && ForRouter(s, ingress, Parse(bytes).value, now) && Routable(s, Parse(bytes).value, now)
  {
    if ingress in s.ports && Operational(s.ports[ingress]) {
      assert FI.Inject(s.faults, ingress, bytes).1 == FI.Passed(bytes, s.faults.config.latency, false);
      hide Switch, Parse, Routable, ForRouter;
      match Parse(bytes)
      case None =>
      case Some(frame) =>
        var s1 := Received(Arrived(s, ingress, bytes), ingress, frame);
        EntryState(s, ingress, bytes, frame, s1);
        hide ValidState, DataStep;
        if Receive(s.ports[ingress], |frame.payload|).1 {
          SwitchRoutes(s1, ingress, frame, s.faults.config.latency, now);
          RoutableSame(s, s1, frame, now) by { StepKeepsConfig(s, s1); }
          ForRouterSame(s, s1, ingress, frame, now);
        }
    }
  }

  lemma StepKeepsConfig(s: State, s': State)
    requires DataStep(s, s')
    ensures AsicInvariant.SameConfig(s, s')
  {
  }

  lemma ForRouterSame(s: State, s': State, ingress: PortId, frame: Frame, now: int)
    requires ingress in s.ports && ingress in s'.ports && Vlan.ValidConfig(s.ports[ingress].config)
    requires s'.ports[ingress].config == s.ports[ingress].config && s'.macs == s.macs && s'.routers == s.routers
    ensures ForRouter(s', ingress, frame, now) <==> ForRouter(s, ingress, frame, now)
  {
    hide MacTable.Learned;
  }

  // ---- Dropped packets ----

  lemma EmptyBatch(s: State, ids: seq<PortId>, frame: Bytes, latency: int)
    requires L2.NoDuplicates(ids) && EnqueueAll(s, ids, frame, latency).outputs == []
    ensures EnqueueAll(s, ids, frame, latency).state.queues == s.queues
  {
    EnqueueAllEffect(s, ids, frame, latency);
    var s' := EnqueueAll(s, ids, frame, latency).state;
    hide EnqueueAll;
    forall q: PortId ensures q in s'.queues <==> q in s.queues {
      assert SameQueue(s, s', q);
    }
    forall q | q in s.queues ensures s'.queues[q] == s.queues[q] {
      assert SameQueue(s, s', q);
    }
  }

  lemma RouteDropped(s: State, frame: Frame, latency: int, now: int)
    requires Route(s, frame, latency, now).1.outputs == []
    ensures Route(s, frame, latency, now).0.queues == s.queues
  {
    hide EnqueueAll, Encoding, Ipv4Packet.Parse, Routing.Forward, Routing.Encapsulate, Ipv4Packet.Valid;
    var s' := Route(s, frame, latency, now).0;
    if s' != s.(stats := s'.stats) {
      var fw := Routing.Forward(s.routes, Ipv4Packet.Parse(frame.payload).value);
      var e := Routing.Encapsulate(fw, s.ports[fw.port].mac, s.arpLifetime, s.arp, now);
      EmptyBatch(s, [fw.port], Encoding(e.frame), latency);
    }
  }

  lemma SwitchDropped(s: State, ingress: PortId, frame: Frame, latency: int, now: int)
    requires ingress in s.ports && Vlan.ValidConfig(s.ports[ingress].config)
    requires Switch(s, ingress, frame, latency, now).1.outputs == []
    ensures Switch(s, ingress, frame, latency, now).0.queues == s.queues
  {
    var config := s.ports[ingress].config;
    L2.OutputsAreMembers(frame, ingress, config, MembersOf(s, Vlan.MemberVlan(frame, config)), s.macs, s.routers, now);
    var (macs, d) := Decision(s, ingress, frame, now);
    var s2 := s.(macs := macs);
    assert L2.NoDuplicates(L2.Outputs(d));
    hide Decision, EnqueueAll, Encoding, ArpPacket.Parse, Route;
    match d
    case Drop(_, _) =>
    case ToControlPlane(_) =>
    case RouteIpv4(_) => RouteDropped(s2, frame, latency, now);
    case FloodInVlan(_, outputs) => EmptyBatch(s2, outputs, Encoding(frame), latency);
    case SwitchTo(_, outputs) => EmptyBatch(s2, outputs, Encoding(frame), latency);
  }

  /** A packet that is dropped, or handed to the control plane, leaves every queue as it was. */
  lemma DroppedLeavesQueues(s: State, ingress: PortId, bytes: Bytes, now: int)
    requires ValidState(s)
    requires var r := ProcessPacket(s, ingress, bytes, now).1;
      r.disposition == Dropped || r.disposition == DeliveredToControlPlane
    ensures ProcessPacket(s, ingress, bytes, now).0.queues == s.queues
    ensures ProcessPacket(s, ingress, bytes, now).1.outputs == []
  {
    hide Switch, Parse;
    if ingress in s.ports && Operational(s.ports[ingress]) && FI.Inject(s.faults, ingress, bytes).1.Passed? {
      var latency := FI.Inject(s.faults, ingress, bytes).1.latency;
      match Parse(FI.Inject(s.faults, ingress, bytes).1.bytes)
      case None =>
      case Some(frame) =>
        var s1 := Received(Arrived(s, ingress, bytes), ingress, frame);
        if Receive(s.ports[ingress], |frame.payload|).1 {
          OutputsOfResult(s1, ingress, frame, latency, now);
          SwitchDropped(s1, ingress, frame, latency, now);
        }
    }
  }

  lemma OutputsOfResult(s: State, ingress: PortId, frame: Frame, latency: int, now: int)
    requires ingress in s.ports && Vlan.ValidConfig(s.ports[ingress].config)
    requires var r := Switch(s, ingress, frame, latency, now).1;
      r.disposition == Dropped || r.disposition == DeliveredToControlPlane
    ensures Switch(s, ingress, frame, latency, now).1.outputs == []
  {
    hide Decision, EnqueueAll, Encoding, ArpPacket.Parse, Ipv4Packet.Parse;
    hide Routing.Forward, Routing.Encapsulate, Ipv4Packet.Valid;
  }
}
