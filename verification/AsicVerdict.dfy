/** What becomes of a packet, exactly: which frames are switched and where to, which
    are flooded, what ARP teaches the switch, and what each drop reason means. */
module AsicVerdict {
  import opened Basics
  import opened Ethernet
  import opened VirtualPort
  import opened BoundedQueue
  import opened Asic
  import opened AsicInvariant
  import opened AsicForwarding
  import L2 = L2Forwarding
  import Vlan
  import MacTable
  import RT = RouteTable
  import Ipv4Packet
  import ArpPacket
  import ArpCache
  import AsicRouting
  import Routing
  import FI = FaultInjector

  // ---- Arrival ----

  predicate Works(s: State, ingress: PortId)
  {
    ingress in s.ports && s.ports[ingress].adminEnabled && s.ports[ingress].linkUp
  }

  /** The frame that a working port takes in: fault injection lets it through, it parses, and it fits. */
  ghost predicate Gets(s: State, ingress: PortId, bytes: Bytes, frame: Frame)
  {
    && Works(s, ingress)
    && var r := FI.Inject(s.faults, ingress, bytes).1;
       r.Passed? && Parse(r.bytes) == Some(frame) && |frame.payload| <= s.ports[ingress].mtu
  }

  /** The switch after it took a frame in, and the latency so far. */
  lemma TakenIn(s: State, ingress: PortId, bytes: Bytes, frame: Frame, now: int) returns (s1: State)
    requires ValidState(s) && Gets(s, ingress, bytes, frame)
    ensures EntryOf(s, s1, ingress) && s1.faults.config == s.faults.config
    ensures ProcessPacket(s, ingress, bytes, now) == Switch(s1, ingress, frame, s.faults.config.latency, now)
  {
    hide Switch, Parse;
    s1 := Received(Arrived(s, ingress, bytes), ingress, frame);
    EntryState(s, ingress, bytes, frame, s1);
  }

  /** A packet whose frame no working port takes in is dropped and leaves queues, tables and neighbors alone. */
  lemma NotTakenIn(s: State, ingress: PortId, bytes: Bytes, now: int)
    requires ValidState(s) && forall frame :: !Gets(s, ingress, bytes, frame)
    ensures var (s', r) := ProcessPacket(s, ingress, bytes, now);
      && r.disposition == Dropped && r.outputs == []
      && s'.queues == s.queues && s'.macs == s.macs && s'.arp == s.arp
  {
    hide Switch, Parse;
    if Works(s, ingress) && FI.Inject(s.faults, ingress, bytes).1.Passed? {
      match Parse(FI.Inject(s.faults, ingress, bytes).1.bytes)
      case None =>
      case Some(frame) => assert !Gets(s, ingress, bytes, frame);
    }
  }

  // ---- The decision for a frame ----

  predicate ToRouter(s: State, vlan: VlanId, frame: Frame)
  {
    vlan in s.routers && frame.destination == s.routers[vlan]
  }

  /** The frame is accepted into `vlan` and its source may be where it was heard. */
  ghost predicate Admitted(s: State, ingress: PortId, frame: Frame, vlan: VlanId)
    requires ingress in s.ports && Vlan.ValidConfig(s.ports[ingress].config)
  {
    && Vlan.Classify(frame, s.ports[ingress].config) == Vlan.Accepted(vlan)
    && MacTable.Plausible(s.macs, (vlan, frame.source), ingress)
  }

  /** Where the destination was heard, once the source has been learned. */
  function Station(s: State, ingress: PortId, frame: Frame, vlan: VlanId, now: int): Option<MacTable.Entry>
  {
    MacTable.Lookup(MacTable.Apply(s.macs, MacTable.Learn((vlan, frame.source), ingress, now)), vlan, frame.destination)
  }

  predicate IsGroup(frame: Frame) { frame.destination[0] % 2 == 1 }

  /** The destination is a station known to be on `q`, another member of the frame's VLAN. */
  ghost predicate KnownOn(s: State, ingress: PortId, frame: Frame, vlan: VlanId, now: int, q: PortId)
    requires ingress in s.ports && Vlan.ValidConfig(s.ports[ingress].config)
  {
    && Admitted(s, ingress, frame, vlan) && !ToRouter(s, vlan, frame) && !IsGroup(frame)
    && var e := Station(s, ingress, frame, vlan, now);
       e.Some? && e.value.port == q && q in MembersOf(s, vlan) && q != ingress
  }

  /** The frame is for everybody else in its VLAN: a group address, or an unknown station. */
  ghost predicate ForEverybody(s: State, ingress: PortId, frame: Frame, vlan: VlanId, now: int)
    requires ingress in s.ports && Vlan.ValidConfig(s.ports[ingress].config)
  {
    && Admitted(s, ingress, frame, vlan) && !ToRouter(s, vlan, frame)
    && (IsGroup(frame) || Station(s, ingress, frame, vlan, now).None?)
  }

  /** It is for everybody, and some other member of its VLAN takes a frame of this size. */
  ghost predicate SomebodyTakes(s: State, ingress: PortId, frame: Frame, now: int, size: nat)
    requires ingress in s.ports && Vlan.ValidConfig(s.ports[ingress].config)
  {
    exists vlan, p ::
      ForEverybody(s, ingress, frame, vlan, now) && p in MembersOf(s, vlan) && p != ingress && Takes(s, p, size)
  }

  lemma Decided(s: State, ingress: PortId, frame: Frame, now: int, vlan: VlanId)
    requires ingress in s.ports && Vlan.ValidConfig(s.ports[ingress].config)
    requires Vlan.Classify(frame, s.ports[ingress].config) == Vlan.Accepted(vlan)
    ensures var (macs, d) := Decision(s, ingress, frame, now);
      && macs == MacTable.Apply(s.macs, MacTable.Learn((vlan, frame.source), ingress, now))
      && (Admitted(s, ingress, frame, vlan) ==>
            if ToRouter(s, vlan, frame) then
              && (d.RouteIpv4? <==> frame.etherType == 0x0800) && (d.ToControlPlane? <==> frame.etherType == 0x0806)
              && (d.Drop? <==> frame.etherType !in {0x0800, 0x0806})
            else L2.Relays(frame, ingress, MembersOf(s, vlan), Station(s, ingress, frame, vlan, now), vlan, d))
      && (!Admitted(s, ingress, frame, vlan) ==> d.Drop?)
  {
    hide L2.Relays, MacTable.Apply, Vlan.MemberVlan, Vlan.ValidConfig, L2.Process;
    var config := s.ports[ingress].config;
    Vlan.ClassificationsAgree(frame, config);
    L2.PipelineExactly(frame, ingress, config, MembersOf(s, vlan), s.macs, s.routers, now);
  }

  lemma RefusedDecision(s: State, ingress: PortId, frame: Frame, now: int)
    requires ingress in s.ports && Vlan.ValidConfig(s.ports[ingress].config)
    requires Vlan.Classify(frame, s.ports[ingress].config).Dropped?
    ensures Decision(s, ingress, frame, now).0 == s.macs && Decision(s, ingress, frame, now).1.Drop?
  {
  }

  // ---- Relayed frames ----

  lemma EnqueueOneKeepsTables(s: State, id: PortId, frame: Bytes)
    ensures var (s', charge, lag) := EnqueueOne(s, id, frame);
      && s'.arp == s.arp && s'.macs == s.macs && s'.faults.config == s.faults.config
      && (charge in {Skipped, FaultDropped, Exhausted} || lag == s.faults.config.latency)
  {
    hide TryEnqueue, Transmit, FI.Corrupt;
  }

  lemma {:induction false} EnqueueAllKeepsTables(s: State, ids: seq<PortId>, frame: Bytes, latency: int)
    ensures var s' := EnqueueAll(s, ids, frame, latency).state;
      s'.arp == s.arp && s'.macs == s.macs && s'.faults.config == s.faults.config
  {
    if ids != [] {
      hide EnqueueOne;
      var front := ids[..|ids| - 1];
      EnqueueAllKeepsTables(s, front, frame, latency);
      EnqueueOneKeepsTables(EnqueueAll(s, front, frame, latency).state, ids[|ids| - 1], frame);
    }
  }

  lemma {:induction false} SomeTakes(s: State, ids: seq<PortId>, size: nat)
    ensures TakingPorts(s, ids, size) != [] <==> exists p :: p in ids && Takes(s, p, size)
  {
    if ids != [] {
      var front, last := ids[..|ids| - 1], ids[|ids| - 1];
      SomeTakes(s, front, size);
      assert ids == front + [last];
    }
  }

  /** A frame for a known station goes to that station's port and nowhere else. */
  lemma SwitchToStation(s: State, ingress: PortId, frame: Frame, latency: int, now: int, vlan: VlanId, q: PortId)
    requires ingress in s.ports && Vlan.ValidConfig(s.ports[ingress].config) && KnownOn(s, ingress, frame, vlan, now, q)
    ensures var r := Switch(s, ingress, frame, latency, now).1;
      && (if r.disposition == Switched then r.outputs == [q] else r == DroppedBy(QueueCongestion, r.latency))
      && (FI.Quiet(s.faults) ==> (r.disposition == Switched <==> Takes(s, q, |Encoding(frame)|)))
  {
    hide EnqueueAll, Encoding, Decision, Takes, MacTable.Apply, MacTable.Lookup, MacTable.Plausible, Vlan.Classify;
    hide ArpPacket.Parse, Route;
    Decided(s, ingress, frame, now, vlan);
    var (macs, d) := Decision(s, ingress, frame, now);
    assert d == L2.SwitchTo(vlan, [q]);
    var s2 := s.(macs := macs);
    if EnqueueAll(s2, [q], Encoding(frame), latency).outputs != [] {
      var sent := AsicRouting.OneOutput(s2, q, Encoding(frame), latency);
    }
    if FI.Quiet(s.faults) {
      AsicRouting.QuietSingle(s2, q, Encoding(frame), latency);
      TakesIgnoresTables(s, s2, q, |Encoding(frame)|);
    }
  }

  lemma TakesIgnoresTables(s: State, s2: State, q: PortId, size: nat)
    requires s2 == s.(macs := s2.macs)
    ensures Takes(s2, q, size) <==> Takes(s, q, size)
  {
  }

  /** A frame for everybody is flooded if anybody else takes it. */
  lemma SwitchToEverybody(s: State, ingress: PortId, frame: Frame, latency: int, now: int, vlan: VlanId)
    requires ingress in s.ports && Vlan.ValidConfig(s.ports[ingress].config)
    requires ForEverybody(s, ingress, frame, vlan, now)
    ensures var r := Switch(s, ingress, frame, latency, now).1;
      var others := exists p :: p in MembersOf(s, vlan) && p != ingress;
      && (r.disposition != Flooded ==> r == DroppedBy(if others then QueueCongestion else VlanRejected, r.latency))
      && (r.disposition == Flooded ==> others && r.outputs != [])
      && (FI.Quiet(s.faults) ==>
            (r.disposition == Flooded <==>
             exists p :: p in MembersOf(s, vlan) && p != ingress && Takes(s, p, |Encoding(frame)|)))
  {
    hide EnqueueAll, Encoding, Decision, Takes, MacTable.Apply, MacTable.Lookup, MacTable.Plausible, Vlan.Classify;
    hide ArpPacket.Parse, Route, Vlan.MemberVlan;
    Decided(s, ingress, frame, now, vlan);
    DecidedOutputs(s, ingress, frame, now);
    Vlan.ClassificationsAgree(frame, s.ports[ingress].config);
    var (macs, d) := Decision(s, ingress, frame, now);
    var s2, size := s.(macs := macs), |Encoding(frame)|;
    L2.FloodReachesExactly(ingress, MembersOf(s, vlan));
    if d.FloodInVlan? {
      if FI.Quiet(s.faults) {
        QuietBatch(s2, d.outputs, Encoding(frame), latency);
        SomeTakes(s2, d.outputs, size);
        forall p: PortId ensures Takes(s2, p, size) <==> Takes(s, p, size) {
          TakesIgnoresTables(s, s2, p, size);
        }
      }
    }
  }

  /** Every other frame that is not for the router is refused. */
  lemma SwitchRefuses(s: State, ingress: PortId, frame: Frame, latency: int, now: int)
    requires ingress in s.ports && Vlan.ValidConfig(s.ports[ingress].config)
    requires forall vlan :: Admitted(s, ingress, frame, vlan) ==>
      && !ToRouter(s, vlan, frame) && !ForEverybody(s, ingress, frame, vlan, now)
      && forall q :: !KnownOn(s, ingress, frame, vlan, now, q)
    ensures Switch(s, ingress, frame, latency, now).1 == DroppedBy(VlanRejected, latency)
  {
    hide Decision, MacTable.Apply, MacTable.Lookup, MacTable.Plausible;
    match Vlan.Classify(frame, s.ports[ingress].config)
    case Dropped(_) => RefusedDecision(s, ingress, frame, now);
    case Accepted(vlan) =>
      Decided(s, ingress, frame, now, vlan);
      var d := Decision(s, ingress, frame, now).1;
      if Admitted(s, ingress, frame, vlan) {
        assert !ToRouter(s, vlan, frame) && !ForEverybody(s, ingress, frame, vlan, now);
        var e := Station(s, ingress, frame, vlan, now);
        assert !KnownOn(s, ingress, frame, vlan, now, e.value.port);
        assert d.Drop?;
      }
  }

  // ---- Frames for the router ----

  /** Why a packet for the router is not routed, cause by cause.  A neighbor is looked up
      before the packet is found too large for Ethernet. */
  ghost predicate RouteReason(s: State, frame: Frame, now: int, reason: DropReason)
  {
    match Ipv4Packet.Parse(frame.payload)
    case None => reason == MalformedIpv4
    case Some(p) =>
      var route := RT.LongestMatch(s.routes, p.destination);
      if p.timeToLive <= 1 then reason == TtlExpired
      else if route.None? then reason == RouteMiss
      else
        var port := route.value.port;
        var hop := if route.value.nextHop.Some? then route.value.nextHop.value else p.destination;
        if !Works(s, port) || !IsStation(s.ports[port].mac) then reason == EgressPortUnavailable
        else if ArpCache.Lookup(s.arpLifetime, s.arp, hop, now).None? then reason == NeighborMiss
        else if 20 + |p.payload| > 1500 then reason == EgressPortUnavailable
        else reason in {NoDrop, QueueCongestion}
  }

  lemma RouteReasons(s: State, frame: Frame, latency: int, now: int)
    ensures var r := Route(s, frame, latency, now).1;
      RouteReason(s, frame, now, r.reason) && (r.disposition == (if r.reason == NoDrop then Routed else Dropped))
  {
    hide EnqueueAll, Encoding, Ipv4Packet.Parse, RT.LongestMatch, ArpCache.Lookup, Ipv4Packet.Header;
  }

  /** What an ARP packet for the router teaches: its sender, if the pair is usable. */
  ghost predicate Taught(s: State, s': State, a: ArpPacket.Packet, now: int)
  {
    s'.arp == if RT.UsableAddress(a.senderIp) && IsStation(a.senderMac)
              then s.arp[a.senderIp := ArpCache.Entry(a.senderMac, now)] else s.arp
  }

  /** A taught neighbor is found for one lifetime; no other address is affected. */
  lemma TaughtLookup(s: State, s': State, a: ArpPacket.Packet, now: int, t: int, other: u32)
    requires Taught(s, s', a, now) && s'.arpLifetime == s.arpLifetime && now <= t && other != a.senderIp
    ensures RT.UsableAddress(a.senderIp) && IsStation(a.senderMac) ==>
      (ArpCache.Lookup(s'.arpLifetime, s'.arp, a.senderIp, t) == Some(a.senderMac) <==> t < now + s'.arpLifetime)
    ensures ArpCache.Lookup(s'.arpLifetime, s'.arp, other, t) == ArpCache.Lookup(s.arpLifetime, s.arp, other, t)
  {
  }

  /** What switching a frame does to the learned addresses and the neighbors. */
  lemma SwitchTables(s: State, ingress: PortId, frame: Frame, latency: int, now: int)
    requires ingress in s.ports && Vlan.ValidConfig(s.ports[ingress].config)
    ensures var (s', r) := Switch(s, ingress, frame, latency, now);
      var arp := ArpPacket.Parse(frame.payload);
      && s'.macs == Decision(s, ingress, frame, now).0 && s'.faults.config == s.faults.config
      && (r.disposition == DeliveredToControlPlane <==> Decision(s, ingress, frame, now).1.ToControlPlane? && arp.Some?)
      && (if r.disposition == DeliveredToControlPlane then Taught(s, s', arp.value, now) else s'.arp == s.arp)
  {
    hide Decision, EnqueueAll, Encoding, ArpPacket.Parse, Route;
    var (macs, d) := Decision(s, ingress, frame, now);
    var s2 := s.(macs := macs);
    match d
    case Drop(_, _) =>
    case ToControlPlane(_) =>
    case RouteIpv4(_) => RouteKeepsTables(s2, frame, latency, now);
    case FloodInVlan(_, outputs) => EnqueueAllKeepsTables(s2, outputs, Encoding(frame), latency);
    case SwitchTo(_, outputs) => EnqueueAllKeepsTables(s2, outputs, Encoding(frame), latency);
  }

  lemma RouteKeepsTables(s: State, frame: Frame, latency: int, now: int)
    ensures var (s', r) := Route(s, frame, latency, now);
      && s'.arp == s.arp && s'.macs == s.macs && s'.faults.config == s.faults.config
      && r.disposition != DeliveredToControlPlane
  {
    hide Encoding, Ipv4Packet.Parse, Ipv4Packet.Valid, EnqueueAll, Routing.Forward, Routing.Encapsulate;
    match Ipv4Packet.Parse(frame.payload)
    case None =>
    case Some(p) =>
      match Routing.Forward(s.routes, p)
      case Dropped(_) =>
      case Forwarded(_, id, _) =>
        if id in s.ports {
          var e := Routing.Encapsulate(Routing.Forward(s.routes, p), s.ports[id].mac, s.arpLifetime, s.arp, now);
          if e.Encapsulated? { EnqueueAllKeepsTables(s, [id], Encoding(e.frame), latency); }
        }
  }

  // ---- Whole packets ----

  /** The frame is an ARP packet for the router of the VLAN it is admitted to. */
  ghost predicate ArpFor(s: State, ingress: PortId, frame: Frame, a: ArpPacket.Packet)
    requires ingress in s.ports && Vlan.ValidConfig(s.ports[ingress].config)
  {
    && (exists vlan :: Admitted(s, ingress, frame, vlan) && ToRouter(s, vlan, frame))
    && frame.etherType == 0x0806 && ArpPacket.Valid(a) && ArpPacket.Encoding(a) == frame.payload
  }

  lemma ArpDecided(s: State, ingress: PortId, frame: Frame, now: int)
    requires ingress in s.ports && Vlan.ValidConfig(s.ports[ingress].config)
    ensures Decision(s, ingress, frame, now).1.ToControlPlane? <==>
      frame.etherType == 0x0806 && exists vlan :: Admitted(s, ingress, frame, vlan) && ToRouter(s, vlan, frame)
  {
    hide Decision, MacTable.Apply, MacTable.Lookup, MacTable.Plausible;
    match Vlan.Classify(frame, s.ports[ingress].config)
    case Dropped(_) => RefusedDecision(s, ingress, frame, now);
    case Accepted(vlan) => Decided(s, ingress, frame, now, vlan);
  }

  lemma ArpDelivered(s: State, ingress: PortId, frame: Frame, latency: int, now: int)
    requires ingress in s.ports && Vlan.ValidConfig(s.ports[ingress].config)
    ensures var (s', r) := Switch(s, ingress, frame, latency, now);
      && (r.disposition == DeliveredToControlPlane <==> exists a :: ArpFor(s, ingress, frame, a))
      && (forall a :: ArpFor(s, ingress, frame, a) ==> Taught(s, s', a, now))
      && (r.disposition != DeliveredToControlPlane ==> s'.arp == s.arp)
  {
    hide Switch, Decision, ArpPacket.Encoding, ArpPacket.Parse, ArpPacket.Valid, Admitted, Taught;
    SwitchTables(s, ingress, frame, latency, now);
    ArpDecided(s, ingress, frame, now);
    if ArpPacket.Parse(frame.payload).Some? {
      ArpPacket.EncodingOfParse(frame.payload);
      if Decision(s, ingress, frame, now).1.ToControlPlane? {
        assert ArpFor(s, ingress, frame, ArpPacket.Parse(frame.payload).value);
      }
    }
    forall a | ArpPacket.Valid(a) ensures ArpPacket.Parse(ArpPacket.Encoding(a)) == Some(a) {
      ArpPacket.ParseOfEncoding(a);
    }
  }

  /** What ARP teaches the switch.  A packet is handed to the control plane exactly when
      the port takes in an admitted frame for the VLAN's router that holds a valid ARP
      packet; the neighbors then learn its sender, and nothing else changes them. */
  lemma ControlPlaneExactly(s: State, ingress: PortId, bytes: Bytes, now: int)
    requires ValidState(s)
    ensures var (s', r) := ProcessPacket(s, ingress, bytes, now);
      && (r.disposition == DeliveredToControlPlane <==>
            exists frame, a :: Gets(s, ingress, bytes, frame) && ArpFor(s, ingress, frame, a))
      && (forall frame, a :: Gets(s, ingress, bytes, frame) && ArpFor(s, ingress, frame, a) ==> Taught(s, s', a, now))
      && (r.disposition != DeliveredToControlPlane ==> s'.arp == s.arp)
  {
    hide ProcessPacket, Switch, Taught, ArpFor;
    if frame :| Gets(s, ingress, bytes, frame) {
      var s1 := TakenIn(s, ingress, bytes, frame, now);
      hide Gets;
      OneFrame(s, ingress, bytes, frame);
      ArpDelivered(s1, ingress, frame, s.faults.config.latency, now);
      forall a ensures ArpFor(s1, ingress, frame, a) <==> ArpFor(s, ingress, frame, a) {
        SameArp(s, s1, ingress, frame, a);
      }
      var s' := ProcessPacket(s, ingress, bytes, now).0;
      forall a ensures Taught(s1, s', a, now) <==> Taught(s, s', a, now) {
        SameTeaching(s, s1, s', a, now);
      }
    } else {
      NotTakenIn(s, ingress, bytes, now);
    }
  }

  lemma SameArp(s: State, s1: State, ingress: PortId, frame: Frame, a: ArpPacket.Packet)
    requires EntryOf(s, s1, ingress)
    ensures ArpFor(s1, ingress, frame, a) <==> ArpFor(s, ingress, frame, a)
  {
    hide ArpPacket.Encoding, ArpPacket.Valid, Vlan.Classify, DataStep, MacTable.Plausible;
    forall vlan ensures Admitted(s1, ingress, frame, vlan) <==> Admitted(s, ingress, frame, vlan) {
    }
  }

  lemma SameTeaching(s: State, s1: State, s': State, a: ArpPacket.Packet, now: int)
    requires s1.arp == s.arp
    ensures Taught(s1, s', a, now) <==> Taught(s, s', a, now)
  {
  }

  lemma OneFrame(s: State, ingress: PortId, bytes: Bytes, frame: Frame)
    requires Gets(s, ingress, bytes, frame)
    ensures forall f :: Gets(s, ingress, bytes, f) ==> f == frame
  {
  }

  /** Where a switched frame goes, whatever faults are injected: to the one port its
      destination was heard on. */
  lemma SwitchedToStation(s: State, ingress: PortId, bytes: Bytes, now: int)
    returns (frame: Frame, vlan: VlanId, q: PortId)
    requires ValidState(s) && ProcessPacket(s, ingress, bytes, now).1.disposition == Switched
    ensures Gets(s, ingress, bytes, frame) && KnownOn(s, ingress, frame, vlan, now, q)
    ensures ProcessPacket(s, ingress, bytes, now).1.outputs == [q]
  {
    hide ProcessPacket, Switch, KnownOn, ForEverybody;
    if f :| Gets(s, ingress, bytes, f) {
      frame := f;
      var s1 := TakenIn(s, ingress, bytes, frame, now);
      vlan, q := RelayedHow(s1, ingress, frame, s.faults.config.latency, now);
      SameRelay(s, s1, ingress, frame, vlan, now, q);
    } else {
      NotTakenIn(s, ingress, bytes, now);
    }
  }

  /** A switched result can only come from a frame for a known station. */
  lemma RelayedHow(s: State, ingress: PortId, frame: Frame, latency: int, now: int) returns (vlan: VlanId, q: PortId)
    requires ingress in s.ports && Vlan.ValidConfig(s.ports[ingress].config)
    requires Switch(s, ingress, frame, latency, now).1.disposition == Switched
    ensures KnownOn(s, ingress, frame, vlan, now, q) && Switch(s, ingress, frame, latency, now).1.outputs == [q]
  {
    hide Switch, KnownOn, ForEverybody, Admitted, ToRouter;
    if v, p :| KnownOn(s, ingress, frame, v, now, p) {
      vlan, q := v, p;
      SwitchToStation(s, ingress, frame, latency, now, vlan, q);
    } else if v :| ForEverybody(s, ingress, frame, v, now) {
      SwitchToEverybody(s, ingress, frame, latency, now, v);
    } else if v :| Admitted(s, ingress, frame, v) && ToRouter(s, v, frame) {
      RouterNeverRelays(s, ingress, frame, latency, now, v);
    } else {
      SwitchRefuses(s, ingress, frame, latency, now);
    }
  }

  lemma RouterNeverRelays(s: State, ingress: PortId, frame: Frame, latency: int, now: int, vlan: VlanId)
    requires ingress in s.ports && Vlan.ValidConfig(s.ports[ingress].config)
    requires Admitted(s, ingress, frame, vlan) && ToRouter(s, vlan, frame)
    ensures Switch(s, ingress, frame, latency, now).1.disposition !in {Switched, Flooded}
  {
    hide Decision, EnqueueAll, Encoding, ArpPacket.Parse, MacTable.Apply, MacTable.Plausible, Ipv4Packet.Parse;
    hide Routing.Forward, Routing.Encapsulate, Ipv4Packet.Valid;
    Decided(s, ingress, frame, now, vlan);
  }

  lemma SameRelay(s: State, s1: State, ingress: PortId, frame: Frame, vlan: VlanId, now: int, q: PortId)
    requires EntryOf(s, s1, ingress)
    ensures KnownOn(s1, ingress, frame, vlan, now, q) <==> KnownOn(s, ingress, frame, vlan, now, q)
    ensures ForEverybody(s1, ingress, frame, vlan, now) <==> ForEverybody(s, ingress, frame, vlan, now)
  {
    hide DataStep, Vlan.Classify, MacTable.Plausible, MacTable.Apply, MacTable.Lookup;
  }

  lemma SameTakes(s: State, s1: State, ingress: PortId, q: PortId, size: nat)
    requires EntryOf(s, s1, ingress)
    ensures Takes(s1, q, size) <==> Takes(s, q, size)
  {
    UsableKept(s, s1, q);
  }

  /** Without faults the frame is what arrived, byte for byte. */
  lemma QuietArrival(s: State, ingress: PortId, bytes: Bytes, frame: Frame)
    requires FI.Quiet(s.faults) && Gets(s, ingress, bytes, frame)
    ensures Encoding(frame) == bytes && Parse(bytes) == Some(frame)
  {
    hide Encoding, Parse;
    EncodingOfParse(bytes);
  }

  /** With faults off, a packet is switched to `q` if and only if the port takes in an
      admitted frame whose destination is a station known on `q`, another member of the
      VLAN, and `q` takes it. */
  lemma SwitchedExactly(s: State, ingress: PortId, bytes: Bytes, now: int, q: PortId)
    requires ValidState(s) && FI.Quiet(s.faults)
    ensures var r := ProcessPacket(s, ingress, bytes, now).1;
      r.disposition == Switched && r.outputs == [q] <==>
      && Takes(s, q, |bytes|)
      && exists frame, vlan :: Gets(s, ingress, bytes, frame) && KnownOn(s, ingress, frame, vlan, now, q)
  {
    hide ProcessPacket, Switch, KnownOn, ForEverybody, Takes;
    if frame :| Gets(s, ingress, bytes, frame) {
      var s1 := TakenIn(s, ingress, bytes, frame, now);
      QuietArrival(s, ingress, bytes, frame);
      OneFrame(s, ingress, bytes, frame);
      hide Gets;
      SameTakes(s, s1, ingress, q, |bytes|);
      if vlan :| KnownOn(s, ingress, frame, vlan, now, q) {
        SameRelay(s, s1, ingress, frame, vlan, now, q);
        SwitchToStation(s1, ingress, frame, s.faults.config.latency, now, vlan, q);
      } else if ProcessPacket(s, ingress, bytes, now).1.disposition == Switched {
        var f, v, p := SwitchedToStation(s, ingress, bytes, now);
      }
    } else {
      NotTakenIn(s, ingress, bytes, now);
    }
  }

  /** With faults off, a packet is flooded if and only if the port takes in an admitted
      frame for everybody in its VLAN and some other member takes it. */
  lemma FloodedExactly(s: State, ingress: PortId, bytes: Bytes, now: int)
    requires ValidState(s) && FI.Quiet(s.faults)
    ensures ProcessPacket(s, ingress, bytes, now).1.disposition == Flooded <==>
      exists frame :: Gets(s, ingress, bytes, frame) && SomebodyTakes(s, ingress, frame, now, |bytes|)
  {
    hide ProcessPacket, Switch, SomebodyTakes;
    if frame :| Gets(s, ingress, bytes, frame) {
      var s1 := TakenIn(s, ingress, bytes, frame, now);
      QuietArrival(s, ingress, bytes, frame);
      OneFrame(s, ingress, bytes, frame);
      hide Gets;
      FloodedFrom(s1, ingress, frame, s.faults.config.latency, now);
      SameTakers(s, s1, ingress, frame, now, |bytes|);
    } else {
      NotTakenIn(s, ingress, bytes, now);
    }
  }

  lemma SameTakers(s: State, s1: State, ingress: PortId, frame: Frame, now: int, size: nat)
    requires EntryOf(s, s1, ingress)
    ensures SomebodyTakes(s1, ingress, frame, now, size) <==> SomebodyTakes(s, ingress, frame, now, size)
  {
    hide ForEverybody, Takes, DataStep;
    forall vlan, p: PortId
      ensures ForEverybody(s1, ingress, frame, vlan, now) <==> ForEverybody(s, ingress, frame, vlan, now)
      ensures Takes(s1, p, size) <==> Takes(s, p, size)
    {
      SameRelay(s, s1, ingress, frame, vlan, now, p);
      SameTakes(s, s1, ingress, p, size);
    }
  }

  lemma FloodedFrom(s: State, ingress: PortId, frame: Frame, latency: int, now: int)
    requires ingress in s.ports && Vlan.ValidConfig(s.ports[ingress].config) && FI.Quiet(s.faults)
    ensures Switch(s, ingress, frame, latency, now).1.disposition == Flooded <==>
            SomebodyTakes(s, ingress, frame, now, |Encoding(frame)|)
  {
    if v :| ForEverybody(s, ingress, frame, v, now) {
      hide Switch, Takes, Encoding, MacTable.Apply, MacTable.Lookup, MacTable.Plausible;
      SwitchToEverybody(s, ingress, frame, latency, now, v);
    } else {
      hide Switch, ForEverybody, Takes, Encoding, Admitted, ToRouter;
      if v, p :| KnownOn(s, ingress, frame, v, now, p) {
        SwitchToStation(s, ingress, frame, latency, now, v, p);
      } else if v :| Admitted(s, ingress, frame, v) && ToRouter(s, v, frame) {
        RouterNeverRelays(s, ingress, frame, latency, now, v);
      } else {
        SwitchRefuses(s, ingress, frame, latency, now);
      }
    }
  }

  // ---- Reasons and latency ----

  /** Some other member is to get the frame: any, if it is for everybody, else the one its station is on. */
  ghost predicate HasTarget(frame: Frame, ingress: PortId, members: seq<PortId>, station: Option<MacTable.Entry>)
  {
    if IsGroup(frame) || station.None? then exists p :: p in members && p != ingress
    else station.value.port in members && station.value.port != ingress
  }

  /** The reason a frame that was taken in is given, cause by cause. */
  ghost predicate FrameReason(s: State, ingress: PortId, frame: Frame, now: int, reason: DropReason)
    requires ingress in s.ports && Vlan.ValidConfig(s.ports[ingress].config)
  {
    match Vlan.Classify(frame, s.ports[ingress].config)
    case Dropped(_) => reason == VlanRejected
    case Accepted(vlan) =>
      var station := Station(s, ingress, frame, vlan, now);
      if !MacTable.Plausible(s.macs, (vlan, frame.source), ingress) then reason == VlanRejected
      else if ToRouter(s, vlan, frame) then
        if frame.etherType == 0x0800 then RouteReason(s, frame, now, reason)
        else if frame.etherType != 0x0806 then reason == VlanRejected
        else reason == if ArpPacket.Parse(frame.payload).Some? then NoDrop else MalformedFrame
      else if HasTarget(frame, ingress, MembersOf(s, vlan), station) then reason in {NoDrop, QueueCongestion}
      else reason == VlanRejected
  }

  /** The reason any packet is given. */
  ghost predicate Reason(s: State, ingress: PortId, bytes: Bytes, now: int, reason: DropReason)
    requires ValidState(s)
  {
    if !Works(s, ingress) then reason == IngressPortUnavailable
    else
      match FI.Inject(s.faults, ingress, bytes).1
      case Lost(cause) => reason == if cause == FI.ResourceExhaustion then ResourceExhausted else InjectedFault
      case Passed(injected, _, _) =>
        match Parse(injected)
        case None => reason == MalformedFrame
        case Some(frame) =>
          if |frame.payload| > s.ports[ingress].mtu then reason == IngressPortUnavailable
          else FrameReason(s, ingress, frame, now, reason)
  }

  lemma SwitchReason(s: State, ingress: PortId, frame: Frame, latency: int, now: int)
    requires ingress in s.ports && Vlan.ValidConfig(s.ports[ingress].config)
    ensures var r := Switch(s, ingress, frame, latency, now).1;
      FrameReason(s, ingress, frame, now, r.reason) && (r.reason == NoDrop <==> r.disposition != Dropped)
  {
    hide Decision, Route, EnqueueAll, Encoding, ArpPacket.Parse, RouteReason;
    hide MacTable.Apply, MacTable.Lookup, MacTable.Plausible;
    var (macs, d) := Decision(s, ingress, frame, now);
    match Vlan.Classify(frame, s.ports[ingress].config)
    case Dropped(_) => RefusedDecision(s, ingress, frame, now);
    case Accepted(vlan) =>
      Decided(s, ingress, frame, now, vlan);
      if d.RouteIpv4? {
        RouteReasons(s.(macs := macs), frame, latency, now);
        SameRouteReason(s, s.(macs := macs), frame, now, Route(s.(macs := macs), frame, latency, now).1.reason);
      }
  }

  /** Routing looks at routes, ports and neighbors only. */
  lemma SameRouteReason(s: State, s1: State, frame: Frame, now: int, reason: DropReason)
    requires SameConfig(s, s1) && s1.arp == s.arp
    ensures RouteReason(s1, frame, now, reason) <==> RouteReason(s, frame, now, reason)
  {
    hide Ipv4Packet.Parse, RT.LongestMatch, ArpCache.Lookup;
    match Ipv4Packet.Parse(frame.payload)
    case None =>
    case Some(p) =>
      var route := RT.LongestMatch(s.routes, p.destination);
      if route.Some? && route.value.port in s.ports {
        assert SamePort(s.ports[route.value.port], s1.ports[route.value.port]);
      }
  }

  lemma SameFrameReason(s: State, s1: State, ingress: PortId, frame: Frame, now: int, reason: DropReason)
    requires EntryOf(s, s1, ingress)
    ensures FrameReason(s1, ingress, frame, now, reason) <==> FrameReason(s, ingress, frame, now, reason)
  {
    hide RouteReason, MacTable.Apply, MacTable.Lookup, MacTable.Plausible, Vlan.Classify, ArpPacket.Parse, HasTarget;
    SameRouteReason(s, s1, frame, now, reason);
  }

  /** Every packet, in every valid state and whatever faults are injected, is given the
      reason its cause calls for, and is dropped exactly when there is one. */
  lemma ReasonExactly(s: State, ingress: PortId, bytes: Bytes, now: int)
    requires ValidState(s)
    ensures var r := ProcessPacket(s, ingress, bytes, now).1;
      Reason(s, ingress, bytes, now, r.reason) && (r.reason == NoDrop <==> r.disposition != Dropped)
  {
    if frame :| Gets(s, ingress, bytes, frame) {
      hide ProcessPacket, Switch, FrameReason, Parse;
      var s1 := TakenIn(s, ingress, bytes, frame, now);
      var latency := s.faults.config.latency;
      SwitchReason(s1, ingress, frame, latency, now);
      SameFrameReason(s, s1, ingress, frame, now, Switch(s1, ingress, frame, latency, now).1.reason);
    } else {
      hide Switch, FrameReason, Parse;
      NoFrameReason(s, ingress, bytes, now);
    }
  }

  lemma NoFrameReason(s: State, ingress: PortId, bytes: Bytes, now: int)
    requires ValidState(s) && forall frame :: !Gets(s, ingress, bytes, frame)
    ensures var r := ProcessPacket(s, ingress, bytes, now).1; Reason(s, ingress, bytes, now, r.reason)
    ensures ProcessPacket(s, ingress, bytes, now).1.reason != NoDrop
    ensures ProcessPacket(s, ingress, bytes, now).1.disposition == Dropped
  {
    hide Switch, FrameReason, Parse;
    if Works(s, ingress) && FI.Inject(s.faults, ingress, bytes).1.Passed? {
      match Parse(FI.Inject(s.faults, ingress, bytes).1.bytes)
      case None =>
      case Some(frame) => assert !Gets(s, ingress, bytes, frame);
    }
  }

  lemma {:induction false} EnqueueAllLatency(s: State, ids: seq<PortId>, frame: Bytes)
    ensures EnqueueAll(s, ids, frame, s.faults.config.latency).latency == s.faults.config.latency
  {
    if ids != [] {
      hide EnqueueOne;
      var front, latency := ids[..|ids| - 1], s.faults.config.latency;
      EnqueueAllLatency(s, front, frame);
      EnqueueAllKeepsTables(s, front, frame, latency);
      EnqueueOneKeepsTables(EnqueueAll(s, front, frame, latency).state, ids[|ids| - 1], frame);
    }
  }

  /** A batch reports the largest latency among the ingress and what got past fault injection. */
  lemma {:induction false} BatchLatency(s: State, ids: seq<PortId>, frame: Bytes, latency: int)
    ensures var b := EnqueueAll(s, ids, frame, latency);
      && latency <= b.latency && (b.latency == latency || b.latency == s.faults.config.latency)
      && (b.outputs != [] ==> s.faults.config.latency <= b.latency)
  {
    if ids != [] {
      hide EnqueueOne;
      var front := ids[..|ids| - 1];
      BatchLatency(s, front, frame, latency);
      EnqueueAllKeepsTables(s, front, frame, latency);
      EnqueueOneKeepsTables(EnqueueAll(s, front, frame, latency).state, ids[|ids| - 1], frame);
    }
  }

  lemma SwitchLatency(s: State, ingress: PortId, frame: Frame, now: int)
    requires ingress in s.ports && Vlan.ValidConfig(s.ports[ingress].config)
    ensures Switch(s, ingress, frame, s.faults.config.latency, now).1.latency == s.faults.config.latency
  {
    hide Decision, EnqueueAll, Encoding, ArpPacket.Parse, Route;
    var (macs, d) := Decision(s, ingress, frame, now);
    var s2 := s.(macs := macs);
    match d
    case Drop(_, _) =>
    case ToControlPlane(_) =>
    case RouteIpv4(_) => RouteLatency(s2, frame, now);
    case FloodInVlan(_, outputs) => EnqueueAllLatency(s2, outputs, Encoding(frame));
    case SwitchTo(_, outputs) => EnqueueAllLatency(s2, outputs, Encoding(frame));
  }

  lemma RouteLatency(s: State, frame: Frame, now: int)
    ensures Route(s, frame, s.faults.config.latency, now).1.latency == s.faults.config.latency
  {
    hide Encoding, Ipv4Packet.Parse, Ipv4Packet.Valid, EnqueueAll, Routing.Forward, Routing.Encapsulate;
    match Ipv4Packet.Parse(frame.payload)
    case None =>
    case Some(p) =>
      match Routing.Forward(s.routes, p)
      case Dropped(_) =>
      case Forwarded(_, id, _) =>
        if id in s.ports {
          var e := Routing.Encapsulate(Routing.Forward(s.routes, p), s.ports[id].mac, s.arpLifetime, s.arp, now);
          if e.Encapsulated? { EnqueueAllLatency(s, [id], Encoding(e.frame)); }
        }
  }

  /** The reported latency is the configured one, once fault injection let the packet in, and zero otherwise. */
  lemma LatencyExactly(s: State, ingress: PortId, bytes: Bytes, now: int)
    requires ValidState(s)
    ensures ProcessPacket(s, ingress, bytes, now).1.latency ==
      if Works(s, ingress) && FI.Inject(s.faults, ingress, bytes).1.Passed? then s.faults.config.latency else 0
  {
    if frame :| Gets(s, ingress, bytes, frame) {
      hide ProcessPacket, Switch, Parse;
      var s1 := TakenIn(s, ingress, bytes, frame, now);
      SwitchLatency(s1, ingress, frame, now);
    } else {
      hide Switch, Parse;
      if Works(s, ingress) && FI.Inject(s.faults, ingress, bytes).1.Passed? {
        match Parse(FI.Inject(s.faults, ingress, bytes).1.bytes)
        case None =>
        case Some(frame) => assert !Gets(s, ingress, bytes, frame);
      }
    }
  }

  /** What a packet teaches the switch about stations: the source of an accepted frame,
      on the port it came in by, and nothing else. */
  lemma LearnedExactly(s: State, ingress: PortId, bytes: Bytes, now: int)
    requires ValidState(s)
    ensures var macs := ProcessPacket(s, ingress, bytes, now).0.macs;
      && (forall frame, vlan ::
            (Gets(s, ingress, bytes, frame) && Vlan.Classify(frame, s.ports[ingress].config) == Vlan.Accepted(vlan)) ==>
            macs == MacTable.Apply(s.macs, MacTable.Learn((vlan, frame.source), ingress, now)))
      && ((forall frame :: Gets(s, ingress, bytes, frame) ==>
             Vlan.Classify(frame, s.ports[ingress].config).Dropped?) ==> macs == s.macs)
  {
    hide ProcessPacket, Switch, Vlan.Classify;
    if frame :| Gets(s, ingress, bytes, frame) {
      var s1 := TakenIn(s, ingress, bytes, frame, now);
      OneFrame(s, ingress, bytes, frame);
      hide Gets, Decision, MacTable.Apply;
      SwitchTables(s1, ingress, frame, s.faults.config.latency, now);
      match Vlan.Classify(frame, s.ports[ingress].config)
      case Dropped(_) => RefusedDecision(s1, ingress, frame, now);
      case Accepted(vlan) => Decided(s1, ingress, frame, now, vlan);
    } else {
      NotTakenIn(s, ingress, bytes, now);
    }
  }
}
