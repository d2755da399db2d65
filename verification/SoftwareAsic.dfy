/** The switch object (software_asic.cpp): the same operations as methods that
    update its maps, its tables and its counters, proved against module `Asic`. */
module SoftwareAsic {
  import opened Basics
  import opened Ethernet
  import opened VirtualPort
  import opened BoundedQueue
  import opened Asic
  import AsicInvariant
  import L2 = L2Forwarding
  import Vlan
  import MacTable
  import KeyedList
  import RT = RouteTable
  import Ipv4Prefix
  import Ipv4Packet
  import ArpPacket
  import ArpCache
  import Routing
  import FI = FaultInjector

  class Switch {
    var ports: map<PortId, Port>
    var queues: map<PortId, PacketQueue>
    var vlans: set<VlanId>
    var members: map<VlanId, seq<PortId>>
    var routers: L2.Routers
    const macTable: MacTable.LearningTable
    const routeTable: RT.Ipv4RouteTable
    const arpCache: ArpCache.Cache
    const faultInjector: FI.Injector
    var statistics: Stats

    ghost function Value(): State
      reads this, macTable, routeTable, arpCache, faultInjector
    {
      State(ports, queues, vlans, members, routers, macTable.State(), routeTable.entries,
            arpCache.lifetime, arpCache.entries, faultInjector.State(), statistics)
    }

    ghost predicate Valid()
      reads this, macTable, routeTable, arpCache, faultInjector
    {
      ValidState(Value())
    }

    /** The original's table constructor throws on capacity zero; here no switch results. */
    static method Create(macCapacity: nat) returns (asic: Switch?)
      ensures asic == null <==> macCapacity == 0
      ensures asic != null ==> fresh(asic) && asic.Valid() && asic.Value() == PowerOn(macCapacity)
    {
      if macCapacity == 0 {
        return null;
      }
      asic := new Switch(macCapacity);
    }

    constructor (macCapacity: nat)
      requires macCapacity > 0
      ensures Valid() && Value() == PowerOn(macCapacity)
      ensures fresh(macTable) && fresh(routeTable) && fresh(arpCache) && fresh(faultInjector)
    {
      ports, queues, vlans, members, routers := map[], map[], {}, map[], map[];
      macTable := new MacTable.LearningTable(macCapacity, DEFAULT_LIFETIME);
      routeTable := new RT.Ipv4RouteTable();
      arpCache := new ArpCache.Cache(DEFAULT_LIFETIME);
      faultInjector := new FI.Injector();
      statistics := NO_STATS;
    }

    // ---- Control plane ----

    method AddPort(port: Port, capacity: nat) returns (status: Status)
      requires Valid() && ValidPort(port)
      modifies this
      ensures Valid() && (Value(), status) == CreatePort(old(Value()), port, capacity)
    {
      AsicInvariant.CreatePortValid(Value(), port, capacity);
      hide ValidState;
      if capacity == 0 {
        return InvalidArgument;
      }
      if port.id in ports {
        return AlreadyExists;
      }
      queues := queues[port.id := Queue(capacity, [], false)];
      ports := ports[port.id := port];
      return Success;
    }

    method DeletePort(port: PortId) returns (status: Status)
      requires Valid()
      modifies this
      ensures Valid() && (Value(), status) == RemovePort(old(Value()), port)
    {
      AsicInvariant.RemovePortValid(Value(), port);
      hide ValidState, Pruned;
      if port !in ports {
        return NotFound;
      }
      var pruned := PruneLists(members, port);
      members := pruned;
      queues := queues - {port};
      ports := ports - {port};
      return Success;
    }

    /** Removes a port from every member list. */
    static method PruneLists(lists: map<VlanId, seq<PortId>>, port: PortId) returns (pruned: map<VlanId, seq<PortId>>)
      ensures pruned == Pruned(lists, port)
    {
      hide L2.Without;
      pruned := lists;
      var left := lists.Keys;
      while left != {}
        invariant left <= pruned.Keys == lists.Keys
        invariant forall v :: v in left ==> pruned[v] == lists[v]
        invariant forall v :: v in lists && v !in left ==> pruned[v] == L2.Without(port, lists[v])
        decreases |left|
      {
        var v :| v in left;
        left := left - {v};
        var kept := RemoveAll(pruned[v], port);
        pruned := pruned[v := kept];
      }
    }

    static method RemoveAll(list: seq<PortId>, port: PortId) returns (kept: seq<PortId>)
      ensures kept == L2.Without(port, list)
    {
      kept := [];
      for i := 0 to |list|
        invariant kept == L2.Without(port, list[..i])
      {
        assert list[..i + 1][..i] == list[..i];
        if list[i] != port {
          kept := kept + [list[i]];
        }
      }
      assert list[..|list|] == list;
    }

    method ChangePortState(port: PortId, admin: bool, link: bool) returns (status: Status)
      requires Valid()
      modifies this
      ensures Valid() && (Value(), status) == SetPortState(old(Value()), port, admin, link)
    {
      AsicInvariant.SetPortStateValid(Value(), port, admin, link);
      hide ValidState;
      if port !in ports {
        return NotFound;
      }
      ports := ports[port := ports[port].(adminEnabled := admin, linkUp := link)];
      return Success;
    }

    method AddVlan(vlan: VlanId) returns (status: Status)
      requires Valid()
      modifies this
      ensures Valid() && (Value(), status) == CreateVlan(old(Value()), vlan)
    {
      AsicInvariant.CreateVlanValid(Value(), vlan);
      hide ValidState;
      if vlan in vlans {
        return AlreadyExists;
      }
      vlans := vlans + {vlan};
      return Success;
    }

    method DeleteVlan(vlan: VlanId) returns (status: Status)
      requires Valid()
      modifies this
      ensures Valid() && (Value(), status) == RemoveVlan(old(Value()), vlan)
    {
      AsicInvariant.RemoveVlanValid(Value(), vlan);
      hide ValidState;
      if vlan !in vlans {
        return NotFound;
      }
      if vlan !in members {
        members := members[vlan := []];
      }
      if members[vlan] != [] || vlan in routers {
        return DependencyMissing;
      }
      members := members - {vlan};
      vlans := vlans - {vlan};
      return Success;
    }

    method AddMember(vlan: VlanId, port: PortId) returns (status: Status)
      requires Valid()
      modifies this
      ensures Valid() && (Value(), status) == AddVlanMember(old(Value()), vlan, port)
    {
      AsicInvariant.AddVlanMemberValid(Value(), vlan, port);
      hide ValidState;
      if vlan !in vlans || port !in ports {
        return DependencyMissing;
      }
      if vlan !in members {
        members := members[vlan := []];
      }
      if port in members[vlan] {
        return AlreadyExists;
      }
      if vlan !in ports[port].config.allowed {
        return InvalidArgument;
      }
      members := members[vlan := members[vlan] + [port]];
      return Success;
    }

    method SetRouter(vlan: VlanId, mac: Mac) returns (status: Status)
      requires Valid()
      modifies this
      ensures Valid() && (Value(), status) == SetRouterInterface(old(Value()), vlan, mac)
    {
      AsicInvariant.SetRouterInterfaceValid(Value(), vlan, mac);
      hide ValidState;
      if vlan !in vlans {
        return DependencyMissing;
      }
      if !IsStation(mac) {
        return InvalidArgument;
      }
      routers := routers[vlan := mac];
      return Success;
    }

    method AddOrReplaceRoute(route: RT.Route) returns (status: Status)
      requires Valid() && RT.ValidRoute(route)
      modifies routeTable
      ensures Valid() && (Value(), status) == AddRoute(old(Value()), route)
    {
      AsicInvariant.AddRouteValid(Value(), route);
      assert RT.ValidTable(routeTable.entries);
      hide ValidState, RT.ValidTable, RT.ValidRoute, KeyedList.Upsert;
      if route.port !in ports {
        return DependencyMissing;
      }
      var update := routeTable.AddOrReplace(route);
      return Success;
    }

    method DeleteRoute(prefix: Ipv4Prefix.Prefix) returns (status: Status)
      requires Valid()
      modifies routeTable
      ensures Valid() && (Value(), status) == RemoveRoute(old(Value()), prefix)
    {
      AsicInvariant.RemoveRouteValid(Value(), prefix);
      assert RT.ValidTable(routeTable.entries);
      hide ValidState, RT.ValidTable, KeyedList.Delete, KeyedList.Find;
      var removed := routeTable.RemovePrefix(prefix);
      return if removed then Success else NotFound;
    }

    method AddOrReplaceNeighbor(address: u32, mac: Mac, at: int) returns (status: Status)
      requires Valid()
      modifies arpCache
      ensures Valid() && (Value(), status) == AddNeighbor(old(Value()), address, mac, at)
    {
      AsicInvariant.QuietChangeValid(Value(), AddNeighbor(Value(), address, mac, at).0);
      hide ValidState;
      var update := arpCache.AddOrReplace(address, mac, at);
      return if update == ArpCache.Rejected then InvalidArgument else Success;
    }

    method DeleteNeighbor(address: u32) returns (status: Status)
      requires Valid()
      modifies arpCache
      ensures Valid() && (Value(), status) == RemoveNeighbor(old(Value()), address)
    {
      AsicInvariant.QuietChangeValid(Value(), RemoveNeighbor(Value(), address).0);
      hide ValidState;
      var removed := arpCache.Remove(address);
      return if removed then Success else NotFound;
    }

    method SetFaults(config: FI.Config) returns (status: Status)
      requires Valid()
      modifies faultInjector
      ensures Valid() && (Value(), status) == ConfigureFaults(old(Value()), config)
    {
      AsicInvariant.QuietChangeValid(Value(), ConfigureFaults(Value(), config).0);
      hide ValidState;
      var ok := faultInjector.SetConfig(config);
      return if ok then Success else InvalidArgument;
    }

    method DequeuePacket(port: PortId) returns (packet: Option<Bytes>)
      requires Valid()
      modifies this
      ensures Valid() && (Value(), packet) == Dequeue(old(Value()), port)
    {
      AsicInvariant.DequeueValid(Value(), port);
      hide ValidState;
      if port !in queues {
        return None;
      }
      var (q, x) := PopFront(queues[port]);
      queues := queues[port := q];
      return x;
    }

    // ---- Data plane ----

    /** One turn of the egress loop. */
    method EnqueuePort(id: PortId, frame: Bytes) returns (charge: Charge, lag: int)
      modifies this, faultInjector
      ensures (Value(), charge, lag) == EnqueueOne(old(Value()), id, frame)
    {
      hide FI.Inject;
      if id !in ports || id !in queues || !Operational(ports[id]) {
        return Skipped, 0;
      }
      var fault := faultInjector.Process(id, frame);
      if fault.Lost? {
        statistics := CountFault(statistics, fault.reason);
        return if fault.reason == FI.ResourceExhaustion then Exhausted else FaultDropped, 0;
      }
      statistics := CountCorrupted(statistics, fault.corrupted);
      var size := |fault.bytes|;
      if size > ports[id].mtu {
        ports := ports[id := Transmit(ports[id], size).0];
        return OverMtu, fault.latency;
      }
      var (q, enqueued) := TryEnqueue(queues[id], fault.bytes);
      if enqueued != Enqueued {
        statistics := statistics.(queueDrops := statistics.queueDrops + 1);
        return QueueFull, fault.latency;
      }
      queues := queues[id := q];
      ports := ports[id := Transmit(ports[id], size).0];
      statistics := CountSent(statistics, size);
      return Sent(fault.bytes), fault.latency;
    }

    method SendTo(disposition: Disposition, requested: seq<PortId>, frame: Bytes, ingressLatency: int)
      returns (r: Result)
      modifies this, faultInjector
      ensures (Value(), r) == EnqueueOutputs(old(Value()), disposition, requested, frame, ingressLatency)
    {
      hide EnqueueOne;
      var outputs: seq<PortId>, latency := [], ingressLatency;
      for i := 0 to |requested|
        invariant Batch(Value(), outputs, latency) == EnqueueAll(old(Value()), requested[..i], frame, ingressLatency)
      {
        assert requested[..i + 1][..i] == requested[..i];
        var charge, lag := EnqueuePort(requested[i], frame);
        if charge.Sent? {
          outputs := outputs + [requested[i]];
        }
        if !charge.Skipped? && !charge.FaultDropped? && !charge.Exhausted? {
          latency := Max(latency, lag);
        }
      }
      assert requested[..|requested|] == requested;
      if outputs == [] {
        return DroppedBy(QueueCongestion, latency);
      }
      return Result(disposition, NoDrop, outputs, latency);
    }

    method LearnNeighbor(frame: Frame, latency: int, now: int) returns (r: Result)
      modifies this, arpCache
      ensures (Value(), r) == DeliverArp(old(Value()), frame, latency, now)
    {
      hide ArpPacket.Parse;
      var arp := ArpPacket.Parse(frame.payload);
      if arp.None? {
        statistics := CountParseError(statistics);
        return DroppedBy(MalformedFrame, latency);
      }
      var update := arpCache.AddOrReplace(arp.value.senderIp, arp.value.senderMac, now);
      return Result(DeliveredToControlPlane, NoDrop, [], latency);
    }

    /** Encapsulation and egress of a forwarded packet. */
    method SendRouted(forwarding: Routing.Forwarding, latency: int, now: int) returns (r: Result)
      requires forwarding.Forwarded? && Ipv4Packet.Valid(forwarding.packet) && forwarding.port in ports
      modifies this, faultInjector
      ensures (Value(), r) == SendForwarded(old(Value()), forwarding, latency, now)
    {
      hide Ipv4Packet.Valid, Routing.Encapsulate, EnqueueOutputs, Encoding;
      var encapsulated := Routing.EncapsulatePacket(forwarding, ports[forwarding.port].mac, arpCache, now);
      if encapsulated.NeighborNotFound? {
        statistics := statistics.(neighborMisses := statistics.neighborMisses + 1);
        return DroppedBy(NeighborMiss, latency);
      }
      if !encapsulated.Encapsulated? {
        return DroppedBy(EgressPortUnavailable, latency);
      }
      var bytes := Serialize(encapsulated.frame);
      r := SendTo(Routed, [forwarding.port], bytes, latency);
    }

    method RoutePacket(frame: Frame, latency: int, now: int) returns (r: Result)
      modifies this, faultInjector
      ensures (Value(), r) == Route(old(Value()), frame, latency, now)
    {
      hide Ipv4Packet.Parse, Ipv4Packet.Valid, Routing.Forward, SendForwarded;
      var packet := Ipv4Packet.Parse(frame.payload);
      if packet.None? {
        statistics := CountParseError(statistics);
        return DroppedBy(MalformedIpv4, latency);
      }
      Routing.ForwardOutcome(routeTable.entries, packet.value);
      var forwarding := Routing.ForwardPacket(routeTable, packet.value);
      if forwarding.Dropped? {
        if forwarding.reason == Routing.RouteNotFound {
          statistics := statistics.(routeMisses := statistics.routeMisses + 1);
          return DroppedBy(RouteMiss, latency);
        }
        statistics := statistics.(ttlExpirations := statistics.ttlExpirations + 1);
        return DroppedBy(TtlExpired, latency);
      }
      if forwarding.port !in ports || !Operational(ports[forwarding.port]) {
        return DroppedBy(EgressPortUnavailable, latency);
      }
      r := SendRouted(forwarding, latency, now);
    }

    method SwitchFrame(ingress: PortId, frame: Frame, latency: int, now: int) returns (r: Result)
      requires ingress in ports && Vlan.ValidConfig(ports[ingress].config) && Ethernet.Valid(frame)
      modifies this, macTable, arpCache, faultInjector
      ensures (Value(), r) == Asic.Switch(old(Value()), ingress, frame, latency, now)
    {
      hide L2.Process, Vlan.MemberVlan, Vlan.ValidConfig, EnqueueOutputs, DeliverArp, Route, Encoding;
      var config := ports[ingress].config;
      var vlan := Vlan.MemberVlan(frame, config);
      var vlanPorts := if vlan in members then members[vlan] else [];
      var decision := L2.ProcessIngress(frame, ingress, config, vlanPorts, macTable, routers, now);
      assert Value() == old(Value()).(macs := Decision(old(Value()), ingress, frame, now).0);
      match decision
      case Drop(_, reason) =>
        statistics := CountPipelineDrop(statistics, reason);
        r := DroppedBy(VlanRejected, latency);
      case ToControlPlane(_) => r := LearnNeighbor(frame, latency, now);
      case RouteIpv4(_) => r := RoutePacket(frame, latency, now);
      case FloodInVlan(_, outputs) =>
        var bytes := Serialize(frame);
        r := SendTo(Flooded, outputs, bytes, latency);
      case SwitchTo(_, outputs) =>
        var bytes := Serialize(frame);
        r := SendTo(Switched, outputs, bytes, latency);
    }

    /** Parsing, ingress counting and switching of what fault injection let through. */
    method ProcessInjected(ingress: PortId, bytes: Bytes, latency: int, now: int) returns (r: Result)
      requires ingress in ports && Vlan.ValidConfig(ports[ingress].config)
      modifies this, macTable, arpCache, faultInjector
      ensures (Value(), r) == AfterFault(old(Value()), ingress, bytes, latency, now)
    {
      hide Asic.Switch, Parse, Vlan.ValidConfig;
      ParsedValid(bytes);
      var frame := Parse(bytes);
      if frame.None? {
        statistics := CountParseError(statistics);
        return DroppedBy(MalformedFrame, latency);
      }
      var (port, received) := Receive(ports[ingress], |frame.value.payload|);
      ports := ports[ingress := port];
      assert Value() == Received(old(Value()), ingress, frame.value);
      if !received {
        return DroppedBy(IngressPortUnavailable, latency);
      }
      r := SwitchFrame(ingress, frame.value, latency, now);
    }

    method ProcessArrival(ingress: PortId, bytes: Bytes, now: int) returns (r: Result)
      requires ingress in ports && Vlan.ValidConfig(ports[ingress].config)
      modifies this, macTable, arpCache, faultInjector
      ensures (Value(), r) == PacketArrival(old(Value()), ingress, bytes, now)
    {
      hide Vlan.ValidConfig, FI.Inject, AfterFault;
      statistics := CountArrival(statistics, |bytes|);
      var fault := faultInjector.Process(ingress, bytes);
      if fault.Lost? {
        statistics := CountFault(statistics, fault.reason);
        return DroppedBy(if fault.reason == FI.ResourceExhaustion then ResourceExhausted else InjectedFault, 0);
      }
      statistics := CountCorrupted(statistics, fault.corrupted);
      r := ProcessInjected(ingress, fault.bytes, fault.latency, now);
    }

    method Process(ingress: PortId, bytes: Bytes, now: int) returns (r: Result)
      requires Valid()
      modifies this, macTable, arpCache, faultInjector
      ensures Valid() && (Value(), r) == ProcessPacket(old(Value()), ingress, bytes, now)
    {
      AsicInvariant.ProcessPacketValid(Value(), ingress, bytes, now);
      if ingress !in ports || !Operational(ports[ingress]) {
        return DroppedBy(IngressPortUnavailable, 0);
      }
      assert Vlan.ValidConfig(ports[ingress].config);
      hide ValidState, Vlan.ValidConfig, PacketArrival;
      r := ProcessArrival(ingress, bytes, now);
    }
  }
}
