/** The software switch (software_asic.cpp) as a state machine over values: the
    control-plane operations and `process_packet`, with every branch and counter. */
module Asic {
  import opened Basics
  import opened Ethernet
  import opened VirtualPort
  import opened BoundedQueue
  import L2 = L2Forwarding
  import Vlan
  import MacTable
  import KeyedList
  import RT = RouteTable
  import Ipv4Prefix
  import Ipv4Packet
  import ArpPacket
  import ArpCache
  import Routing
  import FI = FaultInjector

  datatype Stats = Stats(
    ingressPackets: nat, ingressBytes: nat, egressPackets: nat, egressBytes: nat, parseErrors: nat, routeMisses: nat,
    ttlExpirations: nat, vlanDrops: nat, neighborMisses: nat, filteredFrames: nat, queueDrops: nat, faultDrops: nat,
    corruptedPackets: nat, resourceExhaustion: nat)

  const NO_STATS := Stats(0, 0, 0, 0, 0, 0, 0, 0, 0, 0, 0, 0, 0, 0)

  type PacketQueue = Queue<Bytes>

  datatype State = State(
    ports: map<PortId, Port>, queues: map<PortId, PacketQueue>,
    vlans: set<VlanId>, members: map<VlanId, seq<PortId>>, routers: L2.Routers,
    macs: MacTable.Table, routes: seq<RT.Route>, arpLifetime: int, arp: ArpCache.Entries,
    faults: FI.Faults, stats: Stats)

  /** Five minutes, in nanoseconds. */
  const DEFAULT_LIFETIME := 300_000_000_000

  function PowerOn(macCapacity: nat): State
  {
    State(map[], map[], {}, map[], map[], MacTable.Table(macCapacity, DEFAULT_LIFETIME, map[]), [],
          DEFAULT_LIFETIME, map[], FI.NO_FAULTS, NO_STATS)
  }

  // ---- Invariant ----

  ghost predicate MembersOk(s: State, v: VlanId)
    requires v in s.members
  {
    && v in s.vlans && L2.NoDuplicates(s.members[v])
    && forall p :: p in s.members[v] ==> p in s.ports && v in s.ports[p].config.allowed
  }

  predicate QueueOk(q: PacketQueue)
  {
    0 < q.capacity && |q.items| <= q.capacity && !q.closed
  }

  ghost predicate ValidState(s: State)
  {
    && s.ports.Keys == s.queues.Keys
    && (forall p :: p in s.ports ==> s.ports[p].id == p && ValidPort(s.ports[p]))
    && (forall p :: p in s.queues ==> QueueOk(s.queues[p]))
    && (forall v :: v in s.members ==> MembersOk(s, v))
    && s.routers.Keys <= s.vlans
    && |s.macs.entries| <= s.macs.capacity
    && RT.ValidTable(s.routes)
  }

  // ---- Control plane ----

  datatype Status = Success | AlreadyExists | NotFound | InvalidArgument | DependencyMissing

  function CreatePort(s: State, port: Port, capacity: nat): (State, Status)
  {
    if capacity == 0 then (s, InvalidArgument)
    else if port.id in s.ports then (s, AlreadyExists)
    else (s.(queues := s.queues[port.id := Queue(capacity, [], false)], ports := s.ports[port.id := port]), Success)
  }

  /** Every member list without `port`. */
  function Pruned(lists: map<VlanId, seq<PortId>>, port: PortId): map<VlanId, seq<PortId>>
  {
    map v | v in lists :: L2.Without(port, lists[v])
  }

  function RemovePort(s: State, port: PortId): (State, Status)
  {
    if port !in s.ports then (s, NotFound)
    else (s.(members := Pruned(s.members, port), queues := s.queues - {port}, ports := s.ports - {port}), Success)
  }

  function SetPortState(s: State, port: PortId, admin: bool, link: bool): (State, Status)
  {
    if port !in s.ports then (s, NotFound)
    else (s.(ports := s.ports[port := s.ports[port].(adminEnabled := admin, linkUp := link)]), Success)
  }

  function CreateVlan(s: State, vlan: VlanId): (State, Status)
  {
    if vlan in s.vlans then (s, AlreadyExists) else (s.(vlans := s.vlans + {vlan}), Success)
  }

  /** The member list of `vlan`, created empty when it is first asked for. */
  function WithList(s: State, vlan: VlanId): State
  {
    if vlan in s.members then s else s.(members := s.members[vlan := []])
  }

  function RemoveVlan(s: State, vlan: VlanId): (State, Status)
  {
    if vlan !in s.vlans then (s, NotFound)
    else
      var s := WithList(s, vlan);
      if s.members[vlan] != [] || vlan in s.routers then (s, DependencyMissing)
      else (s.(members := s.members - {vlan}, vlans := s.vlans - {vlan}), Success)
  }

  function AddVlanMember(s: State, vlan: VlanId, port: PortId): (State, Status)
  {
    if vlan !in s.vlans || port !in s.ports then (s, DependencyMissing)
    else
      var s := WithList(s, vlan);
      if port in s.members[vlan] then (s, AlreadyExists)
      else if vlan !in s.ports[port].config.allowed then (s, InvalidArgument)
      else (s.(members := s.members[vlan := s.members[vlan] + [port]]), Success)
  }

  function SetRouterInterface(s: State, vlan: VlanId, mac: Mac): (State, Status)
  {
    if vlan !in s.vlans then (s, DependencyMissing)
    else if !IsStation(mac) then (s, InvalidArgument)
    else (s.(routers := s.routers[vlan := mac]), Success)
  }

  function AddRoute(s: State, route: RT.Route): (State, Status)
  {
    if route.port !in s.ports then (s, DependencyMissing)
    else (s.(routes := KeyedList.Upsert(s.routes, route, RT.RouteKey)), Success)
  }

  function RemoveRoute(s: State, prefix: Ipv4Prefix.Prefix): (State, Status)
  {
    (s.(routes := KeyedList.Delete(s.routes, prefix, RT.RouteKey)),
     if KeyedList.Find(s.routes, prefix, RT.RouteKey).Some? then Success else NotFound)
  }

  function AddNeighbor(s: State, address: u32, mac: Mac, at: int): (State, Status)
  {
    (s.(arp := ArpCache.Added(s.arp, address, mac, at)),
     if ArpCache.Acceptable(address, mac) then Success else InvalidArgument)
  }

  function RemoveNeighbor(s: State, address: u32): (State, Status)
  {
    (s.(arp := s.arp - {address}), if address in s.arp then Success else NotFound)
  }

  function ConfigureFaults(s: State, c: FI.Config): (State, Status)
  {
    if FI.ValidConfig(c) then (s.(faults := s.faults.(config := c)), Success) else (s, InvalidArgument)
  }

  function Dequeue(s: State, port: PortId): (State, Option<Bytes>)
  {
    if port !in s.queues then (s, None)
    else var (q, x) := PopFront(s.queues[port]); (s.(queues := s.queues[port := q]), x)
  }

  // ---- Packet processing ----

  datatype Disposition = Switched | Flooded | Routed | DeliveredToControlPlane | Dropped

  datatype DropReason =
    NoDrop | IngressPortUnavailable | MalformedFrame | VlanRejected | MalformedIpv4 | RouteMiss | TtlExpired
  | NeighborMiss | EgressPortUnavailable | QueueCongestion | InjectedFault | ResourceExhausted

  datatype Result = Result(disposition: Disposition, reason: DropReason, outputs: seq<PortId>, latency: int)

  function DroppedBy(reason: DropReason, latency: int): Result { Result(Dropped, reason, [], latency) }

  function CountFault(t: Stats, reason: FI.DropReason): Stats
  {
    if reason == FI.ResourceExhaustion then t.(resourceExhaustion := t.resourceExhaustion + 1)
    else t.(faultDrops := t.faultDrops + 1)
  }

  function CountCorrupted(t: Stats, corrupted: bool): Stats
  {
    if corrupted then t.(corruptedPackets := t.corruptedPackets + 1) else t
  }

  function CountPipelineDrop(t: Stats, reason: L2.Reason): Stats
  {
    if reason.TaggedFrameOnAccessPort? || reason.UntaggedFrameWithoutNativeVlan? || reason.VlanNotAllowed?
    then t.(vlanDrops := t.vlanDrops + 1) else t.(filteredFrames := t.filteredFrames + 1)
  }

  function CountParseError(t: Stats): Stats { t.(parseErrors := t.parseErrors + 1) }

  function CountSent(t: Stats, size: nat): Stats
  {
    t.(egressPackets := t.egressPackets + 1, egressBytes := t.egressBytes + size)
  }

  function CountArrival(t: Stats, size: nat): Stats
  {
    t.(ingressPackets := t.ingressPackets + 1, ingressBytes := t.ingressBytes + size)
  }

  /** What became of one requested egress. */
  datatype Charge = Skipped | FaultDropped | Exhausted | OverMtu | QueueFull | Sent(bytes: Bytes)

  predicate Usable(s: State, id: PortId)
  {
    id in s.ports && id in s.queues && Operational(s.ports[id])
  }

  /** One requested egress: fault injection, MTU, queue, in that order. */
  function EnqueueOne(s: State, id: PortId, frame: Bytes): (State, Charge, int)
  {
    if !Usable(s, id) then (s, Skipped, 0)
    else
      var (faults, r) := FI.Inject(s.faults, id, frame);
      match r
      case Lost(reason) =>
        (s.(faults := faults, stats := CountFault(s.stats, reason)),
         if reason == FI.ResourceExhaustion then Exhausted else FaultDropped, 0)
      case Passed(bytes, latency, corrupted) =>
        var stats := CountCorrupted(s.stats, corrupted);
        var port, (q, e) := Transmit(s.ports[id], |bytes|).0, TryEnqueue(s.queues[id], bytes);
        if |bytes| > s.ports[id].mtu then
          (s.(faults := faults, stats := stats, ports := s.ports[id := port]), OverMtu, latency)
        else if e != Enqueued then
          (s.(faults := faults, stats := stats.(queueDrops := stats.queueDrops + 1)), QueueFull, latency)
        else
          (s.(faults := faults, stats := CountSent(stats, |bytes|), ports := s.ports[id := port],
              queues := s.queues[id := q]), Sent(bytes), latency)
  }

  function Max(a: int, b: int): int { if a >= b then a else b }

  datatype Batch = Batch(state: State, outputs: seq<PortId>, latency: int)

  function EnqueueAll(s: State, ids: seq<PortId>, frame: Bytes, latency: int): Batch
  {
    if ids == [] then Batch(s, [], latency)
    else
      var b, id := EnqueueAll(s, ids[..|ids| - 1], frame, latency), ids[|ids| - 1];
      var (s', charge, lag) := EnqueueOne(b.state, id, frame);
      Batch(s', if charge.Sent? then b.outputs + [id] else b.outputs,
            if charge in {Skipped, FaultDropped, Exhausted} then b.latency else Max(b.latency, lag))
  }

  function EnqueueOutputs(s: State, disposition: Disposition, ids: seq<PortId>, frame: Bytes,
                          latency: int): (State, Result)
  {
    var b := EnqueueAll(s, ids, frame, latency);
    (b.state, if b.outputs == [] then DroppedBy(QueueCongestion, b.latency)
              else Result(disposition, NoDrop, b.outputs, b.latency))
  }

  function DeliverArp(s: State, frame: Frame, latency: int, now: int): (State, Result)
  {
    match ArpPacket.Parse(frame.payload)
    case None => (s.(stats := CountParseError(s.stats)), DroppedBy(MalformedFrame, latency))
    case Some(a) =>
      (s.(arp := ArpCache.Added(s.arp, a.senderIp, a.senderMac, now)),
       Result(DeliveredToControlPlane, NoDrop, [], latency))
  }

  /** Encapsulation and egress of a forwarded packet. */
  function SendForwarded(s: State, fw: Routing.Forwarding, latency: int, now: int): (State, Result)
    requires fw.Forwarded? && fw.port in s.ports
  {
    match Routing.Encapsulate(fw, s.ports[fw.port].mac, s.arpLifetime, s.arp, now)
    case NeighborNotFound =>
      (s.(stats := s.stats.(neighborMisses := s.stats.neighborMisses + 1)), DroppedBy(NeighborMiss, latency))
    case Encapsulated(out) => EnqueueOutputs(s, Routed, [fw.port], Encoding(out), latency)
    case _ => (s, DroppedBy(EgressPortUnavailable, latency))
  }

  function Route(s: State, frame: Frame, latency: int, now: int): (State, Result)
  {
    match Ipv4Packet.Parse(frame.payload)
    case None => (s.(stats := CountParseError(s.stats)), DroppedBy(MalformedIpv4, latency))
    case Some(p) =>
      match Routing.Forward(s.routes, p)
      case Dropped(RouteNotFound) =>
        (s.(stats := s.stats.(routeMisses := s.stats.routeMisses + 1)), DroppedBy(RouteMiss, latency))
      case Dropped(TimeToLiveExpired) =>
        (s.(stats := s.stats.(ttlExpirations := s.stats.ttlExpirations + 1)), DroppedBy(TtlExpired, latency))
      case Forwarded(_, id, _) =>
        if id !in s.ports || !Operational(s.ports[id]) then (s, DroppedBy(EgressPortUnavailable, latency))
        else SendForwarded(s, Routing.Forward(s.routes, p), latency, now)
  }

  function MembersOf(s: State, vlan: VlanId): seq<PortId>
  {
    if vlan in s.members then s.members[vlan] else []
  }

  /** The pipeline's decision for a frame that the ingress port received. */
  function Decision(s: State, ingress: PortId, frame: Frame, now: int): (MacTable.Table, L2.Decision)
    requires ingress in s.ports && Vlan.ValidConfig(s.ports[ingress].config)
  {
    var config := s.ports[ingress].config;
    L2.Process(frame, ingress, config, MembersOf(s, Vlan.MemberVlan(frame, config)), s.macs, s.routers, now)
  }

  function Switch(s: State, ingress: PortId, frame: Frame, latency: int, now: int): (State, Result)
    requires ingress in s.ports && Vlan.ValidConfig(s.ports[ingress].config)
  {
    var (macs, d) := Decision(s, ingress, frame, now);
    var s := s.(macs := macs);
    match d
    case Drop(_, reason) => (s.(stats := CountPipelineDrop(s.stats, reason)), DroppedBy(VlanRejected, latency))
    case ToControlPlane(_) => DeliverArp(s, frame, latency, now)
    case RouteIpv4(_) => Route(s, frame, latency, now)
    case FloodInVlan(_, outputs) => EnqueueOutputs(s, Flooded, outputs, Encoding(frame), latency)
    case SwitchTo(_, outputs) => EnqueueOutputs(s, Switched, outputs, Encoding(frame), latency)
  }

  /** The port after it counted the arrival of `frame`. */
  function Received(s: State, ingress: PortId, frame: Frame): State
    requires ingress in s.ports
  {
    s.(ports := s.ports[ingress := Receive(s.ports[ingress], |frame.payload|).0])
  }

  function AfterFault(s: State, ingress: PortId, bytes: Bytes, latency: int, now: int): (State, Result)
    requires ingress in s.ports && Vlan.ValidConfig(s.ports[ingress].config)
  {
    match Parse(bytes)
    case None => (s.(stats := CountParseError(s.stats)), DroppedBy(MalformedFrame, latency))
    case Some(frame) =>
      if !Receive(s.ports[ingress], |frame.payload|).1
      then (Received(s, ingress, frame), DroppedBy(IngressPortUnavailable, latency))
      else Switch(Received(s, ingress, frame), ingress, frame, latency, now)
  }

  /** The switch after the arrival was counted and fault injection let it through. */
  function Arrived(s: State, ingress: PortId, bytes: Bytes): State
  {
    var (faults, r) := FI.Inject(s.faults, ingress, bytes);
    s.(faults := faults, stats := CountCorrupted(CountArrival(s.stats, |bytes|), r.Passed? && r.corrupted))
  }

  function PacketArrival(s: State, ingress: PortId, bytes: Bytes, now: int): (State, Result)
    requires ingress in s.ports && Vlan.ValidConfig(s.ports[ingress].config)
  {
    match FI.Inject(s.faults, ingress, bytes).1
    case Lost(reason) =>
      var s' := Arrived(s, ingress, bytes);
      (s'.(stats := CountFault(s'.stats, reason)),
       DroppedBy(if reason == FI.ResourceExhaustion then ResourceExhausted else InjectedFault, 0))
    case Passed(injected, latency, _) =>
      AfterFault(Arrived(s, ingress, bytes), ingress, injected, latency, now)
  }

  function ProcessPacket(s: State, ingress: PortId, bytes: Bytes, now: int): (State, Result)
    requires ValidState(s)
  {
    if ingress !in s.ports || !Operational(s.ports[ingress]) then (s, DroppedBy(IngressPortUnavailable, 0))
    else PacketArrival(s, ingress, bytes, now)
  }

  // ---- Runs ----

  datatype Op =
    | OpCreatePort(port: Port, capacity: nat)
    | OpRemovePort(id: PortId)
    | OpSetPortState(id: PortId, admin: bool, link: bool)
    | OpCreateVlan(vlan: VlanId)
    | OpRemoveVlan(vlan: VlanId)
    | OpAddVlanMember(vlan: VlanId, id: PortId)
    | OpSetRouterInterface(vlan: VlanId, mac: Mac)
    | OpAddRoute(route: RT.Route)
    | OpRemoveRoute(prefix: Ipv4Prefix.Prefix)
    | OpAddNeighbor(address: u32, mac: Mac, at: int)
    | OpRemoveNeighbor(address: u32)
    | OpConfigureFaults(config: FI.Config)
    | OpProcess(ingress: PortId, bytes: Bytes, now: int)
    | OpDequeue(id: PortId)

  /** The arguments are objects, so they carry their own class invariants. */
  ghost predicate Wellformed(op: Op)
  {
    match op
    case OpCreatePort(port, _) => ValidPort(port)
    case OpAddRoute(route) => RT.ValidRoute(route)
    case _ => true
  }

  function Perform(s: State, op: Op): State
    requires ValidState(s)
  {
    match op
    case OpCreatePort(port, capacity) => CreatePort(s, port, capacity).0
    case OpRemovePort(id) => RemovePort(s, id).0
    case OpSetPortState(id, admin, link) => SetPortState(s, id, admin, link).0
    case OpCreateVlan(vlan) => CreateVlan(s, vlan).0
    case OpRemoveVlan(vlan) => RemoveVlan(s, vlan).0
    case OpAddVlanMember(vlan, id) => AddVlanMember(s, vlan, id).0
    case OpSetRouterInterface(vlan, mac) => SetRouterInterface(s, vlan, mac).0
    case OpAddRoute(route) => AddRoute(s, route).0
    case OpRemoveRoute(prefix) => RemoveRoute(s, prefix).0
    case OpAddNeighbor(address, mac, at) => AddNeighbor(s, address, mac, at).0
    case OpRemoveNeighbor(address) => RemoveNeighbor(s, address).0
    case OpConfigureFaults(config) => ConfigureFaults(s, config).0
    case OpProcess(ingress, bytes, now) => ProcessPacket(s, ingress, bytes, now).0
    case OpDequeue(id) => Dequeue(s, id).0
  }
}
