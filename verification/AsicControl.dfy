/** What the control plane's settings are, in terms of the operations that led to
    them: each setting holds exactly if it was made and not undone since. */
module AsicControl {
  import opened Basics
  import opened Ethernet
  import opened VirtualPort
  import opened BoundedQueue
  import opened History
  import opened Asic
  import opened AsicInvariant
  import opened AsicForwarding
  import opened AsicVerdict
  import L2 = L2Forwarding
  import Vlan
  import MacTable
  import KeyedList
  import RT = RouteTable
  import Ipv4Prefix
  import ArpPacket
  import ArpCache
  import AsicRouting
  import FI = FaultInjector

  /** The run as a function of any operations. */
  ghost function Reached(macCapacity: nat, ops: seq<Op>): State
  {
    if AllWellformed(ops) then RunOf(macCapacity, ops) else PowerOn(macCapacity)
  }

  /** A fact of the state holds exactly if an operation made it true and none has made it
      false since; or it held at power-on and none ever did. */
  ghost predicate Explained(macCapacity: nat, ops: seq<Op>, fact: State -> bool,
                            sets: (State, Op) -> bool, clears: (State, Op) -> bool)
  {
    fact(Reached(macCapacity, ops)) <==>
      || Since(os => Reached(macCapacity, os), ops, sets, clears)
      || (fact(PowerOn(macCapacity)) && Never(os => Reached(macCapacity, os), ops, clears))
  }

  lemma Explain(macCapacity: nat, ops: seq<Op>, fact: State -> bool,
                sets: (State, Op) -> bool, clears: (State, Op) -> bool)
    requires AllWellformed(ops)
    requires forall s, op :: ValidState(s) && Wellformed(op) ==> Follows(s, op, Perform(s, op), fact, sets, clears)
    ensures Explained(macCapacity, ops, fact, sets, clears)
  {
    hide ValidState, Perform, Wellformed;
    var run := (os: seq<Op>) => Reached(macCapacity, os);
    forall k | 0 <= k < |ops| ensures Follows(run(ops[..k]), ops[k], run(ops[..k + 1]), fact, sets, clears) {
      assert AllWellformed(ops[..k]) && AllWellformed(ops[..k + 1]) && ops[..k + 1][..k] == ops[..k];
      assert Wellformed(ops[k]);
      assert run(ops[..k + 1]) == Perform(run(ops[..k]), ops[k]);
    }
    SinceLaw(run, ops, fact, sets, clears);
  }

  /** Which parts of the state each control operation can change. */
  ghost predicate Frame(s: State, s': State, op: Op)
  {
    match op
    case OpCreatePort(_, _) => s' == s.(ports := s'.ports, queues := s'.queues)
    case OpRemovePort(_) => s' == s.(ports := s'.ports, queues := s'.queues, members := s'.members)
    case OpSetPortState(_, _, _) => s' == s.(ports := s'.ports)
    case OpCreateVlan(_) => s' == s.(vlans := s'.vlans)
    case OpRemoveVlan(_) => s' == s.(vlans := s'.vlans, members := s'.members)
    case OpAddVlanMember(_, _) => s' == s.(members := s'.members)
    case OpSetRouterInterface(_, _) => s' == s.(routers := s'.routers)
    case OpAddRoute(_) => s' == s.(routes := s'.routes)
    case OpRemoveRoute(_) => s' == s.(routes := s'.routes)
    case OpAddNeighbor(_, _, _) => s' == s.(arp := s'.arp)
    case OpRemoveNeighbor(_) => s' == s.(arp := s'.arp)
    case OpConfigureFaults(_) => s' == s.(faults := s'.faults)
    case OpDequeue(_) => s' == s.(queues := s'.queues)
    case OpProcess(_, _, _) => SameConfig(s, s')
  }

  /** Each operation is performed by its own function. */
  lemma Performed(s: State, op: Op)
    requires ValidState(s)
    ensures op.OpCreatePort? ==> Perform(s, op) == CreatePort(s, op.port, op.capacity).0
    ensures op.OpRemovePort? ==> Perform(s, op) == RemovePort(s, op.id).0
    ensures op.OpSetPortState? ==> Perform(s, op) == SetPortState(s, op.id, op.admin, op.link).0
    ensures op.OpProcess? ==> Perform(s, op) == ProcessPacket(s, op.ingress, op.bytes, op.now).0
    ensures op.OpDequeue? ==> Perform(s, op) == Dequeue(s, op.id).0
  {
    hide ValidState, ProcessPacket, CreatePort, RemovePort, Dequeue, SetPortState, CreateVlan, RemoveVlan;
    hide AddVlanMember, SetRouterInterface, AddRoute, RemoveRoute, AddNeighbor, RemoveNeighbor, ConfigureFaults;
  }

  lemma OpFrame(s: State, op: Op)
    requires ValidState(s)
    ensures Frame(s, Perform(s, op), op)
  {
    hide ValidState, ProcessPacket, CreatePort, RemovePort, SetPortState, Dequeue;
    hide CreateVlan, RemoveVlan, AddVlanMember, SetRouterInterface;
    hide KeyedList.Upsert, KeyedList.Delete, ArpCache.Added;
    match op
    case OpProcess(ingress, bytes, now) => ProcessPacketStep(s, ingress, bytes, now);
    case OpCreatePort(port, capacity) => PortFrames(s, port, capacity);
    case OpRemovePort(id) => RemoveFrames(s, id);
    case OpSetPortState(id, admin, link) => StateFrames(s, id, admin, link);
    case OpDequeue(id) => RemoveFrames(s, id);
    case OpCreateVlan(vlan) => VlanFrames(s, vlan, 1);
    case OpRemoveVlan(vlan) => VlanFrames(s, vlan, 1);
    case OpAddVlanMember(vlan, id) => VlanFrames(s, vlan, id);
    case OpSetRouterInterface(vlan, mac) => RouterFrames(s, vlan, mac);
    case _ =>
  }

  lemma PortFrames(s: State, port: Port, capacity: nat)
    ensures Frame(s, CreatePort(s, port, capacity).0, OpCreatePort(port, capacity))
  {
  }

  lemma StateFrames(s: State, id: PortId, admin: bool, link: bool)
    ensures Frame(s, SetPortState(s, id, admin, link).0, OpSetPortState(id, admin, link))
  {
  }

  lemma RemoveFrames(s: State, id: PortId)
    ensures Frame(s, RemovePort(s, id).0, OpRemovePort(id)) && Frame(s, Dequeue(s, id).0, OpDequeue(id))
  {
    hide Pruned, PopFront;
  }

  lemma VlanFrames(s: State, vlan: VlanId, id: PortId)
    ensures Frame(s, CreateVlan(s, vlan).0, OpCreateVlan(vlan)) && Frame(s, RemoveVlan(s, vlan).0, OpRemoveVlan(vlan))
    ensures Frame(s, AddVlanMember(s, vlan, id).0, OpAddVlanMember(vlan, id))
  {
  }

  lemma RouterFrames(s: State, vlan: VlanId, mac: Mac)
    ensures Frame(s, SetRouterInterface(s, vlan, mac).0, OpSetRouterInterface(vlan, mac))
  {
  }

  /** A new switch has nothing configured, injects no faults, and forgets stations and
      neighbors after five minutes (in nanoseconds). */
  lemma NewSwitch(macCapacity: nat)
    ensures var s := PowerOn(macCapacity);
      && s.ports == map[] && s.queues == map[] && s.vlans == {} && s.members == map[] && s.routers == map[]
      && s.macs == MacTable.Table(macCapacity, 300_000_000_000, map[]) && s.routes == []
      && s.arpLifetime == 300_000_000_000 && s.arp == map[]
      && FI.Quiet(s.faults) && s.faults.config.latency == 0 && s.faults.processed == 0
  {
  }

  /** Packets and dequeues leave every setting alone. */
  lemma DataKeepsSettings(s: State, op: Op)
    requires ValidState(s) && (op.OpProcess? || op.OpDequeue?)
    ensures SameConfig(s, Perform(s, op)) && Perform(s, op).queues.Keys == s.queues.Keys
    ensures forall p :: p in s.queues ==> Perform(s, op).queues[p].capacity == s.queues[p].capacity
  {
    hide ProcessPacket, ValidState;
    if op.OpProcess? {
      ProcessPacketStep(s, op.ingress, op.bytes, op.now);
    }
  }

  // ---- VLANs and members ----

  lemma VlanStep(s: State, op: Op, v: VlanId)
    requires ValidState(s)
    ensures v in Perform(s, op).vlans <==>
      op == OpCreateVlan(v) || (v in s.vlans && !(op == OpRemoveVlan(v) && MembersOf(s, v) == [] && v !in s.routers))
  {
    hide ProcessPacket, ValidState, Dequeue;
    OpFrame(s, op);
    match op
    case OpCreateVlan(_) =>
    case OpRemoveVlan(_) =>
    case _ => hide Perform;
  }

  /** A VLAN exists exactly if it was created and not since removed without members and router. */
  lemma VlanHistory(macCapacity: nat, ops: seq<Op>, v: VlanId)
    requires AllWellformed(ops)
    ensures Explained(macCapacity, ops, (s: State) => v in s.vlans, (s: State, op: Op) => op == OpCreateVlan(v),
                      (s: State, op: Op) => op == OpRemoveVlan(v) && MembersOf(s, v) == [] && v !in s.routers)
  {
    var fact := (s: State) => v in s.vlans;
    var sets := (s: State, op: Op) => op == OpCreateVlan(v);
    var clears := (s: State, op: Op) => op == OpRemoveVlan(v) && MembersOf(s, v) == [] && v !in s.routers;
    forall s, op | ValidState(s) && Wellformed(op) ensures Follows(s, op, Perform(s, op), fact, sets, clears) {
      VlanStep(s, op, v);
    }
    Explain(macCapacity, ops, fact, sets, clears);
  }

  /** The operation lets port `p` join VLAN `v`: both exist, and the port allows the VLAN. */
  predicate Joins(s: State, op: Op, v: VlanId, p: PortId)
  {
    op == OpAddVlanMember(v, p) && v in s.vlans && p in s.ports && v in s.ports[p].config.allowed
  }

  lemma MembersUntouched(s: State, op: Op)
    requires ValidState(s) && !op.OpRemovePort? && !op.OpRemoveVlan? && !op.OpAddVlanMember?
    ensures Perform(s, op).members == s.members
  {
    hide Perform, ValidState;
    OpFrame(s, op);
  }

  lemma RemovePortMembers(s: State, id: PortId, v: VlanId)
    requires ValidState(s)
    ensures forall p :: p in MembersOf(RemovePort(s, id).0, v) <==> p in MembersOf(s, v) && p != id
  {
    if v in s.members {
      assert MembersOk(s, v);
      WithoutLaws(id, s.members[v]);
    }
    hide ValidState, L2.Without;
  }

  lemma RemoveVlanMembers(s: State, vlan: VlanId, v: VlanId)
    ensures MembersOf(RemoveVlan(s, vlan).0, v) == MembersOf(s, v)
  {
  }

  /** Joining appends to the member list, so floods reach members in the order they joined. */
  lemma AddMemberMembers(s: State, vlan: VlanId, id: PortId, v: VlanId)
    requires ValidState(s)
    ensures MembersOf(AddVlanMember(s, vlan, id).0, v) ==
      MembersOf(s, v) + if v == vlan && Joins(s, OpAddVlanMember(vlan, id), vlan, id) && id !in MembersOf(s, v)
                        then [id] else []
  {
    hide ValidState;
  }

  lemma MemberStep(s: State, op: Op, v: VlanId, p: PortId)
    requires ValidState(s)
    ensures p in MembersOf(Perform(s, op), v) <==>
      Joins(s, op, v, p) || (p in MembersOf(s, v) && op != OpRemovePort(p))
  {
    hide ProcessPacket, ValidState, Dequeue, RemovePort, RemoveVlan, AddVlanMember, MembersOf;
    match op
    case OpRemovePort(id) => RemovePortMembers(s, id, v);
    case OpRemoveVlan(vlan) => RemoveVlanMembers(s, vlan, v);
    case OpAddVlanMember(vlan, id) => AddMemberMembers(s, vlan, id, v);
    case _ =>
      MembersUntouched(s, op);
      SameMembers(s, Perform(s, op), v);
  }

  lemma SameMembers(s: State, s': State, v: VlanId)
    requires s'.members == s.members
    ensures MembersOf(s', v) == MembersOf(s, v)
  {
  }

  /** A port is a member of a VLAN exactly if it joined and was not removed since. */
  lemma MemberHistory(macCapacity: nat, ops: seq<Op>, v: VlanId, p: PortId)
    requires AllWellformed(ops)
    ensures Explained(macCapacity, ops, (s: State) => p in MembersOf(s, v), (s: State, op: Op) => Joins(s, op, v, p),
                      (s: State, op: Op) => op == OpRemovePort(p))
  {
    var fact := (s: State) => p in MembersOf(s, v);
    var sets := (s: State, op: Op) => Joins(s, op, v, p);
    var clears := (s: State, op: Op) => op == OpRemovePort(p);
    forall s, op | ValidState(s) && Wellformed(op) ensures Follows(s, op, Perform(s, op), fact, sets, clears) {
      MemberStep(s, op, v, p);
    }
    Explain(macCapacity, ops, fact, sets, clears);
  }

  predicate SetsRouter(s: State, op: Op, v: VlanId)
  {
    op.OpSetRouterInterface? && op.vlan == v && v in s.vlans && IsStation(op.mac)
  }

  lemma RouterStep(s: State, op: Op, v: VlanId, mac: Mac)
    requires ValidState(s)
    ensures (v in Perform(s, op).routers && Perform(s, op).routers[v] == mac) <==>
      || (SetsRouter(s, op, v) && op.mac == mac)
      || (v in s.routers && s.routers[v] == mac && !SetsRouter(s, op, v))
  {
    hide ProcessPacket, ValidState, Dequeue;
    OpFrame(s, op);
    match op
    case OpSetRouterInterface(_, _) =>
    case _ => hide Perform;
  }

  /** A VLAN's router has the station address it was given last. */
  lemma RouterHistory(macCapacity: nat, ops: seq<Op>, v: VlanId, mac: Mac)
    requires AllWellformed(ops)
    ensures Explained(macCapacity, ops, (s: State) => v in s.routers && s.routers[v] == mac,
                      (s: State, op: Op) => SetsRouter(s, op, v) && op.mac == mac,
                      (s: State, op: Op) => SetsRouter(s, op, v))
  {
    var fact := (s: State) => v in s.routers && s.routers[v] == mac;
    var sets := (s: State, op: Op) => SetsRouter(s, op, v) && op.mac == mac;
    var clears := (s: State, op: Op) => SetsRouter(s, op, v);
    forall s, op | ValidState(s) && Wellformed(op) ensures Follows(s, op, Perform(s, op), fact, sets, clears) {
      RouterStep(s, op, v, mac);
    }
    Explain(macCapacity, ops, fact, sets, clears);
  }

  // ---- Ports ----

  /** The operation creates port `p`: it is new, and its queue has a capacity. */
  predicate CreatesPort(s: State, op: Op, p: PortId)
  {
    op.OpCreatePort? && op.port.id == p && op.capacity > 0 && p !in s.ports
  }

  /** What a port keeps for life: its address, MTU, VLAN configuration and the capacity of its queue. */
  datatype Settings = Settings(mac: Mac, mtu: nat, config: Vlan.PortConfig, capacity: nat)

  function SettingsOf(s: State, p: PortId): Option<Settings>
  {
    if p in s.ports && p in s.queues
    then Some(Settings(s.ports[p].mac, s.ports[p].mtu, s.ports[p].config, s.queues[p].capacity)) else None
  }

  /** The operation creates port `p` with these settings. */
  predicate CreatesWith(s: State, op: Op, p: PortId, x: Settings)
  {
    && CreatesPort(s, op, p)
    && x == Settings(op.port.mac, op.port.mtu, op.port.config, op.capacity)
  }

  lemma PortsUntouched(s: State, op: Op)
    requires ValidState(s) && !op.OpCreatePort? && !op.OpRemovePort? && !op.OpSetPortState?
    ensures SameConfigOfPorts(s, Perform(s, op))
  {
    hide Perform, ValidState, SameConfigOfPorts;
    if op.OpProcess? || op.OpDequeue? {
      DataKeepsSettings(s, op);
      KeptPorts(s, Perform(s, op));
    } else {
      OpFrame(s, op);
      SamePorts(s, Perform(s, op));
    }
  }

  lemma KeptPorts(s: State, s': State)
    requires SameConfig(s, s') && s'.queues.Keys == s.queues.Keys
    requires forall p :: p in s.queues ==> s'.queues[p].capacity == s.queues[p].capacity
    ensures SameConfigOfPorts(s, s')
  {
  }

  lemma SamePorts(s: State, s': State)
    requires s'.ports == s.ports && s'.queues == s.queues
    ensures SameConfigOfPorts(s, s')
  {
  }

  /** The same ports, differing in counters only, with queues of the same capacity. */
  ghost predicate SameConfigOfPorts(s: State, s': State)
  {
    && s'.ports.Keys == s.ports.Keys && (forall p :: p in s.ports ==> SamePort(s.ports[p], s'.ports[p]))
    && s'.queues.Keys == s.queues.Keys && (forall p :: p in s.queues ==> s'.queues[p].capacity == s.queues[p].capacity)
  }

  lemma PortKept(s: State, s': State, p: PortId)
    requires SameConfigOfPorts(s, s')
    ensures SettingsOf(s', p) == SettingsOf(s, p)
  {
    if p in s.ports { assert SamePort(s.ports[p], s'.ports[p]); }
  }

  lemma CreatePortEffect(s: State, port: Port, capacity: nat, p: PortId, x: Settings)
    requires s.ports.Keys == s.queues.Keys
    ensures SettingsOf(CreatePort(s, port, capacity).0, p) == Some(x) <==>
      CreatesWith(s, OpCreatePort(port, capacity), p, x) || SettingsOf(s, p) == Some(x)
  {
  }

  lemma RemovePortEffect(s: State, id: PortId, p: PortId)
    ensures SettingsOf(RemovePort(s, id).0, p) == if p == id then None else SettingsOf(s, p)
  {
    hide Pruned;
  }

  lemma SetStateEffect(s: State, id: PortId, admin: bool, link: bool, p: PortId)
    ensures SettingsOf(SetPortState(s, id, admin, link).0, p) == SettingsOf(s, p)
  {
  }

  lemma PortStep(s: State, op: Op, p: PortId, x: Settings)
    requires ValidState(s)
    ensures SettingsOf(Perform(s, op), p) == Some(x) <==>
      CreatesWith(s, op, p, x) || (SettingsOf(s, p) == Some(x) && op != OpRemovePort(p))
  {
    assert s.ports.Keys == s.queues.Keys;
    hide ValidState, Perform, SettingsOf, SameConfigOfPorts;
    hide ProcessPacket, Dequeue, RemovePort, CreatePort, SetPortState;
    Performed(s, op);
    match op
    case OpCreatePort(port, capacity) => CreatePortEffect(s, port, capacity, p, x);
    case OpRemovePort(id) => RemovePortEffect(s, id, p);
    case OpSetPortState(id, admin, link) => SetStateEffect(s, id, admin, link, p);
    case _ =>
      PortsUntouched(s, op);
      PortKept(s, Perform(s, op), p);
  }

  /** A port has the settings and the queue it was created with, until it is removed. */
  lemma PortHistory(macCapacity: nat, ops: seq<Op>, p: PortId, x: Settings)
    requires AllWellformed(ops)
    ensures Explained(macCapacity, ops, (s: State) => SettingsOf(s, p) == Some(x),
                      (s: State, op: Op) => CreatesWith(s, op, p, x), (s: State, op: Op) => op == OpRemovePort(p))
  {
    var fact := (s: State) => SettingsOf(s, p) == Some(x);
    var sets := (s: State, op: Op) => CreatesWith(s, op, p, x);
    var clears := (s: State, op: Op) => op == OpRemovePort(p);
    forall s, op | ValidState(s) && Wellformed(op) ensures Follows(s, op, Perform(s, op), fact, sets, clears) {
      PortStep(s, op, p, x);
    }
    Explain(macCapacity, ops, fact, sets, clears);
  }

  predicate AdminUp(s: State, p: PortId) { p in s.ports && s.ports[p].adminEnabled }

  predicate LinkUp(s: State, p: PortId) { p in s.ports && s.ports[p].linkUp }

  predicate SetsState(s: State, op: Op, p: PortId) { op.OpSetPortState? && op.id == p && p in s.ports }

  lemma CreatePortState(s: State, port: Port, capacity: nat, p: PortId)
    ensures var s' := CreatePort(s, port, capacity).0;
      var created := CreatesPort(s, OpCreatePort(port, capacity), p);
      && (AdminUp(s', p) <==> (created && port.adminEnabled) || AdminUp(s, p))
      && (LinkUp(s', p) <==> (created && port.linkUp) || LinkUp(s, p))
  {
  }

  lemma RemovePortState(s: State, id: PortId, p: PortId)
    ensures var s' := RemovePort(s, id).0;
      (AdminUp(s', p) <==> AdminUp(s, p) && p != id) && (LinkUp(s', p) <==> LinkUp(s, p) && p != id)
  {
    hide Pruned;
  }

  lemma SetPortStateState(s: State, id: PortId, admin: bool, link: bool, p: PortId)
    ensures var s' := SetPortState(s, id, admin, link).0;
      && (AdminUp(s', p) <==> if p == id && p in s.ports then admin else AdminUp(s, p))
      && (LinkUp(s', p) <==> if p == id && p in s.ports then link else LinkUp(s, p))
  {
  }

  lemma StateKept(s: State, s': State, p: PortId)
    requires SameConfigOfPorts(s, s')
    ensures (AdminUp(s', p) <==> AdminUp(s, p)) && (LinkUp(s', p) <==> LinkUp(s, p))
  {
    if p in s.ports { assert SamePort(s.ports[p], s'.ports[p]); }
  }

  lemma StateStep(s: State, op: Op, p: PortId)
    requires ValidState(s)
    ensures AdminUp(Perform(s, op), p) <==>
      || (SetsState(s, op, p) && op.admin) || (CreatesPort(s, op, p) && op.port.adminEnabled)
      || (AdminUp(s, p) && !SetsState(s, op, p) && op != OpRemovePort(p))
    ensures LinkUp(Perform(s, op), p) <==>
      || (SetsState(s, op, p) && op.link) || (CreatesPort(s, op, p) && op.port.linkUp)
      || (LinkUp(s, p) && !SetsState(s, op, p) && op != OpRemovePort(p))
  {
    hide ValidState, Perform, ProcessPacket, Dequeue, CreatePort, RemovePort, SetPortState, AdminUp, LinkUp;
    hide SameConfigOfPorts;
    Performed(s, op);
    match op
    case OpCreatePort(port, capacity) => CreatePortState(s, port, capacity, p);
    case OpRemovePort(id) => RemovePortState(s, id, p);
    case OpSetPortState(id, admin, link) => SetPortStateState(s, id, admin, link, p);
    case _ =>
      PortsUntouched(s, op);
      StateKept(s, Perform(s, op), p);
  }

  /** A port is enabled exactly if it was enabled last: when it was set, or when it was created. */
  lemma AdminHistory(macCapacity: nat, ops: seq<Op>, p: PortId)
    requires AllWellformed(ops)
    ensures Explained(macCapacity, ops, (s: State) => AdminUp(s, p),
      (s: State, op: Op) => (SetsState(s, op, p) && op.admin) || (CreatesPort(s, op, p) && op.port.adminEnabled),
      (s: State, op: Op) => SetsState(s, op, p) || op == OpRemovePort(p))
  {
    var fact := (s: State) => AdminUp(s, p);
    var sets := (s: State, op: Op) =>
      (SetsState(s, op, p) && op.admin) || (CreatesPort(s, op, p) && op.port.adminEnabled);
    var clears := (s: State, op: Op) => SetsState(s, op, p) || op == OpRemovePort(p);
    forall s, op | ValidState(s) && Wellformed(op) ensures Follows(s, op, Perform(s, op), fact, sets, clears) {
      StateStep(s, op, p);
    }
    Explain(macCapacity, ops, fact, sets, clears);
  }

  /** The same for its link. */
  lemma LinkHistory(macCapacity: nat, ops: seq<Op>, p: PortId)
    requires AllWellformed(ops)
    ensures Explained(macCapacity, ops, (s: State) => LinkUp(s, p),
      (s: State, op: Op) => (SetsState(s, op, p) && op.link) || (CreatesPort(s, op, p) && op.port.linkUp),
      (s: State, op: Op) => SetsState(s, op, p) || op == OpRemovePort(p))
  {
    var fact := (s: State) => LinkUp(s, p);
    var sets := (s: State, op: Op) => (SetsState(s, op, p) && op.link) || (CreatesPort(s, op, p) && op.port.linkUp);
    var clears := (s: State, op: Op) => SetsState(s, op, p) || op == OpRemovePort(p);
    forall s, op | ValidState(s) && Wellformed(op) ensures Follows(s, op, Perform(s, op), fact, sets, clears) {
      StateStep(s, op, p);
    }
    Explain(macCapacity, ops, fact, sets, clears);
  }

  // ---- Routes, neighbors, stations, faults ----

  /** The operation writes a route for `prefix`: its egress port exists. */
  predicate WritesRoute(s: State, op: Op, prefix: Ipv4Prefix.Prefix)
  {
    op.OpAddRoute? && op.route.prefix == prefix && op.route.port in s.ports
  }

  lemma RoutesUntouched(s: State, op: Op)
    requires ValidState(s) && !op.OpAddRoute? && !op.OpRemoveRoute?
    ensures Perform(s, op).routes == s.routes
  {
    hide Perform, ValidState;
    OpFrame(s, op);
  }

  lemma RouteEffects(routes: seq<RT.Route>, r: RT.Route, x: RT.Route, prefix: Ipv4Prefix.Prefix)
    requires RT.ValidTable(routes)
    ensures r in KeyedList.Upsert(routes, x, RT.RouteKey) <==> r == x || (r in routes && r.prefix != x.prefix)
    ensures r in KeyedList.Delete(routes, prefix, RT.RouteKey) <==> r in routes && r.prefix != prefix
  {
    hide KeyedList.Upsert, KeyedList.Delete, KeyedList.Find;
    KeyedList.UpsertIsMapUpdate(routes, x, r.prefix, RT.RouteKey);
    KeyedList.DeleteIsMapRemoval(routes, prefix, r.prefix, RT.RouteKey);
    RT.FindMember(routes, r);
    RT.FindMember(KeyedList.Upsert(routes, x, RT.RouteKey), r);
    RT.FindMember(KeyedList.Delete(routes, prefix, RT.RouteKey), r);
  }

  lemma RouteStep(s: State, op: Op, r: RT.Route)
    requires ValidState(s)
    ensures r in Perform(s, op).routes <==>
      || (WritesRoute(s, op, r.prefix) && op.route == r)
      || (r in s.routes && !WritesRoute(s, op, r.prefix) && op != OpRemoveRoute(r.prefix))
  {
    assert RT.ValidTable(s.routes);
    hide ProcessPacket, ValidState, Dequeue, RT.ValidTable, Pruned, KeyedList.Upsert, KeyedList.Delete, KeyedList.Find;
    match op
    case OpAddRoute(x) => RouteEffects(s.routes, r, x, x.prefix);
    case OpRemoveRoute(prefix) => RouteEffects(s.routes, r, r, prefix);
    case _ => RoutesUntouched(s, op);
  }

  /** A route is in the table exactly if it was written last for its prefix and not removed since. */
  lemma RouteHistory(macCapacity: nat, ops: seq<Op>, r: RT.Route)
    requires AllWellformed(ops)
    ensures Explained(macCapacity, ops, (s: State) => r in s.routes,
      (s: State, op: Op) => WritesRoute(s, op, r.prefix) && op.route == r,
      (s: State, op: Op) => WritesRoute(s, op, r.prefix) || op == OpRemoveRoute(r.prefix))
  {
    var fact := (s: State) => r in s.routes;
    var sets := (s: State, op: Op) => WritesRoute(s, op, r.prefix) && op.route == r;
    var clears := (s: State, op: Op) => WritesRoute(s, op, r.prefix) || op == OpRemoveRoute(r.prefix);
    forall s, op | ValidState(s) && Wellformed(op) ensures Follows(s, op, Perform(s, op), fact, sets, clears) {
      RouteStep(s, op, r);
    }
    Explain(macCapacity, ops, fact, sets, clears);
  }

  /** The operation teaches the neighbor `address` at `mac`, at time `at`: it is told so, or an
      ARP packet from that sender is handed to the control plane; the pair must be usable. */
  ghost predicate Teaches(s: State, op: Op, address: u32, mac: Mac, at: int)
    requires ValidState(s)
  {
    && RT.UsableAddress(address) && IsStation(mac)
    && (|| op == OpAddNeighbor(address, mac, at)
        || (op.OpProcess? && op.now == at && exists frame, a ::
              && Gets(s, op.ingress, op.bytes, frame) && ArpFor(s, op.ingress, frame, a)
              && a.senderIp == address && a.senderMac == mac))
  }

  ghost predicate Rewrites(s: State, op: Op, address: u32)
    requires ValidState(s)
  {
    op == OpRemoveNeighbor(address) || exists mac, at :: Teaches(s, op, address, mac, at)
  }

  lemma NeighborsUntouched(s: State, op: Op)
    requires ValidState(s) && !op.OpAddNeighbor? && !op.OpRemoveNeighbor? && !op.OpProcess?
    ensures Perform(s, op).arp == s.arp
  {
    hide Perform, ValidState;
    OpFrame(s, op);
  }

  lemma NeighborStep(s: State, op: Op, address: u32, e: ArpCache.Entry)
    requires ValidState(s)
    ensures (address in Perform(s, op).arp && Perform(s, op).arp[address] == e) <==>
      || Teaches(s, op, address, e.mac, e.learnedAt)
      || (address in s.arp && s.arp[address] == e && !Rewrites(s, op, address))
  {
    hide ProcessPacket, ValidState, Gets, ArpFor;
    match op
    case OpProcess(ingress, bytes, now) => ArpStep(s, ingress, bytes, now, address, e);
    case OpAddNeighbor(a, mac, at) =>
      assert Teaches(s, op, a, mac, at) <==> RT.UsableAddress(a) && IsStation(mac);
    case OpRemoveNeighbor(_) =>
    case _ =>
      hide Perform;
      NeighborsUntouched(s, op);
  }

  lemma ArpStep(s: State, ingress: PortId, bytes: Bytes, now: int, address: u32, e: ArpCache.Entry)
    requires ValidState(s)
    ensures var s', op := ProcessPacket(s, ingress, bytes, now).0, OpProcess(ingress, bytes, now);
      (address in s'.arp && s'.arp[address] == e) <==>
      || Teaches(s, op, address, e.mac, e.learnedAt)
      || (address in s.arp && s.arp[address] == e && !Rewrites(s, op, address))
  {
    hide ProcessPacket, Gets, ArpFor;
    ControlPlaneExactly(s, ingress, bytes, now);
    var s', op := ProcessPacket(s, ingress, bytes, now).0, OpProcess(ingress, bytes, now);
    GetsNeedsPort(s, ingress, bytes);
    if frame, a :| Gets(s, ingress, bytes, frame) && ArpFor(s, ingress, frame, a) {
      OnlyOne(s, ingress, bytes, frame, a);
      if RT.UsableAddress(a.senderIp) && IsStation(a.senderMac) {
        assert Teaches(s, op, a.senderIp, a.senderMac, now);
      }
    }
  }

  lemma GetsNeedsPort(s: State, ingress: PortId, bytes: Bytes)
    requires ValidState(s)
    ensures forall frame :: Gets(s, ingress, bytes, frame) ==>
      ingress in s.ports && Vlan.ValidConfig(s.ports[ingress].config)
  {
  }

  lemma OnlyOne(s: State, ingress: PortId, bytes: Bytes, frame: Frame, a: ArpPacket.Packet)
    requires ValidState(s) && Gets(s, ingress, bytes, frame) && ArpFor(s, ingress, frame, a)
    ensures forall f, b :: Gets(s, ingress, bytes, f) && ArpFor(s, ingress, f, b) ==> f == frame && b == a
  {
    hide AsicVerdict.Admitted, ArpPacket.Encoding, ArpPacket.Valid;
    OneFrame(s, ingress, bytes, frame);
    hide Gets;
    ArpPacket.ParseOfEncoding(a);
    forall b | ArpFor(s, ingress, frame, b) ensures b == a {
      ArpPacket.ParseOfEncoding(b);
    }
  }

  /** The neighbors are exactly those taught last and not removed since. */
  lemma NeighborHistory(macCapacity: nat, ops: seq<Op>, address: u32, e: ArpCache.Entry)
    requires AllWellformed(ops)
    ensures Explained(macCapacity, ops, (s: State) => address in s.arp && s.arp[address] == e,
      (s: State, op: Op) => ValidState(s) && Teaches(s, op, address, e.mac, e.learnedAt),
      (s: State, op: Op) => ValidState(s) && Rewrites(s, op, address))
  {
    var fact := (s: State) => address in s.arp && s.arp[address] == e;
    var sets := (s: State, op: Op) => ValidState(s) && Teaches(s, op, address, e.mac, e.learnedAt);
    var clears := (s: State, op: Op) => ValidState(s) && Rewrites(s, op, address);
    forall s, op | ValidState(s) && Wellformed(op) ensures Follows(s, op, Perform(s, op), fact, sets, clears) {
      NeighborStep(s, op, address, e);
    }
    Explain(macCapacity, ops, fact, sets, clears);
  }

  predicate SetsFaults(op: Op) { op.OpConfigureFaults? && op.config.latency >= 0 }

  lemma FaultStep(s: State, op: Op, c: FI.Config)
    requires ValidState(s)
    ensures Perform(s, op).faults.config == c <==>
      (SetsFaults(op) && op.config == c) || (s.faults.config == c && !SetsFaults(op))
  {
    hide ProcessPacket, ValidState, Dequeue;
    match op
    case OpProcess(ingress, bytes, now) => FaultsKept(s, ingress, bytes, now);
    case OpConfigureFaults(_) =>
    case _ =>
      hide Perform;
      OpFrame(s, op);
  }

  lemma FaultsKept(s: State, ingress: PortId, bytes: Bytes, now: int)
    requires ValidState(s)
    ensures ProcessPacket(s, ingress, bytes, now).0.faults.config == s.faults.config
  {
    if frame :| Gets(s, ingress, bytes, frame) {
      hide ProcessPacket, Switch, Gets;
      var s1 := TakenIn(s, ingress, bytes, frame, now);
      SwitchTables(s1, ingress, frame, s.faults.config.latency, now);
    } else {
      hide Switch, Parse;
      if Works(s, ingress) && FI.Inject(s.faults, ingress, bytes).1.Passed? {
        match Parse(FI.Inject(s.faults, ingress, bytes).1.bytes)
        case None =>
        case Some(frame) => assert !Gets(s, ingress, bytes, frame);
      }
    }
  }

  /** The injected faults are those configured last; a negative latency never is. */
  lemma FaultHistory(macCapacity: nat, ops: seq<Op>, c: FI.Config)
    requires AllWellformed(ops)
    ensures Explained(macCapacity, ops, (s: State) => s.faults.config == c,
      (s: State, op: Op) => SetsFaults(op) && op.config == c, (s: State, op: Op) => SetsFaults(op))
  {
    var fact := (s: State) => s.faults.config == c;
    var sets := (s: State, op: Op) => SetsFaults(op) && op.config == c;
    var clears := (s: State, op: Op) => SetsFaults(op);
    forall s, op | ValidState(s) && Wellformed(op) ensures Follows(s, op, Perform(s, op), fact, sets, clears) {
      FaultStep(s, op, c);
    }
    Explain(macCapacity, ops, fact, sets, clears);
  }

  /** The operation lets the switch hear station `key` on port `e.port` at time `e.learnedAt`. */
  ghost predicate Hears(s: State, op: Op, key: MacTable.Key, port: PortId, at: int)
    requires ValidState(s)
  {
    && op.OpProcess? && op.ingress == port && op.now == at
    && exists frame :: && Gets(s, port, op.bytes, frame) && frame.source == key.1
                       && Vlan.Classify(frame, s.ports[port].config) == Vlan.Accepted(key.0)
  }

  lemma StationsUntouched(s: State, op: Op)
    requires ValidState(s) && !op.OpProcess?
    ensures Perform(s, op).macs == s.macs
  {
    hide Perform, ValidState;
    OpFrame(s, op);
  }

  lemma StationStep(s: State, op: Op, key: MacTable.Key, e: MacTable.Entry)
    requires ValidState(s)
    ensures MacTable.Lookup(Perform(s, op).macs, key.0, key.1) == Some(e) <==>
      || (op.OpProcess? && Hears(s, op, key, op.ingress, op.now)
          && MacTable.Stores(s.macs, MacTable.Learn(key, op.ingress, op.now), key, e))
      || (MacTable.Lookup(s.macs, key.0, key.1) == Some(e)
          && !(op.OpProcess? && Hears(s, op, key, op.ingress, op.now)
               && MacTable.Displaces(s.macs, MacTable.Learn(key, op.ingress, op.now), key, e)))
  {
    hide MacTable.Stores, MacTable.Displaces, Hears, Perform, ProcessPacket, ValidState;
    Performed(s, op);
    match op
    case OpProcess(ingress, bytes, now) => HearStep(s, ingress, bytes, now, key, e);
    case _ => StationsUntouched(s, op);
  }

  lemma HearStep(s: State, ingress: PortId, bytes: Bytes, now: int, key: MacTable.Key, e: MacTable.Entry)
    requires ValidState(s)
    ensures var learn := MacTable.Learn(key, ingress, now);
      var heard := Hears(s, OpProcess(ingress, bytes, now), key, ingress, now);
      MacTable.Lookup(ProcessPacket(s, ingress, bytes, now).0.macs, key.0, key.1) == Some(e) <==>
      || (heard && MacTable.Stores(s.macs, learn, key, e))
      || (MacTable.Lookup(s.macs, key.0, key.1) == Some(e) && !(heard && MacTable.Displaces(s.macs, learn, key, e)))
  {
    hide ProcessPacket, Vlan.Classify, MacTable.Apply, MacTable.Stores, MacTable.Displaces, Gets;
    LearnedExactly(s, ingress, bytes, now);
    GetsNeedsPort(s, ingress, bytes);
    if frame :| Gets(s, ingress, bytes, frame) {
      OneFrame(s, ingress, bytes, frame);
      var c := Vlan.Classify(frame, s.ports[ingress].config);
      if c.Accepted? {
        MacTable.StoredStep(s.macs, MacTable.Learn((c.vlan, frame.source), ingress, now), key, e);
        OtherKeys(s.macs, (c.vlan, frame.source), ingress, now, key, e);
      }
    }
  }

  lemma OtherKeys(t: MacTable.Table, heard: MacTable.Key, port: PortId, at: int, key: MacTable.Key, e: MacTable.Entry)
    ensures heard != key ==>
      && !MacTable.Stores(t, MacTable.Learn(heard, port, at), key, e)
      && !MacTable.Displaces(t, MacTable.Learn(heard, port, at), key, e)
  {
  }

  /** The learned stations are exactly those heard last: on the port an accepted frame
      from them came in by, when the table had a place for them. */
  lemma StationHistory(macCapacity: nat, ops: seq<Op>, key: MacTable.Key, e: MacTable.Entry)
    requires AllWellformed(ops)
    ensures Explained(macCapacity, ops, (s: State) => MacTable.Lookup(s.macs, key.0, key.1) == Some(e),
      (s: State, op: Op) =>
        ValidState(s) && op.OpProcess? && Hears(s, op, key, op.ingress, op.now)
        && MacTable.Stores(s.macs, MacTable.Learn(key, op.ingress, op.now), key, e),
      (s: State, op: Op) =>
        ValidState(s) && op.OpProcess? && Hears(s, op, key, op.ingress, op.now)
        && MacTable.Displaces(s.macs, MacTable.Learn(key, op.ingress, op.now), key, e))
  {
    var fact := (s: State) => MacTable.Lookup(s.macs, key.0, key.1) == Some(e);
    var sets := (s: State, op: Op) =>
      ValidState(s) && op.OpProcess? && Hears(s, op, key, op.ingress, op.now)
      && MacTable.Stores(s.macs, MacTable.Learn(key, op.ingress, op.now), key, e);
    var clears := (s: State, op: Op) =>
      ValidState(s) && op.OpProcess? && Hears(s, op, key, op.ingress, op.now)
      && MacTable.Displaces(s.macs, MacTable.Learn(key, op.ingress, op.now), key, e);
    forall s, op | ValidState(s) && Wellformed(op) ensures Follows(s, op, Perform(s, op), fact, sets, clears) {
      StationStep(s, op, key, e);
    }
    Explain(macCapacity, ops, fact, sets, clears);
  }

  // ---- Answers ----

  /** Creating, removing and setting a port: when each is refused, and that a refusal changes nothing. */
  lemma PortAnswers(s: State, port: Port, capacity: nat, id: PortId, admin: bool, link: bool)
    ensures var (s', status) := CreatePort(s, port, capacity);
      && (status == InvalidArgument <==> capacity == 0)
      && (status == AlreadyExists <==> capacity > 0 && port.id in s.ports)
      && (status == Success <==> CreatesPort(s, OpCreatePort(port, capacity), port.id))
      && (status == Success ==>
            s'.ports == s.ports[port.id := port] && s'.queues == s.queues[port.id := Queue(capacity, [], false)])
      && (status != Success ==> s' == s)
    ensures var (s', status) := RemovePort(s, id);
      && status == (if id in s.ports then Success else NotFound)
      && id !in s'.ports && (status != Success ==> s' == s)
    ensures var (s', status) := SetPortState(s, id, admin, link);
      && status == (if id in s.ports then Success else NotFound)
      && (status == Success ==>
            && (Operational(s'.ports[id]) <==> admin && link)
            && s'.ports[id] == s.ports[id].(adminEnabled := s'.ports[id].adminEnabled, linkUp := s'.ports[id].linkUp)
            && s' == s.(ports := s.ports[id := s'.ports[id]]))
      && (status != Success ==> s' == s)
  {
    hide Pruned;
  }

  /** Creating and removing VLANs, joining them and giving them a router. */
  lemma VlanAnswers(s: State, vlan: VlanId, id: PortId, mac: Mac)
    ensures CreateVlan(s, vlan).1 == if vlan in s.vlans then AlreadyExists else Success
    ensures RemoveVlan(s, vlan).1 ==
      if vlan !in s.vlans then NotFound
      else if MembersOf(s, vlan) != [] || vlan in s.routers then DependencyMissing else Success
    ensures AddVlanMember(s, vlan, id).1 ==
      if vlan !in s.vlans || id !in s.ports then DependencyMissing
      else if id in MembersOf(s, vlan) then AlreadyExists
      else if vlan !in s.ports[id].config.allowed then InvalidArgument else Success
    ensures SetRouterInterface(s, vlan, mac).1 ==
      if vlan !in s.vlans then DependencyMissing else if !IsStation(mac) then InvalidArgument else Success
  {
  }

  /** Routes, neighbors, faults and dequeues. */
  lemma OtherAnswers(s: State, route: RT.Route, prefix: Ipv4Prefix.Prefix, address: u32, mac: Mac, at: int,
                     c: FI.Config, id: PortId)
    requires RT.ValidTable(s.routes)
    ensures AddRoute(s, route).1 == if route.port in s.ports then Success else DependencyMissing
    ensures RemoveRoute(s, prefix).1 == (if exists r :: r in s.routes && r.prefix == prefix then Success else NotFound)
    ensures AddNeighbor(s, address, mac, at).1 ==
      if RT.UsableAddress(address) && IsStation(mac) then Success else InvalidArgument
    ensures RemoveNeighbor(s, address).1 == if address in s.arp then Success else NotFound
    ensures ConfigureFaults(s, c).1 == if c.latency >= 0 then Success else InvalidArgument
    ensures ConfigureFaults(s, c).0.faults.processed == s.faults.processed
    ensures Dequeue(s, id).1 ==
      if id in s.queues && s.queues[id].items != [] then Some(s.queues[id].items[0]) else None
  {
    hide KeyedList.Upsert, KeyedList.Delete;
    var i := KeyedList.FirstPosition(s.routes, prefix, RT.RouteKey);
    hide KeyedList.Find;
    if i < |s.routes| {
      assert s.routes[i] in s.routes && s.routes[i].prefix == prefix;
    } else {
      forall r | r in s.routes ensures r.prefix != prefix {
        var j :| 0 <= j < |s.routes| && s.routes[j] == r;
        assert RT.RouteKey(s.routes[j]) != prefix;
      }
    }
  }

  // ---- Queues ----

  /** The packets in the queue of port `p`. */
  function Waiting(s: State, p: PortId): seq<Bytes>
  {
    if p in s.queues then s.queues[p].items else []
  }

  lemma CreatePortQueue(s: State, port: Port, capacity: nat, p: PortId)
    requires s.ports.Keys == s.queues.Keys
    ensures Waiting(CreatePort(s, port, capacity).0, p) == Waiting(s, p)
  {
  }

  lemma RemovePortQueue(s: State, id: PortId, p: PortId)
    requires s.ports.Keys == s.queues.Keys
    ensures Waiting(RemovePort(s, id).0, p) == if p == id then [] else Waiting(s, p)
  {
    hide Pruned;
  }

  lemma DequeueQueue(s: State, id: PortId, p: PortId)
    ensures Waiting(Dequeue(s, id).0, p) == if p == id && Waiting(s, p) != [] then Waiting(s, p)[1..] else Waiting(s, p)
  {
  }

  lemma ProcessQueue(s: State, ingress: PortId, bytes: Bytes, now: int, p: PortId)
    requires ValidState(s)
    ensures Waiting(s, p) <= Waiting(ProcessPacket(s, ingress, bytes, now).0, p)
  {
    hide ProcessPacket, ValidState;
    ProcessPacketStep(s, ingress, bytes, now);
  }

  lemma QueuesUntouched(s: State, op: Op)
    requires ValidState(s) && !op.OpProcess? && !op.OpCreatePort? && !op.OpRemovePort? && !op.OpDequeue?
    ensures Perform(s, op).queues == s.queues
  {
    hide Perform, ValidState;
    OpFrame(s, op);
  }

  /** What was dequeued from port `p` so far, since it was last removed. */
  ghost function TakenFrom(macCapacity: nat, ops: seq<Op>, p: PortId): seq<Bytes>
    requires AllWellformed(ops)
  {
    if ops == [] then []
    else
      var front, op := ops[..|ops| - 1], ops[|ops| - 1];
      var taken, waiting := TakenFrom(macCapacity, front, p), Waiting(RunOf(macCapacity, front), p);
      if op == OpRemovePort(p) then []
      else if op == OpDequeue(p) && waiting != [] then taken + [waiting[0]] else taken
  }

  /** The packets that port `p` sent or is about to send. */
  ghost function PortLog(macCapacity: nat, ops: seq<Op>, p: PortId): seq<Bytes>
    requires AllWellformed(ops)
  {
    TakenFrom(macCapacity, ops, p) + Waiting(RunOf(macCapacity, ops), p)
  }

  lemma WaitingStep(s: State, op: Op, p: PortId)
    requires ValidState(s) && op != OpRemovePort(p)
    ensures var before, after := Waiting(s, p), Waiting(Perform(s, op), p);
      if op == OpDequeue(p) && before != [] then after == before[1..]
      else if op.OpProcess? then before <= after else after == before
  {
    assert s.ports.Keys == s.queues.Keys;
    hide ValidState, Perform, ProcessPacket, CreatePort, RemovePort, Dequeue, SetPortState, Waiting;
    Performed(s, op);
    match op
    case OpCreatePort(port, capacity) => CreatePortQueue(s, port, capacity, p);
    case OpRemovePort(id) => RemovePortQueue(s, id, p);
    case OpDequeue(id) => DequeueQueue(s, id, p);
    case OpProcess(ingress, bytes, now) => ProcessQueue(s, ingress, bytes, now, p);
    case _ =>
      QueuesUntouched(s, op);
      SameWaiting(s, Perform(s, op), p);
  }

  lemma SameWaiting(s: State, s': State, p: PortId)
    requires s'.queues == s.queues
    ensures Waiting(s', p) == Waiting(s, p)
  {
  }

  lemma LogStep(macCapacity: nat, ops: seq<Op>, p: PortId)
    requires AllWellformed(ops) && ops != [] && ops[|ops| - 1] != OpRemovePort(p)
    ensures AllWellformed(ops[..|ops| - 1])
    ensures PortLog(macCapacity, ops[..|ops| - 1], p) <= PortLog(macCapacity, ops, p)
    ensures !ops[|ops| - 1].OpProcess? ==> PortLog(macCapacity, ops[..|ops| - 1], p) == PortLog(macCapacity, ops, p)
  {
    hide Perform, ValidState, Waiting, Wellformed;
    var front, op := ops[..|ops| - 1], ops[|ops| - 1];
    WaitingStep(RunOf(macCapacity, front), op, p);
    var taken, before, after := TakenFrom(macCapacity, front, p), Waiting(RunOf(macCapacity, front), p),
                                Waiting(RunOf(macCapacity, ops), p);
    if op == OpDequeue(p) && before != [] {
      assert taken + [before[0]] + before[1..] == taken + before;
    }
  }

  /** First in, first out over every run: as long as the port is not removed, its log only
      grows, and only packets make it grow; dequeues take from its front. */
  lemma {:induction false} PortLogGrows(macCapacity: nat, ops: seq<Op>, n: nat, p: PortId)
    requires AllWellformed(ops) && n <= |ops| && AllWellformed(ops[..n])
    requires forall j :: n <= j < |ops| ==> ops[j] != OpRemovePort(p)
    ensures PortLog(macCapacity, ops[..n], p) <= PortLog(macCapacity, ops, p)
    ensures (forall j :: n <= j < |ops| ==> !ops[j].OpProcess?) ==>
      PortLog(macCapacity, ops[..n], p) == PortLog(macCapacity, ops, p)
  {
    hide PortLog, Wellformed;
    if n == |ops| {
      assert ops[..n] == ops;
    } else {
      LogStep(macCapacity, ops, p);
      assert ops[..|ops| - 1][..n] == ops[..n];
      PortLogGrows(macCapacity, ops[..|ops| - 1], n, p);
    }
  }

  // ---- What the settings mean for packets ----

  /** A packet only ever leaves by ports that work. */
  lemma OutputsWork(s: State, ingress: PortId, bytes: Bytes, now: int, q: PortId)
    requires ValidState(s) && q in ProcessPacket(s, ingress, bytes, now).1.outputs
    ensures Works(s, q)
  {
    var r := ProcessPacket(s, ingress, bytes, now).1;
    hide ProcessPacket, ValidState;
    match r.disposition
    case Routed =>
      var arrived, packet, route, out, sent := AsicRouting.RoutedEndToEnd(s, ingress, bytes, now);
    case Switched => var frame := VlanIsolation(s, ingress, bytes, now);
    case Flooded => var frame := VlanIsolation(s, ingress, bytes, now);
    case Dropped => AsicRouting.DroppedLeavesQueues(s, ingress, bytes, now);
    case DeliveredToControlPlane => AsicRouting.DroppedLeavesQueues(s, ingress, bytes, now);
  }

  /** Operation `i` disables port `p` and no later one sets its state or creates it again. */
  ghost predicate DisabledSince(macCapacity: nat, ops: seq<Op>, p: PortId, i: nat)
    requires AllWellformed(ops)
  {
    && i < |ops| && ops[i].OpSetPortState? && ops[i].id == p && !ops[i].admin
    && AllWellformed(ops[..i]) && p in RunOf(macCapacity, ops[..i]).ports
    && forall j :: i < j < |ops| ==>
         !(ops[j].OpSetPortState? && ops[j].id == p) && !(ops[j].OpCreatePort? && ops[j].port.id == p)
  }

  lemma {:induction false} StaysDisabled(macCapacity: nat, ops: seq<Op>, p: PortId, i: nat)
    requires AllWellformed(ops) && DisabledSince(macCapacity, ops, p, i)
    ensures !AdminUp(RunOf(macCapacity, ops), p)
  {
    hide ValidState, Perform, Wellformed;
    var front, op := ops[..|ops| - 1], ops[|ops| - 1];
    var s := RunOf(macCapacity, front);
    StateStep(s, op, p);
    if i < |ops| - 1 {
      assert front[..i] == ops[..i];
      StaysDisabled(macCapacity, front, p, i);
    } else {
      assert front == ops[..i];
    }
  }

  /** An administrative shutdown holds over every run until the port is set or created
      again: whatever the link does, packets on the port are refused and none leaves by it. */
  lemma ShutdownHolds(macCapacity: nat, ops: seq<Op>, p: PortId, i: nat, ingress: PortId, bytes: Bytes, now: int)
    requires AllWellformed(ops) && DisabledSince(macCapacity, ops, p, i)
    ensures var s := RunOf(macCapacity, ops);
      && ProcessPacket(s, p, bytes, now) == (s, DroppedBy(IngressPortUnavailable, 0))
      && p !in ProcessPacket(s, ingress, bytes, now).1.outputs
  {
    hide PacketArrival, ValidState;
    var s := RunOf(macCapacity, ops);
    StaysDisabled(macCapacity, ops, p, i);
    hide ProcessPacket, RunOf, DisabledSince;
    if p in ProcessPacket(s, ingress, bytes, now).1.outputs {
      OutputsWork(s, ingress, bytes, now, p);
    }
    RefusedWhenDown(s, p, bytes, now);
  }

  lemma RefusedWhenDown(s: State, p: PortId, bytes: Bytes, now: int)
    requires ValidState(s) && !Works(s, p)
    ensures ProcessPacket(s, p, bytes, now) == (s, DroppedBy(IngressPortUnavailable, 0))
  {
    hide PacketArrival, ValidState;
  }

  lemma {:induction false} TakersIncluded(s: State, ids: seq<PortId>, size: nat, p: PortId)
    requires p in ids && Takes(s, p, size)
    ensures p in TakingPorts(s, ids, size)
  {
    var front, last := ids[..|ids| - 1], ids[|ids| - 1];
    assert ids == front + [last];
    if p in front { TakersIncluded(s, front, size, p); }
  }

  /** Membership means floods: with faults off, every frame for everybody in a VLAN reaches
      each of its other members that can take it. */
  lemma MemberGetsFloods(s: State, ingress: PortId, bytes: Bytes, now: int, frame: Frame, vlan: VlanId, p: PortId)
    requires ValidState(s) && FI.Quiet(s.faults) && Gets(s, ingress, bytes, frame)
    requires ForEverybody(s, ingress, frame, vlan, now)
    requires p in MembersOf(s, vlan) && p != ingress && Takes(s, p, |bytes|)
    ensures var r := ProcessPacket(s, ingress, bytes, now).1; r.disposition == Flooded && p in r.outputs
  {
    GetsNeedsPort(s, ingress, bytes);
    hide ProcessPacket, Takes, ValidState, Vlan.MemberVlan, L2.Without, TakingPorts;
    assert SomebodyTakes(s, ingress, frame, now, |bytes|);
    FloodedExactly(s, ingress, bytes, now);
    var f := VlanIsolation(s, ingress, bytes, now);
    assert f == frame;
    Vlan.ClassificationsAgree(frame, s.ports[ingress].config);
    WithoutLaws(ingress, MembersOf(s, vlan));
    TakersIncluded(s, L2.Without(ingress, MembersOf(s, vlan)), |bytes|, p);
  }
}
