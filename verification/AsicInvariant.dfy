/** The structural invariant of the switch holds in every state of every run. */
module AsicInvariant {
  import opened Basics
  import opened Ethernet
  import opened VirtualPort
  import opened BoundedQueue
  import opened Asic
  import L2 = L2Forwarding
  import Vlan
  import KeyedList
  import RT = RouteTable
  import Ipv4Prefix
  import Ipv4Packet
  import ArpPacket
  import Routing
  import FI = FaultInjector

  /** Two port values that differ in nothing but their counters. */
  ghost predicate SamePort(p: Port, p': Port)
  {
    p' == p.(counters := p'.counters)
  }

  /** What the data plane never touches: which ports exist and how they are
      configured, the VLANs with their members, the routers and the routes. */
  ghost predicate SameConfig(s: State, s': State)
  {
    && s'.ports.Keys == s.ports.Keys && (forall p :: p in s.ports ==> SamePort(s.ports[p], s'.ports[p]))
    && s'.vlans == s.vlans && s'.members == s.members && s'.routers == s.routers
    && s'.routes == s.routes && s'.arpLifetime == s.arpLifetime
  }

  /** Queues may only grow, within their capacity. */
  ghost predicate QueuesGrow(s: State, s': State)
  {
    && s'.queues.Keys == s.queues.Keys
    && forall p :: p in s.queues ==>
         && s'.queues[p].capacity == s.queues[p].capacity && s'.queues[p].closed == s.queues[p].closed
         && s.queues[p].items <= s'.queues[p].items
         && (QueueOk(s.queues[p]) ==> QueueOk(s'.queues[p]))
  }

  /** One step of the data plane. */
  ghost predicate DataStep(s: State, s': State)
  {
    && SameConfig(s, s') && QueuesGrow(s, s')
    && s'.macs.capacity == s.macs.capacity
    && (|s.macs.entries| <= s.macs.capacity ==> |s'.macs.entries| <= s'.macs.capacity)
  }

  lemma DataStepValid(s: State, s': State)
    requires ValidState(s) && DataStep(s, s')
    ensures ValidState(s')
  {
  }

  lemma DataStepTransitive(a: State, b: State, c: State)
    requires DataStep(a, b) && DataStep(b, c)
    ensures DataStep(a, c)
  {
  }

  /** A step on one port and its queue. */
  lemma PortStep(s: State, s': State, id: PortId, port: Port, q: PacketQueue)
    requires id in s.ports && id in s.queues && SamePort(s.ports[id], port)
    requires q.capacity == s.queues[id].capacity && q.closed == s.queues[id].closed
    requires s.queues[id].items <= q.items && (QueueOk(s.queues[id]) ==> QueueOk(q))
    requires s' == s.(faults := s'.faults, stats := s'.stats, ports := s.ports[id := port], queues := s.queues[id := q])
    ensures DataStep(s, s')
  {
  }

  lemma EnqueueOneStep(s: State, id: PortId, frame: Bytes)
    ensures DataStep(s, EnqueueOne(s, id, frame).0)
  {
    hide DataStep;
    var (s', charge, _) := EnqueueOne(s, id, frame);
    if Usable(s, id) {
      var size := match FI.Inject(s.faults, id, frame).1 case Passed(b, _, _) => |b| case Lost(_) => 0;
      var port := Transmit(s.ports[id], size).0;
      assert s.queues[id := s.queues[id]] == s.queues;
      match charge
      case Sent(bytes) => PortStep(s, s', id, port, TryEnqueue(s.queues[id], bytes).0);
      case OverMtu => PortStep(s, s', id, port, s.queues[id]);
      case _ => QuietStep(s, s');
    } else {
      QuietStep(s, s');
    }
  }

  lemma {:induction false} EnqueueAllStep(s: State, ids: seq<PortId>, frame: Bytes, latency: int)
    ensures DataStep(s, EnqueueAll(s, ids, frame, latency).state)
  {
    if ids != [] {
      hide EnqueueOne, DataStep;
      var front := ids[..|ids| - 1];
      EnqueueAllStep(s, front, frame, latency);
      var b := EnqueueAll(s, front, frame, latency);
      EnqueueOneStep(b.state, ids[|ids| - 1], frame);
      DataStepTransitive(s, b.state, EnqueueOne(b.state, ids[|ids| - 1], frame).0);
    }
  }

  lemma RouteStep(s: State, frame: Frame, latency: int, now: int)
    ensures DataStep(s, Route(s, frame, latency, now).0)
  {
    hide Ipv4Packet.Parse, Ipv4Packet.Valid, Routing.Forward, Routing.Encapsulate, Encoding, EnqueueAll, DataStep;
    var s' := Route(s, frame, latency, now).0;
    if s' == s.(stats := s'.stats) {
      QuietStep(s, s');
    } else {
      var fw := Routing.Forward(s.routes, Ipv4Packet.Parse(frame.payload).value);
      var e := Routing.Encapsulate(fw, s.ports[fw.port].mac, s.arpLifetime, s.arp, now);
      EnqueueAllStep(s, [fw.port], Encoding(e.frame), latency);
    }
  }

  lemma LearnStep(s: State, ingress: PortId, frame: Frame, now: int)
    requires ingress in s.ports && Vlan.ValidConfig(s.ports[ingress].config)
    ensures DataStep(s, s.(macs := Decision(s, ingress, frame, now).0))
  {
  }

  lemma SwitchStep(s: State, ingress: PortId, frame: Frame, latency: int, now: int)
    requires ingress in s.ports && Vlan.ValidConfig(s.ports[ingress].config)
    ensures DataStep(s, Switch(s, ingress, frame, latency, now).0)
  {
    hide Decision, DataStep, Route, EnqueueAll, Encoding, ArpPacket.Parse;
    var (macs, d) := Decision(s, ingress, frame, now);
    var s1 := s.(macs := macs);
    LearnStep(s, ingress, frame, now);
    var s2 := Switch(s, ingress, frame, latency, now).0;
    assert DataStep(s1, s2) by {
      match d
      case Drop(_, reason) => QuietStep(s1, s2);
      case ToControlPlane(_) => QuietStep(s1, s2);
      case RouteIpv4(_) => RouteStep(s1, frame, latency, now);
      case FloodInVlan(_, outputs) => EnqueueAllStep(s1, outputs, Encoding(frame), latency);
      case SwitchTo(_, outputs) => EnqueueAllStep(s1, outputs, Encoding(frame), latency);
    }
    DataStepTransitive(s, s1, s2);
  }

  /** A step that moves only counters, neighbors and the fault sequence. */
  lemma QuietStep(s: State, s': State)
    requires s' == s.(stats := s'.stats, arp := s'.arp, faults := s'.faults)
    ensures DataStep(s, s')
  {
  }

  lemma ReceivedStep(s: State, ingress: PortId, frame: Frame)
    requires ingress in s.ports
    ensures DataStep(s, Received(s, ingress, frame)) && ingress in Received(s, ingress, frame).ports
    ensures Received(s, ingress, frame).ports[ingress].config == s.ports[ingress].config
  {
  }

  lemma AfterFaultStep(s: State, ingress: PortId, bytes: Bytes, latency: int, now: int)
    requires ingress in s.ports && Vlan.ValidConfig(s.ports[ingress].config)
    ensures DataStep(s, AfterFault(s, ingress, bytes, latency, now).0)
  {
    hide Parse, DataStep, Switch, Received;
    var s' := AfterFault(s, ingress, bytes, latency, now).0;
    match Parse(bytes)
    case None => QuietStep(s, s');
    case Some(frame) =>
      ReceivedStep(s, ingress, frame);
      var s1 := Received(s, ingress, frame);
      if Receive(s.ports[ingress], |frame.payload|).1 {
        SwitchStep(s1, ingress, frame, latency, now);
        DataStepTransitive(s, s1, s');
      }
  }

  /** Processing a packet changes nothing but queue tails, learned addresses,
      neighbors, counters and the fault sequence. */
  lemma ProcessPacketStep(s: State, ingress: PortId, bytes: Bytes, now: int)
    requires ValidState(s)
    ensures DataStep(s, ProcessPacket(s, ingress, bytes, now).0)
  {
    hide DataStep, AfterFault;
    var s' := ProcessPacket(s, ingress, bytes, now).0;
    if ingress !in s.ports || !Operational(s.ports[ingress]) {
      QuietStep(s, s');
    } else {
      var s1 := Arrived(s, ingress, bytes);
      QuietStep(s, s1);
      match FI.Inject(s.faults, ingress, bytes).1
      case Lost(_) => QuietStep(s, s');
      case Passed(injected, latency, _) =>
        AfterFaultStep(s1, ingress, injected, latency, now);
        DataStepTransitive(s, s1, s');
    }
  }

  lemma ProcessPacketValid(s: State, ingress: PortId, bytes: Bytes, now: int)
    requires ValidState(s)
    ensures ValidState(ProcessPacket(s, ingress, bytes, now).0)
  {
    hide DataStep, ProcessPacket, ValidState;
    ProcessPacketStep(s, ingress, bytes, now);
    DataStepValid(s, ProcessPacket(s, ingress, bytes, now).0);
  }

  // ---- Control plane ----

  /** Neighbors, faults and counters are under no structural constraint. */
  lemma QuietChangeValid(s: State, s': State)
    requires ValidState(s) && s' == s.(stats := s'.stats, arp := s'.arp, faults := s'.faults)
    ensures ValidState(s')
  {
  }

  lemma {:induction false} WithoutLaws(port: PortId, ports: seq<PortId>)
    ensures forall p :: p in L2.Without(port, ports) <==> p in ports && p != port
    ensures L2.NoDuplicates(ports) ==> L2.NoDuplicates(L2.Without(port, ports))
  {
    if ports != [] {
      var front := ports[..|ports| - 1];
      WithoutLaws(port, front);
      assert ports == front + [ports[|ports| - 1]];
      if L2.NoDuplicates(ports) {
        assert L2.NoDuplicates(front) && ports[|ports| - 1] !in front;
      }
    }
  }

  lemma RemovePortValid(s: State, port: PortId)
    requires ValidState(s)
    ensures ValidState(RemovePort(s, port).0)
  {
    var s' := RemovePort(s, port).0;
    if port in s.ports {
      forall v | v in s'.members ensures MembersOk(s', v) {
        assert MembersOk(s, v);
        WithoutLaws(port, s.members[v]);
      }
    }
  }

  lemma CreatePortValid(s: State, port: Port, capacity: nat)
    requires ValidState(s) && ValidPort(port)
    ensures ValidState(CreatePort(s, port, capacity).0)
  {
    hide ValidPort, RT.ValidTable;
    var s' := CreatePort(s, port, capacity).0;
    forall v | v in s'.members ensures MembersOk(s', v) {
      assert MembersOk(s, v);
    }
  }

  lemma SetPortStateValid(s: State, port: PortId, admin: bool, link: bool)
    requires ValidState(s)
    ensures ValidState(SetPortState(s, port, admin, link).0)
  {
    hide RT.ValidTable;
    var s' := SetPortState(s, port, admin, link).0;
    forall v | v in s'.members ensures MembersOk(s', v) {
      assert MembersOk(s, v);
    }
  }

  lemma DequeueValid(s: State, port: PortId)
    requires ValidState(s)
    ensures ValidState(Dequeue(s, port).0)
  {
    hide ValidPort, RT.ValidTable;
    var s' := Dequeue(s, port).0;
    forall v | v in s'.members ensures MembersOk(s', v) {
      assert MembersOk(s, v);
    }
  }

  /** A change of VLANs, member lists and router interfaces only. */
  lemma VlanChangeValid(s: State, s': State)
    requires ValidState(s) && s' == s.(vlans := s'.vlans, members := s'.members, routers := s'.routers)
    requires s'.routers.Keys <= s'.vlans
    requires forall v :: v in s'.members ==> MembersOk(s', v)
    ensures ValidState(s')
  {
  }

  lemma CreateVlanValid(s: State, vlan: VlanId)
    requires ValidState(s)
    ensures ValidState(CreateVlan(s, vlan).0)
  {
    ListedVlansExist(s);
    hide ValidState, MembersOk;
    MembersKept(s, CreateVlan(s, vlan).0);
    VlanChangeValid(s, CreateVlan(s, vlan).0);
  }

  lemma WithListValid(s: State, vlan: VlanId)
    requires ValidState(s) && vlan in s.vlans
    ensures ValidState(WithList(s, vlan)) && vlan in WithList(s, vlan).members
  {
    if vlan !in s.members {
      ListedVlansExist(s);
      hide ValidState, MembersOk;
      var s' := s.(members := s.members[vlan := []]);
      MembersKept(s, s');
      VlanChangeValid(s, s');
    }
  }

  lemma VlanRemovedValid(s: State, vlan: VlanId)
    requires ValidState(s) && vlan in s.members && vlan !in s.routers
    ensures ValidState(s.(members := s.members - {vlan}, vlans := s.vlans - {vlan}))
  {
    ListedVlansExist(s);
    hide ValidState, MembersOk;
    var s' := s.(members := s.members - {vlan}, vlans := s.vlans - {vlan});
    MembersKept(s, s');
    VlanChangeValid(s, s');
  }

  lemma MemberAddedValid(s: State, vlan: VlanId, port: PortId)
    requires ValidState(s) && vlan in s.members && port in s.ports
    requires port !in s.members[vlan] && vlan in s.ports[port].config.allowed
    ensures ValidState(s.(members := s.members[vlan := s.members[vlan] + [port]]))
  {
    ListedVlansExist(s);
    var s' := s.(members := s.members[vlan := s.members[vlan] + [port]]);
    forall v | v in s'.members ensures MembersOk(s', v) {
      assert MembersOk(s, v);
    }
    hide ValidState;
    VlanChangeValid(s, s');
  }

  lemma RemoveVlanValid(s: State, vlan: VlanId)
    requires ValidState(s)
    ensures ValidState(RemoveVlan(s, vlan).0)
  {
    hide ValidState, WithList;
    if vlan in s.vlans {
      WithListValid(s, vlan);
      var s1 := WithList(s, vlan);
      if s1.members[vlan] == [] && vlan !in s1.routers {
        VlanRemovedValid(s1, vlan);
      }
    }
  }

  lemma SetRouterInterfaceValid(s: State, vlan: VlanId, mac: Mac)
    requires ValidState(s)
    ensures ValidState(SetRouterInterface(s, vlan, mac).0)
  {
    ListedVlansExist(s);
    hide ValidState, MembersOk;
    MembersKept(s, SetRouterInterface(s, vlan, mac).0);
    VlanChangeValid(s, SetRouterInterface(s, vlan, mac).0);
  }

  lemma ListedVlansExist(s: State)
    requires ValidState(s)
    ensures s.members.Keys <= s.vlans && s.routers.Keys <= s.vlans
  {
    assert forall v :: v in s.members ==> MembersOk(s, v);
  }

  lemma AddVlanMemberValid(s: State, vlan: VlanId, port: PortId)
    requires ValidState(s)
    ensures ValidState(AddVlanMember(s, vlan, port).0)
  {
    hide ValidState;
    if vlan in s.vlans && port in s.ports {
      WithListValid(s, vlan);
      var s1 := WithList(s, vlan);
      if port !in s1.members[vlan] && vlan in s1.ports[port].config.allowed {
        MemberAddedValid(s1, vlan, port);
      }
    }
  }

  lemma MembersKept(s: State, s': State)
    requires ValidState(s) && s'.ports == s.ports
    requires forall v :: v in s'.members ==>
      v in s'.vlans && (if v in s.members then s'.members[v] == s.members[v] else s'.members[v] == [])
    ensures forall v :: v in s'.members ==> MembersOk(s', v)
  {
    forall v | v in s'.members ensures MembersOk(s', v) {
      if v in s.members {
        assert MembersOk(s, v);
      }
    }
  }

  lemma RoutesValid(s: State, routes: seq<RT.Route>)
    requires ValidState(s) && RT.ValidTable(routes)
    ensures ValidState(s.(routes := routes))
  {
    hide RT.ValidTable, ValidPort;
    forall v | v in s.members ensures MembersOk(s.(routes := routes), v) {
      assert MembersOk(s, v);
    }
  }

  lemma AddRouteValid(s: State, route: RT.Route)
    requires ValidState(s) && RT.ValidRoute(route)
    ensures ValidState(AddRoute(s, route).0)
  {
    RT.UpsertKeepsValid(s.routes, route);
    hide KeyedList.Upsert, ValidState, RT.ValidTable;
    RoutesValid(s, KeyedList.Upsert(s.routes, route, RT.RouteKey));
  }

  lemma RemoveRouteValid(s: State, prefix: Ipv4Prefix.Prefix)
    requires ValidState(s)
    ensures ValidState(RemoveRoute(s, prefix).0)
  {
    assert RT.ValidTable(s.routes);
    hide KeyedList.Delete, KeyedList.Find, ValidState;
    KeyedList.DeleteIsMapRemoval(s.routes, prefix, prefix, RT.RouteKey);
    RoutesValid(s, KeyedList.Delete(s.routes, prefix, RT.RouteKey));
  }

  lemma ApplyValid(s: State, op: Op)
    requires ValidState(s) && Wellformed(op)
    ensures ValidState(Perform(s, op))
  {
    hide ValidState, ProcessPacket, DataStep, CreatePort, RemovePort, SetPortState, Dequeue;
    hide CreateVlan, RemoveVlan, AddVlanMember, SetRouterInterface, AddRoute, RemoveRoute;
    match op
    case OpProcess(ingress, bytes, now) => ProcessPacketValid(s, ingress, bytes, now);
    case OpCreatePort(port, capacity) => CreatePortValid(s, port, capacity);
    case OpRemovePort(id) => RemovePortValid(s, id);
    case OpSetPortState(id, admin, link) => SetPortStateValid(s, id, admin, link);
    case OpDequeue(id) => DequeueValid(s, id);
    case OpAddRoute(route) => AddRouteValid(s, route);
    case OpRemoveRoute(prefix) => RemoveRouteValid(s, prefix);
    case OpCreateVlan(vlan) => CreateVlanValid(s, vlan);
    case OpRemoveVlan(vlan) => RemoveVlanValid(s, vlan);
    case OpAddVlanMember(vlan, id) => AddVlanMemberValid(s, vlan, id);
    case OpSetRouterInterface(vlan, mac) => SetRouterInterfaceValid(s, vlan, mac);
    case _ => QuietChangeValid(s, Perform(s, op));
  }

  ghost predicate AllWellformed(ops: seq<Op>) { forall op :: op in ops ==> Wellformed(op) }

  /** The state after a run of control and data operations, in which every
      intermediate state is valid. */
  ghost function RunOf(macCapacity: nat, ops: seq<Op>): (s: State)
    requires AllWellformed(ops)
    ensures ValidState(s)
  {
    if ops == [] then PowerOn(macCapacity)
    else
      var s := RunOf(macCapacity, ops[..|ops| - 1]);
      ApplyValid(s, ops[|ops| - 1]);
      Perform(s, ops[|ops| - 1])
  }
}
