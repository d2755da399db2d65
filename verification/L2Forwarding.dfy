/** Layer-2 forwarding and the combined ingress pipeline (l2_forwarding.cpp, l2_l3_pipeline.cpp). */
module L2Forwarding {
  import opened Basics
  import opened Ethernet
  import Vlan
  import MacTable

  // ---- Flooding ----

  ghost predicate NoDuplicates(s: seq<PortId>)
  {
    forall i, j :: 0 <= i < j < |s| ==> s[i] != s[j]
  }

  /** The ports other than the ingress port, each once, in order of first appearance. */
  function FloodOutputs(ingress: PortId, ports: seq<PortId>): seq<PortId>
  {
    if ports == [] then []
    else
      var outputs, p := FloodOutputs(ingress, ports[..|ports| - 1]), ports[|ports| - 1];
      if p != ingress && p !in outputs then outputs + [p] else outputs
  }

  lemma {:induction false} FloodReachesExactly(ingress: PortId, ports: seq<PortId>)
    ensures NoDuplicates(FloodOutputs(ingress, ports))
    ensures forall p :: p in FloodOutputs(ingress, ports) <==> p in ports && p != ingress
  {
    if ports != [] {
      var front := ports[..|ports| - 1];
      FloodReachesExactly(ingress, front);
      assert ports == front + [ports[|ports| - 1]];
    }
  }

  function Without(ingress: PortId, ports: seq<PortId>): seq<PortId>
  {
    if ports == [] then []
    else Without(ingress, ports[..|ports| - 1]) + if ports[|ports| - 1] == ingress then [] else [ports[|ports| - 1]]
  }

  /** On a list without duplicates flooding only leaves out the ingress port. */
  lemma {:induction false} FloodKeepsOrder(ingress: PortId, ports: seq<PortId>)
    requires NoDuplicates(ports)
    ensures FloodOutputs(ingress, ports) == Without(ingress, ports)
  {
    if ports != [] {
      var front, p := ports[..|ports| - 1], ports[|ports| - 1];
      FloodKeepsOrder(ingress, front);
      FloodReachesExactly(ingress, front);
      assert p !in front;
    }
  }

  /** Leaving a port out keeps the order of the others: it works on each part of a list alone. */
  lemma {:induction false} WithoutAppend(ingress: PortId, a: seq<PortId>, b: seq<PortId>)
    ensures Without(ingress, a + b) == Without(ingress, a) + Without(ingress, b)
    ensures forall p :: Without(ingress, [p]) == if p == ingress then [] else [p]
  {
    forall p ensures Without(ingress, [p]) == if p == ingress then [] else [p] {
      assert [p][..0] == [];
    }
    if b == [] {
      assert a + b == a;
    } else {
      var front, last := b[..|b| - 1], b[|b| - 1];
      WithoutAppend(ingress, a, front);
      assert (a + b)[..|a + b| - 1] == a + front;
    }
  }

  method Flood(ingress: PortId, ports: seq<PortId>) returns (outputs: seq<PortId>)
    ensures outputs == FloodOutputs(ingress, ports)
  {
    outputs := [];
    for i := 0 to |ports|
      invariant outputs == FloodOutputs(ingress, ports[..i])
    {
      assert ports[..i + 1][..i] == ports[..i];
      if ports[i] != ingress && ports[i] !in outputs {
        outputs := outputs + [ports[i]];
      }
    }
    assert ports[..|ports|] == ports;
  }

  // ---- The forwarding decision ----

  datatype L2Drop = SameIngressPort | DestinationNotInVlan | NoEligibleEgressPort

  datatype L2Decision = KnownUnicast(port: PortId) | FloodTo(outputs: seq<PortId>) | L2Dropped(reason: L2Drop)

  function FloodDecision(ingress: PortId, ports: seq<PortId>): L2Decision
  {
    var outputs := FloodOutputs(ingress, ports);
    if outputs == [] then L2Dropped(NoEligibleEgressPort) else FloodTo(outputs)
  }

  function Decide(f: Frame, vlan: VlanId, ingress: PortId, ports: seq<PortId>, macs: MacTable.Table): L2Decision
  {
    if f.destination == BROADCAST_MAC || IsMulticast(f.destination) then FloodDecision(ingress, ports)
    else
      var entry := MacTable.Lookup(macs, vlan, f.destination);
      if entry.None? then FloodDecision(ingress, ports)
      else if entry.value.port == ingress then L2Dropped(SameIngressPort)
      else if entry.value.port !in ports then L2Dropped(DestinationNotInVlan)
      else KnownUnicast(entry.value.port)
  }

  // ---- The pipeline ----

  datatype Reason =
    TaggedFrameOnAccessPort | UntaggedFrameWithoutNativeVlan | VlanNotAllowed
  | InvalidSourceMac | StaticMacConflict | SameIngress | NotInVlan | NoEgress | UnsupportedRouterProtocol

  datatype Decision =
    | SwitchTo(vlan: VlanId, outputs: seq<PortId>)
    | FloodInVlan(vlan: VlanId, outputs: seq<PortId>)
    | RouteIpv4(vlan: VlanId)
    | ToControlPlane(vlan: VlanId)
    | Drop(inVlan: Option<VlanId>, reason: Reason)

  type Routers = map<VlanId, Mac>

  function VlanReason(r: Vlan.DropReason): Reason
  {
    match r
    case TaggedOnAccess => TaggedFrameOnAccessPort
    case UntaggedWithoutNative => UntaggedFrameWithoutNativeVlan
    case NotAllowed => VlanNotAllowed
  }

  function L2Reason(r: L2Drop): Reason
  {
    match r
    case SameIngressPort => SameIngress
    case DestinationNotInVlan => NotInVlan
    case NoEligibleEgressPort => NoEgress
  }

  /** The decision once the source address has been learned. */
  function Dispatch(f: Frame, vlan: VlanId, ingress: PortId, ports: seq<PortId>,
                    macs: MacTable.Table, routers: Routers): Decision
  {
    if vlan in routers && f.destination == routers[vlan] then
      if f.etherType == ETHERTYPE_IPV4 then RouteIpv4(vlan)
      else if f.etherType == ETHERTYPE_ARP then ToControlPlane(vlan)
      else Drop(Some(vlan), UnsupportedRouterProtocol)
    else
      match Decide(f, vlan, ingress, ports, macs)
      case L2Dropped(reason) => Drop(Some(vlan), L2Reason(reason))
      case KnownUnicast(port) => SwitchTo(vlan, [port])
      case FloodTo(outputs) => FloodInVlan(vlan, outputs)
  }

  function Process(f: Frame, ingress: PortId, config: Vlan.PortConfig, ports: seq<PortId>,
                   macs: MacTable.Table, routers: Routers, now: int): (MacTable.Table, Decision)
    requires Vlan.ValidConfig(config)
  {
    match Vlan.Classify(f, config)
    case Dropped(reason) => (macs, Drop(None, VlanReason(reason)))
    case Accepted(vlan) =>
      var (macs', learning) := MacTable.Learned(macs, vlan, f.source, ingress, now);
      if learning == MacTable.Rejected then (macs', Drop(Some(vlan), InvalidSourceMac))
      else if learning == MacTable.StaticConflict then (macs', Drop(Some(vlan), StaticMacConflict))
      else (macs', Dispatch(f, vlan, ingress, ports, macs', routers))
  }

  method ProcessIngress(f: Frame, ingress: PortId, config: Vlan.PortConfig, ports: seq<PortId>,
                        macTable: MacTable.LearningTable, routers: Routers, now: int) returns (d: Decision)
    requires Vlan.ValidConfig(config)
    modifies macTable
    ensures (macTable.State(), d) == Process(f, ingress, config, ports, old(macTable.State()), routers, now)
  {
    var classified := Vlan.Classify(f, config);
    if classified.Dropped? {
      return Drop(None, VlanReason(classified.reason));
    }
    var vlan := classified.vlan;
    var learning := macTable.LearnAddress(vlan, f.source, ingress, now);
    if learning == MacTable.Rejected {
      return Drop(Some(vlan), InvalidSourceMac);
    }
    if learning == MacTable.StaticConflict {
      return Drop(Some(vlan), StaticMacConflict);
    }
    if vlan in routers && f.destination == routers[vlan] {
      if f.etherType == ETHERTYPE_IPV4 {
        return RouteIpv4(vlan);
      }
      if f.etherType == ETHERTYPE_ARP {
        return ToControlPlane(vlan);
      }
      return Drop(Some(vlan), UnsupportedRouterProtocol);
    }
    var known := (vlan, f.destination) in macTable.entries;
    if f.destination == BROADCAST_MAC || IsMulticast(f.destination) || !known {
      var outputs := Flood(ingress, ports);
      return if outputs == [] then Drop(Some(vlan), NoEgress) else FloodInVlan(vlan, outputs);
    }
    var port := macTable.entries[(vlan, f.destination)].port;
    if port == ingress {
      return Drop(Some(vlan), SameIngress);
    }
    if port !in ports {
      return Drop(Some(vlan), NotInVlan);
    }
    return SwitchTo(vlan, [port]);
  }

  /** The ports a decision sends a frame to. */
  function Outputs(d: Decision): seq<PortId>
  {
    if d.SwitchTo? || d.FloodInVlan? then d.outputs else []
  }

  /** Layer-2 outputs are members of the VLAN the frame was accepted into, other
      than the ingress port, each at most once; and never empty. */
  lemma OutputsAreMembers(f: Frame, ingress: PortId, config: Vlan.PortConfig, ports: seq<PortId>,
                          macs: MacTable.Table, routers: Routers, now: int)
    requires Vlan.ValidConfig(config)
    ensures var d := Process(f, ingress, config, ports, macs, routers, now).1;
      && NoDuplicates(Outputs(d))
      && (forall p :: p in Outputs(d) ==> p in ports && p != ingress)
      && (d.FloodInVlan? ==> d.outputs == FloodOutputs(ingress, ports) != [])
      && (d.SwitchTo? || d.FloodInVlan? ==> d.vlan == Vlan.MemberVlan(f, config) && d.vlan in config.allowed)
  {
    hide FloodOutputs, MacTable.Learned, MacTable.Lookup;
    FloodReachesExactly(ingress, ports);
    if Vlan.Classify(f, config).Accepted? {
      Vlan.ClassificationsAgree(f, config);
    }
  }

  /** Where a frame that is not for the router goes: to the port its destination was
      heard on, if that is another listed port; to every other listed port if it is a
      group address or unknown; nowhere otherwise. */
  ghost predicate Relays(f: Frame, ingress: PortId, ports: seq<PortId>, known: Option<MacTable.Entry>,
                         vlan: VlanId, d: Decision)
  {
    var flooded := f.destination[0] % 2 == 1 || known.None?;
    var others := exists p :: p in ports && p != ingress;
    && (d.FloodInVlan? <==> flooded && others)
    && (d == Drop(Some(vlan), NoEgress) <==> flooded && !others)
    && (forall q :: d == SwitchTo(vlan, [q]) <==> !flooded && known.value.port == q && q in ports && q != ingress)
    && (d == Drop(Some(vlan), SameIngress) <==> !flooded && known.value.port == ingress)
    && (d == Drop(Some(vlan), NotInVlan) <==> !flooded && known.value.port != ingress && known.value.port !in ports)
    && (d.FloodInVlan? || d.SwitchTo? || d.Drop?)
    && (d.SwitchTo? ==> exists q :: d == SwitchTo(vlan, [q]))
    && (d.Drop? ==> d.reason in {NoEgress, SameIngress, NotInVlan})
  }

  lemma RelaysExactly(f: Frame, vlan: VlanId, ingress: PortId, ports: seq<PortId>,
                      macs: MacTable.Table, routers: Routers)
    requires vlan in routers ==> f.destination != routers[vlan]
    ensures Relays(f, ingress, ports, MacTable.Lookup(macs, vlan, f.destination), vlan,
                   Dispatch(f, vlan, ingress, ports, macs, routers))
  {
    hide FloodOutputs, MacTable.Lookup;
    FloodReachesExactly(ingress, ports);
    var outputs := FloodOutputs(ingress, ports);
    if outputs != [] {
      assert outputs[0] in outputs;
    }
    if p :| p in ports && p != ingress {
      assert p in outputs;
    }
    var d := Dispatch(f, vlan, ingress, ports, macs, routers);
    if d.SwitchTo? {
      assert d == SwitchTo(vlan, [d.outputs[0]]);
    }
    forall q | d == SwitchTo(vlan, [q]) ensures d.outputs[0] == q {
    }
  }

  /** The whole pipeline, decision by decision. */
  lemma PipelineExactly(f: Frame, ingress: PortId, config: Vlan.PortConfig, ports: seq<PortId>,
                        macs: MacTable.Table, routers: Routers, now: int)
    requires Vlan.ValidConfig(config)
    ensures var (macs', d) := Process(f, ingress, config, ports, macs, routers, now);
      match Vlan.Classify(f, config)
      case Dropped(_) =>
        && macs' == macs && d.Drop? && d.inVlan == None
        && d.reason == (if f.tag.None? then UntaggedFrameWithoutNativeVlan
                        else if config.isAccess then TaggedFrameOnAccessPort else VlanNotAllowed)
      case Accepted(vlan) =>
        var toRouter := vlan in routers && f.destination == routers[vlan];
        && macs' == MacTable.Apply(macs, MacTable.Learn((vlan, f.source), ingress, now))
        && (if !MacTable.Plausible(macs, (vlan, f.source), ingress) then
              d == Drop(Some(vlan), if IsStation(f.source) then StaticMacConflict else InvalidSourceMac)
            else if toRouter then
              && (d == RouteIpv4(vlan) <==> f.etherType == 0x0800)
              && (d == ToControlPlane(vlan) <==> f.etherType == 0x0806)
              && (d == Drop(Some(vlan), UnsupportedRouterProtocol) <==> f.etherType !in {0x0800, 0x0806})
            else Relays(f, ingress, ports, MacTable.Lookup(macs', vlan, f.destination), vlan, d))
  {
    hide Relays, Dispatch, MacTable.Learned;
    match Vlan.Classify(f, config)
    case Dropped(_) =>
    case Accepted(vlan) =>
      MacTable.LearnAnswer(macs, vlan, f.source, ingress, now);
      var macs' := MacTable.Learned(macs, vlan, f.source, ingress, now).0;
      if vlan in routers && f.destination == routers[vlan] {
        ToRouterExactly(f, vlan, ingress, ports, macs', routers);
      } else {
        RelaysExactly(f, vlan, ingress, ports, macs', routers);
      }
  }

  lemma ToRouterExactly(f: Frame, vlan: VlanId, ingress: PortId, ports: seq<PortId>,
                        macs: MacTable.Table, routers: Routers)
    requires vlan in routers && f.destination == routers[vlan]
    ensures var d := Dispatch(f, vlan, ingress, ports, macs, routers);
      && (d == RouteIpv4(vlan) <==> f.etherType == 0x0800)
      && (d == ToControlPlane(vlan) <==> f.etherType == 0x0806)
      && (d == Drop(Some(vlan), UnsupportedRouterProtocol) <==> f.etherType !in {0x0800, 0x0806})
  {
  }
}
