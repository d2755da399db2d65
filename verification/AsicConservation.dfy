/** Counter conservation over every run of the switch (counters do not wrap). */
module AsicConservation {
  import opened Basics
  import opened Ethernet
  import opened VirtualPort
  import opened BoundedQueue
  import opened Asic
  import opened AsicInvariant
  import L2 = L2Forwarding
  import Vlan
  import KeyedList
  import ArpCache
  import MacTable
  import Ipv4Packet
  import ArpPacket
  import Routing
  import FI = FaultInjector

  // ---- Sums over ports ----

  const LAST_PORT := 0xFFFF

  /** The sum of the values at keys one to `n`. */
  function Total(m: map<PortId, nat>, n: nat): nat
    requires n <= LAST_PORT
  {
    if n == 0 then 0 else Total(m, n - 1) + if n in m then m[n] else 0
  }

  lemma {:induction false} TotalSet(m: map<PortId, nat>, m': map<PortId, nat>, p: PortId, n: nat)
    requires n <= LAST_PORT && forall q :: q != p ==> (q in m <==> q in m') && (q in m ==> m'[q] == m[q])
    ensures Total(m', n) + (if p <= n && p in m then m[p] else 0) ==
            Total(m, n) + if p <= n && p in m' then m'[p] else 0
  {
    if n > 0 {
      TotalSet(m, m', p, n - 1);
    }
  }

  function SizeOf(items: seq<Bytes>): nat
  {
    if items == [] then 0 else |items[0]| + SizeOf(items[1..])
  }

  lemma {:induction false} SizeOfAppend(items: seq<Bytes>, x: Bytes)
    ensures SizeOf(items + [x]) == SizeOf(items) + |x|
  {
    if items == [] {
      assert items + [x] == [x];
    } else {
      assert (items + [x])[1..] == items[1..] + [x];
      SizeOfAppend(items[1..], x);
    }
  }

  /** The number of queued packets, and of queued bytes, per port. */
  function Counts(queues: map<PortId, PacketQueue>): map<PortId, nat>
  {
    map p | p in queues :: |queues[p].items|
  }

  function Sizes(queues: map<PortId, PacketQueue>): map<PortId, nat>
  {
    map p | p in queues :: SizeOf(queues[p].items)
  }

  function Errors(ports: map<PortId, Port>): map<PortId, nat>
  {
    map p | p in ports :: ports[p].counters.transmitErrors
  }

  function PacketsQueued(s: State): nat { Total(Counts(s.queues), LAST_PORT) }

  function BytesQueued(s: State): nat { Total(Sizes(s.queues), LAST_PORT) }

  function MtuErrors(s: State): nat { Total(Errors(s.ports), LAST_PORT) }

  function CountAt(queues: map<PortId, PacketQueue>, p: PortId): nat
  {
    if p in queues then |queues[p].items| else 0
  }

  function SizeAt(queues: map<PortId, PacketQueue>, p: PortId): nat
  {
    if p in queues then SizeOf(queues[p].items) else 0
  }

  /** Queues that differ at one port only differ in total by that port's share. */
  lemma OneQueueChanged(a: map<PortId, PacketQueue>, b: map<PortId, PacketQueue>, p: PortId)
    requires forall q :: q != p ==> (q in a <==> q in b) && (q in a ==> b[q] == a[q])
    ensures Total(Counts(b), LAST_PORT) + CountAt(a, p) == Total(Counts(a), LAST_PORT) + CountAt(b, p)
    ensures Total(Sizes(b), LAST_PORT) + SizeAt(a, p) == Total(Sizes(a), LAST_PORT) + SizeAt(b, p)
  {
    hide Total, SizeOf;
    TotalSet(Counts(a), Counts(b), p, LAST_PORT);
    TotalSet(Sizes(a), Sizes(b), p, LAST_PORT);
  }

  // ---- One egress request is charged once ----

  /** Exactly one of the five egress counters moves, by one, and which one is the charge. */
  lemma ChargedOnce(s: State, id: PortId, frame: Bytes)
    ensures var (s', charge, _) := EnqueueOne(s, id, frame);
      && s'.stats.faultDrops == s.stats.faultDrops + (if charge.FaultDropped? then 1 else 0)
      && s'.stats.resourceExhaustion == s.stats.resourceExhaustion + (if charge.Exhausted? then 1 else 0)
      && MtuErrors(s') == MtuErrors(s) + (if charge.OverMtu? then 1 else 0)
      && s'.stats.queueDrops == s.stats.queueDrops + (if charge.QueueFull? then 1 else 0)
      && s'.stats.egressPackets == s.stats.egressPackets + (if charge.Sent? then 1 else 0)
      && (charge.Skipped? <==> !Usable(s, id))
  {
    hide MtuErrors, FI.Corrupt, TryEnqueue;
    MtuCharged(s, id, frame);
  }

  lemma MtuCharged(s: State, id: PortId, frame: Bytes)
    ensures var (s', charge, _) := EnqueueOne(s, id, frame);
      MtuErrors(s') == MtuErrors(s) + if charge.OverMtu? then 1 else 0
  {
    hide Total, FI.Inject, TryEnqueue;
    var (s', charge, _) := EnqueueOne(s, id, frame);
    if charge.OverMtu? || charge.Sent? {
      TotalSet(Errors(s.ports), Errors(s'.ports), id, LAST_PORT);
    }
  }

  predicate Corrupts(f: FI.Faults, id: PortId, bytes: Bytes)
  {
    FI.Inject(f, id, bytes).1.Passed? && FI.Inject(f, id, bytes).1.corrupted
  }

  /** How many of the requested egresses come out corrupted. */
  function CorruptedAmong(s: State, ids: seq<PortId>, frame: Bytes, latency: int): nat
  {
    if ids == [] then 0
    else
      var front, id := ids[..|ids| - 1], ids[|ids| - 1];
      CorruptedAmong(s, front, frame, latency) +
      if Usable(s, id) && Corrupts(EnqueueAll(s, front, frame, latency).state.faults, id, frame) then 1 else 0
  }

  /** A batch injects faults once per operational requested port, and counts each corruption. */
  lemma {:induction false} CorruptionCounted(s: State, ids: seq<PortId>, frame: Bytes, latency: int)
    ensures var s' := EnqueueAll(s, ids, frame, latency).state;
      && s'.stats.corruptedPackets == s.stats.corruptedPackets + CorruptedAmong(s, ids, frame, latency)
      && s'.faults.processed == s.faults.processed + UsableCount(s, ids)
      && s'.stats.ingressBytes == s.stats.ingressBytes
  {
    if ids != [] {
      hide EnqueueOne, Corrupts;
      var front, id := ids[..|ids| - 1], ids[|ids| - 1];
      CorruptionCounted(s, front, frame, latency);
      var b := EnqueueAll(s, front, frame, latency);
      CorruptedOnce(b.state, id, frame);
      EnqueueAllStep(s, front, frame, latency);
      UsableSame(s, b.state, id);
    }
  }

  lemma CorruptedOnce(s: State, id: PortId, frame: Bytes)
    ensures var s' := EnqueueOne(s, id, frame).0;
      && s'.stats.corruptedPackets ==
         s.stats.corruptedPackets + (if Usable(s, id) && Corrupts(s.faults, id, frame) then 1 else 0)
      && s'.faults.processed == s.faults.processed + (if Usable(s, id) then 1 else 0)
      && s'.stats.ingressBytes == s.stats.ingressBytes
  {
    hide TryEnqueue, Transmit;
  }

  /** Everything an egress request can be charged to. */
  function Charged(s: State): nat
  {
    s.stats.faultDrops + s.stats.resourceExhaustion + MtuErrors(s) + s.stats.queueDrops + s.stats.egressPackets
  }

  function UsableCount(s: State, ids: seq<PortId>): nat
  {
    if ids == [] then 0 else UsableCount(s, ids[..|ids| - 1]) + if Usable(s, ids[|ids| - 1]) then 1 else 0
  }

  /** A batch charges each operational requested port exactly once. */
  lemma {:induction false} BatchCharged(s: State, ids: seq<PortId>, frame: Bytes, latency: int)
    ensures Charged(EnqueueAll(s, ids, frame, latency).state) == Charged(s) + UsableCount(s, ids)
  {
    if ids != [] {
      hide MtuErrors, EnqueueOne;
      var front, id := ids[..|ids| - 1], ids[|ids| - 1];
      BatchCharged(s, front, frame, latency);
      var b := EnqueueAll(s, front, frame, latency);
      ChargedOnce(b.state, id, frame);
      EnqueueAllStep(s, front, frame, latency);
      UsableSame(s, b.state, id);
    }
  }

  lemma UsableSame(s: State, s': State, id: PortId)
    requires DataStep(s, s')
    ensures Usable(s', id) <==> Usable(s, id)
  {
  }

  // ---- What enters the queues is what is counted ----

  /** Queued packets and bytes grew by exactly what was counted as sent. */
  ghost predicate Conserves(s: State, s': State)
  {
    && s'.stats.egressPackets - s.stats.egressPackets == PacketsQueued(s') - PacketsQueued(s)
    && s'.stats.egressBytes - s.stats.egressBytes == BytesQueued(s') - BytesQueued(s)
  }

  lemma EnqueueOneConserves(s: State, id: PortId, frame: Bytes)
    ensures Conserves(s, EnqueueOne(s, id, frame).0)
  {
    hide Total, SizeOf, FI.Inject, Transmit, Counts, Sizes;
    var (s', charge, _) := EnqueueOne(s, id, frame);
    if charge.Sent? {
      OneQueueChanged(s.queues, s'.queues, id);
      SizeOfAppend(s.queues[id].items, charge.bytes);
    }
  }

  /** The counters of packets that never reached an egress request. */
  datatype Tally = Tally(parseErrors: nat, routeMisses: nat, ttlExpirations: nat,
                         vlanDrops: nat, neighborMisses: nat, filteredFrames: nat)

  function TallyOf(t: Stats): Tally
  {
    Tally(t.parseErrors, t.routeMisses, t.ttlExpirations, t.vlanDrops, t.neighborMisses, t.filteredFrames)
  }

  function DropSum(t: Tally): nat
  {
    t.parseErrors + t.routeMisses + t.ttlExpirations + t.vlanDrops + t.neighborMisses + t.filteredFrames
  }

  lemma {:induction false} EnqueueAllConserves(s: State, ids: seq<PortId>, frame: Bytes, latency: int)
    ensures var s' := EnqueueAll(s, ids, frame, latency).state;
      Conserves(s, s') && TallyOf(s'.stats) == TallyOf(s.stats) && s'.stats.ingressPackets == s.stats.ingressPackets
  {
    if ids != [] {
      hide PacketsQueued, BytesQueued;
      var front, id := ids[..|ids| - 1], ids[|ids| - 1];
      EnqueueAllConserves(s, front, frame, latency);
      EnqueueOneConserves(EnqueueAll(s, front, frame, latency).state, id, frame);
      EnqueueOneDrops(EnqueueAll(s, front, frame, latency).state, id, frame);
      hide EnqueueOne;
    }
  }

  lemma EnqueueOneDrops(s: State, id: PortId, frame: Bytes)
    ensures TallyOf(EnqueueOne(s, id, frame).0.stats) == TallyOf(s.stats)
    ensures EnqueueOne(s, id, frame).0.stats.ingressPackets == s.stats.ingressPackets
  {
  }

  // ---- One packet ----

  /** The one counter that a packet dropped for `reason` moves, if the reason has one.
      `refused` says whether its ingress port refused its tagging. */
  function Tallied(t: Tally, reason: DropReason, refused: bool): Tally
  {
    match reason
    case MalformedFrame => t.(parseErrors := t.parseErrors + 1)
    case MalformedIpv4 => t.(parseErrors := t.parseErrors + 1)
    case RouteMiss => t.(routeMisses := t.routeMisses + 1)
    case TtlExpired => t.(ttlExpirations := t.ttlExpirations + 1)
    case NeighborMiss => t.(neighborMisses := t.neighborMisses + 1)
    case VlanRejected =>
      if refused then t.(vlanDrops := t.vlanDrops + 1) else t.(filteredFrames := t.filteredFrames + 1)
    case _ => t
  }

  /** The counters that egress requests and injected faults are charged to. */
  function EgressCounts(t: Stats): (nat, nat, nat, nat, nat, nat)
  {
    (t.faultDrops, t.resourceExhaustion, t.queueDrops, t.egressPackets, t.egressBytes, t.corruptedPackets)
  }

  /** Whether a packet with this result made egress requests at all. */
  predicate Requested(reason: DropReason) { reason == NoDrop || reason == QueueCongestion }

  /** `s'` follows `s` by at most one batch of egress requests after steps that touch
      no queue, and has counted the drop that `reason` reports. */
  ghost predicate Accounted(s: State, s': State, reason: DropReason, refused: bool)
  {
    && Conserves(s, s')
    && TallyOf(s'.stats) == Tallied(TallyOf(s.stats), reason, refused)
    && (Requested(reason) || EgressCounts(s'.stats) == EgressCounts(s.stats))
    && s'.stats.ingressPackets == s.stats.ingressPackets && s'.stats.ingressBytes == s.stats.ingressBytes
  }

  lemma EnqueueOutputsAccounted(s: State, disposition: Disposition, ids: seq<PortId>, frame: Bytes,
                                latency: int, refused: bool)
    ensures var (s', r) := EnqueueOutputs(s, disposition, ids, frame, latency); Accounted(s, s', r.reason, refused)
  {
    EnqueueAllConserves(s, ids, frame, latency);
    CorruptionCounted(s, ids, frame, latency);
    hide EnqueueAll, Conserves;
  }

  /** A result that touches no queue. */
  lemma NoQueueTouched(s: State, s': State, reason: DropReason, refused: bool)
    requires s'.queues == s.queues && s'.stats.ingressPackets == s.stats.ingressPackets
    requires s'.stats.ingressBytes == s.stats.ingressBytes
    requires EgressCounts(s'.stats) == EgressCounts(s.stats)
    requires TallyOf(s'.stats) == Tallied(TallyOf(s.stats), reason, refused)
    ensures Accounted(s, s', reason, refused)
  {
  }

  /** Steps before the batch that leave queues and counters alone do not matter. */
  lemma AccountedFrom(s: State, s2: State, s': State, reason: DropReason, refused: bool)
    requires s2.queues == s.queues && s2.stats == s.stats && Accounted(s2, s', reason, refused)
    ensures Accounted(s, s', reason, refused)
  {
  }

  lemma ForwardAccounted(s: State, fw: Routing.Forwarding, latency: int, now: int, refused: bool)
    requires fw.Forwarded? && fw.port in s.ports
    ensures var (s', r) := SendForwarded(s, fw, latency, now); Accounted(s, s', r.reason, refused)
  {
    hide Routing.Encapsulate, Encoding, EnqueueOutputs, Accounted;
    match Routing.Encapsulate(fw, s.ports[fw.port].mac, s.arpLifetime, s.arp, now)
    case Encapsulated(out) => EnqueueOutputsAccounted(s, Routed, [fw.port], Encoding(out), latency, refused);
    case _ =>
      var (s', r) := SendForwarded(s, fw, latency, now);
      NoQueueTouched(s, s', r.reason, refused);
  }

  lemma RouteAccounted(s: State, frame: Frame, latency: int, now: int, refused: bool)
    ensures var (s', r) := Route(s, frame, latency, now); Accounted(s, s', r.reason, refused)
  {
    hide Ipv4Packet.Parse, Ipv4Packet.Valid, Routing.Forward, SendForwarded, Accounted;
    match Ipv4Packet.Parse(frame.payload)
    case None => NoQueueTouched(s, s.(stats := CountParseError(s.stats)), MalformedIpv4, refused);
    case Some(p) =>
      match Routing.Forward(s.routes, p)
      case Dropped(_) =>
        var (s', r) := Route(s, frame, latency, now);
        NoQueueTouched(s, s', r.reason, refused);
      case Forwarded(_, id, _) =>
        if id in s.ports && Operational(s.ports[id]) {
          ForwardAccounted(s, Routing.Forward(s.routes, p), latency, now, refused);
        } else {
          NoQueueTouched(s, s, EgressPortUnavailable, refused);
        }
  }

  lemma SameQueuesSameTotals(s: State, s': State)
    requires s'.queues == s.queues
    ensures PacketsQueued(s') == PacketsQueued(s) && BytesQueued(s') == BytesQueued(s)
  {
  }

  /** A pipeline drop is a VLAN drop exactly when the port refused the frame's tagging. */
  lemma PipelineDropCounted(s: State, ingress: PortId, frame: Frame, now: int)
    requires ingress in s.ports && Vlan.ValidConfig(s.ports[ingress].config)
    ensures var d := Decision(s, ingress, frame, now).1;
      d.Drop? ==>
        var t := CountPipelineDrop(s.stats, d.reason);
        && TallyOf(t) == Tallied(TallyOf(s.stats), VlanRejected, Vlan.Classify(frame, s.ports[ingress].config).Dropped?)
        && EgressCounts(t) == EgressCounts(s.stats)
        && t.ingressPackets == s.stats.ingressPackets && t.ingressBytes == s.stats.ingressBytes
  {
    hide L2.Decide, MacTable.Learned;
  }

  lemma SwitchAccounted(s: State, ingress: PortId, frame: Frame, latency: int, now: int)
    requires ingress in s.ports && Vlan.ValidConfig(s.ports[ingress].config)
    ensures var (s', r) := Switch(s, ingress, frame, latency, now);
      Accounted(s, s', r.reason, Vlan.Classify(frame, s.ports[ingress].config).Dropped?)
  {
    hide Decision, Route, EnqueueOutputs, Encoding, ArpPacket.Parse, Accounted, Vlan.Classify, CountPipelineDrop;
    var (macs, d) := Decision(s, ingress, frame, now);
    var s2 := s.(macs := macs);
    var (s', r) := Switch(s, ingress, frame, latency, now);
    var refused := Vlan.Classify(frame, s.ports[ingress].config).Dropped?;
    match d
    case Drop(_, _) =>
      PipelineDropCounted(s, ingress, frame, now);
      NoQueueTouched(s, s', r.reason, refused);
    case ToControlPlane(_) => NoQueueTouched(s, s', r.reason, refused);
    case RouteIpv4(_) =>
      RouteAccounted(s2, frame, latency, now, refused);
      AccountedFrom(s, s2, s', r.reason, refused);
    case FloodInVlan(_, outputs) =>
      EnqueueOutputsAccounted(s2, Flooded, outputs, Encoding(frame), latency, refused);
      AccountedFrom(s, s2, s', r.reason, refused);
    case SwitchTo(_, outputs) =>
      EnqueueOutputsAccounted(s2, Switched, outputs, Encoding(frame), latency, refused);
      AccountedFrom(s, s2, s', r.reason, refused);
  }

  /** The bytes are a frame whose tagging the port refuses. */
  ghost predicate Refuses(c: Vlan.PortConfig, bytes: Bytes)
    requires Vlan.ValidConfig(c)
  {
    Parse(bytes).Some? && Vlan.Classify(Parse(bytes).value, c).Dropped?
  }

  lemma AfterFaultAccounted(s: State, ingress: PortId, bytes: Bytes, latency: int, now: int)
    requires ingress in s.ports && Vlan.ValidConfig(s.ports[ingress].config)
    ensures var (s', r) := AfterFault(s, ingress, bytes, latency, now);
      Accounted(s, s', r.reason, Refuses(s.ports[ingress].config, bytes))
  {
    hide Switch, Parse, Accounted, Vlan.Classify, Vlan.ValidConfig;
    var (s', r) := AfterFault(s, ingress, bytes, latency, now);
    var refused := Refuses(s.ports[ingress].config, bytes);
    match Parse(bytes)
    case None => NoQueueTouched(s, s', r.reason, refused);
    case Some(frame) =>
      var s1 := Received(s, ingress, frame);
      if Receive(s.ports[ingress], |frame.payload|).1 {
        SwitchAccounted(s1, ingress, frame, latency, now);
        AccountedFrom(s, s1, s', r.reason, refused);
      } else {
        NoQueueTouched(s, s', r.reason, refused);
      }
  }

  /** What one arrival does to the counters of drops and injected faults. */
  ghost predicate ArrivalCounted(s: State, s': State, size: nat, corrupted: bool, reason: DropReason, refused: bool)
  {
    && Conserves(s, s') && s'.stats.ingressPackets == s.stats.ingressPackets + 1
    && s'.stats.ingressBytes == s.stats.ingressBytes + size
    && TallyOf(s'.stats) == Tallied(TallyOf(s.stats), reason, refused)
    && (!Requested(reason) ==>
        && s'.stats.faultDrops == s.stats.faultDrops + (if reason == InjectedFault then 1 else 0)
        && s'.stats.resourceExhaustion == s.stats.resourceExhaustion + (if reason == ResourceExhausted then 1 else 0)
        && s'.stats.corruptedPackets == s.stats.corruptedPackets + (if corrupted then 1 else 0)
        && s'.stats.queueDrops == s.stats.queueDrops && s'.stats.egressPackets == s.stats.egressPackets)
  }

  /** What fault injection makes of the bytes is a frame whose tagging the port refuses. */
  ghost predicate RefusedOnArrival(s: State, ingress: PortId, bytes: Bytes)
    requires ingress in s.ports && Vlan.ValidConfig(s.ports[ingress].config)
  {
    var r := FI.Inject(s.faults, ingress, bytes).1;
    r.Passed? && Refuses(s.ports[ingress].config, r.bytes)
  }

  /** A packet that arrives on an operational port. */
  lemma ArrivalAccounted(s: State, ingress: PortId, bytes: Bytes, now: int)
    requires ingress in s.ports && Vlan.ValidConfig(s.ports[ingress].config)
    ensures var (s', r) := PacketArrival(s, ingress, bytes, now);
      ArrivalCounted(s, s', |bytes|, Corrupts(s.faults, ingress, bytes), r.reason, RefusedOnArrival(s, ingress, bytes))
  {
    hide AfterFault, PacketsQueued, BytesQueued, Vlan.ValidConfig, Refuses;
    var a := Arrived(s, ingress, bytes);
    SameQueuesSameTotals(s, a);
    match FI.Inject(s.faults, ingress, bytes).1
    case Lost(_) => SameQueuesSameTotals(s, PacketArrival(s, ingress, bytes, now).0);
    case Passed(injected, latency, _) =>
      AfterFaultAccounted(a, ingress, injected, latency, now);
      NotInjected(a, ingress, injected, latency, now);
  }

  /** Past fault injection, no result blames an injected fault. */
  lemma NotInjected(s: State, ingress: PortId, bytes: Bytes, latency: int, now: int)
    requires ingress in s.ports && Vlan.ValidConfig(s.ports[ingress].config)
    ensures AfterFault(s, ingress, bytes, latency, now).1.reason !in {InjectedFault, ResourceExhausted}
  {
    hide Parse, Ipv4Packet.Parse, ArpPacket.Parse, Decision, Routing.Forward, Routing.Encapsulate, EnqueueAll, Encoding;
  }

  /** Every packet that arrives on an operational port is counted once on ingress.  The
      reported reason names the one counter that moves, or that none does; and what the
      packet adds to the queues is what it adds to the egress counters.  Elsewhere
      nothing is counted. */
  lemma PacketAccounting(s: State, ingress: PortId, bytes: Bytes, now: int)
    requires ValidState(s)
    ensures var (s', r) := ProcessPacket(s, ingress, bytes, now);
      if ingress in s.ports && Operational(s.ports[ingress])
      then ArrivalCounted(s, s', |bytes|, Corrupts(s.faults, ingress, bytes), r.reason,
                          RefusedOnArrival(s, ingress, bytes))
      else s' == s && r.reason == IngressPortUnavailable
  {
    hide PacketArrival, ArrivalCounted, RefusedOnArrival;
    if ingress in s.ports && Operational(s.ports[ingress]) {
      ArrivalAccounted(s, ingress, bytes, now);
    }
  }

  // ---- Runs ----

  /** What left the queues: taken by `dequeue_packet`, or thrown away with a removed port. */
  datatype Ledger = Ledger(dequeuedPackets: nat, dequeuedBytes: nat, discardedPackets: nat, discardedBytes: nat)

  function Recorded(l: Ledger, s: State, op: Op): Ledger
  {
    if op.OpDequeue? && op.id in s.queues && s.queues[op.id].items != [] then
      l.(dequeuedPackets := l.dequeuedPackets + 1, dequeuedBytes := l.dequeuedBytes + |s.queues[op.id].items[0]|)
    else if op.OpRemovePort? && op.id in s.ports && op.id in s.queues then
      l.(discardedPackets := l.discardedPackets + |s.queues[op.id].items|,
         discardedBytes := l.discardedBytes + SizeOf(s.queues[op.id].items))
    else l
  }

  ghost function LedgerOf(macCapacity: nat, ops: seq<Op>): Ledger
    requires AllWellformed(ops)
  {
    if ops == [] then Ledger(0, 0, 0, 0)
    else Recorded(LedgerOf(macCapacity, ops[..|ops| - 1]), RunOf(macCapacity, ops[..|ops| - 1]), ops[|ops| - 1])
  }

  ghost predicate Balanced(s: State, l: Ledger)
  {
    && s.stats.egressPackets == PacketsQueued(s) + l.dequeuedPackets + l.discardedPackets
    && s.stats.egressBytes == BytesQueued(s) + l.dequeuedBytes + l.discardedBytes
    && DropSum(TallyOf(s.stats)) <= s.stats.ingressPackets
  }

  /** What leaves one queue moves to the ledger. */
  lemma OneQueueBalanced(s: State, s': State, l: Ledger, l': Ledger, p: PortId)
    requires Balanced(s, l) && s'.stats == s.stats
    requires forall q :: q != p ==>
      (q in s.queues <==> q in s'.queues) && (q in s.queues ==> s'.queues[q] == s.queues[q])
    requires l'.dequeuedPackets + l'.discardedPackets + CountAt(s'.queues, p) ==
             l.dequeuedPackets + l.discardedPackets + CountAt(s.queues, p)
    requires l'.dequeuedBytes + l'.discardedBytes + SizeAt(s'.queues, p) ==
             l.dequeuedBytes + l.discardedBytes + SizeAt(s.queues, p)
    ensures Balanced(s', l')
  {
    hide Total, SizeAt, CountAt, Counts, Sizes, DropSum;
    OneQueueChanged(s.queues, s'.queues, p);
  }

  lemma RemovePortBalanced(s: State, l: Ledger, id: PortId)
    requires s.ports.Keys == s.queues.Keys && Balanced(s, l)
    ensures Balanced(RemovePort(s, id).0, Recorded(l, s, OpRemovePort(id)))
  {
    hide Balanced, SizeOf, Pruned;
    if id in s.ports {
      OneQueueBalanced(s, RemovePort(s, id).0, l, Recorded(l, s, OpRemovePort(id)), id);
    }
  }

  lemma CreatePortBalanced(s: State, l: Ledger, port: Port, capacity: nat)
    requires s.ports.Keys == s.queues.Keys && Balanced(s, l)
    ensures Balanced(CreatePort(s, port, capacity).0, l)
  {
    hide Balanced, SizeOf;
    if capacity != 0 && port.id !in s.ports {
      SizeOfEmpty();
      OneQueueBalanced(s, CreatePort(s, port, capacity).0, l, l, port.id);
    }
  }

  lemma SizeOfEmpty()
    ensures SizeOf([]) == 0
  {
  }

  lemma DequeueBalanced(s: State, l: Ledger, id: PortId)
    requires Balanced(s, l)
    ensures Balanced(Dequeue(s, id).0, Recorded(l, s, OpDequeue(id)))
  {
    hide Balanced;
    if id in s.queues {
      OneQueueBalanced(s, Dequeue(s, id).0, l, Recorded(l, s, OpDequeue(id)), id);
    }
  }

  lemma StepBalanced(s: State, l: Ledger, op: Op)
    requires ValidState(s) && Wellformed(op) && Balanced(s, l)
    ensures Balanced(Perform(s, op), Recorded(l, s, op))
  {
    assert s.ports.Keys == s.queues.Keys;
    hide ProcessPacket, ValidState, CreatePort, RemovePort, Dequeue, Recorded, Balanced, Wellformed, Perform;
    PerformedAs(s, op);
    match op
    case OpProcess(ingress, bytes, now) =>
      ProcessBalanced(s, l, ingress, bytes, now);
      NotRecorded(l, s, op);
    case OpCreatePort(port, capacity) =>
      CreatePortBalanced(s, l, port, capacity);
      NotRecorded(l, s, op);
    case OpRemovePort(id) => RemovePortBalanced(s, l, id);
    case OpDequeue(id) => DequeueBalanced(s, l, id);
    case _ =>
      NotRecorded(l, s, op);
      ControlKeepsCounters(s, op);
      UncountedBalanced(s, Perform(s, op), l);
  }

  lemma PerformedAs(s: State, op: Op)
    requires ValidState(s)
    ensures op.OpProcess? ==> Perform(s, op) == ProcessPacket(s, op.ingress, op.bytes, op.now).0
    ensures op.OpCreatePort? ==> Perform(s, op) == CreatePort(s, op.port, op.capacity).0
    ensures op.OpRemovePort? ==> Perform(s, op) == RemovePort(s, op.id).0
    ensures op.OpDequeue? ==> Perform(s, op) == Dequeue(s, op.id).0
  {
    hide ProcessPacket, ValidState, CreatePort, RemovePort, Dequeue;
  }

  /** The other operations touch neither queues nor counters. */
  lemma ControlKeepsCounters(s: State, op: Op)
    requires ValidState(s) && !op.OpProcess? && !op.OpCreatePort? && !op.OpRemovePort? && !op.OpDequeue?
    ensures Perform(s, op).queues == s.queues && Perform(s, op).stats == s.stats
  {
    hide ProcessPacket, CreatePort, RemovePort, Dequeue, ValidState, KeyedList.Upsert, KeyedList.Delete, ArpCache.Added;
    match op
    case OpRemoveVlan(_) =>
    case OpAddVlanMember(_, _) =>
    case _ =>
  }

  lemma ProcessBalanced(s: State, l: Ledger, ingress: PortId, bytes: Bytes, now: int)
    requires ValidState(s) && Balanced(s, l)
    ensures Balanced(ProcessPacket(s, ingress, bytes, now).0, l)
  {
    hide ProcessPacket, PacketsQueued, BytesQueued, ValidState;
    PacketAccounting(s, ingress, bytes, now);
  }

  lemma UncountedBalanced(s: State, s': State, l: Ledger)
    requires Balanced(s, l) && s'.queues == s.queues && s'.stats == s.stats
    ensures Balanced(s', l)
  {
  }

  lemma NotRecorded(l: Ledger, s: State, op: Op)
    requires !op.OpDequeue? && !op.OpRemovePort?
    ensures Recorded(l, s, op) == l
  {
  }

  /** In every run the egress counters equal what is queued, plus what was
      dequeued, plus what was discarded with removed ports; and the drop counters
      never exceed the packets that arrived. */
  lemma {:induction false} RunBalanced(macCapacity: nat, ops: seq<Op>)
    requires AllWellformed(ops)
    ensures Balanced(RunOf(macCapacity, ops), LedgerOf(macCapacity, ops))
  {
    if ops == [] {
      EmptyTotals(LAST_PORT);
    } else {
      hide Balanced, Recorded, Perform;
      var front := ops[..|ops| - 1];
      RunBalanced(macCapacity, front);
      StepBalanced(RunOf(macCapacity, front), LedgerOf(macCapacity, front), ops[|ops| - 1]);
    }
  }

  lemma {:induction false} EmptyTotals(n: nat)
    requires n <= LAST_PORT
    ensures Total(map[], n) == 0
  {
    if n > 0 {
      EmptyTotals(n - 1);
    }
  }
}
