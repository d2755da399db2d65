/** Where the switch sends a packet, and what it sends. */
module AsicForwarding {
  import opened Basics
  import opened Ethernet
  import opened VirtualPort
  import opened BoundedQueue
  import opened Asic
  import opened AsicInvariant
  import L2 = L2Forwarding
  import Vlan
  import Wire
  import MacTable
  import Ipv4Packet
  import ArpPacket
  import Routing
  import FI = FaultInjector

  // ---- One batch of egress requests ----

  /** `p`'s queue gained exactly the bytes `out`. */
  ghost predicate Appended(s: State, s': State, p: PortId, out: Bytes)
  {
    p in s.queues && p in s'.queues && s'.queues[p] == s.queues[p].(items := s.queues[p].items + [out])
  }

  /** The frame as it is, or with the low bit of its first byte flipped. */
  ghost predicate Delivered(frame: Bytes, out: Bytes)
  {
    out == frame || (frame != [] && out == FI.Corrupt(frame))
  }

  ghost predicate DeliveredTo(s: State, s': State, p: PortId, frame: Bytes)
  {
    exists out :: Delivered(frame, out) && Appended(s, s', p, out)
  }

  ghost predicate SameQueue(s: State, s': State, p: PortId)
  {
    (p in s.queues <==> p in s'.queues) && (p in s.queues ==> s'.queues[p] == s.queues[p])
  }

  /** What a batch of requests did: its outputs are distinct operational requested
      ports, each of which got the frame once, and no other queue changed. */
  ghost predicate BatchEffect(s: State, b: Batch, ids: seq<PortId>, frame: Bytes)
  {
    && L2.NoDuplicates(b.outputs)
    && (forall p :: p in b.outputs ==> p in ids && Usable(s, p) && DeliveredTo(s, b.state, p, frame))
    && (forall p {:trigger SameQueue(s, b.state, p)} :: p !in b.outputs ==> SameQueue(s, b.state, p))
  }

  lemma EnqueueOneEffect(s: State, id: PortId, frame: Bytes)
    ensures var (s', charge, _) := EnqueueOne(s, id, frame);
      && (forall p {:trigger SameQueue(s, s', p)} :: p != id || !charge.Sent? ==> SameQueue(s, s', p))
      && (charge.Sent? ==> Usable(s, id) && Delivered(frame, charge.bytes) && Appended(s, s', id, charge.bytes))
  {
    FI.InjectedBytes(s.faults, id, frame);
  }

  lemma UsableKept(s: State, s': State, p: PortId)
    requires DataStep(s, s')
    ensures Usable(s', p) <==> Usable(s, p)
    ensures Usable(s, p) ==> s'.ports[p].mtu == s.ports[p].mtu
  {
    if p in s.ports { assert SamePort(s.ports[p], s'.ports[p]); }
  }

  lemma {:induction false} EnqueueAllEffect(s: State, ids: seq<PortId>, frame: Bytes, latency: int)
    requires L2.NoDuplicates(ids)
    ensures BatchEffect(s, EnqueueAll(s, ids, frame, latency), ids, frame)
  {
    if ids != [] {
      hide EnqueueOne, Delivered, Usable, DataStep, Appended, SameQueue, DeliveredTo;
      var front, id := ids[..|ids| - 1], ids[|ids| - 1];
      EnqueueAllEffect(s, front, frame, latency);
      EnqueueAllStep(s, front, frame, latency);
      var b := EnqueueAll(s, front, frame, latency);
      assert ids == front + [id];
      assert id !in b.outputs;
      hide BatchEffect;
      EnqueueOneEffect(b.state, id, frame);
      UsableKept(s, b.state, id);
      BatchExtended(s, b, EnqueueAll(s, ids, frame, latency), front, id, frame);
    }
  }

  lemma BatchExtended(s: State, b: Batch, b': Batch, front: seq<PortId>, id: PortId, frame: Bytes)
    requires BatchEffect(s, b, front, frame) && id !in b.outputs
    requires var (s', charge, _) := EnqueueOne(b.state, id, frame);
      && b'.state == s' && b'.outputs == (if charge.Sent? then b.outputs + [id] else b.outputs)
      && (forall p {:trigger SameQueue(b.state, s', p)} :: p != id || !charge.Sent? ==> SameQueue(b.state, s', p))
      && (charge.Sent? ==> Usable(s, id) && Delivered(frame, charge.bytes) && Appended(b.state, s', id, charge.bytes))
    ensures BatchEffect(s, b', front + [id], frame)
  {
    hide EnqueueOne, Delivered, Usable;
    var (s', charge, _) := EnqueueOne(b.state, id, frame);
    assert SameQueue(s, b.state, id);
    forall p | p in b.outputs ensures DeliveredTo(s, s', p, frame) {
      var out :| Delivered(frame, out) && Appended(s, b.state, p, out);
      assert SameQueue(b.state, s', p);
      assert Appended(s, s', p, out);
    }
    if charge.Sent? {
      assert Appended(s, s', id, charge.bytes);
      assert DeliveredTo(s, s', id, frame);
    }
    forall p | p !in b'.outputs ensures SameQueue(s, s', p) {
      assert SameQueue(s, b.state, p) && SameQueue(b.state, s', p);
    }
  }

  // ---- Exact floods ----

  /** A port that takes a frame of this size right now. */
  predicate Takes(s: State, p: PortId, size: nat)
  {
    Usable(s, p) && size <= s.ports[p].mtu && !s.queues[p].closed && |s.queues[p].items| < s.queues[p].capacity
  }

  function TakingPorts(s: State, ids: seq<PortId>, size: nat): seq<PortId>
  {
    if ids == [] then []
    else
      TakingPorts(s, ids[..|ids| - 1], size) + if Takes(s, ids[|ids| - 1], size) then [ids[|ids| - 1]] else []
  }

  lemma QuietEnqueueOne(s: State, id: PortId, frame: Bytes)
    requires FI.Quiet(s.faults)
    ensures var (s', charge, _) := EnqueueOne(s, id, frame);
      FI.Quiet(s'.faults) && (charge.Sent? <==> Takes(s, id, |frame|)) && (charge.Sent? ==> charge.bytes == frame)
  {
  }

  /** Without faults a batch reaches exactly the requested ports that take the frame, in order. */
  lemma {:induction false} QuietBatch(s: State, ids: seq<PortId>, frame: Bytes, latency: int)
    requires L2.NoDuplicates(ids) && FI.Quiet(s.faults)
    ensures var b := EnqueueAll(s, ids, frame, latency);
      b.outputs == TakingPorts(s, ids, |frame|) && FI.Quiet(b.state.faults)
  {
    if ids != [] {
      var front, id := ids[..|ids| - 1], ids[|ids| - 1];
      QuietBatch(s, front, frame, latency);
      var b := EnqueueAll(s, front, frame, latency);
      hide EnqueueOne, FI.Quiet, DataStep, BatchEffect;
      QuietEnqueueOne(b.state, id, frame);
      EnqueueAllStep(s, front, frame, latency);
      UsableKept(s, b.state, id);
      assert SameQueue(s, b.state, id) by { UntouchedQueue(s, front, id, frame, latency); }
    }
  }

  lemma UntouchedQueue(s: State, ids: seq<PortId>, id: PortId, frame: Bytes, latency: int)
    requires L2.NoDuplicates(ids) && id !in ids
    ensures SameQueue(s, EnqueueAll(s, ids, frame, latency).state, id)
  {
    EnqueueAllEffect(s, ids, frame, latency);
  }

  // ---- Into the pipeline ----

  /** The frame that fault injection let through, and the switch as the pipeline sees it. */
  ghost predicate Enters(s: State, ingress: PortId, bytes: Bytes, frame: Frame, s1: State)
  {
    && ingress in s.ports && Operational(s.ports[ingress])
    && var r := FI.Inject(s.faults, ingress, bytes).1;
       r.Passed? && Parse(r.bytes) == Some(frame) && s1 == Received(Arrived(s, ingress, bytes), ingress, frame)
  }

  /** On entry only counters and the fault sequence have moved. */
  lemma EntryState(s: State, ingress: PortId, bytes: Bytes, frame: Frame, s1: State)
    requires ValidState(s) && Enters(s, ingress, bytes, frame, s1)
    ensures DataStep(s, s1) && ValidState(s1) && s1.ports[ingress].config == s.ports[ingress].config
    ensures s1 == s.(ports := s1.ports, faults := s1.faults, stats := s1.stats)
    ensures FI.Quiet(s.faults) ==> FI.Quiet(s1.faults)
  {
    var a := Arrived(s, ingress, bytes);
    QuietStep(s, a);
    ReceivedStep(a, ingress, frame);
    DataStepTransitive(s, a, s1);
    DataStepValid(s, s1);
  }

  lemma Entry(s: State, ingress: PortId, bytes: Bytes, now: int) returns (frame: Frame, s1: State)
    requires ValidState(s) && ProcessPacket(s, ingress, bytes, now).1.disposition != Dropped
    ensures Enters(s, ingress, bytes, frame, s1) && ValidState(s1)
    ensures ProcessPacket(s, ingress, bytes, now) ==
            Switch(s1, ingress, frame, FI.Inject(s.faults, ingress, bytes).1.latency, now)
  {
    hide Switch, Parse;
    var a := Arrived(s, ingress, bytes);
    frame := Parse(FI.Inject(s.faults, ingress, bytes).1.bytes).value;
    s1 := Received(a, ingress, frame);
    EntryState(s, ingress, bytes, frame, s1);
  }

  // ---- VLAN isolation ----

  lemma {:induction false} TakingPortsSame(s: State, s1: State, ids: seq<PortId>, size: nat)
    requires DataStep(s, s1) && s1.queues == s.queues
    ensures TakingPorts(s1, ids, size) == TakingPorts(s, ids, size)
  {
    if ids != [] {
      TakingPortsSame(s, s1, ids[..|ids| - 1], size);
      UsableKept(s, s1, ids[|ids| - 1]);
    }
  }

  /** Everything a layer-2 delivery promises, relative to the state before the packet. */
  ghost predicate StaysInVlan(s: State, s': State, r: Result, ingress: PortId, frame: Frame)
    requires ingress in s.ports && Vlan.ValidConfig(s.ports[ingress].config)
  {
    var config := s.ports[ingress].config;
    var vlan := Vlan.MemberVlan(frame, config);
    && Vlan.Classify(frame, config) == Vlan.Accepted(vlan)
    && L2.NoDuplicates(r.outputs)
    && (forall p :: p in r.outputs ==>
          p in MembersOf(s, vlan) && p != ingress && Usable(s, p) && DeliveredTo(s, s', p, Encoding(frame)))
    && (forall p {:trigger SameQueue(s, s', p)} :: p !in r.outputs ==> SameQueue(s, s', p))
  }

  lemma AcceptedByPipeline(s: State, ingress: PortId, frame: Frame, now: int)
    requires ingress in s.ports && Vlan.ValidConfig(s.ports[ingress].config)
    requires !Decision(s, ingress, frame, now).1.Drop?
    ensures var config := s.ports[ingress].config;
      Vlan.Classify(frame, config) == Vlan.Accepted(Vlan.MemberVlan(frame, config))
  {
    hide L2.Dispatch, MacTable.Learned;
    var config := s.ports[ingress].config;
    if Vlan.Classify(frame, config).Accepted? {
      Vlan.ClassificationsAgree(frame, config);
    }
  }

  lemma DecidedOutputs(s: State, ingress: PortId, frame: Frame, now: int)
    requires ingress in s.ports && Vlan.ValidConfig(s.ports[ingress].config)
    ensures var d := Decision(s, ingress, frame, now).1;
      var members := MembersOf(s, Vlan.MemberVlan(frame, s.ports[ingress].config));
      && (d.SwitchTo? || d.FloodInVlan? ==>
            L2.NoDuplicates(d.outputs) && forall p :: p in d.outputs ==> p in members && p != ingress)
      && (d.FloodInVlan? ==> d.outputs == L2.FloodOutputs(ingress, members))
  {
    hide L2.Process, L2.FloodOutputs, Vlan.MemberVlan;
    var config := s.ports[ingress].config;
    L2.OutputsAreMembers(frame, ingress, config, MembersOf(s, Vlan.MemberVlan(frame, config)), s.macs, s.routers, now);
  }

  /** `s1` differs from `s` only by what a packet's arrival on `ingress` changes. */
  ghost predicate EntryOf(s: State, s1: State, ingress: PortId)
  {
    && ingress in s.ports && ingress in s1.ports && Vlan.ValidConfig(s.ports[ingress].config)
    && DataStep(s, s1) && s1 == s.(ports := s1.ports, faults := s1.faults, stats := s1.stats)
    && s1.ports[ingress].config == s.ports[ingress].config
  }

  lemma SwitchedInVlan(s: State, s1: State, ingress: PortId, frame: Frame, latency: int, now: int)
    requires EntryOf(s, s1, ingress)
    requires var r := Switch(s1, ingress, frame, latency, now).1; r.disposition == Switched || r.disposition == Flooded
    ensures var (s', r) := Switch(s1, ingress, frame, latency, now); StaysInVlan(s, s', r, ingress, frame)
  {
    hide Encoding, EnqueueAll, Decision, Switch, Vlan.Classify, Vlan.MemberVlan, Vlan.ValidConfig;
    NotLayerTwo(s1, ingress, frame, latency, now);
    AcceptedByPipeline(s1, ingress, frame, now);
    DecidedOutputs(s1, ingress, frame, now);
    var (macs, d) := Decision(s1, ingress, frame, now);
    var s2 := s1.(macs := macs);
    var b := EnqueueAll(s2, d.outputs, Encoding(frame), latency);
    EnqueueAllEffect(s2, d.outputs, Encoding(frame), latency);
    SameStart(s, s1, s2, b, d.outputs, Encoding(frame));
  }

  /** Without faults a flood reaches exactly the members that take the frame, in order. */
  lemma QuietFlood(s: State, s1: State, ingress: PortId, frame: Frame, latency: int, now: int)
    requires EntryOf(s, s1, ingress) && FI.Quiet(s1.faults)
    requires Switch(s1, ingress, frame, latency, now).1.disposition == Flooded
    ensures Switch(s1, ingress, frame, latency, now).1.outputs ==
      TakingPorts(s, L2.FloodOutputs(ingress, MembersOf(s, Vlan.MemberVlan(frame, s.ports[ingress].config))),
                  |Encoding(frame)|)
  {
    hide Encoding, EnqueueAll, Decision, Switch, L2.FloodOutputs, TakingPorts, Vlan.MemberVlan;
    DecidedOutputs(s1, ingress, frame, now);
    NotLayerTwo(s1, ingress, frame, latency, now);
    var (macs, d) := Decision(s1, ingress, frame, now);
    var s2 := s1.(macs := macs);
    LearnStep(s1, ingress, frame, now);
    QuietBatch(s2, d.outputs, Encoding(frame), latency);
    DataStepTransitive(s, s1, s2);
    TakingPortsSame(s, s2, d.outputs, |Encoding(frame)|);
  }

  /** A batch that starts from untouched queues has the same effect seen from before the packet. */
  lemma SameStart(s: State, s1: State, s2: State, b: Batch, ids: seq<PortId>, frame: Bytes)
    requires DataStep(s, s1) && s1.queues == s.queues && s2 == s1.(macs := s2.macs)
    requires BatchEffect(s2, b, ids, frame)
    ensures BatchEffect(s, b, ids, frame)
  {
    hide Delivered, DataStep;
    forall p | p in b.outputs ensures Usable(s, p) && DeliveredTo(s, b.state, p, frame) {
      UsableKept(s, s1, p);
      var out :| Delivered(frame, out) && Appended(s2, b.state, p, out);
      assert Appended(s, b.state, p, out);
    }
    forall p | p !in b.outputs ensures SameQueue(s, b.state, p) {
      assert SameQueue(s2, b.state, p);
    }
  }

  /** Only the two layer-2 decisions lead to a switched or flooded result. */
  lemma NotLayerTwo(s: State, ingress: PortId, frame: Frame, latency: int, now: int)
    requires ingress in s.ports && Vlan.ValidConfig(s.ports[ingress].config)
    requires var r := Switch(s, ingress, frame, latency, now).1; r.disposition == Switched || r.disposition == Flooded
    ensures var (macs, d) := Decision(s, ingress, frame, now);
      var (s', r) := Switch(s, ingress, frame, latency, now);
      && (r.disposition == Switched ==> d.SwitchTo?) && (r.disposition == Flooded ==> d.FloodInVlan?)
      && var b := EnqueueAll(s.(macs := macs), d.outputs, Encoding(frame), latency);
         s' == b.state && r.outputs == b.outputs
  {
    hide EnqueueAll, Decision, Ipv4Packet.Parse, Routing.Forward, Routing.Encapsulate, Encoding, ArpPacket.Parse;
  }

  /** VLAN isolation: a switched or flooded frame reaches only operational members
      of the VLAN it was accepted into, other than its ingress port, once each;
      no other queue changes.  With fault injection off, a flood reaches exactly
      the members whose MTU fits and whose queue has room, in member order. */
  lemma VlanIsolation(s: State, ingress: PortId, bytes: Bytes, now: int) returns (frame: Frame)
    requires ValidState(s)
    requires var r := ProcessPacket(s, ingress, bytes, now).1; r.disposition == Switched || r.disposition == Flooded
    ensures ingress in s.ports && FI.Inject(s.faults, ingress, bytes).1.Passed?
    ensures Parse(FI.Inject(s.faults, ingress, bytes).1.bytes) == Some(frame)
    ensures var (s', r) := ProcessPacket(s, ingress, bytes, now);
      && StaysInVlan(s, s', r, ingress, frame)
      && (FI.Quiet(s.faults) && r.disposition == Flooded ==>
            var members := MembersOf(s, Vlan.MemberVlan(frame, s.ports[ingress].config));
            r.outputs == TakingPorts(s, L2.Without(ingress, members), |bytes|))
  {
    hide Switch, TakingPorts, StaysInVlan;
    var s1;
    frame, s1 := Entry(s, ingress, bytes, now);
    EntryState(s, ingress, bytes, frame, s1);
    var latency := FI.Inject(s.faults, ingress, bytes).1.latency;
    SwitchedInVlan(s, s1, ingress, frame, latency, now);
    if FI.Quiet(s.faults) && ProcessPacket(s, ingress, bytes, now).1.disposition == Flooded {
      QuietFlood(s, s1, ingress, frame, latency, now);
    }
    FI.InjectedBytes(s.faults, ingress, bytes);
    EncodingOfParse(FI.Inject(s.faults, ingress, bytes).1.bytes);
    var vlan := Vlan.MemberVlan(frame, s.ports[ingress].config);
    if vlan in s.members { assert MembersOk(s, vlan); }
    L2.FloodKeepsOrder(ingress, MembersOf(s, vlan));
  }

  // ---- What a receiver makes of a relayed frame ----

  /** The frame with the low bit of its first destination byte flipped. */
  function Misaddressed(f: Frame): Frame
  {
    f.(destination := FI.Corrupt(f.destination))
  }

  /** Injected corruption reaches nothing but the destination address. */
  lemma CorruptedFrame(f: Frame)
    requires Ethernet.Valid(f) && !Ambiguous(f)
    ensures FI.Corrupt(Encoding(f)) == Encoding(Misaddressed(f))
    ensures Parse(FI.Corrupt(Encoding(f))) == Some(Misaddressed(f))
  {
    hide Parse, Wire.Encode, TagToTci;
    FrameRoundTrip(Misaddressed(f));
    var d := FI.Corrupt(f.destination);
    var rest := Encoding(f)[6..];
    assert Encoding(f) == f.destination + rest;
    assert Encoding(Misaddressed(f)) == d + rest;
    assert FI.Corrupt(Encoding(f)) == [FI.FlipLowBit(f.destination[0])] + Encoding(f)[1..];
    assert Encoding(f)[1..] == f.destination[1..] + rest;
  }

  lemma DeliveredFrame(out: Frame, sent: Bytes)
    requires Ethernet.Valid(out) && !Ambiguous(out) && Delivered(Encoding(out), sent)
    ensures Parse(sent) == Some(out) || Parse(sent) == Some(Misaddressed(out))
  {
    FrameRoundTrip(out);
    CorruptedFrame(out);
  }

  /** Frames leave tagged or untagged as they came.  So for every output port, a receiver
      configured like that port accepts the delivered frame into the same VLAN if and
      only if it takes frames tagged that way for that VLAN. */
  lemma RelayedVlan(s: State, ingress: PortId, bytes: Bytes, now: int, p: PortId)
    returns (vlan: VlanId, sent: Bytes, arrived: Frame, relayed: Frame)
    requires ValidState(s)
    requires var r := ProcessPacket(s, ingress, bytes, now).1;
      (r.disposition == Switched || r.disposition == Flooded) && p in r.outputs
    ensures ingress in s.ports && p in s.ports && Appended(s, ProcessPacket(s, ingress, bytes, now).0, p, sent)
    ensures FI.Inject(s.faults, ingress, bytes).1.Passed?
    ensures Parse(FI.Inject(s.faults, ingress, bytes).1.bytes) == Some(arrived)
    ensures Vlan.Classify(arrived, s.ports[ingress].config) == Vlan.Accepted(vlan)
    ensures Parse(sent) == Some(relayed) && relayed in {arrived, Misaddressed(arrived)}
    ensures Vlan.Classify(relayed, s.ports[p].config) == Vlan.Accepted(vlan) <==>
            Vlan.TakesTagging(s.ports[p].config, vlan, arrived.tag.Some?)
  {
    hide Switch, Parse, ProcessPacket, Misaddressed, FI.Inject;
    arrived := VlanIsolation(s, ingress, bytes, now);
    var s' := ProcessPacket(s, ingress, bytes, now).0;
    var config := s.ports[ingress].config;
    vlan := Vlan.MemberVlan(arrived, config);
    hide Vlan.MemberVlan;
    assert MembersOk(s, vlan);
    assert DeliveredTo(s, s', p, Encoding(arrived));
    sent :| Delivered(Encoding(arrived), sent) && Appended(s, s', p, sent);
    ParsedIsUnambiguous(FI.Inject(s.faults, ingress, bytes).1.bytes);
    relayed := ReceivedAgain(arrived, sent, config, s.ports[p].config, vlan);
  }

  lemma ReceivedAgain(f: Frame, sent: Bytes, c: Vlan.PortConfig, out: Vlan.PortConfig, vlan: VlanId)
    returns (relayed: Frame)
    requires Vlan.ValidConfig(c) && Vlan.ValidConfig(out) && vlan in out.allowed
    requires Ethernet.Valid(f) && !Ambiguous(f) && Delivered(Encoding(f), sent)
    requires Vlan.Classify(f, c) == Vlan.Accepted(vlan)
    ensures Parse(sent) == Some(relayed) && relayed in {f, Misaddressed(f)}
    ensures Vlan.Classify(relayed, out) == Vlan.Accepted(vlan) <==> Vlan.TakesTagging(out, vlan, f.tag.Some?)
  {
    hide Parse, Encoding, Delivered;
    DeliveredFrame(f, sent);
    relayed := Parse(sent).value;
    Vlan.RelayedExactly(relayed, c, out, vlan);
  }

  lemma ParsedIsUnambiguous(b: Bytes)
    requires Parse(b).Some?
    ensures Ethernet.Valid(Parse(b).value) && !Ambiguous(Parse(b).value)
  {
    hide Encoding;
    EncodingOfParse(b);
    FrameRoundTrip(Parse(b).value);
  }
}
