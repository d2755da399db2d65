# Silicon Switch Lab: a verified model

This project models the two systems of Silicon Switch Lab that have to be right
over whole runs, and the byte formats and arithmetic both rest on.

* **Scene replication.** An authoritative server numbers snapshots and deltas of
  a topology scene and sends them over UDP; observers rebuild the scene. The
  model (`Server`, `Synchronizer`, `Observer`, `Topology`, `Replication`) runs
  any number of sessions and observers over a network that may lose, repeat,
  delay and reorder datagrams and deliver heartbeats, requests and garbage from
  anyone. The main results are mirror safety, which determines every
  synchronized observer's scene, and `Recovery`: recovery within one snapshot
  interval, and exactly which observers a run of updates recovers.
  `ReplicationRuns` holds concrete runs.
* **The software switch.** `Asic` is the layer-2/layer-3 switch as a state
  machine with every branch and counter of its packet path. `AsicInvariant`,
  `AsicForwarding`, `AsicRouting`, `AsicConservation` and `AsicPortCounters` hold
  its theorems: structural invariant, VLAN isolation and exact floods, the
  end-to-end meaning of a routed packet and exactly when a packet is routed, and
  counter conservation. `AsicVerdict` says exactly what becomes of each packet:
  where it is switched or flooded, what ARP and source addresses teach the
  switch, and what each drop reason means. `AsicControl` explains every setting
  by the operations that led to it. `SoftwareAsic` is the object itself, proved
  against that machine.
* **Supporting parts.** Internet checksum, IPv4, Ethernet/802.1Q, ARP and
  state-update codecs, prefixes and longest-prefix match, the MAC table, the ARP
  cache, the condition-variable queue and dotted-quad text.

Where the original changes state in place, the model is a class whose methods
are proved against a function of the old state; the theorems are about those
functions, over all inputs and all runs. Machine integers are bounded where they
are stored on the wire; time points are integers. Bitwise masks of prefixes are
defined bit by bit and then related to intervals; shifts and masks by constants
are written as division and remainder. `History` holds the one law behind the
theorems about histories: a fact holds exactly if some step made it true and none
has made it false since.

Some properties one might expect are false of the code. For each the project has
an input on which it fails and a theorem that says exactly when it holds.

* A delta cannot delete or move a key, so a synchronized observer can be wrong:
  `ReplicationRuns.DeletedNodeShown`, `ReplicationRuns.MovedNodeShown`; exactly
  when, `Replication.MirrorSafety` and, for a whole session,
  `Replication.MirrorableExactly`.
* A snapshot interval does not recover every reachable observer. Observers take
  heartbeats, which the server never sends, and one with a late timestamp makes
  an observer ignore its server: `Recovery.LateHeartbeatDeafens`,
  `ReplicationRuns.DeafObserver`. Nor need it recover an observer that already
  heard part of that interval: `Synchronizer.OverlapCanFail`. Exactly when it
  does: `Recovery.RecoversExactly`; from what was delivered alone,
  `Recovery.RecoveryBound`.
* An untagged frame with EtherType 0x8100 does not survive a round trip:
  `Ethernet.AmbiguousFrameLost`; exactly when, `Ethernet.FrameRoundTrip`.
* A stored IPv4 checksum of 0xFFFF is rewritten as zero:
  `Ipv4Packet.AllOnesChecksumRewritten`; exactly when,
  `Ipv4Packet.ReserializesExactly`.
* A changed header word is not always detected: `Ipv4Packet.UndetectedChange`;
  exactly when, `Ipv4Packet.OneWordErrorDetected`.
* A relayed frame can change VLAN at the next switch, since frames are never
  retagged: `Vlan.NativeVlanChangesHands`; exactly when,
  `AsicForwarding.RelayedVlan`.

## Model

| member | source | states |
|---|---|---|
| `Replication.MirrorSafety` | src/silicon_switch/visualization/observer_client.cpp:27-65 | In every run of any number of sessions and observers over a network that loses, repeats, delays, reorders and injects heartbeats, requests and garbage: a synchronized observer is on a published revision, its scene is the last snapshot overridden by the deltas up to that revision, and that is exactly the scene the server computed if and only if the revision was a snapshot or no key held before it disappeared or moved |
| `Replication.ObserversAgree` | src/silicon_switch/visualization/observer_client.cpp:27-65 | Two observers synchronized on the same session and revision hold identical scenes, without any condition on the backend |
| `Replication.MirrorableExactly` | src/silicon_switch/visualization/topology.cpp:145-178 | Observers of a session show the server's scene at every revision if and only if every delta keeps the keys of the scene before it in place |
| `ReplicationRuns.SnapshotThenDelta` | src/silicon_switch/simulation/authoritative_server.cpp:37-41 | For every backend there is a run in which an observer receives the first snapshot and delta; it is synchronized on the delta, and correct if and only if no key disappeared or moved |
| `ReplicationRuns.DeletedNodeShown` | src/silicon_switch/visualization/topology.cpp:145-178 | A concrete run: a synchronized observer goes on showing a deleted node |
| `ReplicationRuns.MovedNodeShown` | src/silicon_switch/visualization/topology.cpp:145-178 | A concrete run: a synchronized observer keeps the old order of two nodes that changed places |
| `Replication.DeliverAll` | src/silicon_switch/visualization/observer_client.cpp:27-65 | Sent updates can always be delivered, an observer's synchronizer consumes exactly them in order, and updates of its session that are not fresh leave scene and synchronizer as they are |
| `Recovery.RecoveryBound` | src/silicon_switch/simulation/authoritative_server.cpp:37-41 | In every run in which an observer has heard nothing of a session but what the server sent up to some number, and anything whatever of other sessions: the next snapshot interval of that session, delivered in order with nondecreasing timestamps, leaves it synchronized on the last update with the scene every observer shows there, which is the server's if and only if that revision is carried |
| `Recovery.RecoversExactly` | src/silicon_switch/transport/client_synchronizer.cpp:5-63 | From any reachable observer state, any consecutive published updates delivered in order end synchronized on the last one if and only if one of them is a snapshot that is fresh to the observer, or the observer is already in step and its next update is fresh |
| `Recovery.NothingTakenBeyond` | src/silicon_switch/transport/client_synchronizer.cpp:30-62 | Over every run an observer's sequence and timestamp for a session never exceed those of the datagrams of that session delivered to it |
| `Recovery.RecoveredStays` | src/silicon_switch/transport/client_synchronizer.cpp:22-29 | After recovery, delivering updates of the session again leaves scene and synchronizer exactly as they are if and only if none is numbered beyond the window; when the window is the latest, that is everything sent so far |
| `Recovery.ReplayExactly` | src/silicon_switch/transport/client_synchronizer.cpp:22-29 | Updates of its session, none both numbered later and stamped earlier, leave a synchronized observer unchanged if and only if none is numbered beyond it |
| `Recovery.StaleIsHarmless` | src/silicon_switch/transport/client_synchronizer.cpp:22-29 | Sent updates that are repeated, or stamped before the observer's timestamp, change nothing in any state |
| `Recovery.LateHeartbeatDeafens` | src/silicon_switch/transport/client_synchronizer.cpp:56-62 | A heartbeat that continues the session, whoever sent it, moves a synchronized observer's timestamp to any later value; it stays synchronized, and nothing stamped earlier is fresh to it |
| `ReplicationRuns.DeafObserver` | src/silicon_switch/transport/client_synchronizer.cpp:25-28 | A concrete run that ends with an observer which counts as synchronized and ignores every update stamped below the 64-bit maximum |
| `Replication.SentIsFaithful` | src/silicon_switch/simulation/authoritative_server.cpp:28-46 | Every datagram ever sent is a valid update whose revision equals its number, whose payload parses to the backend's scene for it, and which is a snapshot exactly when one is due |
| `Replication.StepSafe` | src/silicon_switch/visualization/observer_client.cpp:27-65 | Every step of the protocol keeps the replication invariant |
| `Replication.NoSceneSafe` | src/silicon_switch/transport/client_synchronizer.cpp:40-62 | Heartbeats, requests and malformed bytes can end synchronization but never make a shown scene wrong |
| `Synchronizer.ClientSynchronizer.Consume` | src/silicon_switch/transport/client_synchronizer.cpp:5-63 | The early-return code computes the decision function: new state and result for every session, sequence, timestamp, kind and revision case |
| `Synchronizer.ClientSynchronizer.Reset` | src/silicon_switch/transport/client_synchronizer.cpp:71-79 | Back to the initial state |
| `Synchronizer.AnswerExactly` | src/silicon_switch/transport/client_synchronizer.cpp:5-63 | Each of the eight answers has exactly one cause, in terms of session, number, stamp, kind and revision |
| `Synchronizer.StateAfter` | src/silicon_switch/transport/client_synchronizer.cpp:5-63 | What each answer leaves behind: an accepted update moves number and stamp and, if it carries a scene, the revision; an ignored one nothing; a refused one only ends synchronization and asks for a snapshot |
| `Synchronizer.AskingIsExact` | src/silicon_switch/transport/client_synchronizer.cpp:5-63 | On any input a snapshot is asked for exactly while unsynchronized, and synchronization is always with the session heard last |
| `Synchronizer.SequenceMonotone` | src/silicon_switch/transport/client_synchronizer.cpp:22-29 | Within one session sequence and timestamp never decrease, over any updates |
| `Synchronizer.CatchUpExactly` | src/silicon_switch/transport/client_synchronizer.cpp:5-63 | From any state whatever, consecutive updates in order leave the synchronizer in step with the last of them if and only if it can catch up: a fresh snapshot among them, or already in step with the next one fresh |
| `Synchronizer.HeardExactly` | src/silicon_switch/transport/client_synchronizer.cpp:22-39 | Updates of its session that are not fresh change nothing, however many; one fresh snapshot among them always moves the synchronizer on |
| `Synchronizer.UndisturbedExactly` | src/silicon_switch/transport/client_synchronizer.cpp:22-62 | A synchronizer in step is left exactly as it is if and only if it is sent nothing numbered beyond what it has |
| `Synchronizer.OverlapCanFail` | src/silicon_switch/transport/client_synchronizer.cpp:22-50 | A family of inputs on which a whole interval does not help: the synchronizer took its only snapshot before and then met a gap |
| `Observer.ObserverClient.ConsumeBytes` | src/silicon_switch/visualization/observer_client.cpp:27-65 | The candidate scene is committed only on an applied result; any malformed datagram leaves observer and synchronizer as they were; state and answer are those of the decision function |
| `Observer.AnswerExactly` | src/silicon_switch/visualization/observer_client.cpp:27-65 | When each of the six answers is given, for every observer and all bytes: malformed update, unreadable scene, ignored, resynchronization required, applied snapshot and delta; and that the scene changes exactly with the applied ones |
| `Server.AuthoritativeServer.Create` | src/silicon_switch/simulation/authoritative_server.cpp:8-22 | No server for session zero; otherwise a zero interval becomes one and numbering starts at zero |
| `Server.AuthoritativeServer.NextUpdate` | src/silicon_switch/simulation/authoritative_server.cpp:28-46 | Sequence and revision advance together, wrapping at 64 bits, even when serialization fails; the update carries the scene of the new revision as snapshot or delta |
| `Server.UpdateExactly` | src/silicon_switch/simulation/authoritative_server.cpp:28-46 | Which update carries a scene as a given number, field by field, and exactly when there is none |
| `CpuBackend.Step` | src/silicon_switch/simulation/cpu_backend.cpp:19-36 | The upsert loop builds the scene function, with 32- and 64-bit wrap-around |
| `CpuBackend.CpuSceneListed` | src/silicon_switch/simulation/cpu_backend.cpp:19-36 | As long as node numbers fit 32 bits: the switch, then one node and one link per observer, with their numbers, VLANs, positions and packet counts |
| `CpuBackend.CpuIsMirrorable` | src/silicon_switch/simulation/cpu_backend.cpp:19-36 | For every configuration all scenes have unique keys and the key lists do not depend on the tick, so every delta keeps keys in place |
| `CpuBackend.CpuMirror` | src/silicon_switch/simulation/cpu_backend.cpp:19-36 | End to end, with no condition: in every run every observer synchronized on a session of the CPU backend shows exactly the scene computed for its revision |
| `Topology.SceneRoundTrip` | src/silicon_switch/visualization/topology.cpp:69-143 | Every scene with unique keys whose counts and labels fit parses back from its bytes exactly |
| `Topology.ScenePrefixFree` | src/silicon_switch/visualization/topology.cpp:69-112 | No accepted string is a proper prefix of another: every truncation and every extension of a snapshot is rejected |
| `Topology.ParsedSceneValid` | src/silicon_switch/visualization/topology.cpp:69-112 | Whatever is accepted has unique node and link keys |
| `Topology.SendableExactly` | src/silicon_switch/visualization/topology.cpp:69-143 | A scene serializes to something exactly if some snapshot parses to it: serialization fails only where the format has no room |
| `Topology.Layout` | src/silicon_switch/visualization/topology.cpp:114-143 | Magic number and counts are at their places, and nodes and links follow |
| `Topology.DeltaIsOverride` | src/silicon_switch/visualization/topology.cpp:145-157 | A delta is a key-wise map override that keeps every existing key at its position |
| `Topology.DeltaReplaces` | src/silicon_switch/visualization/topology.cpp:145-178 | Writing a whole scene over another yields it exactly if and only if the old keys are the first new keys, in order |
| `Topology.DeletionIsNotMirrored` | src/silicon_switch/visualization/topology.cpp:145-178 | A concrete family where it fails: a deleted node stays |
| `KeyedList.UpsertIsMapUpdate` | src/silicon_switch/visualization/topology.cpp:159-178 | An upsert is a map update that keeps keys unique and in place |
| `KeyedList.OverrideIsReplacement` | src/silicon_switch/visualization/topology.cpp:149-154 | The batch form of the same law, both directions |
| `KeyedList.FindFirst` | src/silicon_switch/visualization/topology.cpp:160-161 | The linear search returns the first position of the key, or the length if it is absent |
| `TopologyScene.Reader.Integer` | src/silicon_switch/visualization/topology.cpp:18-25 | Reads a big-endian field and advances, or fails without moving |
| `TopologyScene.Reader.Text` | src/silicon_switch/visualization/topology.cpp:38-45 | Reads a label and advances, or fails without moving |
| `TopologyScene.ReadNode` | src/silicon_switch/visualization/topology.cpp:81-95 | Reading field by field equals the fixed-layout node |
| `TopologyScene.ReadLink` | src/silicon_switch/visualization/topology.cpp:100-107 | Reading field by field equals the fixed-layout link |
| `TopologyScene.ReadNodes` | src/silicon_switch/visualization/topology.cpp:80-98 | The node loop reads exactly the announced number of nodes and upserts each |
| `TopologyScene.ReadLinks` | src/silicon_switch/visualization/topology.cpp:99-110 | The link loop reads exactly the announced number of links and upserts each |
| `TopologyScene.ParseSnapshot` | src/silicon_switch/visualization/topology.cpp:69-112 | The two reading loops accept and build exactly what the scene parser function does |
| `TopologyScene.TopologyScene.UpsertNode` | src/silicon_switch/visualization/topology.cpp:159-167 | Replaces in place or appends; keys stay unique |
| `TopologyScene.TopologyScene.UpsertLink` | src/silicon_switch/visualization/topology.cpp:169-178 | Replaces in place or appends; keys stay unique |
| `TopologyScene.TopologyScene.ApplyDelta` | src/silicon_switch/visualization/topology.cpp:145-157 | All or nothing: an unparsable delta leaves the scene unchanged, a parsable one overrides it |
| `TopologyScene.TopologyScene.SerializeSnapshot` | src/silicon_switch/visualization/topology.cpp:114-143 | The appending loops produce the scene's encoding, or nothing when a count or label does not fit |
| `TopologyScene.TopologyScene.AppendNodes` | src/silicon_switch/visualization/topology.cpp:123-135 | The node loop appends every node, or fails at the first label that does not fit |
| `TopologyScene.TopologyScene.AppendLinks` | src/silicon_switch/visualization/topology.cpp:136-141 | The link loop appends every link |
| `Wire.ReadBigEndian` | include/silicon_switch/network/byte_order.hpp:13-33 | The shifting loop computes the big-endian value of the bytes, or nothing when they are out of range |
| `Wire.WriteBigEndian` | include/silicon_switch/network/byte_order.hpp:36-58 | The loop writes the encoding at the offset and nothing else, or nothing when it does not fit |
| `Wire.ValueOfEncode` | include/silicon_switch/network/byte_order.hpp:26-57 | Reading what was written gives the value back |
| `Wire.EncodeOfValue` | include/silicon_switch/network/byte_order.hpp:26-57 | Writing what was read gives the bytes back |
| `StateUpdate.ParseOfEncoding` | src/silicon_switch/transport/state_update_protocol.cpp:54-110 | Every valid update parses back from its datagram |
| `StateUpdate.EncodingOfParse` | src/silicon_switch/transport/state_update_protocol.cpp:54-110 | Every accepted datagram re-serializes to itself |
| `StateUpdate.AcceptedIsImage` | src/silicon_switch/transport/state_update_protocol.cpp:37-110 | The accepted strings are exactly the datagrams of valid updates, one update each |
| `StateUpdate.AcceptedExactly` | src/silicon_switch/transport/state_update_protocol.cpp:54-91 | Which datagrams are accepted, field by field |
| `StateUpdate.Layout` | src/silicon_switch/transport/state_update_protocol.cpp:93-110 | Where every field of the datagram is |
| `StateUpdate.Serialize` | src/silicon_switch/transport/state_update_protocol.cpp:93-110 | Filling the buffer field by field gives the encoding |
| `InternetChecksum.ComputeInternetChecksum` | src/silicon_switch/network/internet_checksum.cpp:17-38 | The folding loop, for any length, computes the complement of the plain word sum read as a one's-complement number; the accumulator never exceeds 0xFFFF |
| `InternetChecksum.FoldStep` | src/silicon_switch/network/internet_checksum.cpp:10-13 | One fold per word is enough to keep a one's-complement sum |
| `InternetChecksum.OnesComplement` | src/silicon_switch/network/internet_checksum.cpp:10-37 | Congruent to the plain sum modulo 65535, and zero only for zero |
| `InternetChecksum.ChecksumOrderIndependent` | src/silicon_switch/network/internet_checksum.cpp:17-38 | Strings with the same words in any order have the same checksum |
| `InternetChecksum.OddPadding` | src/silicon_switch/network/internet_checksum.cpp:17-38 | An odd last byte counts as if a zero byte followed |
| `InternetChecksum.OneWordChange` | src/silicon_switch/network/internet_checksum.cpp:40-43 | A changed word keeps a checksum valid if and only if it swaps 0x0000 and 0xFFFF |
| `Ipv4Packet.SerializedChecksumValid` | src/silicon_switch/network/ipv4_packet.cpp:135-140 | The header that is written always has a valid checksum |
| `Ipv4Packet.ParseOfEncoding` | src/silicon_switch/network/ipv4_packet.cpp:73-147 | Every creatable packet parses back from its bytes |
| `Ipv4Packet.AcceptedExactly` | src/silicon_switch/network/ipv4_packet.cpp:73-109 | Which strings are accepted, field by field |
| `Ipv4Packet.Layout` | src/silicon_switch/network/ipv4_packet.cpp:111-147 | Where every field of the packet is |
| `Ipv4Packet.EncodingOfParse` | src/silicon_switch/network/ipv4_packet.cpp:73-147 | Every accepted string re-serializes to itself except that a stored checksum of 0xFFFF becomes 0x0000 |
| `Ipv4Packet.ReserializesExactly` | src/silicon_switch/network/ipv4_packet.cpp:73-147 | An accepted string comes back unchanged if and only if its stored checksum is not 0xFFFF |
| `Ipv4Packet.AllOnesChecksumRewritten` | src/silicon_switch/network/ipv4_packet.cpp:135-140 | A concrete accepted header that comes back different |
| `Ipv4Packet.OneWordErrorDetected` | src/silicon_switch/network/ipv4_packet.cpp:73-109 | An accepted packet with one header word changed is still accepted if and only if the change swaps 0x0000 and 0xFFFF in the identification, the checksum or an address |
| `Ipv4Packet.UndetectedChange` | src/silicon_switch/network/ipv4_packet.cpp:88-95 | Two concrete accepted headers that differ in one word |
| `Ipv4Packet.OneWordChecksum` | src/silicon_switch/network/ipv4_packet.cpp:88-95 | The header checksum alone is fooled by a changed word if and only if the change swaps 0x0000 and 0xFFFF |
| `Ipv4Packet.Serialize` | src/silicon_switch/network/ipv4_packet.cpp:111-147 | Filling the buffer in the source's order, checksum last, gives the encoding |
| `Ethernet.TciBijection` | include/silicon_switch/network/vlan_tag.hpp:32-60 | Tags and tag words with a usable VLAN number correspond one to one; numbers 0 and 4095 are refused |
| `Ethernet.StationExactly` | src/silicon_switch/switching/mac_table.cpp:11-16 | Station addresses are the individual ones other than all zeros |
| `Ethernet.AcceptedExactly` | src/silicon_switch/network/ethernet_frame.cpp:69-128 | Which strings are frames: length, payload of at most 1500 bytes, usable VLAN number after the tag marker |
| `Ethernet.Layout` | src/silicon_switch/network/ethernet_frame.cpp:130-172 | Where every field of a tagged or untagged frame is |
| `Ethernet.FrameRoundTrip` | src/silicon_switch/network/ethernet_frame.cpp:69-172 | A frame parses back from its bytes if and only if it is not untagged with EtherType 0x8100 |
| `Ethernet.AmbiguousFrameLost` | src/silicon_switch/network/ethernet_frame.cpp:49-88 | A concrete creatable frame that does not parse back |
| `Ethernet.EncodingOfParse` | src/silicon_switch/network/ethernet_frame.cpp:69-172 | Every accepted string re-serializes to itself |
| `Ethernet.Serialize` | src/silicon_switch/network/ethernet_frame.cpp:130-172 | Filling the buffer gives the encoding, tagged or not |
| `ArpPacket.ParseOfEncoding` | src/silicon_switch/network/arp_packet.cpp:60-175 | Every valid ARP packet parses back |
| `ArpPacket.EncodingOfParse` | src/silicon_switch/network/arp_packet.cpp:60-175 | Every accepted string re-serializes to itself |
| `ArpPacket.AcceptedIsImage` | src/silicon_switch/network/arp_packet.cpp:114-147 | The accepted strings are exactly the encodings of valid packets |
| `ArpPacket.AcceptedExactly` | src/silicon_switch/network/arp_packet.cpp:114-147 | Which strings are ARP packets, field by field |
| `ArpPacket.Layout` | src/silicon_switch/network/arp_packet.cpp:149-175 | Where every field of the 28 bytes is |
| `ArpPacket.Serialize` | src/silicon_switch/network/arp_packet.cpp:149-175 | Writing integers first and addresses last gives the encoding |
| `Ipv4Text.Parse` | src/silicon_switch/network/ipv4_address.cpp:13-72 | Accepts exactly the canonical dotted quads: a result's formatting is the text, and a rejected text is the formatting of no address |
| `Ipv4Text.ScanOctet` | src/silicon_switch/network/ipv4_address.cpp:23-56 | The digit loop accepts a run exactly if it is a canonical octet |
| `Ipv4Text.ToString` | src/silicon_switch/network/ipv4_address.cpp:74-94 | The appending loop produces the canonical text |
| `Ipv4Text.CanonicalText` | src/silicon_switch/network/ipv4_address.cpp:13-94 | Formatting then parsing is the identity on all addresses, and parsing then formatting on all accepted texts |
| `Ipv4Text.Notation` | src/silicon_switch/network/ipv4_address.cpp:74-94 | A concrete text that fixes the notation |
| `Ipv4Text.OctetsOfFromOctets` | include/silicon_switch/network/ipv4_address.hpp:18-42 | Octets and 32-bit values correspond |
| `Ipv4Text.FromOctetsOfOctets` | include/silicon_switch/network/ipv4_address.hpp:18-42 | The other direction of that correspondence |
| `BoundedQueue.EveryInterleaving` | include/silicon_switch/asic/bounded_queue.hpp:31-63 | In every interleaving of producers, consumers, spurious wakeups and close: a sleeper implies an open queue with at most as many items as woken consumers; the enqueued log is the dequeued log and then the contents; size stays within capacity |
| `BoundedQueue.StepKeepsInv` | include/silicon_switch/asic/bounded_queue.hpp:31-97 | Every lock-held section keeps that invariant |
| `BoundedQueue.SleepersHaveNothingToTake` | include/silicon_switch/asic/bounded_queue.hpp:49-53 | Once no woken consumer is left, a sleeping consumer has nothing to take and the queue is open |
| `BoundedQueue.BlockingDequeueResult` | include/silicon_switch/asic/bounded_queue.hpp:49-53 | A blocking dequeue returns the oldest item, and nothing exactly when closed and empty |
| `BoundedQueue.FirstInFirstOut` | include/silicon_switch/asic/bounded_queue.hpp:31-53 | What left is a prefix of what entered, in every run |
| `BoundedQueue.ContentsExactly` | include/silicon_switch/asic/bounded_queue.hpp:31-63 | In every interleaving: what entered is exactly what was offered to an open queue with room, as many left as consumers came while there was something, the contents are the difference, and the queue is closed exactly if somebody closed it |
| `BoundedQueue.EnqueueAnswer` | include/silicon_switch/asic/bounded_queue.hpp:31-42 | When an enqueue is answered closed, full or enqueued |
| `BoundedQueue.SleepsExactly` | include/silicon_switch/asic/bounded_queue.hpp:49-53 | A consumer goes to sleep exactly when the queue is open and empty |
| `BoundedQueue.SharedQueue.Enqueue` | include/silicon_switch/asic/bounded_queue.hpp:31-42 | One enqueue step with its notification of some sleeper |
| `BoundedQueue.SharedQueue.Dequeue` | include/silicon_switch/asic/bounded_queue.hpp:44-47 | One nonblocking dequeue step |
| `BoundedQueue.SharedQueue.WaitDequeue` | include/silicon_switch/asic/bounded_queue.hpp:49-53 | One attempt of a blocking consumer: returns or sleeps |
| `BoundedQueue.SharedQueue.CloseQueue` | include/silicon_switch/asic/bounded_queue.hpp:55-63 | Closes once and wakes everyone |
| `Ipv4Prefix.CreatedPrefix` | include/silicon_switch/network/ipv4_prefix.hpp:17-25 | Creation clears the host bits and the prefix contains the given address |
| `Ipv4Prefix.MaskIsRounding` | include/silicon_switch/network/ipv4_prefix.hpp:75-82 | Bitwise masking with the shifted mask is rounding down to a block |
| `Ipv4Prefix.ContainsIsInterval` | include/silicon_switch/network/ipv4_prefix.hpp:44-52 | The bitwise membership test is the interval from network to last address |
| `Ipv4Prefix.NestedOrDisjoint` | include/silicon_switch/network/ipv4_prefix.hpp:48-52 | Two prefixes that share an address are nested |
| `RouteTable.LongestMatch` | src/silicon_switch/routing/ipv4_route_table.cpp:56-73 | The result contains the destination and no containing route is longer; none means no route contains it |
| `RouteTable.UsableExactly` | include/silicon_switch/network/ipv4_address.hpp:44-62 | Which addresses can be a next hop or a neighbor |
| `RouteTable.LongestIsUnique` | src/silicon_switch/routing/ipv4_route_table.cpp:56-73 | The longest match is unique |
| `RouteTable.MatchDependsOnMap` | src/silicon_switch/routing/ipv4_route_table.cpp:56-73 | Tables that stand for the same map route alike, whatever their order |
| `RouteTable.TableRefinesMap` | src/silicon_switch/routing/ipv4_route_table.cpp:9-54 | Over every history prefixes stay distinct and the vector is the map the history describes |
| `RouteTable.MatchIgnoresHistory` | src/silicon_switch/routing/ipv4_route_table.cpp:9-73 | Histories that describe the same map route every destination alike |
| `RouteTable.Ipv4RouteTable.AddOrReplace` | src/silicon_switch/routing/ipv4_route_table.cpp:9-24 | Replaces in place or appends, and reports which |
| `RouteTable.Ipv4RouteTable.RemovePrefix` | src/silicon_switch/routing/ipv4_route_table.cpp:26-39 | Erases the prefix if present |
| `RouteTable.Ipv4RouteTable.FindExact` | src/silicon_switch/routing/ipv4_route_table.cpp:41-54 | The route of exactly this prefix |
| `RouteTable.Ipv4RouteTable.LongestPrefixMatch` | src/silicon_switch/routing/ipv4_route_table.cpp:56-73 | The loop computes the longest match |
| `Routing.ForwardOutcome` | src/silicon_switch/routing/ipv4_forwarding_engine.cpp:15-33 | TTL one or less is dropped as expired, otherwise no containing route as not found, and nothing else is dropped |
| `Routing.RoutedBytes` | src/silicon_switch/routing/l3_ethernet_encapsulation.cpp:52-68 | The encapsulated frame parses back to a frame from the given source to the unexpired neighbor of the longest route's next hop, carrying the packet with TTL one less |
| `Routing.EncapsulationExactly` | src/silicon_switch/routing/l3_ethernet_encapsulation.cpp:21-68 | Each failure of encapsulation has exactly one cause |
| `Routing.ForwardPacket` | src/silicon_switch/routing/ipv4_forwarding_engine.cpp:15-33 | TTL check and the table's own matching loop compute the forwarding function |
| `Routing.EncapsulatePacket` | src/silicon_switch/routing/l3_ethernet_encapsulation.cpp:21-68 | Cache lookup and serialization compute the encapsulation, and what results is a creatable frame |
| `ArpCache.SweepIsInvisible` | src/silicon_switch/routing/arp_cache.cpp:42-99 | An expiry sweep inserted anywhere in any history changes no lookup at or after its time |
| `ArpCache.EntryHistory` | src/silicon_switch/routing/arp_cache.cpp:42-99 | Over every history the cache holds exactly the usable pairs taught last and not displaced, removed or swept since |
| `ArpCache.LookupHistory` | src/silicon_switch/routing/arp_cache.cpp:66-75 | Over every history a lookup finds exactly those, for less than one lifetime |
| `ArpCache.Cache.AddOrReplace` | src/silicon_switch/routing/arp_cache.cpp:42-59 | Stores usable address and station pairs, refuses the rest, reports which |
| `ArpCache.Cache.Find` | src/silicon_switch/routing/arp_cache.cpp:66-75 | Unexpired entries only |
| `ArpCache.Cache.Remove` | src/silicon_switch/routing/arp_cache.cpp:77-79 | Removes one address |
| `ArpCache.Cache.Expire` | src/silicon_switch/routing/arp_cache.cpp:81-92 | Erases exactly the expired entries; the count is the decrease in size |
| `MacTable.DynamicEntryIsLatestLearn` | src/silicon_switch/switching/mac_table.cpp:39-134 | In every history a dynamic entry holds port and time of the latest accepted learn for its VLAN and address |
| `MacTable.EntryHistory` | src/silicon_switch/switching/mac_table.cpp:39-134 | Both directions: over every history an entry, dynamic or static, is in the table exactly if it was stored and not removed, overwritten or aged since; what is stored is a station with a place in the table and no static entry in the way |
| `MacTable.LearnAnswer` | src/silicon_switch/switching/mac_table.cpp:110-134 | When a learn is answered inserted, refreshed, moved, full, rejected or in conflict |
| `MacTable.StaticAnswer` | src/silicon_switch/switching/mac_table.cpp:54-66 | When a static entry is answered inserted, refreshed, moved, full or rejected |
| `MacTable.SizeBounded` | src/silicon_switch/switching/mac_table.cpp:110-122 | Over every history the size stays within capacity |
| `MacTable.EntryFrame` | src/silicon_switch/switching/mac_table.cpp:110-134 | Other keys are untouched; static entries change only by static add and remove; expiry changes no surviving entry |
| `MacTable.LearningTable.Put` | src/silicon_switch/switching/mac_table.cpp:110-134 | The update code computes the update function: new table and answer in the insert, refresh, move, full and static-conflict cases |
| `MacTable.LearningTable.LearnAddress` | src/silicon_switch/switching/mac_table.cpp:39-52 | Learning of station addresses only |
| `MacTable.LearningTable.AddStaticAddress` | src/silicon_switch/switching/mac_table.cpp:54-66 | Static entries |
| `MacTable.LearningTable.RemoveAddress` | src/silicon_switch/switching/mac_table.cpp:78-82 | Removes one key |
| `MacTable.LearningTable.ExpireEntries` | src/silicon_switch/switching/mac_table.cpp:84-99 | Erases exactly the aged dynamic entries; the count is the decrease in size |
| `Vlan.Access` | src/silicon_switch/switching/vlan_port_config.cpp:11-17 | Access configurations are valid |
| `Vlan.Trunk` | src/silicon_switch/switching/vlan_port_config.cpp:19-33 | Trunks exist exactly for nonempty sets that contain the native VLAN |
| `Vlan.AccessAccepts` | src/silicon_switch/switching/vlan_ingress.cpp:8-32 | An access port accepts exactly untagged frames, into its VLAN |
| `Vlan.TrunkAccepts` | src/silicon_switch/switching/vlan_ingress.cpp:8-32 | A trunk accepts exactly tagged frames of allowed VLANs, and untagged ones into its native VLAN |
| `Vlan.RefusalExactly` | src/silicon_switch/switching/vlan_ingress.cpp:8-32 | Every configuration is one of the two kinds, and each refusal has exactly one cause |
| `Vlan.ClassificationsAgree` | src/silicon_switch/switching/vlan_ingress.cpp:8-32 | When ingress is accepted, the classified VLAN is the one the switch uses to pick the member list, and the port allows it |
| `Vlan.RelayedExactly` | src/silicon_switch/switching/vlan_ingress.cpp:8-32 | A frame accepted into a VLAN on one port is accepted into the same VLAN under another configuration that allows it if and only if that one takes its tagging |
| `Vlan.NativeVlanChangesHands` | src/silicon_switch/switching/vlan_ingress.cpp:8-32 | Where it fails: an access frame received on a trunk with another native VLAN |
| `L2Forwarding.FloodReachesExactly` | src/silicon_switch/switching/l2_forwarding.cpp:11-27 | A flood goes to every listed port but the ingress port, once each |
| `L2Forwarding.FloodKeepsOrder` | src/silicon_switch/switching/l2_forwarding.cpp:11-27 | On a list without duplicates it only leaves out the ingress port |
| `L2Forwarding.Flood` | src/silicon_switch/switching/l2_forwarding.cpp:11-27 | The loop computes the flood outputs |
| `L2Forwarding.ProcessIngress` | src/silicon_switch/switching/l2_l3_pipeline.cpp:65-119 | Classification, learning, router check and relay code compute the pipeline function, with the table's new state |
| `L2Forwarding.OutputsAreMembers` | src/silicon_switch/switching/l2_forwarding.cpp:52-85 | Layer-2 outputs are members of the accepted VLAN, without the ingress port and without duplicates |
| `L2Forwarding.PipelineExactly` | src/silicon_switch/switching/l2_l3_pipeline.cpp:65-119 | Every decision of the pipeline has exactly one cause: refused tagging, implausible source, router protocols, or the relay decision; and the table learns exactly the source |
| `L2Forwarding.RelaysExactly` | src/silicon_switch/switching/l2_forwarding.cpp:52-85 | A frame goes to the port its destination was heard on, if that is another member; to every other member if it is a group address or unknown; nowhere otherwise |
| `L2Forwarding.WithoutAppend` | src/silicon_switch/asic/software_asic.cpp:46-49 | Leaving a port out of a list keeps the order of the others |
| `FaultInjector.InjectedBytes` | src/silicon_switch/asic/fault_injector.cpp:31-54 | What passes keeps its length and differs at most in the low bit of its first byte |
| `FaultInjector.FateExactly` | src/silicon_switch/asic/fault_injector.cpp:31-54 | What becomes of the next packet, by its number and port: failed port, exhaustion, loss and corruption, each with exactly one cause, and the configured latency |
| `FaultInjector.LossRate` | src/silicon_switch/asic/fault_injector.cpp:31-54 | Loss every d packets loses exactly one in d, over any run |
| `FaultInjector.CorruptionRate` | src/silicon_switch/asic/fault_injector.cpp:31-54 | Corruption every d packets corrupts exactly one in d, over any run without losses |
| `FaultInjector.Injector.Process` | src/silicon_switch/asic/fault_injector.cpp:31-54 | Port failure, exhaustion, loss, corruption, in that order, by packet number |
| `FaultInjector.Injector.SetConfig` | src/silicon_switch/asic/fault_injector.cpp:56-59 | A negative latency is refused and changes nothing |
| `VirtualPort.Create` | src/silicon_switch/switching/virtual_port.cpp:17-33 | Ports exist exactly for station addresses and MTUs from 64 to 9216, with the given settings, down and with no counts |
| `VirtualPort.ReceiveCounts` | src/silicon_switch/switching/virtual_port.cpp:47-60 | A frame is taken exactly if the port works and it fits; taken or dropped, it is counted once, and as an error if too big |
| `VirtualPort.TransmitCounts` | src/silicon_switch/switching/virtual_port.cpp:62-75 | The same for transmission |
| `AsicInvariant.RunOf` | src/silicon_switch/asic/software_asic.cpp:34-224 | Every state of every run of control and data operations satisfies the structural invariant: ports and queues coincide, queues within capacity, VLAN members exist, are distinct and allowed, router interfaces and member lists only for existing VLANs, distinct valid routes, bounded MAC table |
| `AsicInvariant.ApplyValid` | src/silicon_switch/asic/software_asic.cpp:34-224 | Every operation keeps that invariant |
| `AsicInvariant.ProcessPacketStep` | src/silicon_switch/asic/software_asic.cpp:113-220 | Packet processing changes no configuration, VLAN, route or router, and queues only grow within capacity |
| `AsicForwarding.VlanIsolation` | src/silicon_switch/asic/software_asic.cpp:134-142 | A switched or flooded frame reaches only operational members of the VLAN it was accepted into, other than its ingress port, once each, and no other queue changes; with faults off a flood reaches exactly the members whose MTU fits and whose queue has room, in member order |
| `AsicForwarding.RelayedVlan` | src/silicon_switch/asic/software_asic.cpp:134-146 | For every output port: the queued bytes parse as the arrived frame up to one flipped destination bit, and a receiver configured like that port accepts them into the same VLAN if and only if it takes that tagging for the VLAN |
| `AsicForwarding.EnqueueAllEffect` | src/silicon_switch/asic/software_asic.cpp:190-220 | Outputs are distinct operational requested ports, each queue gained the frame once, all other queues are unchanged |
| `AsicForwarding.QuietBatch` | src/silicon_switch/asic/software_asic.cpp:190-220 | Without faults the outputs are exactly the requested ports that can take the frame, in order |
| `AsicRouting.RoutedEndToEnd` | src/silicon_switch/asic/software_asic.cpp:154-182 | Whenever a packet is reported routed: one queue gained one string, which parses as a frame from the egress port to the unexpired neighbor of the longest route's next hop carrying the arrived packet with TTL one less; corruption can only misaddress it |
| `AsicRouting.RoutedExactlyWhen` | src/silicon_switch/asic/software_asic.cpp:113-188 | With faults off a packet is routed if and only if it arrives on an operational port within its MTU, is accepted and learnable, addressed to the VLAN's router, and has TTL, route, neighbor, size and queue room |
| `AsicRouting.RouteOutcome` | src/silicon_switch/asic/software_asic.cpp:154-183 | The layer-3 part of that equivalence |
| `AsicRouting.CorruptedFrame` | src/silicon_switch/asic/fault_injector.cpp:46-53 | A corrupted frame parses as the same frame with the low bit of the first destination byte flipped |
| `AsicRouting.DroppedLeavesQueues` | src/silicon_switch/asic/software_asic.cpp:113-220 | A dropped or control-plane packet leaves every queue unchanged |
| `AsicVerdict.SwitchedExactly` | src/silicon_switch/asic/software_asic.cpp:134-188 | With faults off a packet is switched to q if and only if a working port takes in an admitted frame, not for the router, for a station known on q after learning its source, q is another member of the VLAN, and q takes it |
| `AsicVerdict.SwitchedToStation` | src/silicon_switch/asic/software_asic.cpp:134-188 | Whatever faults are injected, a switched packet leaves by exactly the port its destination was heard on |
| `AsicVerdict.FloodedExactly` | src/silicon_switch/asic/software_asic.cpp:134-188 | With faults off a packet is flooded if and only if it is an admitted frame, not for the router, to a group address or unknown station, and some other member takes it |
| `AsicVerdict.ControlPlaneExactly` | src/silicon_switch/asic/software_asic.cpp:147-153 | A packet is handed to the control plane if and only if it is an admitted frame for the router that holds a valid ARP packet; its sender is then taught if usable, and nothing else changes the neighbors |
| `AsicVerdict.TaughtLookup` | src/silicon_switch/routing/arp_cache.cpp:42-75 | A taught neighbor is found for exactly one lifetime, and no other address is affected |
| `AsicVerdict.LearnedExactly` | src/silicon_switch/asic/software_asic.cpp:134-142 | A packet teaches the source of an accepted frame, on its ingress port, and nothing else |
| `AsicVerdict.ReasonExactly` | src/silicon_switch/asic/software_asic.cpp:113-220 | Every packet in every valid state is given exactly the reason its cause calls for, and is dropped exactly when there is one |
| `AsicVerdict.RouteReasons` | src/silicon_switch/asic/software_asic.cpp:154-183 | The causes on the routed path, in the order they are checked |
| `AsicVerdict.LatencyExactly` | src/silicon_switch/asic/software_asic.cpp:113-220 | The reported latency is the configured one once fault injection let the packet in, and zero otherwise |
| `AsicVerdict.BatchLatency` | src/silicon_switch/asic/software_asic.cpp:190-220 | A batch reports the largest latency among ingress and egress |
| `AsicConservation.RunBalanced` | src/silicon_switch/asic/software_asic.cpp:113-224 | In every run egress packets and bytes equal what is queued plus dequeued plus discarded with removed ports, and the drop counters never exceed ingress packets |
| `AsicConservation.PacketAccounting` | src/silicon_switch/asic/software_asic.cpp:113-188 | Each arrival is counted once; the reported reason names the one drop or fault counter that moves, by one, and no other moves; a pipeline drop is a VLAN drop exactly when the port refused the tagging; what joins the queues is what the egress counters gain |
| `AsicConservation.BatchCharged` | src/silicon_switch/asic/software_asic.cpp:190-220 | A batch charges each operational requested port exactly once |
| `AsicConservation.ChargedOnce` | src/silicon_switch/asic/software_asic.cpp:194-217 | One egress request moves exactly one of fault drops, exhaustion, MTU errors, queue drops and egress packets |
| `AsicConservation.CorruptionCounted` | src/silicon_switch/asic/software_asic.cpp:190-217 | A batch injects faults once per operational requested port and counts each corruption |
| `AsicPortCounters.CountersExactly` | src/silicon_switch/switching/virtual_port.cpp:47-75 | After any packet, each port counted as transmitted exactly what its queue gained, refused only what was too big, and the ingress port counted the payload it was offered as received or dropped |
| `AsicControl.NewSwitch` | src/silicon_switch/asic/software_asic.cpp:32 | What a new switch starts with |
| `AsicControl.OpFrame` | src/silicon_switch/asic/software_asic.cpp:34-107 | Which parts of the state each control operation can change |
| `AsicControl.PortHistory` | src/silicon_switch/asic/software_asic.cpp:34-53 | Over every run a port has the address, MTU, VLAN configuration and queue capacity it was created with, until removed |
| `AsicControl.AdminHistory` | src/silicon_switch/asic/software_asic.cpp:55-60 | Over every run a port is enabled exactly if it was enabled last, by setting or creation |
| `AsicControl.LinkHistory` | src/silicon_switch/asic/software_asic.cpp:55-60 | The same for its link |
| `AsicControl.VlanHistory` | src/silicon_switch/asic/software_asic.cpp:62-71 | Over every run a VLAN exists exactly if it was created and not since removed without members and router |
| `AsicControl.MemberHistory` | src/silicon_switch/asic/software_asic.cpp:73-80 | Over every run a port is a member exactly if it joined, both existing and the VLAN allowed, and was not removed since |
| `AsicControl.AddMemberMembers` | src/silicon_switch/asic/software_asic.cpp:73-80 | Joining appends, so floods reach members in the order they joined |
| `AsicControl.RouterHistory` | src/silicon_switch/asic/software_asic.cpp:82-86 | Over every run a VLAN's router has the station address it was given last |
| `AsicControl.RouteHistory` | src/silicon_switch/asic/software_asic.cpp:88-94 | Over every run a route is in the table exactly if it was written last for its prefix through an existing port and not removed since |
| `AsicControl.NeighborHistory` | src/silicon_switch/asic/software_asic.cpp:95-102 | Over every run the neighbors are exactly those taught last, by the control plane or by ARP, and not removed since |
| `AsicControl.StationHistory` | src/silicon_switch/asic/software_asic.cpp:134-142 | Over every run the learned stations are exactly those heard last |
| `AsicControl.FaultHistory` | src/silicon_switch/asic/software_asic.cpp:103-107 | Over every run the injected faults are those configured last |
| `AsicControl.PortAnswers` | src/silicon_switch/asic/software_asic.cpp:34-60 | When creating, removing and setting a port succeeds; a port is operational exactly if enabled with its link up, and nothing else about it changes |
| `AsicControl.VlanAnswers` | src/silicon_switch/asic/software_asic.cpp:62-86 | When creating, removing and joining a VLAN and giving it a router succeeds |
| `AsicControl.OtherAnswers` | src/silicon_switch/asic/software_asic.cpp:88-107 | When route, neighbor and fault operations succeed, and that a dequeue answers the front packet |
| `AsicControl.PortLogGrows` | src/silicon_switch/asic/software_asic.cpp:190-224 | First in first out per port over every run: its log of dequeued and waiting packets only grows, only by packets, and dequeues take from its front |
| `AsicControl.ShutdownHolds` | src/silicon_switch/asic/software_asic.cpp:113-117 | Over every run a disabled port refuses every packet and none leaves by it, until it is set or created again |
| `AsicControl.OutputsWork` | src/silicon_switch/asic/software_asic.cpp:194-198 | A packet only ever leaves by enabled ports with their link up |
| `AsicControl.MemberGetsFloods` | src/silicon_switch/asic/software_asic.cpp:184-220 | With faults off every frame for everybody in a VLAN reaches each other member that can take it |
| `SoftwareAsic.Switch.Create` | src/silicon_switch/asic/software_asic.cpp:32 | No switch for table capacity zero; otherwise an empty, valid one |
| `SoftwareAsic.Switch.AddPort` | src/silicon_switch/asic/software_asic.cpp:34-41 | New state and status; invariant kept |
| `SoftwareAsic.Switch.DeletePort` | src/silicon_switch/asic/software_asic.cpp:43-53 | Port, queue and every membership go; routes and learned addresses may dangle |
| `SoftwareAsic.Switch.PruneLists` | src/silicon_switch/asic/software_asic.cpp:46-49 | Every member list loses the port and keeps its order |
| `SoftwareAsic.Switch.ChangePortState` | src/silicon_switch/asic/software_asic.cpp:55-60 | The code computes the operation and keeps the invariant; what the operation means is `AsicControl.PortAnswers`, `AdminHistory` and `ShutdownHolds` |
| `SoftwareAsic.Switch.AddVlan` | src/silicon_switch/asic/software_asic.cpp:62-64 | New state and status; invariant kept |
| `SoftwareAsic.Switch.DeleteVlan` | src/silicon_switch/asic/software_asic.cpp:66-71 | Refused while members or a router interface remain; even then an empty list may be created |
| `SoftwareAsic.Switch.AddMember` | src/silicon_switch/asic/software_asic.cpp:73-80 | Dependency, duplicate and not-allowed cases in the source's order |
| `SoftwareAsic.Switch.SetRouter` | src/silicon_switch/asic/software_asic.cpp:82-86 | New state and status; invariant kept |
| `SoftwareAsic.Switch.AddOrReplaceRoute` | src/silicon_switch/asic/software_asic.cpp:88-91 | New state and status; invariant kept |
| `SoftwareAsic.Switch.DeleteRoute` | src/silicon_switch/asic/software_asic.cpp:92-94 | New state and status; invariant kept |
| `SoftwareAsic.Switch.AddOrReplaceNeighbor` | src/silicon_switch/asic/software_asic.cpp:95-99 | New state and status; invariant kept |
| `SoftwareAsic.Switch.DeleteNeighbor` | src/silicon_switch/asic/software_asic.cpp:100-102 | New state and status; invariant kept |
| `SoftwareAsic.Switch.SetFaults` | src/silicon_switch/asic/software_asic.cpp:103-107 | New state and status; invariant kept |
| `SoftwareAsic.Switch.DequeuePacket` | src/silicon_switch/asic/software_asic.cpp:222-224 | The oldest queued packet, or none |
| `SoftwareAsic.Switch.EnqueuePort` | src/silicon_switch/asic/software_asic.cpp:195-216 | One turn of the egress loop |
| `SoftwareAsic.Switch.SendTo` | src/silicon_switch/asic/software_asic.cpp:190-220 | The egress loop computes the batch: state, outputs, latency and the congestion result when nothing was sent |
| `SoftwareAsic.Switch.LearnNeighbor` | src/silicon_switch/asic/software_asic.cpp:147-153 | The code computes ARP delivery; what it teaches is `AsicVerdict.ControlPlaneExactly` |
| `SoftwareAsic.Switch.RoutePacket` | src/silicon_switch/asic/software_asic.cpp:154-183 | The routed path with each drop reason and counter |
| `SoftwareAsic.Switch.SendRouted` | src/silicon_switch/asic/software_asic.cpp:172-182 | Encapsulation, its failures and egress of a forwarded packet |
| `SoftwareAsic.Switch.SwitchFrame` | src/silicon_switch/asic/software_asic.cpp:134-188 | Member lookup, pipeline decision and dispatch |
| `SoftwareAsic.Switch.ProcessInjected` | src/silicon_switch/asic/software_asic.cpp:129-133 | Parsing and ingress counting |
| `SoftwareAsic.Switch.ProcessArrival` | src/silicon_switch/asic/software_asic.cpp:118-128 | Arrival counting and ingress faults |
| `SoftwareAsic.Switch.Process` | src/silicon_switch/asic/software_asic.cpp:113-188 | The whole packet path computes the state machine's step, and no optional access or map lookup in it can fail in a valid state |

## Left out

- Sockets, TCP and UDP wrappers, discovery, the Python client and orchestrator: foreign calls and plumbing.
- Renderer, OpenGL observer, CUDA backend, benchmarks, demo and command-line programs.
- `publish_next` and `add_observer`: a send loop over sockets; sending appears as the log of published updates from which the network may deliver.
- `disconnected` and the overloads that read the clock; the times are parameters.
- Floating-point positions: 32-bit patterns supplied by an arbitrary function of node and tick.
- Control and discovery message codecs: the same shape as state updates.
- Text forms of MAC addresses and prefixes: fixed shapes, easier than the dotted quad.
- Port speed: stored by the original and never read by the modelled code.
- 64-bit wrap-around: counters are unbounded, and protocol runs publish only while the sequence is below the 64-bit maximum; a single `NextUpdate` does wrap.
- Relaxed memory ordering of the traffic counters: they are plain numbers.
- Reuse of a session number by a second server: sessions are distinct, as a restarted server is expected to choose a new one.
- VirtualPort.Create: ports and the switch's packet queues are values inside the switch's maps, as the original stores ports by value; the waiting and closing of queues is modelled separately in `BoundedQueue`, and a queue closed by port removal is removed with its port.
- Recovery.RecoveryBound: is about windows whose updates were all serialized and published, since an update that failed to serialize is never sent, and about sessions whose timestamps do not decrease.
- Server.AuthoritativeServer.Create: a missing backend, which the original also refuses, cannot be expressed; the backend is a function.
- SoftwareAsic.Switch.RoutePacket: forwards with the switch's own table instead of copying it into an engine object.
- Plain accessors of the switch and the setters of a port's MTU and VLAN configuration, which the switch never calls.
- Egress retagging, ECMP, access lists and reconciliation: not implemented by the original.
