/** Concrete runs of the replication protocol: what its theorems exclude does happen. */
module ReplicationRuns {
  import opened Basics
  import opened StateUpdate
  import opened Topology
  import opened Server
  import opened Observer
  import opened Replication
  import Recovery
  import KeyedList
  import S = Synchronizer

  /** A scene whose snapshot fits into one datagram. */
  predicate Sendable(scene: Scene)
  {
    Encodable(scene) && |SceneBytes(scene)| <= StateUpdate.MAXIMUM_PAYLOAD_SIZE
  }

  /** A session that publishes its first two updates, and an observer that starts after that. */
  function Opening(backend: Backend): seq<Step>
  {
    [StartSession(1, 3, backend), PublishUpdate(1, 0), PublishUpdate(1, 0), StartClient(0)]
  }

  lemma SendableIsPublished(scene: Scene, n: nat)
    requires ValidScene(scene) && Sendable(scene) && 1 <= n <= 2
    ensures var u := UpdateAt(1, 3, scene, n, 0);
      u.Some? && u.value.timestamp == 0 && u.value.sequence == n && (n == 1 ==> u.value.kind.Snapshot?)
  {
    hide SceneBytes;
    SceneRoundTrip(scene);
  }

  function TwoPublished(backend: Backend): Session
  {
    Session(Publisher(1, 3, backend, 2, 2), [UpdateAt(1, 3, backend(1), 1, 0), UpdateAt(1, 3, backend(2), 2, 0)])
  }

  lemma OpeningRuns(backend: Backend)
    requires (forall r {:trigger backend(r)} :: ValidScene(backend(r))) && Sendable(backend(1)) && Sendable(backend(2))
    ensures Legal(Opening(backend))
    ensures Run(Opening(backend)) == World(map[1 := TwoPublished(backend)], map[0 := NEW_CLIENT])
  {
    hide UpdateAt, ValidScene, Sendable;
    var steps := Opening(backend);
    assert steps[..0] == [] && steps[..1][..0] == [] && steps[..2][..1] == steps[..1] && steps[..3][..2] == steps[..2];
    ExtendTo(steps, 0);
    assert Run(steps[..1]) == World(map[1 := Session(Publisher(1, 3, backend, 0, 0), [])], map[]);
    ExtendTo(steps, 1);
    var first, second := UpdateAt(1, 3, backend(1), 1, 0), UpdateAt(1, 3, backend(2), 2, 0);
    assert [] + [first] == [first] && [first] + [second] == [first, second];
    assert Run(steps[..2]).sessions == map[1 := Session(Publisher(1, 3, backend, 1, 1), [first])];
    ExtendTo(steps, 2);
    assert Run(steps[..3]).sessions == map[1 := TwoPublished(backend)];
    ExtendTo(steps, 3);
    assert steps[..4] == steps;
  }

  lemma ExtendTo(steps: seq<Step>, n: nat)
    requires n < |steps| && Legal(steps[..n]) && Enabled(Run(steps[..n]), steps[n])
    ensures Legal(steps[..n + 1]) && Run(steps[..n + 1]) == Apply(Run(steps[..n]), steps[n])
  {
    hide Enabled, Apply;
    ExtendRun(steps[..n], steps[n]);
    assert steps[..n + 1] == steps[..n] + [steps[n]];
  }

  /** An observer that receives the snapshot and the delta is synchronized on revision
      two, and shows it if and only if no key disappeared or moved in between. */
  lemma SnapshotThenDelta(backend: Backend) returns (steps: seq<Step>)
    requires (forall r {:trigger backend(r)} :: ValidScene(backend(r))) && Sendable(backend(1)) && Sendable(backend(2))
    ensures Legal(steps) && 0 in Run(steps).clients && At(Run(steps).clients[0], 1, 2)
    ensures 1 in Run(steps).sessions && Run(steps).sessions[1].publisher == Publisher(1, 3, backend, 2, 2)
    ensures Shows(Run(steps).clients[0], Run(steps).sessions[1].publisher) <==> KeysGrow(backend(1), backend(2))
  {
    hide Legal, Run, UpdateAt, ValidScene, Sendable, KeysGrow, Deliveries;
    OpeningRuns(backend);
    var w := Run(Opening(backend));
    OpeningPublished(backend, w);
    var us := Recovery.Window(w, 1, 0, 2);
    steps := Opening(backend) + Deliveries(0, us);
    Recovery.RecoversExactly(Opening(backend), 0, 1, 0, 2);
    MirrorSafety(steps, 0);
  }

  lemma OpeningPublished(backend: Backend, w: World)
    requires ValidScene(backend(1)) && Sendable(backend(1)) && ValidScene(backend(2)) && Sendable(backend(2))
    requires w == World(map[1 := TwoPublished(backend)], map[0 := NEW_CLIENT])
    ensures Recovery.Published(w, 1, 0, 2) && S.CanCatchUp(w.clients[0].sync, Recovery.Window(w, 1, 0, 2), 1, 0)
  {
    hide UpdateAt, ValidScene, Sendable;
    SendableIsPublished(backend(1), 1);
    SendableIsPublished(backend(2), 2);
    var us := Recovery.Window(w, 1, 0, 2);
    assert us[0].kind.Snapshot? && S.Fresh(S.Tuned(w.clients[0].sync, 1), us[0]);
  }

  function Plain(id: u32): Node { Node(id, 0, 0, 1, 0, true, []) }

  lemma PlainScenes(a: u32, b: u32)
    requires a != b
    ensures ValidScene(Scene([Plain(a), Plain(b)], [])) && Sendable(Scene([Plain(a), Plain(b)], []))
    ensures ValidScene(Scene([Plain(a)], [])) && Sendable(Scene([Plain(a)], []))
  {
    hide NodeBytes, SceneHeader;
    var one, two := [Plain(a)], [Plain(a), Plain(b)];
    PlainSize(a);
    PlainSize(b);
    assert one[..0] == [] && two[..1] == one;
    assert ManyBytes(one, NodeBytes) == ManyBytes([], NodeBytes) + NodeBytes(Plain(a));
    assert ManyBytes(two, NodeBytes) == ManyBytes(one, NodeBytes) + NodeBytes(Plain(b));
  }

  lemma PlainSize(id: u32)
    ensures |NodeBytes(Plain(id))| == NODE_HEADER
  {
    hide NodeHeader;
  }

  /** A deleted node: a synchronized observer goes on showing it. */
  lemma DeletedNodeShown() returns (steps: seq<Step>)
    ensures Legal(steps) && 0 in Run(steps).clients && At(Run(steps).clients[0], 1, 2) && 1 in Run(steps).sessions
    ensures Run(steps).sessions[1].publisher.backend(2) == Scene([Plain(1)], [])
    ensures !Shows(Run(steps).clients[0], Run(steps).sessions[1].publisher)
  {
    var backend := (r: nat) => if r <= 1 then Scene([Plain(1), Plain(2)], []) else Scene([Plain(1)], []);
    PlainScenes(1, 2);
    hide Legal, Run, ValidScene, Sendable, Shows;
    steps := SnapshotThenDelta(backend);
    assert |KeyedList.Keys(backend(1).nodes, NodeKey)| == 2;
  }

  /** Two nodes that change places: a synchronized observer keeps the old order. */
  lemma MovedNodeShown() returns (steps: seq<Step>)
    ensures Legal(steps) && 0 in Run(steps).clients && At(Run(steps).clients[0], 1, 2) && 1 in Run(steps).sessions
    ensures Run(steps).sessions[1].publisher.backend(2) == Scene([Plain(2), Plain(1)], [])
    ensures !Shows(Run(steps).clients[0], Run(steps).sessions[1].publisher)
  {
    var backend := (r: nat) => if r <= 1 then Scene([Plain(1), Plain(2)], []) else Scene([Plain(2), Plain(1)], []);
    PlainScenes(1, 2);
    PlainScenes(2, 1);
    hide Legal, Run, ValidScene, Sendable, Shows;
    steps := SnapshotThenDelta(backend);
    assert KeyedList.Keys(backend(1).nodes, NodeKey)[0] != KeyedList.Keys(backend(2).nodes, NodeKey)[0];
  }

  /** A reachable observer that no later update of its session can reach: it counts as
      synchronized, asks for nothing, and only a timestamp of 2^64 - 1 is fresh to it. */
  lemma DeafObserver() returns (steps: seq<Step>)
    ensures Legal(steps) && 0 in Run(steps).clients && 1 in Run(steps).sessions
    ensures var s := Run(steps).clients[0].sync;
      && s.session == Some(1) && s.synchronized && s.revision == 2
      && forall u: Update :: u.timestamp < U64_MAX ==> !S.Fresh(s, u)
  {
    PlainScenes(1, 2);
    hide Legal, Run, ValidScene, Sendable, Shows;
    var before := SnapshotThenDelta((r: nat) => Scene([Plain(1)], []));
    steps := before + [Deliver(0, Encoding(Recovery.LateHeartbeat(Run(before).clients[0].sync, U64_MAX)))];
    Recovery.LateHeartbeatDeafens(before, 0, U64_MAX);
  }
}
