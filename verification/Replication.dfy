/** The replication protocol as a whole: any number of server sessions, any
    number of observers, and a network that may lose, repeat, delay and reorder
    datagrams, and may also deliver, from anyone, heartbeats, resynchronization
    requests and bytes that are no state update at all. */
module Replication {
  import opened Basics
  import opened StateUpdate
  import opened Topology
  import opened Server
  import opened Observer
  import KeyedList
  import S = Synchronizer

  /** A server with everything it ever published: entry `i` is the update
      numbered `i + 1`, or `None` if that one failed to serialize. */
  datatype Session = Session(publisher: Publisher, log: seq<Option<Update>>)

  datatype World = World(sessions: map<u64, Session>, clients: map<nat, Client>)

  datatype Step =
    | StartSession(session: u64, interval: nat, backend: Backend)
    | PublishUpdate(session: u64, timestamp: u64)
    | StartClient(client: nat)
    | Deliver(client: nat, bytes: Bytes)

  const NOTHING := World(map[], map[])

  ghost predicate Sent(w: World, u: Update)
  {
    && u.session in w.sessions
    && 1 <= u.sequence <= |w.sessions[u.session].log|
    && w.sessions[u.session].log[u.sequence - 1] == Some(u)
  }

  ghost predicate Enabled(w: World, step: Step)
  {
    match step
    case StartSession(session, interval, backend) =>
      && session != 0 && session !in w.sessions && interval >= 1
      && (forall r {:trigger backend(r)} :: ValidScene(backend(r)))
    case PublishUpdate(session, _) =>
      session in w.sessions && w.sessions[session].publisher.interval >= 1
      && w.sessions[session].publisher.sequence < U64_MAX
    case StartClient(client) => client !in w.clients
    case Deliver(client, bytes) =>
      client in w.clients && (NoScene(bytes) || exists u :: Sent(w, u) && bytes == Encoding(u))
  }

  /** Bytes that carry no scene: no state update, a heartbeat or a resynchronization request. */
  predicate NoScene(bytes: Bytes)
  {
    Parse(bytes).Rejected? || Parse(bytes).update.kind == Heartbeat || Parse(bytes).update.kind == ResyncRequest
  }

  ghost function Apply(w: World, step: Step): World
    requires Enabled(w, step)
  {
    match step
    case StartSession(session, interval, backend) =>
      w.(sessions := w.sessions[session := Session(Publisher(session, interval, backend, 0, 0), [])])
    case PublishUpdate(session, timestamp) =>
      var s := w.sessions[session];
      var (publisher, update) := Publish(s.publisher, timestamp);
      w.(sessions := w.sessions[session := Session(publisher, s.log + [update])])
    case StartClient(client) => w.(clients := w.clients[client := NEW_CLIENT])
    case Deliver(client, bytes) =>
      w.(clients := w.clients[client := ConsumeDatagram(w.clients[client], bytes).0])
  }

  ghost predicate Legal(steps: seq<Step>)
    decreases |steps|, 0
  {
    steps == [] || (Legal(steps[..|steps| - 1]) && Enabled(Run(steps[..|steps| - 1]), steps[|steps| - 1]))
  }

  ghost function Run(steps: seq<Step>): World
    requires Legal(steps)
    decreases |steps|, 1
  {
    if steps == [] then NOTHING else Apply(Run(steps[..|steps| - 1]), steps[|steps| - 1])
  }

  // ---- Invariant ----

  ghost predicate SessionOk(id: u64, s: Session)
  {
    && ValidPublisher(s.publisher) && s.publisher.session == id
    && |s.log| == s.publisher.sequence
    && forall i :: 0 <= i < |s.log| ==> LoggedOk(s.publisher, i + 1, s.log[i])
  }

  ghost predicate LoggedOk(p: Publisher, n: nat, entry: Option<Update>)
    requires 1 <= n <= U64_MAX && p.interval >= 1
  {
    entry.Some? ==> entry == UpdateAt(p.session, p.interval, p.backend(n), n, entry.value.timestamp)
  }

  /** The last snapshot up to revision `r`, overridden by every delta after it. */
  ghost function Shown(p: Publisher, r: nat): Scene
    requires p.interval >= 1 && r >= 1
  {
    if SnapshotDue(r, p.interval) then p.backend(r) else Override(Shown(p, r - 1), p.backend(r))
  }

  /** A synchronized client is on a revision its session published, and its scene
      is determined by that session and revision. */
  ghost predicate ClientOk(sessions: map<u64, Session>, c: Client)
  {
    c.sync.synchronized ==>
      && c.sync.session.Some? && c.sync.session.value in sessions
      && var s := sessions[c.sync.session.value];
         1 <= c.sync.revision <= |s.log| && s.publisher.interval >= 1 && c.scene == Shown(s.publisher, c.sync.revision)
  }

  ghost predicate Inv(w: World)
  {
    && (forall id :: id in w.sessions ==> SessionOk(id, w.sessions[id]))
    && (forall k :: k in w.clients ==> ClientOk(w.sessions, w.clients[k]))
  }

  /** What an update says about the session it came from. */
  ghost predicate Faithful(p: Publisher, u: Update)
    requires p.interval >= 1
  {
    && Valid(u) && u.session == p.session && u.revision == u.sequence
    && ParseScene(u.payload) == Some(p.backend(u.sequence))
    && (if SnapshotDue(u.sequence, p.interval) then u.kind == Snapshot
        else u.kind == Delta && u.baseRevision == u.sequence - 1)
  }

  lemma SentIsFaithful(w: World, u: Update)
    requires Inv(w) && Sent(w, u)
    ensures Faithful(w.sessions[u.session].publisher, u)
  {
    hide ValidScene, SceneBytes, ParseScene, ClientOk;
    var s := w.sessions[u.session];
    assert LoggedOk(s.publisher, u.sequence, s.log[u.sequence - 1]);
    var scene := s.publisher.backend(u.sequence);
    assert ValidScene(scene);
    SentIsEncodable(scene);
    SceneRoundTrip(scene);
  }

  lemma SentIsEncodable(scene: Scene)
    ensures SceneBytes(scene) != [] ==> Encodable(scene)
  {
  }

  lemma DeliverySafe(w: World, c: Client, u: Update)
    requires Inv(w) && ClientOk(w.sessions, c) && Sent(w, u)
    ensures ClientOk(w.sessions, ConsumeUpdate(c, u).0)
  {
    hide ValidScene, ParseScene, Override, LoggedOk, Valid;
    SentIsFaithful(w, u);
    assert SessionOk(u.session, w.sessions[u.session]);
  }

  /** Heartbeats and requests can cost a client its synchronization, never its scene. */
  lemma NoSceneSafe(w: World, c: Client, bytes: Bytes)
    requires ClientOk(w.sessions, c) && NoScene(bytes)
    ensures ClientOk(w.sessions, ConsumeDatagram(c, bytes).0)
  {
    hide Parse, Shown, ParseScene;
  }

  lemma DatagramSafe(w: World, c: Client, bytes: Bytes)
    requires Inv(w) && ClientOk(w.sessions, c)
    requires NoScene(bytes) || exists u :: Sent(w, u) && bytes == Encoding(u)
    ensures ClientOk(w.sessions, ConsumeDatagram(c, bytes).0)
  {
    hide ClientOk, SessionOk, Parse, Encoding, ConsumeUpdate;
    if NoScene(bytes) {
      NoSceneSafe(w, c, bytes);
    } else {
      var u :| Sent(w, u) && bytes == Encoding(u);
      SentIsFaithful(w, u);
      ParseOfEncoding(u);
      DeliverySafe(w, c, u);
    }
  }

  /** Publishing extends a log and changes nothing a client relies on. */
  lemma PublishSafe(w: World, session: u64, timestamp: u64)
    requires Inv(w) && Enabled(w, PublishUpdate(session, timestamp))
    ensures Inv(Apply(w, PublishUpdate(session, timestamp)))
  {
    hide UpdateAt, Shown, ValidScene;
    var s := w.sessions[session];
    var w' := Apply(w, PublishUpdate(session, timestamp));
    var s' := w'.sessions[session];
    assert SessionOk(session, s);
    forall i | 0 <= i < |s'.log| ensures LoggedOk(s'.publisher, i + 1, s'.log[i]) {
      if i < |s.log| {
        assert LoggedOk(s.publisher, i + 1, s.log[i]);
      } else {
        TimestampKept(s.publisher, i + 1, timestamp);
      }
    }
    forall k | k in w'.clients ensures ClientOk(w'.sessions, w'.clients[k]) {
      var c := w.clients[k];
      assert ClientOk(w.sessions, c);
      if c.sync.synchronized && c.sync.session == Some(session) {
        ShownSame(s.publisher, s'.publisher, c.sync.revision);
      }
    }
  }

  /** Publishing more changes nothing about revisions already published. */
  lemma {:induction false} ShownSame(p: Publisher, p': Publisher, r: nat)
    requires p.interval == p'.interval >= 1 && p.backend == p'.backend && r >= 1
    ensures Shown(p, r) == Shown(p', r)
  {
    if !SnapshotDue(r, p.interval) {
      ShownSame(p, p', r - 1);
    }
  }

  lemma TimestampKept(p: Publisher, n: nat, timestamp: u64)
    requires 1 <= n <= U64_MAX && p.interval >= 1
    ensures LoggedOk(p, n, UpdateAt(p.session, p.interval, p.backend(n), n, timestamp))
  {
    hide SceneBytes;
  }

  lemma StepSafe(w: World, step: Step)
    requires Inv(w) && Enabled(w, step)
    ensures Inv(Apply(w, step))
  {
    hide LoggedOk, Shown, ValidScene, Parse, Encoding, ConsumeDatagram;
    match step
    case StartSession(session, interval, backend) =>
      var w' := Apply(w, step);
      forall k | k in w'.clients ensures ClientOk(w'.sessions, w'.clients[k]) {
        assert ClientOk(w.sessions, w.clients[k]);
      }
    case PublishUpdate(session, timestamp) => PublishSafe(w, session, timestamp);
    case StartClient(_) =>
    case Deliver(client, bytes) => DatagramSafe(w, w.clients[client], bytes);
  }

  lemma {:induction false} RunSafe(steps: seq<Step>)
    requires Legal(steps)
    ensures Inv(Run(steps))
  {
    if steps != [] {
      RunSafe(steps[..|steps| - 1]);
      StepSafe(Run(steps[..|steps| - 1]), steps[|steps| - 1]);
    }
  }

  // ---- Main results ----

  /** The client displays the scene its server computed for the client's revision. */
  ghost predicate Shows(c: Client, p: Publisher) { c.scene == p.backend(c.sync.revision) }

  /** Revision `r` was a snapshot, or no key that observers held before it disappears or moves. */
  ghost predicate Carried(p: Publisher, r: nat)
    requires p.interval >= 1 && r >= 1
  {
    SnapshotDue(r, p.interval) || KeysGrow(Shown(p, r - 1), p.backend(r))
  }

  lemma {:induction false} ShownValid(p: Publisher, r: nat)
    requires ValidPublisher(p) && r >= 1
    ensures ValidScene(Shown(p, r))
  {
    if !SnapshotDue(r, p.interval) {
      ShownValid(p, r - 1);
      KeyedList.UpsertAllUnique(Shown(p, r - 1).nodes, p.backend(r).nodes, NodeKey);
      KeyedList.UpsertAllUnique(Shown(p, r - 1).links, p.backend(r).links, LinkKey);
    }
  }

  lemma {:induction false} ShownExactly(p: Publisher, r: nat)
    requires ValidPublisher(p) && r >= 1
    ensures Shown(p, r) == p.backend(r) <==> Carried(p, r)
  {
    hide ValidScene, Override, KeysGrow;
    if !SnapshotDue(r, p.interval) {
      ShownValid(p, r - 1);
      DeltaReplaces(Shown(p, r - 1), p.backend(r));
    }
  }

  /** In every run, the scene of every synchronized observer is the last snapshot of
      its session overridden by the deltas up to its revision; it is exactly the scene
      the server computed for that revision if and only if that revision is carried. */
  lemma MirrorSafety(steps: seq<Step>, k: nat)
    requires Legal(steps) && k in Run(steps).clients && Run(steps).clients[k].sync.synchronized
    ensures var w, c := Run(steps), Run(steps).clients[k];
      && c.sync.session.Some? && c.sync.session.value in w.sessions
      && var p := w.sessions[c.sync.session.value].publisher;
         && 1 <= c.sync.revision <= p.revision && p.interval >= 1
         && c.scene == Shown(p, c.sync.revision) && (Shows(c, p) <==> Carried(p, c.sync.revision))
  {
    hide Legal, Run, LoggedOk, Shown, Carried;
    RunSafe(steps);
    var w, c := Run(steps), Run(steps).clients[k];
    assert ClientOk(w.sessions, c);
    var s := w.sessions[c.sync.session.value];
    assert SessionOk(c.sync.session.value, s);
    ShownExactly(s.publisher, c.sync.revision);
  }

  /** Two observers synchronized on one session and revision hold one scene, always. */
  lemma ObserversAgree(steps: seq<Step>, j: nat, k: nat)
    requires Legal(steps) && j in Run(steps).clients && k in Run(steps).clients
    requires var a, b := Run(steps).clients[j].sync, Run(steps).clients[k].sync;
      a.synchronized && b.synchronized && a.session == b.session && a.revision == b.revision
    ensures Run(steps).clients[j].scene == Run(steps).clients[k].scene
  {
    hide Legal, Run, Shown;
    MirrorSafety(steps, j);
    MirrorSafety(steps, k);
  }

  /** Each delta's scene keeps the keys of the scene before it, in place. */
  ghost predicate Mirrorable(p: Publisher)
    requires p.interval >= 1
  {
    forall n: nat :: n >= 2 && !SnapshotDue(n, p.interval) ==> KeysGrow(p.backend(n - 1), p.backend(n))
  }

  /** All revisions of a session are carried if and only if its deltas keep keys in place. */
  lemma {:induction false} MirrorableExactly(p: Publisher)
    requires ValidPublisher(p)
    ensures Mirrorable(p) <==> forall r: nat :: r >= 1 ==> Carried(p, r)
  {
    hide KeysGrow, Shown, ValidScene;
    if Mirrorable(p) {
      forall r: nat | r >= 1 ensures Carried(p, r) { CarriedUpTo(p, r); }
    }
    if forall r: nat :: r >= 1 ==> Carried(p, r) {
      forall n: nat | n >= 2 && !SnapshotDue(n, p.interval) ensures KeysGrow(p.backend(n - 1), p.backend(n)) {
        assert Carried(p, n) && Carried(p, n - 1);
        ShownExactly(p, n - 1);
      }
    }
  }

  lemma {:induction false} CarriedUpTo(p: Publisher, r: nat)
    requires ValidPublisher(p) && Mirrorable(p) && r >= 1
    ensures Carried(p, r)
  {
    hide KeysGrow, Shown, ValidScene;
    if !SnapshotDue(r, p.interval) {
      CarriedUpTo(p, r - 1);
      ShownExactly(p, r - 1);
    }
  }

  /** Synchronized on update number `m` of session `id`. */
  ghost predicate At(c: Client, id: u64, m: nat) { S.InStep(c.sync, id, m) }

  lemma ExtendRun(steps: seq<Step>, step: Step)
    requires Legal(steps) && Enabled(Run(steps), step)
    ensures Legal(steps + [step]) && Run(steps + [step]) == Apply(Run(steps), step)
  {
    hide Enabled, Apply;
    assert (steps + [step])[..|steps|] == steps;
  }

  /** The deliveries of the datagrams of `us` to observer `k`, in order. */
  ghost function Deliveries(k: nat, us: seq<Update>): seq<Step>
  {
    if us == [] then [] else Deliveries(k, us[..|us| - 1]) + [Deliver(k, Encoding(us[|us| - 1]))]
  }

  /** Sent updates can always be delivered, and the observer's synchronizer consumes
      them in order.  Updates of its session that are not fresh leave it as it is. */
  lemma {:induction false} DeliverAll(steps: seq<Step>, k: nat, us: seq<Update>)
    requires Legal(steps) && k in Run(steps).clients && forall u :: u in us ==> Sent(Run(steps), u)
    ensures var after := steps + Deliveries(k, us);
      && Legal(after) && Run(after).sessions == Run(steps).sessions && k in Run(after).clients
      && Run(after).clients[k].sync == S.ConsumeAll(Run(steps).clients[k].sync, us)
      && (AllStale(Run(steps).clients[k].sync, us) ==> Run(after).clients[k] == Run(steps).clients[k])
  {
    hide Legal, Run, Encoding, Parse, Sent, S.Consumed, Candidate, S.Fresh;
    if us == [] {
      assert steps + Deliveries(k, us) == steps;
    } else {
      var front, u := us[..|us| - 1], us[|us| - 1];
      DeliverAll(steps, k, front);
      var before := steps + Deliveries(k, front);
      RunSafe(before);
      SentInBoth(Run(steps), Run(before), u);
      SentIsFaithful(Run(before), u);
      ParseOfEncoding(u);
      FaithfulScene(Run(before), Run(before).clients[k], u);
      if AllStale(Run(steps).clients[k].sync, us) { S.HeardOnce(Run(steps).clients[k].sync, u); }
      ExtendRun(before, Deliver(k, Encoding(u)));
      assert steps + Deliveries(k, us) == before + [Deliver(k, Encoding(u))];
    }
  }

  /** Updates of the session being heard, none of them fresh. */
  ghost predicate AllStale(s: S.Sync, us: seq<Update>)
  {
    forall u :: u in us ==> s.session == Some(u.session) && !S.Fresh(s, u)
  }

  /** A sent update always carries a scene, so what happens is up to the synchronizer. */
  lemma FaithfulScene(w: World, c: Client, u: Update)
    requires Inv(w) && Sent(w, u)
    ensures ConsumeUpdate(c, u).0.sync == S.Consumed(c.sync, u).0
    ensures c.sync.session == Some(u.session) && !S.Fresh(c.sync, u) ==> ConsumeUpdate(c, u).0 == c
  {
    hide Topology.ParseScene, Inv, Valid;
    SentIsFaithful(w, u);
  }

  lemma SentInBoth(w: World, w': World, u: Update)
    requires w'.sessions == w.sessions
    ensures Sent(w, u) <==> Sent(w', u)
  {
  }
}
