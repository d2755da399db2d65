/** The authoritative server's numbering of updates (authoritative_server.cpp). */
module Server {
  import opened Basics
  import opened StateUpdate
  import opened Topology
  import TS = TopologyScene

  /** The simulation backend, as the scene it produces for each tick. */
  type Backend = nat -> Scene

  /** `interval` is at least one; sequence and revision start at zero. */
  datatype Publisher = Publisher(session: u64, interval: nat, backend: Backend, sequence: nat, revision: nat)

  const U64_MAX := 0xFFFF_FFFF_FFFF_FFFF

  ghost predicate ValidPublisher(p: Publisher)
  {
    && p.session != 0 && p.interval >= 1
    && p.sequence == p.revision <= U64_MAX
    && forall r {:trigger p.backend(r)} :: ValidScene(p.backend(r))
  }

  predicate SnapshotDue(sequence: nat, interval: nat)
    requires interval >= 1
  {
    sequence == 1 || sequence % interval == 0
  }

  /** The update that carries `scene` as number `n`, when it can be serialized. */
  function UpdateAt(session: u64, interval: nat, scene: Scene, n: nat, timestamp: u64): Option<Update>
    requires n <= U64_MAX && interval >= 1
  {
    var payload := SceneBytes(scene);
    if payload == [] then None
    else if SnapshotDue(n, interval) then Create(Update(Snapshot, session, n, timestamp, 0, n, payload))
    else Create(Update(Delta, session, n, timestamp, n - 1, n, payload))
  }

  /** What the update numbered `n` carries, and when there is none: the scene or the
      payload does not fit, or number or session is zero. */
  lemma UpdateExactly(session: u64, interval: nat, scene: Scene, n: nat, timestamp: u64)
    requires n <= U64_MAX && interval >= 1
    ensures var u := UpdateAt(session, interval, scene, n, timestamp);
      && (u.Some? <==> session != 0 && n != 0 && 0 < |SceneBytes(scene)| <= 61440)
      && (u.Some? ==>
            && u.value.session == session && u.value.sequence == u.value.revision == n && u.value.timestamp == timestamp
            && u.value.payload == SceneBytes(scene)
            && (if n == 1 || n % interval == 0 then u.value.kind == Snapshot && u.value.baseRevision == 0
                else u.value.kind == Delta && u.value.baseRevision == n - 1))
  {
    hide SceneBytes;
  }

  /** A 64-bit increment. */
  function Next(n: nat): u64 { (n + 1) % (U64_MAX + 1) }

  /** Publishing numbers the update even when it then fails to serialize, as the
      update numbered zero after a wrap-around always does. */
  function Publish(p: Publisher, timestamp: u64): (Publisher, Option<Update>)
    requires p.interval >= 1
  {
    (p.(sequence := Next(p.sequence), revision := Next(p.revision)),
     UpdateAt(p.session, p.interval, p.backend(Next(p.revision)), Next(p.sequence), timestamp))
  }

  class AuthoritativeServer {
    const backend: Backend
    const session: u64
    const interval: nat
    var sequence: u64
    var revision: u64

    ghost function State(): Publisher
      reads this
    {
      Publisher(session, interval, backend, sequence, revision)
    }

    constructor (backend: Backend, session: u64, snapshotInterval: nat)
      requires session != 0
      requires forall r {:trigger backend(r)} :: ValidScene(backend(r))
      ensures ValidPublisher(State())
      ensures State() == Publisher(session, if snapshotInterval == 0 then 1 else snapshotInterval, backend, 0, 0)
    {
      this.backend, this.session := backend, session;
      interval := if snapshotInterval == 0 then 1 else snapshotInterval;
      sequence, revision := 0, 0;
    }

    /** The original's constructor throws on session zero; here no server results. */
    static method Create(backend: Backend, session: u64, snapshotInterval: nat) returns (server: AuthoritativeServer?)
      requires forall r {:trigger backend(r)} :: ValidScene(backend(r))
      ensures server == null <==> session == 0
      ensures server != null ==> fresh(server) && ValidPublisher(server.State())
      ensures server != null ==>
        server.State() == Publisher(session, if snapshotInterval == 0 then 1 else snapshotInterval, backend, 0, 0)
    {
      if session == 0 {
        return null;
      }
      server := new AuthoritativeServer(backend, session, snapshotInterval);
    }

    method NextUpdate(timestamp: u64) returns (r: Option<Update>)
      requires ValidPublisher(State())
      modifies this
      ensures ValidPublisher(State())
      ensures (State(), r) == Publish(old(State()), timestamp)
    {
      hide SceneBytes, ValidScene;
      var previousRevision := revision;
      sequence := Next(sequence);
      revision := Next(revision);
      var scene := new TS.TopologyScene.Copy(backend(revision));
      var payload := scene.SerializeSnapshot();
      if payload == [] {
        return None;
      }
      var snapshot := sequence == 1 || sequence % interval == 0;
      return StateUpdate.Create(Update(if snapshot then Snapshot else Delta, session, sequence, timestamp,
                           if snapshot then 0 else previousRevision, revision, payload));
    }
  }
}
