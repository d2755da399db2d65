/** The observer client (observer_client.cpp): a synchronizer and a scene, where
    a datagram's scene is built first and committed only if it is applied. */
module Observer {
  import opened Basics
  import opened StateUpdate
  import opened Topology
  import S = Synchronizer
  import TS = TopologyScene

  datatype Client = Client(sync: S.Sync, scene: Scene)

  datatype ObserverResult =
    AppliedSnapshot | AppliedDelta | Ignored | ResyncRequired | MalformedUpdate | MalformedScene

  const NEW_CLIENT := Client(S.INITIAL, EMPTY)

  /** The scene the datagram would lead to, if its payload parses. */
  function Candidate(scene: Scene, u: Update): Option<Scene>
  {
    match u.kind
    case Snapshot => ParseScene(u.payload)
    case Delta => ApplyDelta(scene, u.payload)
    case _ => Some(scene)
  }

  function ResultOf(r: S.Result): ObserverResult
  {
    match r
    case AppliedSnapshot => AppliedSnapshot
    case AppliedDelta => AppliedDelta
    case AcceptedHeartbeat => Ignored
    case IgnoredDuplicate => Ignored
    case IgnoredStale => Ignored
    case _ => ResyncRequired
  }

  function ConsumeUpdate(c: Client, u: Update): (Client, ObserverResult)
  {
    match Candidate(c.scene, u)
    case None => (c, MalformedScene)
    case Some(scene) =>
      var (sync, r) := S.Consumed(c.sync, u);
      var applied := r.AppliedSnapshot? || r.AppliedDelta?;
      (Client(sync, if applied then scene else c.scene), ResultOf(r))
  }

  function ConsumeDatagram(c: Client, bytes: Bytes): (Client, ObserverResult)
  {
    match Parse(bytes)
    case Rejected(_) => (c, MalformedUpdate)
    case Parsed(u) => ConsumeUpdate(c, u)
  }

  /** The six answers to a datagram, each with its one cause. */
  lemma AnswerExactly(c: Client, bytes: Bytes)
    ensures ConsumeDatagram(c, bytes).1 == MalformedUpdate <==> Parse(bytes).Rejected?
    ensures Parse(bytes).Parsed? ==>
      var u := Parse(bytes).update;
      var (c', r) := ConsumeDatagram(c, bytes);
      var same, isNew := c.sync.session == Some(u.session), S.Fresh(c.sync, u);
      var carries := u.kind == Snapshot || u.kind == Delta;
      var readable := carries ==> ParseScene(u.payload).Some?;
      && (r == MalformedScene <==> !readable)
      && (r == Ignored <==> readable && same && (!isNew || (!carries && S.Continues(c.sync, u))))
      && (r == ResyncRequired <==>
            readable && u.kind != Snapshot && (same ==> isNew && !S.Continues(c.sync, u)))
      && (r == AppliedSnapshot <==> readable && u.kind == Snapshot && (same ==> isNew))
      && (r == AppliedDelta <==> readable && u.kind == Delta && isNew && S.Continues(c.sync, u))
      && (r == AppliedSnapshot ==> c'.scene == ParseScene(u.payload).value)
      && (r == AppliedDelta ==> c'.scene == Override(c.scene, ParseScene(u.payload).value))
      && (r !in {AppliedSnapshot, AppliedDelta} ==> c'.scene == c.scene)
      && (r in {MalformedUpdate, MalformedScene} ==> c' == c)
  {
    hide Parse, ParseScene, Override;
  }

  class ObserverClient {
    const synchronizer: S.ClientSynchronizer
    var scene: TS.TopologyScene

    ghost predicate Valid()
      reads this, scene
    {
      ValidScene(scene.Value())
    }

    ghost function State(): Client
      reads this, synchronizer, scene
    {
      Client(synchronizer.State(), scene.Value())
    }

    constructor ()
      ensures Valid() && State() == NEW_CLIENT && fresh(synchronizer) && fresh(scene)
    {
      synchronizer := new S.ClientSynchronizer();
      scene := new TS.TopologyScene();
    }

    method ConsumeBytes(bytes: Bytes, receivedAt: int) returns (r: ObserverResult)
      requires Valid()
      modifies this, synchronizer
      ensures Valid() && (scene == old(scene) || fresh(scene))
      ensures (State(), r) == ConsumeDatagram(old(State()), bytes)
    {
      var parsed := Parse(bytes);
      if parsed.Rejected? {
        return MalformedUpdate;
      }
      var update := parsed.update;
      var candidate := new TS.TopologyScene.Copy(Scene(scene.nodes, scene.links));
      if update.kind == Snapshot {
        var snapshot := TS.ParseSnapshot(update.payload);
        if snapshot == null {
          return MalformedScene;
        }
        candidate := snapshot;
      } else if update.kind == Delta {
        var ok := candidate.ApplyDelta(update.payload);
        if !ok {
          return MalformedScene;
        }
      }
      var result := synchronizer.Consume(update, receivedAt);
      if result == S.AppliedSnapshot || result == S.AppliedDelta {
        scene := candidate;
      }
      return ResultOf(result);
    }
  }
}
