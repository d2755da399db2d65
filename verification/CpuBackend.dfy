/** The CPU simulation backend (cpu_backend.cpp).  Positions come from an
    arbitrary function of node and tick, as 32-bit patterns; everything else is
    computed as the source does, including 32- and 64-bit wrap-around. */
module CpuBackend {
  import opened Basics
  import opened KeyedList
  import opened Topology
  import Replication
  import Server
  import TS = TopologyScene

  type Position = (nat, nat) -> (u32, u32)

  datatype Config = Config(observerCount: nat, seed: u64, position: Position)

  const WORD := 0x1_0000_0000_0000_0000

  const SWITCH_NAME: Bytes := [115, 119, 105, 116, 99, 104]
  const OBSERVER_NAME: Bytes := [111, 98, 115, 101, 114, 118, 101, 114, 45]

  function Decimal(n: nat): Bytes
  {
    if n < 10 then [48 + n] else Decimal(n / 10) + [48 + n % 10]
  }

  function SwitchNode(tick: nat): Node
  {
    Node(1, 0, 0, 1, tick * 100 % WORD, true, SWITCH_NAME)
  }

  function Packets(c: Config, tick: nat, index: nat): u64
  {
    (tick * (index + 1) * 17 + c.seed) % WORD
  }

  function ObserverNode(c: Config, tick: nat, index: nat): Node
  {
    Node((index + 2) % 0x1_0000_0000, c.position(index, tick).0, c.position(index, tick).1, 10 + index % 4,
         Packets(c, tick, index), true, OBSERVER_NAME + Decimal(index + 1))
  }

  function ObserverLink(c: Config, tick: nat, index: nat): Link
  {
    Link(1, (index + 2) % 0x1_0000_0000, Packets(c, tick, index), true)
  }

  /** The scene after the switch and the first `n` observers. */
  function Partial(c: Config, tick: nat, n: nat): Scene
  {
    if n == 0 then Scene([SwitchNode(tick)], [])
    else
      var s := Partial(c, tick, n - 1);
      Scene(Upsert(s.nodes, ObserverNode(c, tick, n - 1), NodeKey),
            Upsert(s.links, ObserverLink(c, tick, n - 1), LinkKey))
  }

  function Count(c: Config): nat { if c.observerCount == 0 then 1 else c.observerCount }

  function CpuScene(c: Config, tick: nat): Scene { Partial(c, tick, Count(c)) }

  method Step(c: Config, tick: nat) returns (scene: TS.TopologyScene)
    ensures fresh(scene) && scene.Value() == CpuScene(c, tick)
  {
    scene := new TS.TopologyScene();
    scene.UpsertNode(SwitchNode(tick));
    for index := 0 to Count(c)
      invariant fresh(scene) && ValidScene(scene.Value())
      invariant scene.Value() == Partial(c, tick, index)
    {
      scene.UpsertNode(ObserverNode(c, tick, index));
      scene.UpsertLink(ObserverLink(c, tick, index));
    }
  }

  lemma {:induction false} PartialValid(c: Config, tick: nat, n: nat)
    ensures ValidScene(Partial(c, tick, n))
  {
    hide ObserverNode, ObserverLink, Upsert;
    if n > 0 {
      var s := Partial(c, tick, n - 1);
      PartialValid(c, tick, n - 1);
      UpsertIsMapUpdate(s.nodes, ObserverNode(c, tick, n - 1), 0, NodeKey);
      UpsertIsMapUpdate(s.links, ObserverLink(c, tick, n - 1), (0, 0), LinkKey);
    }
  }

  /** Which keys a scene has, and in which order, does not depend on the tick. */
  lemma {:induction false} PartialKeys(c: Config, t: nat, t': nat, n: nat)
    ensures Keys(Partial(c, t, n).nodes, NodeKey) == Keys(Partial(c, t', n).nodes, NodeKey)
    ensures Keys(Partial(c, t, n).links, LinkKey) == Keys(Partial(c, t', n).links, LinkKey)
  {
    hide Packets, Decimal, Upsert;
    if n > 0 {
      PartialKeys(c, t, t', n - 1);
      var s, s' := Partial(c, t, n - 1), Partial(c, t', n - 1);
      KeysOfUpsert(s.nodes, s'.nodes, ObserverNode(c, t, n - 1), ObserverNode(c, t', n - 1), NodeKey);
      KeysOfUpsert(s.links, s'.links, ObserverLink(c, t, n - 1), ObserverLink(c, t', n - 1), LinkKey);
    }
  }

  /** The publisher's scenes are those of the CPU backend. */
  ghost predicate Simulates(p: Server.Publisher, c: Config)
  {
    forall r {:trigger p.backend(r)} :: p.backend(r) == CpuScene(c, r)
  }

  /** The nodes and links of the first `n` observers, none of which share a number. */
  lemma {:induction false} PartialListed(c: Config, tick: nat, n: nat)
    requires n + 1 < 0x1_0000_0000
    ensures var s := Partial(c, tick, n);
      && |s.nodes| == n + 1 && s.nodes[0] == SwitchNode(tick) && |s.links| == n
      && forall i :: 0 <= i < n ==> s.nodes[i + 1] == ObserverNode(c, tick, i) && s.links[i] == ObserverLink(c, tick, i)
  {
    hide Upsert, Decimal, Packets;
    if n > 0 {
      PartialListed(c, tick, n - 1);
      var s := Partial(c, tick, n - 1);
      forall j | 0 <= j < n ensures NodeKey(s.nodes[j]) == j + 1 && (j > 0 ==> LinkKey(s.links[j - 1]) == (1, j + 1)) {
        if j > 0 {
          assert s.nodes[j - 1 + 1] == ObserverNode(c, tick, j - 1) && s.links[j - 1] == ObserverLink(c, tick, j - 1);
        }
      }
      forall j | 0 <= j < |s.links| ensures LinkKey(s.links[j]) == (1, j + 2) {
        assert LinkKey(s.links[j + 1 - 1]) == (1, j + 1 + 1);
      }
      UpsertNew(s.nodes, ObserverNode(c, tick, n - 1), NodeKey);
      UpsertNew(s.links, ObserverLink(c, tick, n - 1), LinkKey);
    }
  }

  /** What the simulation shows, as long as the node numbers fit: the switch, and one node
      and one link per observer, with their traffic. */
  lemma CpuSceneListed(c: Config, tick: nat, i: nat)
    requires Count(c) + 1 < 0x1_0000_0000 && i < Count(c)
    ensures var s := CpuScene(c, tick);
      var packets := (tick * (i + 1) * 17 + c.seed) % 0x1_0000_0000_0000_0000;
      && |s.nodes| == |s.links| + 1 == (if c.observerCount == 0 then 1 else c.observerCount) + 1
      && s.nodes[0].id == 1 && s.nodes[0].vlan == 1 && s.nodes[0].packets == tick * 100 % 0x1_0000_0000_0000_0000
      && s.nodes[i + 1].id == i + 2 && s.nodes[i + 1].vlan == 10 + i % 4 && s.nodes[i + 1].packets == packets
      && (s.nodes[i + 1].x, s.nodes[i + 1].y) == c.position(i, tick)
      && s.links[i].source == 1 && s.links[i].destination == i + 2 && s.links[i].packets == packets
      && s.nodes[0].operational && s.nodes[i + 1].operational && s.links[i].operational
  {
    hide Partial, Decimal;
    PartialListed(c, tick, Count(c));
    var s := CpuScene(c, tick);
    assert s.nodes[i + 1] == ObserverNode(c, tick, i) && s.links[i] == ObserverLink(c, tick, i);
  }

  /** Every configuration of the CPU backend can be mirrored, at any snapshot interval. */
  lemma CpuIsMirrorable(p: Server.Publisher, c: Config)
    requires p.interval >= 1 && Simulates(p, c)
    ensures forall r {:trigger p.backend(r)} :: ValidScene(p.backend(r))
    ensures Replication.Mirrorable(p)
  {
    hide Partial, ValidScene;
    forall r: nat ensures ValidScene(CpuScene(c, r)) {
      PartialValid(c, r, Count(c));
    }
    forall n: nat | n >= 2 ensures KeysGrow(p.backend(n - 1), p.backend(n)) {
      PartialKeys(c, n - 1, n, Count(c));
    }
  }

  /** Mirror safety for the program's own backend, without any side condition: in every
      run, every observer synchronized on a session it drives shows exactly the scene
      computed for the observer's revision. */
  lemma CpuMirror(steps: seq<Replication.Step>, k: nat, c: Config)
    requires Replication.Legal(steps) && k in Replication.Run(steps).clients
    requires var w, sync := Replication.Run(steps), Replication.Run(steps).clients[k].sync;
      && sync.synchronized
      && (sync.session.Some? && sync.session.value in w.sessions ==>
            Simulates(w.sessions[sync.session.value].publisher, c))
    ensures var client := Replication.Run(steps).clients[k]; client.scene == CpuScene(c, client.sync.revision)
  {
    hide Replication.Legal, Replication.Run, Replication.Mirrorable, Replication.Carried, Replication.Shown, CpuScene;
    Replication.MirrorSafety(steps, k);
    var w, sync := Replication.Run(steps), Replication.Run(steps).clients[k].sync;
    var p := w.sessions[sync.session.value].publisher;
    Replication.RunSafe(steps);
    assert Replication.SessionOk(sync.session.value, w.sessions[sync.session.value]);
    CpuIsMirrorable(p, c);
    Replication.MirrorableExactly(p);
    assert Replication.Carried(p, sync.revision);
  }
}
