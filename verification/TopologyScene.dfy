/** The mutable scene object, its byte reader and its two codec loops
    (topology.cpp), proved against the values of module `Topology`. */
module TopologyScene {
  import opened Basics
  import opened Wire
  import opened KeyedList
  import opened Topology

  /** A cursor over a byte string; a failed read does not move it. */
  class Reader {
    const bytes: Bytes
    var offset: nat

    ghost predicate Valid()
      reads this
    {
      offset <= |bytes|
    }

    ghost function Remaining(): Bytes
      requires Valid()
      reads this
    {
      bytes[offset..]
    }

    constructor (bytes: Bytes)
      ensures Valid() && this.bytes == bytes && offset == 0
    {
      this.bytes, offset := bytes, 0;
    }

    method Integer(width: nat) returns (r: Option<nat>)
      requires Valid()
      modifies this
      ensures Valid()
      ensures old(offset) + width <= |bytes| ==>
        r == Some(Get(bytes, old(offset), width)) && offset == old(offset) + width
      ensures old(offset) + width > |bytes| ==> r == None && offset == old(offset)
    {
      r := ReadBigEndian(bytes, offset, width);
      if r.Some? {
        offset := offset + width;
      }
    }

    method Text(size: nat) returns (r: Option<Bytes>)
      requires Valid()
      modifies this
      ensures Valid()
      ensures old(offset) + size <= |bytes| ==>
        r == Some(bytes[old(offset)..old(offset) + size]) && offset == old(offset) + size
      ensures old(offset) + size > |bytes| ==> r == None && offset == old(offset)
    {
      if offset > |bytes| || size > |bytes| - offset {
        return None;
      }
      offset := offset + size;
      return Some(bytes[offset - size..offset]);
    }

    predicate Finished()
      reads this
    {
      offset == |bytes|
    }
  }

  lemma GetDrop(b: Bytes, k: nat, off: nat, w: nat)
    requires k + off + w <= |b|
    ensures Get(b[k..], off, w) == Get(b, k + off, w)
  {
    assert b[k..][off..off + w] == b[k + off..k + off + w];
  }

  /** Taking a node at offset `k`, spelled with absolute offsets. */
  lemma NodeAt(b: Bytes, k: nat)
    requires k <= |b|
    ensures TakeNode(b[k..]) ==
      if |b| < k + 24 || |b| < k + 24 + Get(b, k + 15, 1) then None
      else var end := k + 24 + Get(b, k + 15, 1);
        Some((Node(Get(b, k, 4), Get(b, k + 4, 4), Get(b, k + 8, 4), Get(b, k + 12, 2), Get(b, k + 16, 8),
                   Get(b, k + 14, 1) % 2 == 1, b[k + 24..end]), b[end..]))
  {
    hide Get;
    if |b| >= k + 24 {
      GetDrop(b, k, 0, 4);
      GetDrop(b, k, 4, 4);
      GetDrop(b, k, 8, 4);
      GetDrop(b, k, 12, 2);
      GetDrop(b, k, 14, 1);
      GetDrop(b, k, 15, 1);
      GetDrop(b, k, 16, 8);
      var size := Get(b, k + 15, 1);
      if |b| >= k + 24 + size {
        assert b[k..][24..24 + size] == b[k + 24..k + 24 + size];
      }
    }
  }

  lemma LinkAt(b: Bytes, k: nat)
    requires k <= |b|
    ensures TakeLink(b[k..]) ==
      if |b| < k + 17 then None
      else Some((Link(Get(b, k, 4), Get(b, k + 4, 4), Get(b, k + 8, 8), Get(b, k + 16, 1) % 2 == 1), b[k + 17..]))
  {
    if |b| >= k + 17 {
      GetDrop(b, k, 0, 4);
      GetDrop(b, k, 4, 4);
      GetDrop(b, k, 8, 8);
      GetDrop(b, k, 16, 1);
    }
  }

  method ReadNode(reader: Reader) returns (r: Option<Node>)
    requires reader.Valid()
    modifies reader
    ensures reader.Valid()
    ensures match TakeNode(old(reader.Remaining()))
            case None => r == None
            case Some((n, rest)) => r == Some(n) && reader.Remaining() == rest
  {
    hide Get, TakeNode;
    NodeAt(reader.bytes, reader.offset);
    var id := reader.Integer(4);
    var x := reader.Integer(4);
    var y := reader.Integer(4);
    var vlan := reader.Integer(2);
    var flags := reader.Integer(1);
    var size := reader.Integer(1);
    var packets := reader.Integer(8);
    if id.None? || x.None? || y.None? || vlan.None? || flags.None? || size.None? || packets.None? {
      return None;
    }
    var text := reader.Text(size.value);
    if text.None? {
      return None;
    }
    return Some(Node(id.value, x.value, y.value, vlan.value, packets.value, flags.value % 2 == 1, text.value));
  }

  method ReadLink(reader: Reader) returns (r: Option<Link>)
    requires reader.Valid()
    modifies reader
    ensures reader.Valid()
    ensures match TakeLink(old(reader.Remaining()))
            case None => r == None
            case Some((l, rest)) => r == Some(l) && reader.Remaining() == rest
  {
    hide Get, TakeLink;
    LinkAt(reader.bytes, reader.offset);
    var source := reader.Integer(4);
    var destination := reader.Integer(4);
    var packets := reader.Integer(8);
    var flags := reader.Integer(1);
    if source.None? || destination.None? || packets.None? || flags.None? {
      return None;
    }
    return Some(Link(source.value, destination.value, packets.value, flags.value % 2 == 1));
  }

  lemma {:induction false} TakeManyNone<T>(b: Bytes, i: nat, n: nat, take: Bytes -> Option<(T, Bytes)>)
    requires i <= n && TakeMany(b, i, take).None?
    ensures TakeMany(b, n, take).None?
    decreases n
  {
    if i < n {
      TakeManyNone(b, i, n - 1, take);
    }
  }

  class TopologyScene {
    var nodes: seq<Node>
    var links: seq<Link>

    ghost function Value(): Scene
      reads this
    {
      Scene(nodes, links)
    }

    constructor ()
      ensures Value() == EMPTY && ValidScene(Value())
    {
      nodes, links := [], [];
    }

    constructor Copy(scene: Scene)
      ensures Value() == scene
    {
      nodes, links := scene.nodes, scene.links;
    }

    method UpsertNode(node: Node)
      requires ValidScene(Value())
      modifies this
      ensures Value() == old(Value()).(nodes := Upsert(old(nodes), node, NodeKey))
      ensures ValidScene(Value())
    {
      var i := FindFirst(nodes, node.id, NodeKey);
      UpsertFound(nodes, i, node, NodeKey);
      if i == |nodes| {
        nodes := nodes + [node];
      } else {
        nodes := nodes[i := node];
      }
    }

    method UpsertLink(link: Link)
      requires ValidScene(Value())
      modifies this
      ensures Value() == old(Value()).(links := Upsert(old(links), link, LinkKey))
      ensures ValidScene(Value())
    {
      var i := FindFirst(links, LinkKey(link), LinkKey);
      UpsertFound(links, i, link, LinkKey);
      if i == |links| {
        links := links + [link];
      } else {
        links := links[i := link];
      }
    }

    method UpsertNodes(ns: seq<Node>)
      requires ValidScene(Value())
      modifies this
      ensures Value() == old(Value()).(nodes := UpsertAll(old(nodes), ns, NodeKey))
      ensures ValidScene(Value())
    {
      for i := 0 to |ns|
        invariant ValidScene(Value())
        invariant Value() == old(Value()).(nodes := UpsertAll(old(nodes), ns[..i], NodeKey))
      {
        assert ns[..i + 1][..i] == ns[..i];
        UpsertNode(ns[i]);
      }
      assert ns[..|ns|] == ns;
    }

    method UpsertLinks(ls: seq<Link>)
      requires ValidScene(Value())
      modifies this
      ensures Value() == old(Value()).(links := UpsertAll(old(links), ls, LinkKey))
      ensures ValidScene(Value())
    {
      for i := 0 to |ls|
        invariant ValidScene(Value())
        invariant Value() == old(Value()).(links := UpsertAll(old(links), ls[..i], LinkKey))
      {
        assert ls[..i + 1][..i] == ls[..i];
        UpsertLink(ls[i]);
      }
      assert ls[..|ls|] == ls;
    }

    /** All or nothing: a delta that does not parse leaves the scene as it was. */
    method ApplyDelta(bytes: Bytes) returns (ok: bool)
      requires ValidScene(Value())
      modifies this
      ensures ValidScene(Value())
      ensures ok <==> ParseScene(bytes).Some?
      ensures Value() == if ok then Override(old(Value()), ParseScene(bytes).value) else old(Value())
    {
      var delta := ParseSnapshot(bytes);
      if delta == null {
        return false;
      }
      UpsertNodes(delta.nodes);
      UpsertLinks(delta.links);
      return true;
    }

    method SerializeSnapshot() returns (bytes: Bytes)
      ensures bytes == SceneBytes(Value())
    {
      hide ManyBytes, SceneHeader;
      if |nodes| > 0xFFFF || |links| > 0xFFFF {
        return [];
      }
      bytes := SceneHeader(|nodes|, |links|);
      var fits;
      fits, bytes := AppendNodes(bytes);
      if !fits {
        return [];
      }
      bytes := AppendLinks(bytes);
    }

    /** The node loop: fails on the first label that does not fit. */
    method AppendNodes(front: Bytes) returns (fits: bool, bytes: Bytes)
      ensures fits <==> forall n :: n in nodes ==> |n.name| <= 0xFF
      ensures fits ==> bytes == front + ManyBytes(nodes, NodeBytes)
    {
      hide NodeBytes;
      bytes := front;
      for i := 0 to |nodes|
        invariant forall k :: 0 <= k < i ==> |nodes[k].name| <= 0xFF
        invariant bytes == front + ManyBytes(nodes[..i], NodeBytes)
      {
        if |nodes[i].name| > 0xFF {
          return false, bytes;
        }
        assert nodes[..i + 1][..i] == nodes[..i];
        bytes := bytes + NodeBytes(nodes[i]);
      }
      assert nodes[..|nodes|] == nodes;
      fits := true;
    }

    method AppendLinks(front: Bytes) returns (bytes: Bytes)
      ensures bytes == front + ManyBytes(links, LinkBytes)
    {
      hide LinkBytes;
      bytes := front;
      for i := 0 to |links|
        invariant bytes == front + ManyBytes(links[..i], LinkBytes)
      {
        assert links[..i + 1][..i] == links[..i];
        bytes := bytes + LinkBytes(links[i]);
      }
      assert links[..|links|] == links;
    }
  }

  method ParseSnapshot(bytes: Bytes) returns (scene: TopologyScene?)
    ensures scene == null <==> ParseScene(bytes).None?
    ensures scene != null ==> fresh(scene) && scene.Value() == ParseScene(bytes).value && ValidScene(scene.Value())
  {
    hide Get, TakeNode, TakeLink, TakeMany;
    var reader := new Reader(bytes);
    var magic := reader.Integer(4);
    var nodeCount := reader.Integer(2);
    var linkCount := reader.Integer(2);
    if magic.None? || magic.value != MAGIC || nodeCount.None? || linkCount.None? {
      return null;
    }
    ghost var body := bytes[8..];
    scene := new TopologyScene();
    var ok, ns := ReadNodes(reader, scene, nodeCount.value);
    if !ok {
      return null;
    }
    ghost var ls;
    ok, ls := ReadLinks(reader, scene, linkCount.value);
    if !ok || !reader.Finished() {
      return null;
    }
  }

  method ReadNodes(reader: Reader, scene: TopologyScene, count: nat) returns (ok: bool, ghost ns: seq<Node>)
    requires reader.Valid() && ValidScene(scene.Value())
    modifies reader, scene
    ensures reader.Valid() && ValidScene(scene.Value())
    ensures !ok ==> TakeMany(old(reader.Remaining()), count, TakeNode) == None
    ensures ok ==> TakeMany(old(reader.Remaining()), count, TakeNode) == Some((ns, reader.Remaining()))
    ensures ok ==> scene.Value() == old(scene.Value()).(nodes := UpsertAll(old(scene.nodes), ns, NodeKey))
  {
    hide TakeNode, Unique;
    ns := [];
    ghost var body := reader.Remaining();
    for index := 0 to count
      invariant reader.Valid() && ValidScene(scene.Value())
      invariant TakeMany(body, index, TakeNode) == Some((ns, reader.Remaining()))
      invariant scene.Value() == old(scene.Value()).(nodes := UpsertAll(old(scene.nodes), ns, NodeKey))
    {
      var node := ReadNode(reader);
      if node.None? {
        TakeManyNone(body, index + 1, count, TakeNode);
        return false, ns;
      }
      scene.UpsertNode(node.value);
      assert (ns + [node.value])[..|ns|] == ns;
      ns := ns + [node.value];
    }
    return true, ns;
  }

  method ReadLinks(reader: Reader, scene: TopologyScene, count: nat) returns (ok: bool, ghost ls: seq<Link>)
    requires reader.Valid() && ValidScene(scene.Value())
    modifies reader, scene
    ensures reader.Valid() && ValidScene(scene.Value())
    ensures !ok ==> TakeMany(old(reader.Remaining()), count, TakeLink) == None
    ensures ok ==> TakeMany(old(reader.Remaining()), count, TakeLink) == Some((ls, reader.Remaining()))
    ensures ok ==> scene.Value() == old(scene.Value()).(links := UpsertAll(old(scene.links), ls, LinkKey))
  {
    hide TakeLink, Unique;
    ls := [];
    ghost var body := reader.Remaining();
    for index := 0 to count
      invariant reader.Valid() && ValidScene(scene.Value())
      invariant TakeMany(body, index, TakeLink) == Some((ls, reader.Remaining()))
      invariant scene.Value() == old(scene.Value()).(links := UpsertAll(old(scene.links), ls, LinkKey))
    {
      var link := ReadLink(reader);
      if link.None? {
        TakeManyNone(body, index + 1, count, TakeLink);
        return false, ls;
      }
      scene.UpsertLink(link.value);
      assert (ls + [link.value])[..|ls|] == ls;
      ls := ls + [link.value];
    }
    return true, ls;
  }
}
