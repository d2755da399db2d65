/** The topology scene and its snapshot encoding (topology.cpp).

    Floating-point positions are carried as their 32-bit patterns. */
module Topology {
  import opened Basics
  import opened Wire
  import opened KeyedList

  const MAGIC: u32 := 0x544F5031
  const NODE_HEADER := 24
  const LINK_SIZE := 17

  datatype Node = Node(id: u32, x: u32, y: u32, vlan: u16, packets: u64, operational: bool, name: Bytes)
  datatype Link = Link(source: u32, destination: u32, packets: u64, operational: bool)
  datatype Scene = Scene(nodes: seq<Node>, links: seq<Link>)

  function NodeKey(n: Node): u32 { n.id }
  function LinkKey(l: Link): (u32, u32) { (l.source, l.destination) }

  /** Every scene is built by upserts, so its keys are unique. */
  ghost predicate ValidScene(s: Scene)
  {
    Unique(s.nodes, NodeKey) && Unique(s.links, LinkKey)
  }

  const EMPTY := Scene([], [])

  /** Writing every node and link of `d` over `s`. */
  function Override(s: Scene, d: Scene): Scene
  {
    Scene(UpsertAll(s.nodes, d.nodes, NodeKey), UpsertAll(s.links, d.links, LinkKey))
  }

  /** The keys of `a` are the first keys of `b`, in order. */
  ghost predicate KeysGrow(a: Scene, b: Scene)
  {
    Keys(a.nodes, NodeKey) <= Keys(b.nodes, NodeKey) && Keys(a.links, LinkKey) <= Keys(b.links, LinkKey)
  }

  /** A full scene sent as a delta replaces the old scene exactly when no key
      disappears or moves. */
  lemma DeltaReplaces(a: Scene, b: Scene)
    requires ValidScene(a) && ValidScene(b)
    ensures Override(a, b) == b <==> KeysGrow(a, b)
  {
    OverrideIsReplacement(a.nodes, b.nodes, NodeKey);
    OverrideIsReplacement(a.links, b.links, LinkKey);
  }

  /** A scene that loses a node cannot be sent as a delta: the old node stays. */
  lemma DeletionIsNotMirrored(a: Node, b: Node)
    requires a.id != b.id
    ensures Override(Scene([a, b], []), Scene([a], [])) == Scene([a, b], []) != Scene([a], [])
  {
    var s := [a, b];
    assert [a][..0] == [];
    assert UpsertAll(s, [a][..0], NodeKey) == s;
    UpsertAt(s, 0, a, NodeKey);
    assert UpsertAll(s, [a], NodeKey) == Upsert(s, a, NodeKey) == s[0 := a] == s;
  }

  // ---- Encoding ----

  function Flag(operational: bool): byte { if operational then 1 else 0 }

  function NodeHeader(n: Node): (h: Bytes)
    ensures |h| == NODE_HEADER
  {
    Encode(n.id, 4) + Encode(n.x, 4) + Encode(n.y, 4) + Encode(n.vlan, 2) + Encode(Flag(n.operational), 1)
    + Encode(|n.name|, 1) + Encode(n.packets, 8)
  }

  function NodeBytes(n: Node): Bytes
  {
    NodeHeader(n) + n.name
  }

  function LinkBytes(l: Link): Bytes
  {
    Encode(l.source, 4) + Encode(l.destination, 4) + Encode(l.packets, 8) + Encode(Flag(l.operational), 1)
  }

  function ManyBytes<T>(xs: seq<T>, encode: T -> Bytes): Bytes
  {
    if xs == [] then [] else ManyBytes(xs[..|xs| - 1], encode) + encode(xs[|xs| - 1])
  }

  predicate Encodable(s: Scene)
  {
    |s.nodes| <= 0xFFFF && |s.links| <= 0xFFFF && forall n :: n in s.nodes ==> |n.name| <= 0xFF
  }

  /** The snapshot, or the empty string when a count or a label does not fit its field. */
  function SceneBytes(s: Scene): Bytes
  {
    if Encodable(s)
    then SceneHeader(|s.nodes|, |s.links|) + (ManyBytes(s.nodes, NodeBytes) + ManyBytes(s.links, LinkBytes))
    else []
  }

  function SceneHeader(nodeCount: nat, linkCount: nat): (h: Bytes)
    ensures |h| == 8
  {
    Encode(MAGIC, 4) + Encode(nodeCount, 2) + Encode(linkCount, 2)
  }

  // ---- Decoding ----

  /** One node from the front of `b`, with the bytes that follow it. */
  function TakeNode(b: Bytes): Option<(Node, Bytes)>
  {
    if |b| < NODE_HEADER || |b| - NODE_HEADER < Get(b, 15, 1) then None
    else var size := Get(b, 15, 1);
      Some((Node(Get(b, 0, 4), Get(b, 4, 4), Get(b, 8, 4), Get(b, 12, 2), Get(b, 16, 8),
                 Get(b, 14, 1) % 2 == 1, b[NODE_HEADER..NODE_HEADER + size]),
            b[NODE_HEADER + size..]))
  }

  function TakeLink(b: Bytes): Option<(Link, Bytes)>
  {
    if |b| < LINK_SIZE then None
    else Some((Link(Get(b, 0, 4), Get(b, 4, 4), Get(b, 8, 8), Get(b, 16, 1) % 2 == 1), b[LINK_SIZE..]))
  }

  function TakeMany<T>(b: Bytes, n: nat, take: Bytes -> Option<(T, Bytes)>): Option<(seq<T>, Bytes)>
  {
    if n == 0 then Some(([], b)) else
    match TakeMany(b, n - 1, take)
    case None => None
    case Some((xs, rest)) =>
      match take(rest)
      case None => None
      case Some((x, rest')) => Some((xs + [x], rest'))
  }

  function TakeLists(b: Bytes, nodeCount: nat, linkCount: nat): Option<(seq<Node>, seq<Link>, Bytes)>
  {
    match TakeMany(b, nodeCount, TakeNode)
    case None => None
    case Some((ns, rest)) =>
      match TakeMany(rest, linkCount, TakeLink)
      case None => None
      case Some((ls, rest')) => Some((ns, ls, rest'))
  }

  function ParseScene(b: Bytes): Option<Scene>
  {
    if |b| < 8 || Get(b, 0, 4) != MAGIC then None else
    match TakeLists(b[8..], Get(b, 4, 2), Get(b, 6, 2))
    case None => None
    case Some((ns, ls, rest)) => if rest == [] then Some(Override(EMPTY, Scene(ns, ls))) else None
  }

  /** Apply a delta to a scene: nothing changes if it does not parse. */
  function ApplyDelta(s: Scene, b: Bytes): (r: Option<Scene>)
  {
    match ParseScene(b)
    case None => None
    case Some(d) => Some(Override(s, d))
  }

  // ---- Round trip ----

  lemma NodeHeaderFields(n: Node, tail: Bytes)
    requires |n.name| <= 0xFF
    ensures var b := NodeHeader(n) + tail;
      && Get(b, 0, 4) == n.id && Get(b, 4, 4) == n.x && Get(b, 8, 4) == n.y && Get(b, 12, 2) == n.vlan
      && Get(b, 14, 1) == Flag(n.operational) && Get(b, 15, 1) == |n.name| && Get(b, 16, 8) == n.packets
  {
    hide Encode, Get;
    var b := NodeHeader(n) + tail;
    var p4 := Encode(n.id, 4);
    var p8 := p4 + Encode(n.x, 4);
    var p12 := p8 + Encode(n.y, 4);
    var p14 := p12 + Encode(n.vlan, 2);
    var p15 := p14 + Encode(Flag(n.operational), 1);
    var p16 := p15 + Encode(|n.name|, 1);
    assert b[..24] == NodeHeader(n);
    FieldEnd(b, 16, p16, n.packets, 8);
    FieldEnd(b, 15, p15, |n.name|, 1);
    FieldEnd(b, 14, p14, Flag(n.operational), 1);
    FieldEnd(b, 12, p12, n.vlan, 2);
    FieldEnd(b, 8, p8, n.y, 4);
    FieldEnd(b, 4, p4, n.x, 4);
    assert [] + p4 == p4;
    FieldEnd(b, 0, [], n.id, 4);
  }

  lemma TakeNodeBytes(n: Node, rest: Bytes)
    requires |n.name| <= 0xFF
    ensures TakeNode(NodeBytes(n) + rest) == Some((n, rest))
  {
    hide Get, NodeHeader;
    NodeHeaderFields(n, n.name + rest);
    var b := NodeBytes(n) + rest;
    assert b == NodeHeader(n) + (n.name + rest);
    assert b[24..24 + |n.name|] == n.name;
    assert b[24 + |n.name|..] == rest;
  }

  lemma TakeLinkBytes(l: Link, rest: Bytes)
    ensures TakeLink(LinkBytes(l) + rest) == Some((l, rest))
  {
    hide Encode, Get;
    var b := LinkBytes(l) + rest;
    var p4 := Encode(l.source, 4);
    var p8 := p4 + Encode(l.destination, 4);
    var p16 := p8 + Encode(l.packets, 8);
    FieldEnd(b, 16, p16, Flag(l.operational), 1);
    FieldEnd(b, 8, p8, l.packets, 8);
    FieldEnd(b, 4, p4, l.destination, 4);
    assert [] + p4 == p4;
    FieldEnd(b, 0, [], l.source, 4);
    assert b[17..] == rest;
  }

  /** `take` undoes `encode` on the entries of `xs`. */
  ghost predicate Inverts<T>(xs: seq<T>, encode: T -> Bytes, take: Bytes -> Option<(T, Bytes)>)
  {
    forall i, rest :: 0 <= i < |xs| ==> take(encode(xs[i]) + rest) == Some((xs[i], rest))
  }

  lemma {:induction false} TakeManyBytes<T>(xs: seq<T>, rest: Bytes, encode: T -> Bytes,
                                            take: Bytes -> Option<(T, Bytes)>)
    requires Inverts(xs, encode, take)
    ensures TakeMany(ManyBytes(xs, encode) + rest, |xs|, take) == Some((xs, rest))
  {
    if xs == [] {
      assert ManyBytes(xs, encode) + rest == rest;
    } else {
      var front, last := xs[..|xs| - 1], xs[|xs| - 1];
      TakeManyBytes(front, encode(last) + rest, encode, take);
      assert ManyBytes(xs, encode) + rest == ManyBytes(front, encode) + (encode(last) + rest);
      assert front + [last] == xs;
    }
  }

  lemma TakeListsBytes(ns: seq<Node>, ls: seq<Link>)
    requires forall n :: n in ns ==> |n.name| <= 0xFF
    ensures TakeLists(ManyBytes(ns, NodeBytes) + ManyBytes(ls, LinkBytes), |ns|, |ls|) == Some((ns, ls, []))
  {
    hide NodeBytes, LinkBytes, TakeNode, TakeLink, TakeMany, ManyBytes;
    forall i, rest | 0 <= i < |ns| ensures TakeNode(NodeBytes(ns[i]) + rest) == Some((ns[i], rest)) {
      TakeNodeBytes(ns[i], rest);
    }
    forall i, rest | 0 <= i < |ls| ensures TakeLink(LinkBytes(ls[i]) + rest) == Some((ls[i], rest)) {
      TakeLinkBytes(ls[i], rest);
    }
    TakeManyBytes(ns, ManyBytes(ls, LinkBytes), NodeBytes, TakeNode);
    TakeManyBytes(ls, [], LinkBytes, TakeLink);
    assert ManyBytes(ls, LinkBytes) + [] == ManyBytes(ls, LinkBytes);
  }

  lemma SceneHeaderFields(nodeCount: u16, linkCount: u16, body: Bytes)
    ensures var b := SceneHeader(nodeCount, linkCount) + body;
      Get(b, 0, 4) == MAGIC && Get(b, 4, 2) == nodeCount && Get(b, 6, 2) == linkCount && b[8..] == body
  {
    hide Encode, Get;
    var b := SceneHeader(nodeCount, linkCount) + body;
    var p4 := Encode(MAGIC, 4);
    FieldEnd(b, 6, p4 + Encode(nodeCount, 2), linkCount, 2);
    FieldEnd(b, 4, p4, nodeCount, 2);
    assert [] + p4 == p4;
    FieldEnd(b, 0, [], MAGIC, 4);
  }

  /** Every encodable scene parses back to itself. */
  lemma SceneRoundTrip(s: Scene)
    requires ValidScene(s) && Encodable(s)
    ensures SceneBytes(s) != [] && ParseScene(SceneBytes(s)) == Some(s)
  {
    hide Get, SceneHeader, ManyBytes, TakeLists;
    SceneHeaderFields(|s.nodes|, |s.links|, ManyBytes(s.nodes, NodeBytes) + ManyBytes(s.links, LinkBytes));
    TakeListsBytes(s.nodes, s.links);
    Rebuild(s.nodes, NodeKey);
    Rebuild(s.links, LinkKey);
  }

  /** Where the header fields of a snapshot are; nodes and links follow. */
  lemma Layout(s: Scene)
    requires |s.nodes| <= 0xFFFF && |s.links| <= 0xFFFF && forall n :: n in s.nodes ==> |n.name| <= 0xFF
    ensures var b := SceneBytes(s);
      && |b| >= 8 && Get(b, 0, 4) == 0x544F5031 && Get(b, 4, 2) == |s.nodes| && Get(b, 6, 2) == |s.links|
      && b[8..] == ManyBytes(s.nodes, NodeBytes) + ManyBytes(s.links, LinkBytes)
  {
    hide Get, SceneHeader, ManyBytes;
    SceneHeaderFields(|s.nodes|, |s.links|, ManyBytes(s.nodes, NodeBytes) + ManyBytes(s.links, LinkBytes));
  }

  lemma {:induction false} TakenNodes(b: Bytes, n: nat)
    requires TakeMany(b, n, TakeNode).Some?
    ensures var ns := TakeMany(b, n, TakeNode).value.0; |ns| == n && forall x :: x in ns ==> |x.name| <= 0xFF
  {
    hide Get;
    if n > 0 {
      TakenNodes(b, n - 1);
    }
  }

  lemma {:induction false} TakenLinks(b: Bytes, n: nat)
    requires TakeMany(b, n, TakeLink).Some?
    ensures |TakeMany(b, n, TakeLink).value.0| == n
  {
    hide Get, TakeLink;
    if n > 0 {
      TakenLinks(b, n - 1);
    }
  }

  /** Every scene that any snapshot parses to can be sent, and no other: serialization
      fails only where the format has no room. */
  lemma SendableExactly(s: Scene)
    ensures (exists b :: ParseScene(b) == Some(s)) <==> ValidScene(s) && SceneBytes(s) != []
  {
    hide ParseScene, SceneBytes;
    if b :| ParseScene(b) == Some(s) {
      ParsedFits(b);
      ParsedSceneValid(b);
      SceneRoundTrip(s);
    }
    if ValidScene(s) && SceneBytes(s) != [] {
      EncodableBytes(s);
      SceneRoundTrip(s);
    }
  }

  lemma EncodableBytes(s: Scene)
    ensures SceneBytes(s) != [] ==> Encodable(s)
  {
  }

  lemma ParsedFits(b: Bytes)
    requires ParseScene(b).Some?
    ensures Encodable(ParseScene(b).value)
  {
    hide Get, TakeNode, TakeLink, TakeMany;
    var (ns, ls, _) := TakeLists(b[8..], Get(b, 4, 2), Get(b, 6, 2)).value;
    TakenNodes(b[8..], Get(b, 4, 2));
    TakenLinks(TakeMany(b[8..], Get(b, 4, 2), TakeNode).value.1, Get(b, 6, 2));
    UpsertAllFits([], ns, NodeKey);
    UpsertAllFits([], ls, LinkKey);
  }

  /** Whatever parses has unique keys. */
  lemma ParsedSceneValid(b: Bytes)
    requires ParseScene(b).Some?
    ensures ValidScene(ParseScene(b).value)
  {
    var (ns, ls, _) := TakeLists(b[8..], Get(b, 4, 2), Get(b, 6, 2)).value;
    UpsertAllUnique([], ns, NodeKey);
    UpsertAllUnique([], ls, LinkKey);
  }

  /** A delta is a key-wise override that keeps every existing key where it was. */
  lemma DeltaIsOverride(s: Scene, b: Bytes, node: u32, link: (u32, u32))
    requires ValidScene(s) && ParseScene(b).Some?
    ensures var d, r := ParseScene(b).value, ApplyDelta(s, b).value;
      && ValidScene(r) && KeysGrow(s, r)
      && Find(r.nodes, node, NodeKey) ==
         (if Find(d.nodes, node, NodeKey).Some? then Find(d.nodes, node, NodeKey) else Find(s.nodes, node, NodeKey))
      && Find(r.links, link, LinkKey) ==
         (if Find(d.links, link, LinkKey).Some? then Find(d.links, link, LinkKey) else Find(s.links, link, LinkKey))
  {
    ParsedSceneValid(b);
    var d := ParseScene(b).value;
    UpsertAllIsOverride(s.nodes, d.nodes, node, NodeKey);
    UpsertAllIsOverride(s.links, d.links, link, LinkKey);
  }

  // ---- No accepted string is a proper prefix of another ----

  ghost predicate Local<T>(take: Bytes -> Option<(T, Bytes)>)
  {
    forall b: Bytes, e: Bytes {:trigger take(b + e)} ::
      take(b).Some? ==> take(b + e) == Some((take(b).value.0, take(b).value.1 + e))
  }

  lemma GetLocal(b: Bytes, e: Bytes, off: nat, w: nat)
    requires off + w <= |b|
    ensures Get(b + e, off, w) == Get(b, off, w)
  {
    assert (b + e)[off..off + w] == b[off..off + w];
  }

  lemma TakeNodeLocal()
    ensures Local(TakeNode)
  {
    forall b: Bytes, e: Bytes | TakeNode(b).Some?
      ensures TakeNode(b + e) == Some((TakeNode(b).value.0, TakeNode(b).value.1 + e))
    {
      GetLocal(b, e, 0, 4);
      GetLocal(b, e, 4, 4);
      GetLocal(b, e, 8, 4);
      GetLocal(b, e, 12, 2);
      GetLocal(b, e, 14, 1);
      GetLocal(b, e, 15, 1);
      GetLocal(b, e, 16, 8);
      var end := 24 + Get(b, 15, 1);
      assert (b + e)[24..end] == b[24..end];
      assert (b + e)[end..] == b[end..] + e;
    }
  }

  lemma TakeLinkLocal()
    ensures Local(TakeLink)
  {
    forall b: Bytes, e: Bytes | TakeLink(b).Some?
      ensures TakeLink(b + e) == Some((TakeLink(b).value.0, TakeLink(b).value.1 + e))
    {
      GetLocal(b, e, 0, 4);
      GetLocal(b, e, 4, 4);
      GetLocal(b, e, 8, 8);
      GetLocal(b, e, 16, 1);
      assert (b + e)[17..] == b[17..] + e;
    }
  }

  lemma {:induction false} TakeManyLocal<T>(b: Bytes, e: Bytes, n: nat, take: Bytes -> Option<(T, Bytes)>)
    requires Local(take) && TakeMany(b, n, take).Some?
    ensures TakeMany(b + e, n, take) ==
            Some((TakeMany(b, n, take).value.0, TakeMany(b, n, take).value.1 + e))
  {
    if n > 0 {
      TakeManyLocal(b, e, n - 1, take);
      var rest := TakeMany(b, n - 1, take).value.1;
      assert take(rest + e) == Some((take(rest).value.0, take(rest).value.1 + e));
    }
  }

  /** The accepted strings are prefix-free: every proper prefix and every
      nonempty extension of an accepted snapshot is rejected. */
  lemma ScenePrefixFree(b: Bytes, e: Bytes)
    requires ParseScene(b).Some? && e != []
    ensures ParseScene(b + e).None?
  {
    hide Get, TakeNode, TakeLink, TakeMany, Local;
    TakeNodeLocal();
    TakeLinkLocal();
    GetLocal(b, e, 0, 4);
    GetLocal(b, e, 4, 2);
    GetLocal(b, e, 6, 2);
    assert (b + e)[8..] == b[8..] + e;
    TakeManyLocal(b[8..], e, Get(b, 4, 2), TakeNode);
    var rest := TakeMany(b[8..], Get(b, 4, 2), TakeNode).value.1;
    TakeManyLocal(rest, e, Get(b, 6, 2), TakeLink);
  }
}
