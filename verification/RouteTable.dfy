/** The IPv4 route table (ipv4_route_table.cpp): a vector of routes searched
    linearly, standing for a map from prefixes to routes. */
module RouteTable {
  import opened Basics
  import opened KeyedList
  import opened Ipv4Prefix

  datatype Route = Route(prefix: Prefix, nextHop: Option<u32>, port: PortId)

  function RouteKey(r: Route): Prefix { r.prefix }

  /** Not unspecified, not multicast, not the limited broadcast address. */
  predicate UsableAddress(a: u32)
  {
    a != 0 && a / 0x1000_0000 != 0xE && a != 0xFFFF_FFFF
  }

  /** Every address but 0.0.0.0, 255.255.255.255 and 224.0.0.0 up to 239.255.255.255. */
  lemma UsableExactly(a: u32)
    ensures UsableAddress(a) <==> a != 0 && a != 0xFFFF_FFFF && !(0xE000_0000 <= a < 0xF000_0000)
  {
  }

  ghost predicate ValidRoute(r: Route)
  {
    Ipv4Prefix.Valid(r.prefix) && (r.nextHop.Some? ==> UsableAddress(r.nextHop.value))
  }

  ghost predicate ValidTable(es: seq<Route>)
  {
    Unique(es, RouteKey) && forall e :: e in es ==> ValidRoute(e)
  }

  // ---- Longest-prefix match ----

  /** `r` is a matching route and no matching route is longer (section 5.2.4.3 of RFC 1812). */
  ghost predicate IsLongest(es: seq<Route>, destination: u32, r: Route)
  {
    && r in es && Contains(r.prefix, destination)
    && forall e :: e in es && Contains(e.prefix, destination) ==> e.prefix.length <= r.prefix.length
  }

  function LongestMatch(es: seq<Route>, destination: u32): (r: Option<Route>)
    ensures r.Some? ==> IsLongest(es, destination, r.value)
    ensures r.None? ==> forall e :: e in es ==> !Contains(e.prefix, destination)
  {
    if es == [] then None
    else
      var best, e := LongestMatch(es[..|es| - 1], destination), es[|es| - 1];
      assert es == es[..|es| - 1] + [e];
      if Contains(e.prefix, destination) && (best.None? || e.prefix.length > best.value.prefix.length)
      then Some(e) else best
  }

  /** The longest match is unique: two matching prefixes of one length are the same prefix. */
  lemma LongestIsUnique(es: seq<Route>, destination: u32, r: Route, r': Route)
    requires Unique(es, RouteKey)
    requires IsLongest(es, destination, r) && IsLongest(es, destination, r')
    ensures r == r'
  {
    assert r.prefix == r'.prefix;
    var i :| 0 <= i < |es| && es[i] == r;
    var j :| 0 <= j < |es| && es[j] == r';
    assert RouteKey(es[i]) == RouteKey(es[j]);
  }

  lemma {:induction false} FindMember(es: seq<Route>, e: Route)
    requires Unique(es, RouteKey)
    ensures e in es <==> Find(es, e.prefix, RouteKey) == Some(e)
  {
    if es != [] {
      FindMember(es[1..], e);
      if e in es && es[0] != e {
        var i :| 0 <= i < |es| && es[i] == e;
        assert RouteKey(es[0]) != RouteKey(es[i]);
      }
    }
  }

  /** The match depends only on the map a table stands for, not on the order of its routes. */
  lemma MatchDependsOnMap(a: seq<Route>, b: seq<Route>, destination: u32)
    requires Unique(a, RouteKey) && Unique(b, RouteKey)
    requires forall k :: Find(a, k, RouteKey) == Find(b, k, RouteKey)
    ensures LongestMatch(a, destination) == LongestMatch(b, destination)
  {
    hide Find, LongestMatch, Contains;
    forall e: Route ensures e in a <==> e in b {
      FindMember(a, e);
      FindMember(b, e);
    }
    var r, r' := LongestMatch(a, destination), LongestMatch(b, destination);
    if r.Some? && r'.Some? {
      LongestIsUnique(a, destination, r.value, r'.value);
    }
  }

  // ---- Histories ----

  datatype Op = Add(route: Route) | Remove(prefix: Prefix)

  function Run(ops: seq<Op>): seq<Route>
  {
    if ops == [] then []
    else match ops[|ops| - 1]
      case Add(r) => Upsert(Run(ops[..|ops| - 1]), r, RouteKey)
      case Remove(p) => Delete(Run(ops[..|ops| - 1]), p, RouteKey)
  }

  function RunMap(ops: seq<Op>): map<Prefix, Route>
  {
    if ops == [] then map[]
    else match ops[|ops| - 1]
      case Add(r) => RunMap(ops[..|ops| - 1])[r.prefix := r]
      case Remove(p) => RunMap(ops[..|ops| - 1]) - {p}
  }

  /** Over every history of inserts, replacements and removals, prefixes stay
      distinct and the table is the map those operations describe. */
  lemma {:induction false} TableRefinesMap(ops: seq<Op>, k: Prefix)
    ensures Unique(Run(ops), RouteKey)
    ensures Find(Run(ops), k, RouteKey) == if k in RunMap(ops) then Some(RunMap(ops)[k]) else None
  {
    hide Upsert, Delete;
    if ops != [] {
      var front := ops[..|ops| - 1];
      TableRefinesMap(front, k);
      match ops[|ops| - 1]
      case Add(r) => UpsertIsMapUpdate(Run(front), r, k, RouteKey);
      case Remove(p) => DeleteIsMapRemoval(Run(front), p, k, RouteKey);
    }
  }

  /** Histories that describe the same map route every packet alike. */
  lemma MatchIgnoresHistory(ops: seq<Op>, ops': seq<Op>, destination: u32)
    requires RunMap(ops) == RunMap(ops')
    ensures LongestMatch(Run(ops), destination) == LongestMatch(Run(ops'), destination)
  {
    hide Run, RunMap, LongestMatch, Find;
    forall k: Prefix ensures Find(Run(ops), k, RouteKey) == Find(Run(ops'), k, RouteKey) {
      TableRefinesMap(ops, k);
      TableRefinesMap(ops', k);
    }
    TableRefinesMap(ops, Prefix(0, 0));
    TableRefinesMap(ops', Prefix(0, 0));
    MatchDependsOnMap(Run(ops), Run(ops'), destination);
  }

  lemma UpsertKeepsValid(es: seq<Route>, r: Route)
    requires ValidTable(es) && ValidRoute(r)
    ensures ValidTable(Upsert(es, r, RouteKey))
  {
    var i := FirstPosition(es, r.prefix, RouteKey);
    UpsertFound(es, i, r, RouteKey);
  }

  // ---- The table object ----

  datatype RouteUpdate = Inserted | Replaced

  class Ipv4RouteTable {
    var entries: seq<Route>

    constructor ()
      ensures entries == [] && ValidTable(entries)
    {
      entries := [];
    }

    method AddOrReplace(entry: Route) returns (r: RouteUpdate)
      requires ValidTable(entries) && ValidRoute(entry)
      modifies this
      ensures ValidTable(entries) && entries == Upsert(old(entries), entry, RouteKey)
      ensures r == Replaced <==> Find(old(entries), entry.prefix, RouteKey).Some?
    {
      UpsertKeepsValid(entries, entry);
      var i := FindFirst(entries, entry.prefix, RouteKey);
      UpsertFound(entries, i, entry, RouteKey);
      if i < |entries| {
        entries := entries[i := entry];
        return Replaced;
      }
      entries := entries + [entry];
      return Inserted;
    }

    method RemovePrefix(prefix: Prefix) returns (removed: bool)
      requires ValidTable(entries)
      modifies this
      ensures ValidTable(entries) && entries == Delete(old(entries), prefix, RouteKey)
      ensures removed <==> Find(old(entries), prefix, RouteKey).Some?
    {
      var i := FindFirst(entries, prefix, RouteKey);
      DeleteAt(entries, i, prefix, RouteKey);
      DeleteIsMapRemoval(entries, prefix, prefix, RouteKey);
      if i == |entries| {
        return false;
      }
      entries := entries[..i] + entries[i + 1..];
      return true;
    }

    method FindExact(prefix: Prefix) returns (r: Option<Route>)
      ensures r == Find(entries, prefix, RouteKey)
    {
      var i := FindFirst(entries, prefix, RouteKey);
      return if i < |entries| then Some(entries[i]) else None;
    }

    method LongestPrefixMatch(destination: u32) returns (best: Option<Route>)
      ensures best == LongestMatch(entries, destination)
    {
      best := None;
      for i := 0 to |entries|
        invariant best == LongestMatch(entries[..i], destination)
      {
        assert entries[..i + 1][..i] == entries[..i];
        var entry := entries[i];
        if Contains(entry.prefix, destination) && (best.None? || entry.prefix.length > best.value.prefix.length) {
          best := Some(entry);
        }
      }
      assert entries[..|entries|] == entries;
    }
  }
}
