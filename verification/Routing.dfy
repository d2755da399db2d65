/** The layer-3 path: TTL, route lookup and Ethernet encapsulation (ipv4_ttl.cpp,
    ipv4_forwarding_engine.cpp, l3_ethernet_encapsulation.cpp). */
module Routing {
  import opened Basics
  import opened Ethernet
  import Ipv4Packet
  import RouteTable
  import Ipv4Prefix
  import ArpCache

  datatype DropReason = TimeToLiveExpired | RouteNotFound

  datatype Forwarding =
    | Forwarded(packet: Ipv4Packet.Packet, port: PortId, nextHop: u32)
    | Dropped(reason: DropReason)

  /** Section 5.3.1 of RFC 1812: a packet that arrives with TTL one or less is not forwarded. */
  function DecrementTtl(p: Ipv4Packet.Packet): Option<Ipv4Packet.Packet>
  {
    if p.timeToLive <= 1 then None else Ipv4Packet.Create(p.(timeToLive := p.timeToLive - 1))
  }

  /** The route's next hop, or the destination itself on a directly connected network. */
  function NextHop(route: RouteTable.Route, destination: u32): u32
  {
    if route.nextHop.Some? then route.nextHop.value else destination
  }

  function Forward(routes: seq<RouteTable.Route>, p: Ipv4Packet.Packet): Forwarding
    requires Ipv4Packet.Valid(p)
  {
    if p.timeToLive <= 1 then Dropped(TimeToLiveExpired)
    else
      match RouteTable.LongestMatch(routes, p.destination)
      case None => Dropped(RouteNotFound)
      case Some(route) =>
        Forwarded(DecrementTtl(p).value, route.port, NextHop(route, p.destination))
  }

  /** Which packets are forwarded: those with two hops to live and a route. */
  lemma ForwardOutcome(routes: seq<RouteTable.Route>, p: Ipv4Packet.Packet)
    requires Ipv4Packet.Valid(p)
    ensures Forward(routes, p) == Dropped(TimeToLiveExpired) <==> p.timeToLive <= 1
    ensures Forward(routes, p) == Dropped(RouteNotFound) <==>
      p.timeToLive >= 2 && forall e :: e in routes ==> !Ipv4Prefix.Contains(e.prefix, p.destination)
    ensures Forward(routes, p).Forwarded? ==>
      Ipv4Packet.Valid(Forward(routes, p).packet) && |Forward(routes, p).packet.payload| == |p.payload|
  {
    var m := RouteTable.LongestMatch(routes, p.destination);
    hide RouteTable.LongestMatch, Ipv4Prefix.Contains;
    if m.Some? {
      assert m.value in routes && Ipv4Prefix.Contains(m.value.prefix, p.destination);
    }
  }

  datatype Encapsulation = Encapsulated(frame: Frame) | InvalidSourceMac | NeighborNotFound | PacketTooLarge

  function Encapsulate(fw: Forwarding, source: Mac, lifetime: int, arp: ArpCache.Entries, now: int): Encapsulation
    requires fw.Forwarded?
  {
    if !IsStation(source) then InvalidSourceMac
    else
      match ArpCache.Lookup(lifetime, arp, fw.nextHop, now)
      case None => NeighborNotFound
      case Some(destination) =>
        var payload := Ipv4Packet.Encoding(fw.packet);
        if |payload| > MAXIMUM_PAYLOAD_SIZE then PacketTooLarge
        else Encapsulated(Frame(destination, source, ETHERTYPE_IPV4, payload, None))
  }

  /** What encapsulation answers, cause by cause. */
  lemma EncapsulationExactly(fw: Forwarding, source: Mac, lifetime: int, arp: ArpCache.Entries, now: int)
    requires fw.Forwarded?
    ensures var e := Encapsulate(fw, source, lifetime, arp, now);
      var neighbor := ArpCache.Lookup(lifetime, arp, fw.nextHop, now);
      && (e == InvalidSourceMac <==> !IsStation(source))
      && (e == NeighborNotFound <==> IsStation(source) && neighbor.None?)
      && (e == PacketTooLarge <==> IsStation(source) && neighbor.Some? && 20 + |fw.packet.payload| > 1500)
  {
    hide ArpCache.Lookup, IsStation;
  }

  /** What it means for `frame` to be the routed form of `p`: addressed from the
      egress port to the unexpired neighbor that is the next hop of the longest
      matching route, carrying `p` with its TTL one less and nothing else changed. */
  ghost predicate RoutedForm(p: Ipv4Packet.Packet, frame: Frame, route: RouteTable.Route, routes: seq<RouteTable.Route>,
                             source: Mac, lifetime: int, arp: ArpCache.Entries, now: int)
  {
    && RouteTable.IsLongest(routes, p.destination, route)
    && (var hop := if route.nextHop.Some? then route.nextHop.value else p.destination;
        ArpCache.Lookup(lifetime, arp, hop, now) == Some(frame.destination))
    && frame.source == source && frame.etherType == ETHERTYPE_IPV4 && frame.tag == None
    && p.timeToLive >= 2
    && Ipv4Packet.Parse(frame.payload) == Some(p.(timeToLive := p.timeToLive - 1))
  }

  /** Whatever is forwarded and encapsulated parses back, byte for byte, to the routed form. */
  lemma RoutedBytes(routes: seq<RouteTable.Route>, p: Ipv4Packet.Packet, source: Mac,
                    lifetime: int, arp: ArpCache.Entries, now: int)
    requires Ipv4Packet.Valid(p) && Forward(routes, p).Forwarded?
    requires Encapsulate(Forward(routes, p), source, lifetime, arp, now).Encapsulated?
    ensures var frame := Encapsulate(Forward(routes, p), source, lifetime, arp, now).frame;
      var route := RouteTable.LongestMatch(routes, p.destination).value;
      && Forward(routes, p).port == route.port
      && Parse(Encoding(frame)) == Some(frame)
      && RoutedForm(p, frame, route, routes, source, lifetime, arp, now)
  {
    hide Encoding, Parse, RouteTable.IsLongest, RouteTable.LongestMatch, ArpCache.Lookup;
    hide Ipv4Packet.Encoding, Ipv4Packet.Parse;
    var frame := Encapsulate(Forward(routes, p), source, lifetime, arp, now).frame;
    FrameRoundTrip(frame);
    Ipv4Packet.ParseOfEncoding(DecrementTtl(p).value);
  }

  /** Forwarding with the table's own longest-match loop. */
  method ForwardPacket(table: RouteTable.Ipv4RouteTable, p: Ipv4Packet.Packet) returns (r: Forwarding)
    requires Ipv4Packet.Valid(p)
    ensures r == Forward(table.entries, p)
  {
    hide RouteTable.LongestMatch;
    if p.timeToLive <= 1 {
      return Dropped(TimeToLiveExpired);
    }
    var route := table.LongestPrefixMatch(p.destination);
    if route.None? {
      return Dropped(RouteNotFound);
    }
    return Forwarded(DecrementTtl(p).value, route.value.port, NextHop(route.value, p.destination));
  }

  /** Encapsulation with the cache's own lookup and the packet's own serializer. */
  method EncapsulatePacket(fw: Forwarding, source: Mac, cache: ArpCache.Cache, now: int) returns (r: Encapsulation)
    requires fw.Forwarded? && Ipv4Packet.Valid(fw.packet)
    ensures r == Encapsulate(fw, source, cache.lifetime, cache.entries, now)
    ensures r.Encapsulated? ==> Ethernet.Valid(r.frame)
  {
    hide ArpCache.Lookup, Ipv4Packet.Encoding;
    if !IsStation(source) {
      return InvalidSourceMac;
    }
    var destination := cache.Find(fw.nextHop, now);
    if destination.None? {
      return NeighborNotFound;
    }
    var payload := Ipv4Packet.Serialize(fw.packet);
    if |payload| > MAXIMUM_PAYLOAD_SIZE {
      return PacketTooLarge;
    }
    return Encapsulated(Frame(destination.value, source, ETHERTYPE_IPV4, payload, None));
  }
}
