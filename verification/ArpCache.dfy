/** The ARP cache with timed entries (arp_cache.cpp).  Time points are integers. */
module ArpCache {
  import opened Basics
  import opened Ethernet
  import opened History
  import RouteTable

  datatype Entry = Entry(mac: Mac, learnedAt: int)

  type Entries = map<u32, Entry>

  predicate IsExpired(lifetime: int, e: Entry, now: int)
  {
    now >= e.learnedAt && now - e.learnedAt >= lifetime
  }

  function Lookup(lifetime: int, es: Entries, address: u32, now: int): Option<Mac>
  {
    if address !in es || IsExpired(lifetime, es[address], now) then None else Some(es[address].mac)
  }

  predicate Acceptable(address: u32, mac: Mac)
  {
    RouteTable.UsableAddress(address) && IsStation(mac)
  }

  function Added(es: Entries, address: u32, mac: Mac, learnedAt: int): Entries
  {
    if Acceptable(address, mac) then es[address := Entry(mac, learnedAt)] else es
  }

  function Unexpired(lifetime: int, es: Entries, now: int): Entries
  {
    map a | a in es && !IsExpired(lifetime, es[a], now) :: es[a]
  }

  // ---- Lazy and eager aging ----

  datatype Op = Add(address: u32, mac: Mac, learnedAt: int) | Remove(address: u32) | Expire(now: int)

  function Apply(lifetime: int, es: Entries, op: Op): Entries
  {
    match op
    case Add(address, mac, learnedAt) => Added(es, address, mac, learnedAt)
    case Remove(address) => es - {address}
    case Expire(now) => Unexpired(lifetime, es, now)
  }

  function Run(lifetime: int, es: Entries, ops: seq<Op>): Entries
  {
    if ops == [] then es else Apply(lifetime, Run(lifetime, es, ops[..|ops| - 1]), ops[|ops| - 1])
  }

  /** `lean` is `full` without some entries that have expired by `now`. */
  ghost predicate Pruned(lifetime: int, full: Entries, lean: Entries, now: int)
  {
    forall a :: (a in lean ==> a in full && full[a] == lean[a])
             && (a in full && a !in lean ==> IsExpired(lifetime, full[a], now))
  }

  lemma PrunedStep(lifetime: int, full: Entries, lean: Entries, now: int, op: Op)
    requires Pruned(lifetime, full, lean, now)
    ensures Pruned(lifetime, Apply(lifetime, full, op), Apply(lifetime, lean, op), now)
  {
  }

  lemma {:induction false} PrunedRun(lifetime: int, full: Entries, lean: Entries, now: int, ops: seq<Op>)
    requires Pruned(lifetime, full, lean, now)
    ensures Pruned(lifetime, Run(lifetime, full, ops), Run(lifetime, lean, ops), now)
  {
    if ops != [] {
      var front := ops[..|ops| - 1];
      PrunedRun(lifetime, full, lean, now, front);
      PrunedStep(lifetime, Run(lifetime, full, front), Run(lifetime, lean, front), now, ops[|ops| - 1]);
    }
  }

  /** Inserting an expiry sweep at `now` anywhere in any history changes no
      lookup made at or after `now`. */
  lemma SweepIsInvisible(lifetime: int, before: seq<Op>, now: int, after: seq<Op>, address: u32, t: int)
    requires t >= now
    ensures var es := Run(lifetime, map[], before);
      Lookup(lifetime, Run(lifetime, es, after), address, t) ==
      Lookup(lifetime, Run(lifetime, Unexpired(lifetime, es, now), after), address, t)
  {
    var es := Run(lifetime, map[], before);
    PrunedRun(lifetime, es, Unexpired(lifetime, es, now), now, after);
  }

  // ---- What is remembered, and for how long ----

  /** This operation takes the entry `e` away from `address`: a removal, a usable pair
      for the same address, or a sweep at least one lifetime after `e` was learned. */
  predicate Displaces(lifetime: int, op: Op, address: u32, e: Entry)
  {
    match op
    case Add(a, mac, _) => a == address && RouteTable.UsableAddress(a) && IsStation(mac)
    case Remove(a) => a == address
    case Expire(now) => now >= e.learnedAt + lifetime && now >= e.learnedAt
  }

  predicate Teaches(op: Op, address: u32, e: Entry)
  {
    op == Add(address, e.mac, e.learnedAt) && RouteTable.UsableAddress(address) && IsStation(e.mac)
  }

  ghost predicate Remembered(lifetime: int, ops: seq<Op>, address: u32, e: Entry)
  {
    Since(os => Run(lifetime, map[], os), ops, (s: Entries, op) => Teaches(op, address, e),
          (s: Entries, op) => Displaces(lifetime, op, address, e))
  }

  lemma EntryStep(lifetime: int, es: Entries, op: Op, address: u32, e: Entry)
    ensures var es' := Apply(lifetime, es, op);
      (address in es' && es'[address] == e) <==>
      Teaches(op, address, e) || (address in es && es[address] == e && !Displaces(lifetime, op, address, e))
  {
  }

  lemma EntryHistory(lifetime: int, ops: seq<Op>, address: u32, e: Entry)
    ensures (address in Run(lifetime, map[], ops) && Run(lifetime, map[], ops)[address] == e) <==>
            Remembered(lifetime, ops, address, e)
  {
    hide Apply, Displaces, Teaches;
    var run := (os: seq<Op>) => Run(lifetime, map[], os);
    var fact := (s: Entries) => address in s && s[address] == e;
    var sets := (s: Entries, op: Op) => Teaches(op, address, e);
    var clears := (s: Entries, op: Op) => Displaces(lifetime, op, address, e);
    forall k | 0 <= k < |ops| ensures Follows(run(ops[..k]), ops[k], run(ops[..k + 1]), fact, sets, clears) {
      assert ops[..k + 1][..k] == ops[..k];
      EntryStep(lifetime, Run(lifetime, map[], ops[..k]), ops[k], address, e);
    }
    SinceLaw(run, ops, fact, sets, clears);
  }

  /** Over every history, a lookup finds exactly the address that was taught last and
      not displaced since, for less than one lifetime. */
  lemma LookupHistory(lifetime: int, ops: seq<Op>, address: u32, mac: Mac, now: int)
    requires lifetime > 0
    ensures Lookup(lifetime, Run(lifetime, map[], ops), address, now) == Some(mac) <==>
      exists at :: now < at + lifetime && Remembered(lifetime, ops, address, Entry(mac, at))
  {
    hide Remembered;
    var es := Run(lifetime, map[], ops);
    forall at: int ensures (address in es && es[address] == Entry(mac, at)) <==>
                           Remembered(lifetime, ops, address, Entry(mac, at)) {
      EntryHistory(lifetime, ops, address, Entry(mac, at));
    }
    if address in es {
      assert es[address] == Entry(es[address].mac, es[address].learnedAt);
    }
  }

  datatype Update = Inserted | Replaced | Rejected

  class Cache {
    const lifetime: int
    var entries: Entries

    constructor (lifetime: int)
      requires lifetime > 0
      ensures this.lifetime == lifetime && entries == map[]
    {
      this.lifetime := lifetime;
      entries := map[];
    }

    method AddOrReplace(address: u32, mac: Mac, learnedAt: int) returns (r: Update)
      modifies this
      ensures entries == Added(old(entries), address, mac, learnedAt)
      ensures r == Rejected <==> !Acceptable(address, mac)
      ensures r == Inserted <==> Acceptable(address, mac) && address !in old(entries)
    {
      if !RouteTable.UsableAddress(address) || !IsStation(mac) {
        return Rejected;
      }
      r := if address in entries then Replaced else Inserted;
      entries := entries[address := Entry(mac, learnedAt)];
    }

    method Find(address: u32, now: int) returns (r: Option<Mac>)
      ensures r == Lookup(lifetime, entries, address, now)
    {
      if address !in entries || IsExpired(lifetime, entries[address], now) {
        return None;
      }
      return Some(entries[address].mac);
    }

    method Remove(address: u32) returns (removed: bool)
      modifies this
      ensures entries == old(entries) - {address} && removed == (address in old(entries))
    {
      removed := address in entries;
      entries := entries - {address};
    }

    /** Walks the entries once, erasing the expired ones; the count is exact. */
    method Expire(now: int) returns (removed: nat)
      modifies this
      ensures entries == Unexpired(lifetime, old(entries), now)
      ensures removed == |old(entries)| - |entries|
    {
      removed := 0;
      var left := entries.Keys;
      while left != {}
        invariant left <= entries.Keys <= old(entries).Keys
        invariant forall a :: a in entries ==> entries[a] == old(entries)[a]
        invariant forall a :: a in entries && a !in left ==> !IsExpired(lifetime, entries[a], now)
        invariant forall a :: a in old(entries) && a !in entries ==> IsExpired(lifetime, old(entries)[a], now)
        invariant removed == |old(entries)| - |entries|
        decreases |left|
      {
        var a :| a in left;
        left := left - {a};
        if IsExpired(lifetime, entries[a], now) {
          assert |entries.Keys - {a}| == |entries.Keys| - 1;
          assert (entries - {a}).Keys == entries.Keys - {a};
          entries := entries - {a};
          removed := removed + 1;
        }
      }
    }
  }
}
