/** The MAC learning table (mac_table.cpp). */
module MacTable {
  import opened Basics
  import opened Ethernet
  import opened History

  type Key = (VlanId, Mac)

  datatype Entry = Entry(port: PortId, isStatic: bool, learnedAt: int)

  datatype Table = Table(capacity: nat, lifetime: int, entries: map<Key, Entry>)

  datatype Update = Inserted | Refreshed | Moved | TableFull | Rejected | StaticConflict

  function Updated(t: Table, key: Key, e: Entry): (Table, Update)
  {
    if key !in t.entries then
      if |t.entries| >= t.capacity then (t, TableFull) else (t.(entries := t.entries[key := e]), Inserted)
    else if t.entries[key].isStatic && !e.isStatic then
      (t, if t.entries[key].port != e.port then StaticConflict else Refreshed)
    else
      (t.(entries := t.entries[key := e]), if t.entries[key].port != e.port then Moved else Refreshed)
  }

  function Learned(t: Table, vlan: VlanId, mac: Mac, port: PortId, at: int): (Table, Update)
  {
    if !IsStation(mac) then (t, Rejected) else Updated(t, (vlan, mac), Entry(port, false, at))
  }

  function AddedStatic(t: Table, vlan: VlanId, mac: Mac, port: PortId): (Table, Update)
  {
    if !IsStation(mac) then (t, Rejected) else Updated(t, (vlan, mac), Entry(port, true, 0))
  }

  function Lookup(t: Table, vlan: VlanId, mac: Mac): Option<Entry>
  {
    if (vlan, mac) in t.entries then Some(t.entries[(vlan, mac)]) else None
  }

  predicate Aged(lifetime: int, e: Entry, now: int)
  {
    !e.isStatic && now >= e.learnedAt && now - e.learnedAt >= lifetime
  }

  function Unaged(t: Table, now: int): Table
  {
    t.(entries := map k | k in t.entries && !Aged(t.lifetime, t.entries[k], now) :: t.entries[k])
  }

  // ---- Histories ----

  datatype Op =
    | Learn(key: Key, port: PortId, at: int)
    | AddStatic(key: Key, port: PortId)
    | Remove(key: Key)
    | Expire(now: int)

  function Apply(t: Table, op: Op): Table
  {
    match op
    case Learn(key, port, at) => Learned(t, key.0, key.1, port, at).0
    case AddStatic(key, port) => AddedStatic(t, key.0, key.1, port).0
    case Remove(key) => t.(entries := t.entries - {key})
    case Expire(now) => Unaged(t, now)
  }

  function Run(t: Table, ops: seq<Op>): Table
  {
    if ops == [] then t else Apply(Run(t, ops[..|ops| - 1]), ops[|ops| - 1])
  }

  /** The learn for `key` that the table takes at this point of its history. */
  predicate LearnAccepted(t: Table, op: Op, key: Key)
  {
    op.Learn? && op.key == key && Learned(t, key.0, key.1, op.port, op.at).1 in {Inserted, Refreshed, Moved}
  }

  /** `ops[i]` is an accepted learn for `key`, and no later learn for `key` is accepted. */
  ghost predicate IsLatestLearn(t: Table, ops: seq<Op>, key: Key, i: nat)
  {
    && i < |ops| && LearnAccepted(Run(t, ops[..i]), ops[i], key)
    && forall j :: i < j < |ops| ==> !LearnAccepted(Run(t, ops[..j]), ops[j], key)
  }

  lemma {:induction false} SizeBounded(t: Table, ops: seq<Op>)
    requires |t.entries| <= t.capacity
    ensures |Run(t, ops).entries| <= Run(t, ops).capacity == t.capacity && Run(t, ops).lifetime == t.lifetime
  {
    if ops != [] {
      SizeBounded(t, ops[..|ops| - 1]);
      StepBounded(Run(t, ops[..|ops| - 1]), ops[|ops| - 1]);
    }
  }

  lemma StepBounded(t: Table, op: Op)
    requires |t.entries| <= t.capacity
    ensures |Apply(t, op).entries| <= Apply(t, op).capacity == t.capacity && Apply(t, op).lifetime == t.lifetime
  {
    match op
    case Learn(key, port, at) => UpdatedBounded(t, key, Entry(port, false, at));
    case AddStatic(key, port) => UpdatedBounded(t, key, Entry(port, true, 0));
    case Remove(_) => SubsetSize(Apply(t, op).entries.Keys, t.entries.Keys);
    case Expire(_) => SubsetSize(Apply(t, op).entries.Keys, t.entries.Keys);
  }

  lemma UpdatedBounded(t: Table, key: Key, e: Entry)
    requires |t.entries| <= t.capacity
    ensures var t' := Updated(t, key, e).0;
      |t'.entries| <= t.capacity && t'.capacity == t.capacity && t'.lifetime == t.lifetime
  {
    var written := t.entries[key := e];
    if key in t.entries {
      assert written.Keys == t.entries.Keys;
    } else {
      assert written.Keys == t.entries.Keys + {key};
      assert |written.Keys| == |t.entries.Keys| + 1;
    }
  }

  lemma {:induction false} SubsetSize<T>(a: set<T>, b: set<T>)
    requires a <= b
    ensures |a| <= |b|
  {
    if a != {} {
      var x :| x in a;
      SubsetSize(a - {x}, b - {x});
    }
  }

  /** What one operation can do to an entry: only an operation on its own key
      writes it, and only `AddStatic` and `Remove` touch a static one. */
  lemma EntryFrame(t: Table, op: Op, key: Key)
    ensures !op.Expire? && op.key != key ==>
      Lookup(Apply(t, op), key.0, key.1) == Lookup(t, key.0, key.1)
    ensures key in t.entries && t.entries[key].isStatic && !((op.AddStatic? || op.Remove?) && op.key == key) ==>
      Lookup(Apply(t, op), key.0, key.1) == Lookup(t, key.0, key.1)
    ensures op.Expire? && key in Apply(t, op).entries ==>
      key in t.entries && Apply(t, op).entries[key] == t.entries[key]
  {
  }

  /** Every dynamic entry holds the port and the time of the latest accepted
      learn for its key in the table's history. */
  lemma {:induction false} DynamicEntryIsLatestLearn(t: Table, ops: seq<Op>, key: Key) returns (i: nat)
    requires t.entries == map[]
    requires key in Run(t, ops).entries && !Run(t, ops).entries[key].isStatic
    ensures IsLatestLearn(t, ops, key, i)
    ensures Run(t, ops).entries[key] == Entry(ops[i].port, false, ops[i].at)
  {
    var front, last := ops[..|ops| - 1], ops[|ops| - 1];
    var before := Run(t, front);
    if LearnAccepted(before, last, key) {
      i := |ops| - 1;
      assert ops[..i] == front;
    } else {
      EntryFrame(before, last, key);
      assert key in before.entries && before.entries[key] == Run(t, ops).entries[key];
      i := DynamicEntryIsLatestLearn(t, front, key);
      assert ops[..i] == front[..i];
      forall j | i < j < |ops| ensures !LearnAccepted(Run(t, ops[..j]), ops[j], key) {
        if j < |front| {
          assert ops[..j] == front[..j] && !LearnAccepted(Run(t, front[..j]), front[j], key);
        } else {
          assert ops[..j] == front;
        }
      }
    }
  }

  // ---- What is stored, and what each answer means ----

  /** The table has room for `key`, or holds it already. */
  predicate HasPlace(t: Table, key: Key) { key in t.entries || |t.entries| < t.capacity }

  predicate HoldsStatic(t: Table, key: Key) { key in t.entries && t.entries[key].isStatic }

  /** The station may be heard on `port`: it is a station address, and no static entry
      puts it elsewhere. */
  predicate Plausible(t: Table, key: Key, port: PortId)
  {
    IsStation(key.1) && (HoldsStatic(t, key) ==> t.entries[key].port == port)
  }

  /** This operation stores `e` under `key`: a learn of a station that has a place and
      no static entry, or a static entry for a station that has a place. */
  predicate Stores(t: Table, op: Op, key: Key, e: Entry)
  {
    && IsStation(key.1) && HasPlace(t, key)
    && if e.isStatic then op == AddStatic(key, e.port) && e.learnedAt == 0
       else op == Learn(key, e.port, e.learnedAt) && !HoldsStatic(t, key)
  }

  /** This operation takes `e` away from `key`: a removal, another entry stored, or a
      sweep at least one lifetime after a dynamic entry was learned. */
  predicate Displaces(t: Table, op: Op, key: Key, e: Entry)
  {
    match op
    case Remove(k) => k == key
    case Expire(now) => !e.isStatic && now >= e.learnedAt + t.lifetime && now >= e.learnedAt
    case Learn(k, port, at) => k == key && Stores(t, op, key, Entry(port, false, at))
    case AddStatic(k, port) => k == key && Stores(t, op, key, Entry(port, true, 0))
  }

  /** Over every history the table holds exactly what was stored and not taken away since. */
  lemma EntryHistory(t: Table, ops: seq<Op>, key: Key, e: Entry)
    requires t.entries == map[]
    ensures Lookup(Run(t, ops), key.0, key.1) == Some(e) <==>
      Since(os => Run(t, os), ops, (s, op) => Stores(s, op, key, e), (s, op) => Displaces(s, op, key, e))
  {
    var run := (os: seq<Op>) => Run(t, os);
    var fact := (s: Table) => Lookup(s, key.0, key.1) == Some(e);
    var sets := (s: Table, op: Op) => Stores(s, op, key, e);
    var clears := (s: Table, op: Op) => Displaces(s, op, key, e);
    forall k | 0 <= k < |ops| ensures Follows(run(ops[..k]), ops[k], run(ops[..k + 1]), fact, sets, clears) {
      assert ops[..k + 1][..k] == ops[..k];
      StoredStep(Run(t, ops[..k]), ops[k], key, e);
    }
    SinceLaw(run, ops, fact, sets, clears);
  }

  lemma StoredStep(t: Table, op: Op, key: Key, e: Entry)
    ensures Lookup(Apply(t, op), key.0, key.1) == Some(e) <==>
      Stores(t, op, key, e) || (Lookup(t, key.0, key.1) == Some(e) && !Displaces(t, op, key, e))
  {
  }

  /** The answer to a learn, case by case. */
  lemma LearnAnswer(t: Table, vlan: VlanId, mac: Mac, port: PortId, at: int)
    ensures var r, key := Learned(t, vlan, mac, port, at).1, (vlan, mac);
      && (r == Rejected <==> !IsStation(mac))
      && (r == TableFull <==> IsStation(mac) && !HasPlace(t, key))
      && (r == Inserted <==> IsStation(mac) && HasPlace(t, key) && key !in t.entries)
      && (r == Refreshed <==> IsStation(mac) && key in t.entries && t.entries[key].port == port)
      && (r == StaticConflict <==> IsStation(mac) && HoldsStatic(t, key) && t.entries[key].port != port)
  {
  }

  /** The answer to a static entry, which no static entry can conflict with. */
  lemma StaticAnswer(t: Table, vlan: VlanId, mac: Mac, port: PortId)
    ensures var r, key := AddedStatic(t, vlan, mac, port).1, (vlan, mac);
      && (r == Rejected <==> !IsStation(mac))
      && (r == TableFull <==> IsStation(mac) && !HasPlace(t, key))
      && (r == Inserted <==> IsStation(mac) && HasPlace(t, key) && key !in t.entries)
      && (r == Refreshed <==> IsStation(mac) && key in t.entries && t.entries[key].port == port)
      && (r == Moved <==> IsStation(mac) && key in t.entries && t.entries[key].port != port)
  {
  }

  class LearningTable {
    const capacity: nat
    const lifetime: int
    var entries: map<Key, Entry>

    ghost function State(): Table
      reads this
    {
      Table(capacity, lifetime, entries)
    }

    constructor (capacity: nat, lifetime: int)
      requires capacity > 0 && lifetime > 0
      ensures State() == Table(capacity, lifetime, map[])
    {
      this.capacity, this.lifetime, entries := capacity, lifetime, map[];
    }

    method Put(key: Key, port: PortId, isStatic: bool, at: int) returns (r: Update)
      modifies this
      ensures (State(), r) == Updated(old(State()), key, Entry(port, isStatic, at))
    {
      if key !in entries {
        if |entries| >= capacity {
          return TableFull;
        }
        entries := entries[key := Entry(port, isStatic, at)];
        return Inserted;
      }
      if entries[key].isStatic && !isStatic {
        if entries[key].port != port {
          return StaticConflict;
        }
        return Refreshed;
      }
      var moved := entries[key].port != port;
      entries := entries[key := Entry(port, isStatic, at)];
      return if moved then Moved else Refreshed;
    }

    method LearnAddress(vlan: VlanId, mac: Mac, port: PortId, at: int) returns (r: Update)
      modifies this
      ensures (State(), r) == Learned(old(State()), vlan, mac, port, at)
    {
      if !IsStation(mac) {
        return Rejected;
      }
      r := Put((vlan, mac), port, false, at);
    }

    method AddStaticAddress(vlan: VlanId, mac: Mac, port: PortId) returns (r: Update)
      modifies this
      ensures (State(), r) == AddedStatic(old(State()), vlan, mac, port)
    {
      if !IsStation(mac) {
        return Rejected;
      }
      r := Put((vlan, mac), port, true, 0);
    }

    method RemoveAddress(vlan: VlanId, mac: Mac) returns (removed: bool)
      modifies this
      ensures State() == Apply(old(State()), Remove((vlan, mac)))
      ensures removed == ((vlan, mac) in old(entries))
    {
      removed := (vlan, mac) in entries;
      entries := entries - {(vlan, mac)};
    }

    /** Erases exactly the aged dynamic entries and returns how many there were. */
    method ExpireEntries(now: int) returns (removed: nat)
      modifies this
      ensures State() == Unaged(old(State()), now)
      ensures removed == |old(entries)| - |entries|
    {
      removed := 0;
      var left := entries.Keys;
      while left != {}
        invariant left <= entries.Keys <= old(entries).Keys
        invariant forall k :: k in entries ==> entries[k] == old(entries)[k]
        invariant forall k :: k in entries && k !in left ==> !Aged(lifetime, entries[k], now)
        invariant forall k :: k in old(entries) && k !in entries ==> Aged(lifetime, old(entries)[k], now)
        invariant removed == |old(entries)| - |entries|
        decreases |left|
      {
        var k :| k in left;
        left := left - {k};
        if Aged(lifetime, entries[k], now) {
          assert |entries.Keys - {k}| == |entries.Keys| - 1;
          assert (entries - {k}).Keys == entries.Keys - {k};
          entries := entries - {k};
          removed := removed + 1;
        }
      }
    }
  }
}
