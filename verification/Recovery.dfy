/** Recovery: when the updates of a session, delivered in order, bring an observer
    back in step with its server, and when nothing the server sends can. */
module Recovery {
  import opened Basics
  import opened StateUpdate
  import opened Server
  import opened Observer
  import opened Replication
  import S = Synchronizer
  import Wire

  // ---- Windows of published updates ----

  ghost predicate TimestampsOrdered(log: seq<Option<Update>>)
  {
    forall i, j :: 0 <= i < j < |log| && log[i].Some? && log[j].Some? ==>
      log[i].value.timestamp <= log[j].value.timestamp
  }

  /** The `count` updates of session `id` after number `n` were all published, and
      the session's timestamps are in order. */
  ghost predicate Published(w: World, id: u64, n: nat, count: nat)
  {
    && id in w.sessions && w.sessions[id].publisher.interval >= 1
    && TimestampsOrdered(w.sessions[id].log) && n + count <= |w.sessions[id].log|
    && forall i :: n <= i < n + count ==> w.sessions[id].log[i].Some?
  }

  ghost function Window(w: World, id: u64, n: nat, count: nat): (us: seq<Update>)
    requires Published(w, id, n, count)
    ensures |us| == count && forall i :: 0 <= i < count ==> us[i] == w.sessions[id].log[n + i].value
  {
    seq(count, i requires 0 <= i < count => w.sessions[id].log[n + i].value)
  }

  lemma NumberedBySlot(w: World, id: u64, m: nat)
    requires Inv(w) && id in w.sessions && m < |w.sessions[id].log| && w.sessions[id].log[m].Some?
    ensures var u := w.sessions[id].log[m].value; Sent(w, u) && S.Numbered(u, id, m + 1)
    ensures SnapshotDue(m + 1, w.sessions[id].publisher.interval) ==> w.sessions[id].log[m].value.kind.Snapshot?
  {
    hide Topology.SceneBytes, Topology.ValidScene, ClientOk, SnapshotDue;
    var s := w.sessions[id];
    assert SessionOk(id, s);
    assert LoggedOk(s.publisher, m + 1, s.log[m]);
  }

  lemma WindowIsConsecutive(w: World, id: u64, n: nat, count: nat)
    requires Inv(w) && Published(w, id, n, count)
    ensures var us := Window(w, id, n, count);
      S.Consecutive(us, id, n) && forall u :: u in us ==> Sent(w, u)
  {
    hide Inv, Sent, S.Numbered;
    var us := Window(w, id, n, count);
    forall i | 0 <= i < count ensures Sent(w, us[i]) && S.Numbered(us[i], id, n + 1 + i) {
      NumberedBySlot(w, id, n + i);
    }
  }

  // ---- Exactly when a window recovers an observer ----

  /** From any reachable state, delivering any consecutive published updates of a
      session in order leaves the observer synchronized on the last of them if and
      only if its synchronizer can catch up; it then shows what the session's
      observers show at that revision. */
  lemma RecoversExactly(steps: seq<Step>, k: nat, id: u64, n: nat, count: nat)
    requires Legal(steps) && k in Run(steps).clients && Published(Run(steps), id, n, count)
    ensures var us := Window(Run(steps), id, n, count);
      var after := steps + Deliveries(k, us);
      && Legal(after) && k in Run(after).clients && Run(after).sessions == Run(steps).sessions
      && (At(Run(after).clients[k], id, n + count) <==> S.CanCatchUp(Run(steps).clients[k].sync, us, id, n))
  {
    hide Legal, Run, Inv, Published, S.CanCatchUp, Deliveries;
    RunSafe(steps);
    WindowIsConsecutive(Run(steps), id, n, count);
    var us := Window(Run(steps), id, n, count);
    DeliverAll(steps, k, us);
    S.CatchUpExactly(Run(steps).clients[k].sync, us, id, n);
  }

  lemma SnapshotInWindow(n: nat, interval: nat) returns (k: nat)
    requires interval >= 1
    ensures n < k <= n + interval && SnapshotDue(k, interval)
  {
    k := n - n % interval + interval;
    assert k % interval == 0 by {
      assert k == (n / interval + 1) * interval;
      MultipleIsZero(n / interval + 1, interval);
    }
  }

  lemma MultipleIsZero(a: nat, b: nat)
    requires b >= 1
    ensures a * b % b == 0
  {
    var q, r := a * b / b, a * b % b;
    assert a * b == q * b + r;
    assert (a - q) * b == r;
    Wire.Scale(a - q, b);
  }

  // ---- What an observer has heard ----

  /** Nothing the synchronizer has taken from session `id` is numbered beyond `n` or stamped after `time`. */
  ghost predicate NotBeyond(s: S.Sync, id: u64, n: nat, time: nat)
  {
    s.session == Some(id) ==> s.sequence <= n && s.timestamp <= time
  }

  /** No datagram of session `id` delivered to observer `k` is numbered beyond `n` or stamped after `time`. */
  ghost predicate HeardWithin(steps: seq<Step>, k: nat, id: u64, n: nat, time: nat)
  {
    forall i :: 0 <= i < |steps| && steps[i].Deliver? && steps[i].client == k ==> Within(steps[i].bytes, id, n, time)
  }

  predicate Within(bytes: Bytes, id: u64, n: nat, time: nat)
  {
    Parse(bytes).Parsed? && Parse(bytes).update.session == id ==>
      Parse(bytes).update.sequence <= n && Parse(bytes).update.timestamp <= time
  }

  /** Over every run, an observer knows of nothing later than what it was sent. */
  lemma {:induction false} NothingTakenBeyond(steps: seq<Step>, k: nat, id: u64, n: nat, time: nat)
    requires Legal(steps) && k in Run(steps).clients && HeardWithin(steps, k, id, n, time)
    ensures NotBeyond(Run(steps).clients[k].sync, id, n, time)
  {
    if steps != [] {
      hide Enabled, Parse, Publish;
      var front, last := steps[..|steps| - 1], steps[|steps| - 1];
      if k in Run(front).clients {
        NothingTakenBeyond(front, k, id, n, time);
        if last.Deliver? && last.client == k {
          TakesWithin(Run(front).clients[k], last.bytes, id, n, time);
        }
      }
    }
  }

  lemma TakesWithin(c: Client, bytes: Bytes, id: u64, n: nat, time: nat)
    requires NotBeyond(c.sync, id, n, time) && Within(bytes, id, n, time)
    ensures NotBeyond(ConsumeDatagram(c, bytes).0.sync, id, n, time)
  {
    hide Parse, Candidate;
  }

  /** Every state update of session `id` delivered to observer `k` is one that the
      server sent, numbered at most `n`. */
  ghost predicate HeardOnlySent(steps: seq<Step>, k: nat, id: u64, n: nat)
    requires Legal(steps)
  {
    forall i :: 0 <= i < |steps| && steps[i].Deliver? && steps[i].client == k ==>
      OldOrForeign(Run(steps), steps[i].bytes, id, n)
  }

  /** Bytes that are rejected, of another session, or a sent update of session `id` numbered at most `n`. */
  ghost predicate OldOrForeign(w: World, bytes: Bytes, id: u64, n: nat)
  {
    Parse(bytes).Parsed? && Parse(bytes).update.session == id ==>
      Sent(w, Parse(bytes).update) && Parse(bytes).update.sequence <= n
  }

  lemma SentIsWithin(w: World, bytes: Bytes, id: u64, n: nat)
    requires Published(w, id, n, 1) && OldOrForeign(w, bytes, id, n)
    ensures Within(bytes, id, n, w.sessions[id].log[n].value.timestamp)
  {
    hide Parse;
  }

  /** In every run in which observer `k` has heard nothing of session `id` but what
      its server sent up to number `n`, and anything whatever of other sessions: the
      next snapshot interval of the session is published, with timestamps in order. */
  ghost predicate FreshWindow(steps: seq<Step>, k: nat, id: u64, n: nat)
    requires Legal(steps)
  {
    && k in Run(steps).clients && id in Run(steps).sessions && HeardOnlySent(steps, k, id, n)
    && Published(Run(steps), id, n, Run(steps).sessions[id].publisher.interval)
  }

  /** The run that delivers that interval in order. */
  ghost function AfterWindow(steps: seq<Step>, k: nat, id: u64, n: nat): seq<Step>
    requires Legal(steps) && FreshWindow(steps, k, id, n)
  {
    steps + Deliveries(k, Window(Run(steps), id, n, Run(steps).sessions[id].publisher.interval))
  }

  /** The recovery bound: one snapshot interval delivered in order leaves the observer
      synchronized on its last update, with the scene all observers show there; that
      is the server's scene if and only if the revision is carried. */
  lemma RecoveryBound(steps: seq<Step>, k: nat, id: u64, n: nat)
    requires Legal(steps) && FreshWindow(steps, k, id, n)
    ensures var p := Run(steps).sessions[id].publisher;
      var after := AfterWindow(steps, k, id, n);
      && Legal(after) && k in Run(after).clients && Run(after).sessions == Run(steps).sessions
      && At(Run(after).clients[k], id, n + p.interval)
      && Run(after).clients[k].scene == Shown(p, n + p.interval)
      && (Shows(Run(after).clients[k], p) <==> Carried(p, n + p.interval))
  {
    var interval := Run(steps).sessions[id].publisher.interval;
    hide Legal, Run, Inv, HeardOnlySent, Deliveries, Shown, Carried, S.Fresh, S.CanCatchUp;
    SnapshotIsFresh(steps, k, id, n);
    RecoversExactly(steps, k, id, n, interval);
    MirrorSafety(AfterWindow(steps, k, id, n), k);
  }

  lemma NothingHeardBeyond(steps: seq<Step>, k: nat, id: u64, n: nat)
    requires Legal(steps) && FreshWindow(steps, k, id, n)
    ensures NotBeyond(Run(steps).clients[k].sync, id, n, Run(steps).sessions[id].log[n].value.timestamp)
  {
    hide Legal, Run, Within, OldOrForeign;
    var time := Run(steps).sessions[id].log[n].value.timestamp;
    forall i | 0 <= i < |steps| && steps[i].Deliver? && steps[i].client == k
      ensures Within(steps[i].bytes, id, n, time)
    {
      SentIsWithin(Run(steps), steps[i].bytes, id, n);
    }
    NothingTakenBeyond(steps, k, id, n, time);
  }

  /** The window holds a snapshot, and to such an observer it is fresh. */
  lemma SnapshotIsFresh(steps: seq<Step>, k: nat, id: u64, n: nat)
    requires Legal(steps) && FreshWindow(steps, k, id, n)
    ensures var us := Window(Run(steps), id, n, Run(steps).sessions[id].publisher.interval);
      S.CanCatchUp(Run(steps).clients[k].sync, us, id, n)
  {
    hide Legal, Run, Inv, HeardOnlySent, SnapshotDue, Sent;
    var w := Run(steps);
    var interval := w.sessions[id].publisher.interval;
    var us := Window(w, id, n, interval);
    RunSafe(steps);
    NothingHeardBeyond(steps, k, id, n);
    var m := SnapshotInWindow(n, interval);
    NumberedBySlot(w, id, m - 1);
    assert us[m - 1 - n].kind.Snapshot? && S.Fresh(S.Tuned(w.clients[k].sync, id), us[m - 1 - n]);
  }

  // ---- After recovery ----

  /** A synchronized observer that is sent updates of its own session again is left
      exactly as it is, scene included, if and only if none is numbered beyond it. */
  lemma ReplayExactly(steps: seq<Step>, k: nat, us: seq<Update>)
    requires Legal(steps) && k in Run(steps).clients && Run(steps).clients[k].sync.synchronized
    requires var s := Run(steps).clients[k].sync;
      forall u :: u in us ==> && Sent(Run(steps), u) && s.session == Some(u.session)
                              && (u.sequence > s.sequence ==> u.timestamp >= s.timestamp)
    ensures var after, c := steps + Deliveries(k, us), Run(steps).clients[k];
      && Legal(after) && k in Run(after).clients
      && (Run(after).clients[k] == c <==> forall u :: u in us ==> u.sequence <= c.sync.sequence)
  {
    hide Legal, Run, Sent, Deliveries;
    DeliverAll(steps, k, us);
    S.UndisturbedExactly(Run(steps).clients[k].sync, us);
  }

  /** After recovery, updates of the session delivered again change nothing at all if
      and only if they are numbered within the window or before it; when the window is
      the latest, that is everything sent so far. */
  lemma RecoveredStays(steps: seq<Step>, k: nat, id: u64, n: nat, replay: seq<Update>)
    requires Legal(steps) && FreshWindow(steps, k, id, n)
    requires forall u :: u in replay ==> Sent(Run(steps), u) && u.session == id
    ensures Legal(AfterWindow(steps, k, id, n)) && k in Run(AfterWindow(steps, k, id, n)).clients
    ensures var last := n + Run(steps).sessions[id].publisher.interval;
      var recovered := AfterWindow(steps, k, id, n);
      var c, after := Run(recovered).clients[k], recovered + Deliveries(k, replay);
      && Legal(after) && k in Run(after).clients
      && (Run(after).clients[k] == c <==> forall u :: u in replay ==> u.sequence <= last)
      && (last == |Run(steps).sessions[id].log| ==> Run(after).clients[k] == c)
  {
    hide Legal, Run, HeardOnlySent, Deliveries, Shown, Carried, AfterWindow;
    RecoveryBound(steps, k, id, n);
    var recovered := AfterWindow(steps, k, id, n);
    var last := n + Run(steps).sessions[id].publisher.interval;
    StampAfterWindow(steps, k, id, n);
    forall u | u in replay
      ensures Sent(Run(recovered), u) && (u.sequence > last ==> u.timestamp >= Run(recovered).clients[k].sync.timestamp)
    {
      assert Sent(Run(steps), u);
    }
    ReplayExactly(recovered, k, replay);
  }

  lemma StampAfterWindow(steps: seq<Step>, k: nat, id: u64, n: nat)
    requires Legal(steps) && FreshWindow(steps, k, id, n)
    ensures var after := AfterWindow(steps, k, id, n);
      var s := Run(steps).sessions[id];
      && Legal(after) && k in Run(after).clients
      && Run(after).clients[k].sync.timestamp <= s.log[n + s.publisher.interval - 1].value.timestamp
  {
    hide Legal, Run, Inv, HeardOnlySent, Deliveries, Sent, S.CanCatchUp, S.ConsumeAll;
    var w := Run(steps);
    var us := Window(w, id, n, w.sessions[id].publisher.interval);
    RunSafe(steps);
    WindowIsConsecutive(w, id, n, |us|);
    DeliverAll(steps, k, us);
    S.CatchUpExactly(w.clients[k].sync, us, id, n);
    NothingHeardBeyond(steps, k, id, n);
  }

  // ---- Observers that cannot be recovered ----

  /** Sent updates of its session that are not fresh to an observer leave it exactly as
      it is: datagrams it has gone past, and everything stamped before its timestamp. */
  lemma StaleIsHarmless(steps: seq<Step>, k: nat, us: seq<Update>)
    requires Legal(steps) && k in Run(steps).clients && AllStale(Run(steps).clients[k].sync, us)
    requires forall u :: u in us ==> Sent(Run(steps), u)
    ensures Legal(steps + Deliveries(k, us)) && k in Run(steps + Deliveries(k, us)).clients
    ensures Run(steps + Deliveries(k, us)).clients[k] == Run(steps).clients[k]
  {
    hide Legal, Run, Sent, Deliveries;
    DeliverAll(steps, k, us);
  }

  /** The heartbeat that continues the session of `s` with timestamp `stamp`. */
  function LateHeartbeat(s: S.Sync, stamp: u64): Update
    requires s.session.Some? && s.sequence < U64_MAX
  {
    Update(Heartbeat, s.session.value, s.sequence + 1, stamp, 0, 0, [])
  }

  /** The server sends no heartbeats, but observers take them.  One heartbeat moves a
      synchronized observer's timestamp to any later value: the observer still counts
      as synchronized and asks for nothing, and no update its server stamps earlier
      can change it, snapshots included. */
  lemma LateHeartbeatDeafens(steps: seq<Step>, k: nat, stamp: u64)
    requires Legal(steps) && k in Run(steps).clients && Run(steps).clients[k].sync.synchronized
    requires Run(steps).clients[k].sync.sequence < U64_MAX && Run(steps).clients[k].sync.timestamp <= stamp
    ensures Run(steps).clients[k].sync.session.Some?
    ensures var c := Run(steps).clients[k];
      var after := steps + [Deliver(k, Encoding(LateHeartbeat(c.sync, stamp)))];
      && Legal(after) && k in Run(after).clients && Run(after).sessions == Run(steps).sessions
      && Run(after).clients[k] == c.(sync := c.sync.(sequence := c.sync.sequence + 1, timestamp := stamp))
      && forall u: Update :: u.timestamp < stamp ==> !S.Fresh(Run(after).clients[k].sync, u)
  {
    hide Legal, Run, Encoding, Parse, Shown, Carried;
    MirrorSafety(steps, k);
    RunSafe(steps);
    var id := Run(steps).clients[k].sync.session.value;
    assert SessionOk(id, Run(steps).sessions[id]);
    var u := LateHeartbeat(Run(steps).clients[k].sync, stamp);
    ParseOfEncoding(u);
    ExtendRun(steps, Deliver(k, Encoding(u)));
  }
}
