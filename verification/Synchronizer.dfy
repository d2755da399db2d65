/** The observer-side synchronization state machine (client_synchronizer.cpp). */
module Synchronizer {
  import opened Basics
  import opened StateUpdate

  datatype Sync = Sync(session: Option<u64>, sequence: u64, revision: u64, timestamp: u64,
                       synchronized: bool, resyncRequired: bool)

  datatype Result =
    AppliedSnapshot | AppliedDelta | AcceptedHeartbeat | IgnoredDuplicate
  | IgnoredStale | NeedsSnapshot | SequenceGap | RevisionMismatch

  const INITIAL := Sync(None, 0, 0, 0, false, true)

  /** One update consumed. */
  function Consumed(s: Sync, u: Update): (Sync, Result)
  {
    if s.session != Some(u.session) then
      var started := Sync(Some(u.session), 0, 0, 0, false, true);
      if u.kind.Snapshot? then Advance(started, u) else (started, NeedsSnapshot)
    else if u.sequence == s.sequence then (s, IgnoredDuplicate)
    else if u.sequence < s.sequence || u.timestamp < s.timestamp then (s, IgnoredStale)
    else Advance(s, u)
  }

  /** An update of the current session that is newer than everything applied. */
  function Advance(s: Sync, u: Update): (Sync, Result)
  {
    if u.kind.Snapshot? then
      (Sync(s.session, u.sequence, u.revision, u.timestamp, true, false), AppliedSnapshot)
    else if !s.synchronized then (s.(resyncRequired := true), NeedsSnapshot)
    else if u.sequence != s.sequence + 1 then (Lost(s), SequenceGap)
    else if u.kind.Delta? && u.baseRevision != s.revision then (Lost(s), RevisionMismatch)
    else if u.kind.Delta? then
      (s.(sequence := u.sequence, timestamp := u.timestamp, revision := u.revision), AppliedDelta)
    else (s.(sequence := u.sequence, timestamp := u.timestamp), AcceptedHeartbeat)
  }

  function Lost(s: Sync): Sync
  {
    s.(synchronized := false, resyncRequired := true)
  }

  function ConsumeAll(s: Sync, us: seq<Update>): Sync
  {
    if us == [] then s else Consumed(ConsumeAll(s, us[..|us| - 1]), us[|us| - 1]).0
  }

  /** On any input whatever, a synchronizer asks for a snapshot exactly while it is
      not synchronized, and is synchronized only on the session it heard last. */
  lemma {:induction false} AskingIsExact(us: seq<Update>)
    ensures var s := ConsumeAll(INITIAL, us);
      && s.resyncRequired == !s.synchronized
      && (s.synchronized ==> s.session.Some? && s.session == Some(us[|us| - 1].session))
  {
    if us != [] {
      AskingIsExact(us[..|us| - 1]);
    }
  }

  /** While one session is heard, sequence and timestamp never move backwards. */
  lemma {:induction false} SequenceMonotone(s: Sync, us: seq<Update>)
    requires forall u :: u in us ==> s.session == Some(u.session)
    ensures ConsumeAll(s, us).session == s.session
    ensures ConsumeAll(s, us).sequence >= s.sequence && ConsumeAll(s, us).timestamp >= s.timestamp
  {
    hide Consumed;
    if us != [] {
      SequenceMonotone(s, us[..|us| - 1]);
      HeardOnce(ConsumeAll(s, us[..|us| - 1]), us[|us| - 1]);
    }
  }

  // ---- Which updates are heard ----

  /** An update of the current session is looked at, instead of being dropped as
      repeated or stale, when it is numbered later and stamped no earlier. */
  predicate Fresh(s: Sync, u: Update)
  {
    u.sequence > s.sequence && u.timestamp >= s.timestamp
  }

  lemma HeardOnce(s: Sync, u: Update)
    requires s.session == Some(u.session)
    ensures !Fresh(s, u) ==> Consumed(s, u).0 == s
    ensures u.kind.Snapshot? && Fresh(s, u) ==> Consumed(s, u).0.sequence == u.sequence
    ensures var s' := Consumed(s, u).0;
      && s'.session == s.session && s'.sequence >= s.sequence && s'.timestamp >= s.timestamp
      && (s'.sequence == s.sequence ==> s'.timestamp == s.timestamp)
  {
  }

  /** The exact condition for a session to be heard: updates that are not fresh
      change nothing, however many they are, and one fresh snapshot among them
      moves the synchronizer on, whatever surrounds it. */
  lemma {:induction false} HeardExactly(s: Sync, us: seq<Update>)
    requires forall u :: u in us ==> s.session == Some(u.session)
    ensures (forall u :: u in us ==> !Fresh(s, u)) ==> ConsumeAll(s, us) == s
    ensures (exists u :: u in us && u.kind.Snapshot? && Fresh(s, u)) ==> ConsumeAll(s, us).sequence > s.sequence
    ensures var s' := ConsumeAll(s, us);
      && s'.session == s.session && s'.sequence >= s.sequence
      && (s'.sequence == s.sequence ==> s'.timestamp == s.timestamp)
  {
    hide Consumed;
    if us != [] {
      var front, u := us[..|us| - 1], us[|us| - 1];
      HeardExactly(s, front);
      assert us == front + [u];
      HeardOnce(ConsumeAll(s, front), u);
      if forall v :: v in us ==> !Fresh(s, v) {
        assert ConsumeAll(s, front) == s;
      }
    }
  }

  /** `r` has left the state `s` for good: it went on, or it lost synchronization there. */
  predicate MovedOn(s: Sync, r: Sync)
  {
    r.session == s.session && (r.sequence > s.sequence || (r.sequence == s.sequence && !r.synchronized))
  }

  lemma MovesOnOnce(s: Sync, r: Sync, u: Update)
    requires s.session == Some(u.session) && s.synchronized
    ensures Fresh(s, u) ==> MovedOn(s, Consumed(s, u).0)
    ensures MovedOn(s, r) ==> MovedOn(s, Consumed(r, u).0)
  {
  }

  /** A synchronizer that is in step stays exactly as it is if and only if it is
      sent nothing numbered beyond what it has. */
  lemma {:induction false} UndisturbedExactly(s: Sync, us: seq<Update>)
    requires s.synchronized && forall u :: u in us ==> s.session == Some(u.session)
    requires forall u :: u in us && u.sequence > s.sequence ==> u.timestamp >= s.timestamp
    ensures ConsumeAll(s, us) == s <==> forall u :: u in us ==> u.sequence <= s.sequence
    ensures ConsumeAll(s, us) == s || MovedOn(s, ConsumeAll(s, us))
  {
    hide Consumed;
    if us != [] {
      var front, u := us[..|us| - 1], us[|us| - 1];
      UndisturbedExactly(s, front);
      assert us == front + [u];
      MovesOnOnce(s, ConsumeAll(s, front), u);
      HeardOnce(s, u);
    }
  }

  /** The update is the one a synchronizer in step waits for: of its session, the next
      number, and a delta only on top of its revision. */
  predicate Continues(s: Sync, u: Update)
  {
    && s.session == Some(u.session) && s.synchronized && u.sequence == s.sequence + 1
    && (u.kind.Delta? ==> u.baseRevision == s.revision)
  }

  /** The eight answers, each with its one cause. */
  lemma AnswerExactly(s: Sync, u: Update)
    ensures var r, same := Consumed(s, u).1, s.session == Some(u.session);
      && (r == IgnoredDuplicate <==> same && u.sequence == s.sequence)
      && (r == IgnoredStale <==> same && u.sequence != s.sequence && !Fresh(s, u))
      && (r == AppliedSnapshot <==> u.kind == Snapshot && (same ==> Fresh(s, u)))
      && (r == AppliedDelta <==> u.kind == Delta && Fresh(s, u) && Continues(s, u))
      && (r == AcceptedHeartbeat <==> u.kind in {Heartbeat, ResyncRequest} && Fresh(s, u) && Continues(s, u))
      && (r == NeedsSnapshot <==> u.kind != Snapshot && (same ==> Fresh(s, u) && !s.synchronized))
      && (r == SequenceGap <==>
            u.kind != Snapshot && same && Fresh(s, u) && s.synchronized && u.sequence != s.sequence + 1)
      && (r == RevisionMismatch <==>
            u.kind == Delta && same && Fresh(s, u) && s.synchronized && u.sequence == s.sequence + 1
            && u.baseRevision != s.revision)
  {
  }

  /** What each answer leaves behind: an accepted update moves number and stamp, and the
      revision if it carries a scene; a refused one only ends synchronization. */
  lemma StateAfter(s: Sync, u: Update)
    ensures var (s', r) := Consumed(s, u);
      && s'.session == Some(u.session)
      && (r in {AppliedSnapshot, AppliedDelta, AcceptedHeartbeat} ==>
            s'.sequence == u.sequence && s'.timestamp == u.timestamp && s'.synchronized)
      && (r in {AppliedSnapshot, AppliedDelta} ==> s'.revision == u.revision)
      && (r == AppliedSnapshot ==> !s'.resyncRequired)
      && (r == AppliedDelta ==> s'.resyncRequired == s.resyncRequired)
      && (r == AcceptedHeartbeat ==> s'.revision == s.revision && s'.resyncRequired == s.resyncRequired)
      && (r in {IgnoredDuplicate, IgnoredStale} ==> s' == s)
      && (r in {NeedsSnapshot, SequenceGap, RevisionMismatch} ==>
            s' == Tuned(s, u.session).(synchronized := false, resyncRequired := true))
  {
  }

  // ---- Catching up with a server ----

  /** Update number `m` of session `id`, as a server numbers its updates. */
  predicate Numbered(u: Update, id: u64, m: nat)
  {
    && u.session == id && u.sequence == u.revision == m
    && (u.kind.Snapshot? || (u.kind.Delta? && u.baseRevision == m - 1))
  }

  /** The updates of session `id` numbered from `n + 1` on, with timestamps in order. */
  ghost predicate Consecutive(us: seq<Update>, id: u64, n: nat)
  {
    && (forall i :: 0 <= i < |us| ==> Numbered(us[i], id, n + 1 + i))
    && (forall i, j :: 0 <= i < j < |us| ==> us[i].timestamp <= us[j].timestamp)
  }

  /** Synchronized on update number `m` of session `id`. */
  predicate InStep(s: Sync, id: u64, m: nat)
  {
    s.session == Some(id) && s.synchronized && s.sequence == s.revision == m
  }

  /** What counts once session `id` is heard: a change of session forgets everything. */
  function Tuned(s: Sync, id: u64): Sync
  {
    if s.session == Some(id) then s else Sync(Some(id), 0, 0, 0, false, true)
  }

  /** Some snapshot among `us` is fresh; or the synchronizer is already in step
      and the update it needs next, if `us` goes that far, is fresh. */
  ghost predicate CanCatchUp(s: Sync, us: seq<Update>, id: u64, n: nat)
  {
    var b := Tuned(s, id);
    || (exists i :: 0 <= i < |us| && us[i].kind.Snapshot? && Fresh(b, us[i]))
    || (&& InStep(b, id, b.sequence) && n <= b.sequence <= n + |us|
        && (b.sequence < n + |us| ==> Fresh(b, us[b.sequence - n])))
  }

  /** From any state whatever, consecutive updates delivered in order leave the
      synchronizer in step with the last of them if and only if it can catch up. */
  lemma CatchUpExactly(s: Sync, us: seq<Update>, id: u64, n: nat)
    requires Consecutive(us, id, n)
    ensures InStep(ConsumeAll(s, us), id, n + |us|) <==> CanCatchUp(s, us, id, n)
    ensures var r := ConsumeAll(s, us);
      us != [] ==> (r.timestamp == Tuned(s, id).timestamp || r.timestamp <= us[|us| - 1].timestamp)
  {
    Retuned(s, us, id, n);
    Follows(Tuned(s, id), us, id, n);
  }

  lemma {:induction false} Retuned(s: Sync, us: seq<Update>, id: u64, n: nat)
    requires Consecutive(us, id, n)
    ensures us != [] ==> ConsumeAll(s, us) == ConsumeAll(Tuned(s, id), us)
  {
    if us != [] {
      assert Numbered(us[|us| - 1], id, n + |us|);
      Retuned(s, us[..|us| - 1], id, n);
    }
  }

  /** Where a synchronizer tuned to the session is after the updates `us`. */
  lemma {:induction false} Follows(b: Sync, us: seq<Update>, id: u64, n: nat)
    requires Consecutive(us, id, n) && b.session == Some(id)
    ensures InStep(ConsumeAll(b, us), id, n + |us|) <==> CanCatchUp(b, us, id, n)
    ensures var r, m := ConsumeAll(b, us), n + |us|;
      && r.session == Some(id)
      && (b.sequence >= m || (us != [] && us[|us| - 1].timestamp < b.timestamp) ==> r == b)
      && (b.sequence <= m ==> r.sequence <= m)
      && (r.timestamp == b.timestamp || (us != [] && r.timestamp <= us[|us| - 1].timestamp))
  {
    if us != [] {
      var front, u := us[..|us| - 1], us[|us| - 1];
      assert Numbered(u, id, n + |us|);
      Follows(b, front, id, n);
      assert front != [] ==> front[|front| - 1].timestamp <= u.timestamp;
      if Fresh(b, u) {
        FreshLast(b, us, id, n);
      } else {
        assert ConsumeAll(b, front) == b;
        StaleLast(b, us, id, n);
      }
    }
  }

  /** If the last update is fresh, it is itself the snapshot or the rest must have sufficed. */
  lemma FreshLast(b: Sync, us: seq<Update>, id: u64, n: nat)
    requires Consecutive(us, id, n) && b.session == Some(id) && us != [] && Fresh(b, us[|us| - 1])
    ensures CanCatchUp(b, us, id, n) <==> us[|us| - 1].kind.Snapshot? || CanCatchUp(b, us[..|us| - 1], id, n)
  {
    assert Numbered(us[|us| - 1], id, n + |us|);
  }

  /** If the last update is not fresh, none is. */
  lemma StaleLast(b: Sync, us: seq<Update>, id: u64, n: nat)
    requires Consecutive(us, id, n) && b.session == Some(id) && us != [] && !Fresh(b, us[|us| - 1])
    ensures CanCatchUp(b, us, id, n) <==> InStep(b, id, n + |us|)
  {
    forall i | 0 <= i < |us| ensures !Fresh(b, us[i]) {
      assert Numbered(us[i], id, n + 1 + i) && Numbered(us[|us| - 1], id, n + |us|);
    }
  }

  /** Having heard part of a window can prevent catching up on it: a synchronizer
      that took the only snapshot and then met a gap ignores that snapshot when the
      window is delivered again in order. */
  lemma OverlapCanFail(us: seq<Update>, id: u64, n: nat, i: nat, j: nat)
    requires Consecutive(us, id, n) && i + 1 < j < |us|
    requires forall k :: 0 <= k < |us| ==> (us[k].kind.Snapshot? <==> k == i)
    ensures !InStep(ConsumeAll(ConsumeAll(INITIAL, [us[i], us[j]]), us), id, n + |us|)
  {
    var s := ConsumeAll(INITIAL, [us[i], us[j]]);
    assert [us[i], us[j]][..1] == [us[i]] && [us[i]][..0] == [];
    assert ConsumeAll(INITIAL, [us[i]]) == Consumed(INITIAL, us[i]).0;
    assert Numbered(us[i], id, n + 1 + i) && Numbered(us[j], id, n + 1 + j);
    CatchUpExactly(s, us, id, n);
  }

  class ClientSynchronizer {
    var session: Option<u64>
    var lastReceived: Option<int>
    var sequence: u64
    var revision: u64
    var timestamp: u64
    var synchronized: bool
    var resyncRequired: bool

    ghost function State(): Sync
      reads this
    {
      Sync(session, sequence, revision, timestamp, synchronized, resyncRequired)
    }

    constructor ()
      ensures State() == INITIAL && lastReceived == None
    {
      session, lastReceived := None, None;
      sequence, revision, timestamp := 0, 0, 0;
      synchronized, resyncRequired := false, true;
    }

    method Consume(update: Update, receivedAt: int) returns (r: Result)
      modifies this
      ensures (State(), r) == Consumed(old(State()), update)
      ensures lastReceived == Some(receivedAt)
    {
      lastReceived := Some(receivedAt);
      if session.None? || session.value != update.session {
        session := Some(update.session);
        sequence, revision, timestamp := 0, 0, 0;
        synchronized, resyncRequired := false, true;
        if update.kind != Snapshot {
          return NeedsSnapshot;
        }
      } else {
        if update.sequence == sequence {
          return IgnoredDuplicate;
        }
        if update.sequence < sequence || update.timestamp < timestamp {
          return IgnoredStale;
        }
      }
      if update.kind == Snapshot {
        sequence, revision, timestamp := update.sequence, update.revision, update.timestamp;
        synchronized, resyncRequired := true, false;
        return AppliedSnapshot;
      }
      if !synchronized {
        resyncRequired := true;
        return NeedsSnapshot;
      }
      if update.sequence != sequence + 1 {
        synchronized, resyncRequired := false, true;
        return SequenceGap;
      }
      if update.kind == Delta && update.baseRevision != revision {
        synchronized, resyncRequired := false, true;
        return RevisionMismatch;
      }
      sequence, timestamp := update.sequence, update.timestamp;
      if update.kind == Delta {
        revision := update.revision;
        return AppliedDelta;
      }
      return AcceptedHeartbeat;
    }

    method Reset()
      modifies this
      ensures State() == INITIAL && lastReceived == None
    {
      session, lastReceived := None, None;
      sequence, revision, timestamp := 0, 0, 0;
      synchronized, resyncRequired := false, true;
    }
  }
}
