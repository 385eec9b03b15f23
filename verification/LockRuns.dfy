/** Whole runs of the lock manager: requests, wake-ups and unlocks by any callers, in any order. */
module LockRuns {
  import opened LocalLocks

  /** The locks in the map, and the identity of the next request. */
  datatype State = State(locks: map<string, Track>, next: nat)

  /** Of an unlock, `j` says which request is released and `i` where its caller is first in the list. */
  datatype Event =
    | Ask(lockId: string, caller: CallerId, mode: Mode, try: bool)
    | Wake(lockId: string, id: nat)
    | Unlock(lockId: string, i: nat, j: nat)

  function TrackOf(s: State, lockId: string): Track {
    if lockId in s.locks then s.locks[lockId] else Fresh()
  }

  /** A caller wakes up once signaled, and unlocks what it holds and has gone on with. */
  ghost predicate Enabled(s: State, e: Event) {
    match e
    case Ask(_, _, _, _) => true
    case Wake(lockId, id) => lockId in s.locks && id in s.locks[lockId].signaled && s.locks[lockId].waiters > 0
    case Unlock(lockId, i, j) =>
      && lockId in s.locks && s.locks[lockId].owners > 0 && j < |s.locks[lockId].holding|
      && FirstEntry(s.locks[lockId].list, i, s.locks[lockId].holding[j].caller)
      && ReleasableBy(s.locks[lockId], j, s.locks[lockId].holding[j].caller)
  }

  ghost function Step(s: State, e: Event): State
    requires Enabled(s, e)
  {
    match e
    case Ask(lockId, caller, mode, try) =>
      if try && Conflicts(TrackOf(s, lockId), Request(s.next, caller, mode)) then s
      else State(s.locks[lockId := Queued(TrackOf(s, lockId), Request(s.next, caller, mode))], s.next + 1)
    case Wake(lockId, id) => s.(locks := s.locks[lockId := Woken(s.locks[lockId], id)])
    case Unlock(lockId, i, j) =>
      var p := Process(Release(s.locks[lockId], i, j));
      s.(locks := if Used(p) then s.locks[lockId := p] else s.locks - {lockId})
  }

  /** Every lock in the map is settled and used by somebody. */
  ghost predicate Orderly(s: State) {
    forall id :: id in s.locks ==> InOrder(s.locks[id], s.next, true)
  }

  ghost predicate IsRun(states: seq<State>, events: seq<Event>) {
    && |states| == |events| + 1 && states[0] == State(map[], 0)
    && forall k :: 0 <= k < |events| ==> Enabled(states[k], events[k]) && states[k + 1] == Step(states[k], events[k])
  }

  lemma LaterIds(t: Track, next: nat, next': nat)
    requires IdsBelow(t, next) && next <= next'
    ensures IdsBelow(t, next')
  {
  }

  lemma AskOrderly(s: State, lockId: string, r: Request)
    requires Orderly(s) && r.id == s.next
    ensures Orderly(State(s.locks[lockId := Queued(TrackOf(s, lockId), r)], s.next + 1))
  {
    if lockId !in s.locks {
      NewTrackSettled(s.next);
    }
    QueuedOk(TrackOf(s, lockId), r, s.next + 1);
    forall id | id in s.locks && id != lockId ensures InOrder(s.locks[id], s.next + 1, true) {
      LaterIds(s.locks[id], s.next, s.next + 1);
    }
  }

  lemma StepOrderly(s: State, e: Event)
    requires Orderly(s) && Enabled(s, e)
    ensures Orderly(Step(s, e))
  {
    match e
    case Ask(lockId, caller, mode, try) =>
      AskOrderly(s, lockId, Request(s.next, caller, mode));
    case Wake(lockId, id) =>
      WokenOk(s.locks[lockId], id, s.next);
    case Unlock(lockId, i, j) =>
      UnlockedOk(s.locks[lockId], i, j, s.next);
  }

  lemma {:induction false} RunsAreOrderly(states: seq<State>, events: seq<Event>, k: nat)
    requires IsRun(states, events) && k < |states|
    ensures Orderly(states[k])
  {
    if k > 0 {
      RunsAreOrderly(states, events, k - 1);
      StepOrderly(states[k - 1], events[k - 1]);
    }
  }

  /** In every state of every run each lock has one exclusive holder, or shared holders, or none;
      its counters fit; every holder is reported; nobody queued could be granted; and grants follow arrivals. */
  lemma LocksExclude(states: seq<State>, events: seq<Event>, k: nat, lockId: string)
    requires IsRun(states, events) && k < |states| && lockId in states[k].locks
    ensures var t := states[k].locks[lockId];
            && Used(t) && !Grantable(t)
            && (forall i, j :: 0 <= i < j < |t.holding| ==> t.holding[i].mode == Shared && t.holding[j].mode == Shared)
            && (t.state == Stale <==> t.owners == 0) && t.owners == |t.holding| && t.waiters == |t.queue| + |t.signaled|
            && (forall caller, heldType :: Holds(t, caller, heldType) ==> Reported(t, caller, heldType))
            && t.grants <= t.arrivals
  {
    RunsAreOrderly(states, events, k);
    var t := states[k].locks[lockId];
    MutualExclusion(t);
    forall caller, heldType ensures Holds(t, caller, heldType) ==> Reported(t, caller, heldType) {
      HoldersReported(t, caller, heldType);
    }
  }

  /** A request made without trying is on the lock's one track afterwards, held or queued. */
  lemma AskedIsThere(s: State, lockId: string, caller: CallerId, mode: Mode)
    requires Orderly(s)
    ensures var t, r := Step(s, Ask(lockId, caller, mode, false)).locks[lockId], Request(s.next, caller, mode);
            (r in t.holding || r in t.queue) && !(r in t.holding && r in t.queue)
  {
    if lockId !in s.locks {
      NewTrackSettled(s.next);
    }
    QueuedOk(TrackOf(s, lockId), Request(s.next, caller, mode), s.next + 1);
  }

  // ----- who is reported -----

  /** The event is a request for the lock, and not one that is refused. */
  ghost predicate Asks(s: State, e: Event, lockId: string) {
    e.Ask? && e.lockId == lockId && !(e.try && Conflicts(TrackOf(s, lockId), Request(s.next, e.caller, e.mode)))
  }

  lemma AskArrivals(s: State, lockId: string, r: Request)
    requires Orderly(s) && r.id == s.next
    ensures Queued(TrackOf(s, lockId), r).arrivals == TrackOf(s, lockId).arrivals + [r]
  {
    if lockId !in s.locks {
      NewTrackSettled(s.next);
    }
    FreshId(TrackOf(s, lockId), s.next);
    HeldAfterAsk(TrackOf(s, lockId), r);
  }

  lemma UnlockArrivals(t: Track, i: nat, j: nat)
    requires Settled(t) && i < |t.list| && ReleasableBy(t, j, t.list[i])
    ensures Process(Release(t, i, j)).arrivals == t.arrivals
  {
    ReleaseCoherent(t, i, j);
    var n := ProcessGrantsPrefix(Release(t, i, j));
  }

  lemma UnlockStepArrivals(s: State, id: string, i: nat, j: nat, lockId: string)
    requires Orderly(s) && Enabled(s, Unlock(id, i, j)) && lockId in Step(s, Unlock(id, i, j)).locks
    ensures lockId in s.locks && Step(s, Unlock(id, i, j)).locks[lockId].arrivals == s.locks[lockId].arrivals
  {
    UnlockArrivals(s.locks[id], i, j);
  }

  lemma AskStepArrivals(s: State, e: Event, lockId: string)
    requires Orderly(s) && e.Ask? && lockId in Step(s, e).locks
    ensures Step(s, e).locks[lockId].arrivals ==
            TrackOf(s, lockId).arrivals + if Asks(s, e, lockId) then [Request(s.next, e.caller, e.mode)] else []
    ensures Asks(s, e, lockId) || lockId in s.locks
  {
    if Asks(s, e, lockId) {
      AskArrivals(s, lockId, Request(s.next, e.caller, e.mode));
    }
  }

  /** Only requests change what has arrived at a lock, as long as it is in the map. */
  lemma ArrivalsStep(s: State, e: Event, lockId: string)
    requires Orderly(s) && Enabled(s, e) && lockId in Step(s, e).locks
    ensures Step(s, e).locks[lockId].arrivals ==
            TrackOf(s, lockId).arrivals + if Asks(s, e, lockId) then [Request(s.next, e.caller, e.mode)] else []
    ensures Asks(s, e, lockId) || lockId in s.locks
  {
    if e.Ask? {
      AskStepArrivals(s, e, lockId);
    } else if e.Unlock? {
      UnlockStepArrivals(s, e.lockId, e.i, e.j, lockId);
    }
  }

  lemma ArrivalsAt(states: seq<State>, events: seq<Event>, k: nat, lockId: string)
    requires IsRun(states, events) && k < |events| && lockId in states[k + 1].locks
    ensures states[k + 1].locks[lockId].arrivals ==
            var e := events[k];
            TrackOf(states[k], lockId).arrivals +
            if Asks(states[k], e, lockId) then [Request(states[k].next, e.caller, e.mode)] else []
    ensures Asks(states[k], events[k], lockId) || lockId in states[k].locks
  {
    RunsAreOrderly(states, events, k);
    ArrivalsStep(states[k], events[k], lockId);
  }

  /** Request `r` is the one made at step `j`, and the lock has been in the map ever since. */
  ghost predicate MadeAt(states: seq<State>, events: seq<Event>, j: nat, k: nat, lockId: string, r: Request)
    requires IsRun(states, events) && k < |states|
  {
    && j < k && Asks(states[j], events[j], lockId)
    && r == Request(states[j].next, events[j].caller, events[j].mode)
    && forall m :: j < m <= k ==> lockId in states[m].locks
  }

  lemma {:induction false} ArrivedWasMade(states: seq<State>, events: seq<Event>, k: nat, lockId: string, r: Request)
    returns (j: nat)
    requires IsRun(states, events) && k < |states| && lockId in states[k].locks && r in states[k].locks[lockId].arrivals
    ensures MadeAt(states, events, j, k, lockId, r)
  {
    var s, e := states[k - 1], events[k - 1];
    ArrivalsAt(states, events, k - 1, lockId);
    if Asks(s, e, lockId) && r == Request(s.next, e.caller, e.mode) {
      j := k - 1;
    } else {
      assert r in TrackOf(s, lockId).arrivals;
      j := ArrivedWasMade(states, events, k - 1, lockId, r);
    }
  }

  /** In every state of every run whoever is reported as a holder has asked for the lock since it came into the map,
      and was granted it; and somebody holds it the way asked about. */
  lemma ReportedHasAsked(states: seq<State>, events: seq<Event>, k: nat, lockId: string, caller: CallerId,
                         heldType: HeldType)
    returns (j: nat, r: Request)
    requires IsRun(states, events) && k < |states| && lockId in states[k].locks
    requires Reported(states[k].locks[lockId], caller, heldType)
    ensures MadeAt(states, events, j, k, lockId, r) && r.caller == caller && r in states[k].locks[lockId].grants
    ensures exists h :: h in states[k].locks[lockId].holding && OfType(h.mode, heldType)
  {
    RunsAreOrderly(states, events, k);
    var t := states[k].locks[lockId];
    ReportedWasGranted(t, caller, heldType);
    r :| r in t.grants && r.caller == caller;
    assert t.arrivals == t.grants + t.queue;
    j := ArrivedWasMade(states, events, k, lockId, r);
  }

  /** So a caller that has not asked for a lock since it came into the map is not reported as its holder. */
  lemma StrangersNotReported(states: seq<State>, events: seq<Event>, k: nat, lockId: string, caller: CallerId,
                             heldType: HeldType)
    requires IsRun(states, events) && k < |states| && lockId in states[k].locks
    requires forall j, r :: MadeAt(states, events, j, k, lockId, r) ==> r.caller != caller
    ensures !Reported(states[k].locks[lockId], caller, heldType)
  {
    if Reported(states[k].locks[lockId], caller, heldType) {
      var j, r := ReportedHasAsked(states, events, k, lockId, caller, heldType);
    }
  }
}
