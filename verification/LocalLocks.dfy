/** The local lock manager: shared/exclusive locks with a first-come first-served
queue, tracked in a map whose entries come and go with their users. Each section
run under a track's mutex is one step.
*/
module LocalLocks {
  import opened Common

  type CallerId = nat

  datatype Mode = Shared | Exclusive

  datatype TrackState = SharedState | ExclusiveState | Stale

  /** A call of commonLock; `id` is the identity of its request structure. */
  datatype Request = Request(id: nat, caller: CallerId, mode: Mode)

  datatype Outcome = Granted | Waiting | Busy

  datatype HeldType = AnyLock | ReadLock | WriteLock

  // ----- requests, as values -----

  /** What may be held together: nothing, one exclusive request, or shared ones only. */
  ghost predicate Compatible(rs: seq<Request>) {
    || (forall i :: 0 <= i < |rs| ==> rs[i].mode == Shared)
    || |rs| == 1
  }

  /** The state of a track whose granted requests are `rs`. */
  function StateOf(rs: seq<Request>): TrackState {
    if rs == [] then Stale else if rs[0].mode == Exclusive then ExclusiveState else SharedState
  }

  function Ids(rs: seq<Request>): seq<nat> {
    seq(|rs|, i requires 0 <= i < |rs| => rs[i].id)
  }

  function Callers(rs: seq<Request>): multiset<CallerId> {
    if rs == [] then multiset{} else multiset{rs[0].caller} + Callers(rs[1..])
  }

  lemma {:induction false} CallersConcat(a: seq<Request>, b: seq<Request>)
    ensures Callers(a + b) == Callers(a) + Callers(b)
  {
    if a == [] {
      assert a + b == b;
    } else {
      assert (a + b)[1..] == a[1..] + b;
      CallersConcat(a[1..], b);
    }
  }

  lemma {:induction false} CallersWithout(rs: seq<Request>, j: nat)
    requires j < |rs|
    ensures Callers(rs) == Callers(rs[..j] + rs[j + 1..]) + multiset{rs[j].caller}
  {
    var rest := rs[..j] + rs[j + 1..];
    if j == 0 {
      assert rest == rs[1..];
    } else {
      assert rest[1..] == rs[1..][..j - 1] + rs[1..][j..] && rest[0] == rs[0];
      CallersWithout(rs[1..], j - 1);
    }
  }

  lemma {:induction false} CallerAmong(rs: seq<Request>, j: nat)
    requires j < |rs|
    ensures rs[j].caller in Callers(rs)
  {
    CallersWithout(rs, j);
  }

  /** What the code's removal makes of the owner list: the elements after the
      caller's first entry shift down in the shared array, but the list keeps
      its length, so its last entry is there twice. */
  function ShiftedOut(list: seq<CallerId>, i: nat): seq<CallerId>
    requires i < |list|
  {
    list[..i] + list[i + 1..] + [list[|list| - 1]]
  }

  /** The list still has every other entry. */
  lemma ShiftedOutKeeps(list: seq<CallerId>, i: nat)
    requires i < |list|
    ensures multiset(list) - multiset{list[i]} <= multiset(ShiftedOut(list, i))
    ensures |ShiftedOut(list, i)| == |list| && forall c :: c in ShiftedOut(list, i) ==> c in list
  {
    assert list == list[..i] + [list[i]] + list[i + 1..];
  }

  /** The caller is still in the list exactly when it was the last entry, or had another one behind its first. */
  lemma StillListedIff(list: seq<CallerId>, i: nat)
    requires i < |list| && list[i] !in list[..i]
    ensures list[i] in ShiftedOut(list, i) <==> i == |list| - 1 || list[i] in list[i + 1..]
  {
    var c, s := list[i], ShiftedOut(list, i);
    if i == |list| - 1 {
      assert s[|s| - 1] == c;
    } else if c in list[i + 1..] {
      assert c in list[..i] + list[i + 1..];
    } else {
      assert list[i + 1..][|list| - i - 2] == list[|list| - 1];
    }
  }

  /** Requests are known apart, and those waiting to wake up have been granted. */
  ghost predicate Identified(holding: seq<Request>, queue: seq<Request>, signaled: set<nat>) {
    && Distinct(Ids(holding + queue))
    && forall s :: s in signaled ==> s in Ids(holding)
  }

  lemma GrantIdentified(holding: seq<Request>, queue: seq<Request>, signaled: set<nat>)
    requires Identified(holding, queue, signaled) && queue != []
    ensures queue[0].id !in signaled
    ensures Identified(holding + [queue[0]], queue[1..], signaled + {queue[0].id})
    ensures Ids(queue) == [queue[0].id] + Ids(queue[1..])
  {
    var id, ids, ids' := queue[0].id, Ids(holding), Ids(holding + [queue[0]]);
    assert holding + queue == (holding + [queue[0]]) + queue[1..];
    assert Ids(holding + queue)[|holding|] == id;
    forall i | 0 <= i < |ids| ensures ids[i] != id {
      assert Ids(holding + queue)[i] == ids[i];
    }
    assert ids' == ids + [id];
  }

  // ----- one lock, as a value -----

  /** A track with its history: `holding` are the requests granted and not
      released, in the order granted; `signaled` those of them whose caller has not
      woken up yet; `arrivals` and `grants` all requests ever queued
      and ever granted, in order. */
  datatype Track = Track(owners: nat, waiters: nat, state: TrackState, list: seq<CallerId>, queue: seq<Request>,
                         holding: seq<Request>, signaled: set<nat>, arrivals: seq<Request>, grants: seq<Request>)

  /** The track of a lock nobody has asked for yet. */
  function Fresh(): Track {
    Track(0, 0, Stale, [], [], [], {}, [], [])
  }

  /** Every caller in the list is one to whom the lock was granted. */
  ghost predicate OnceGranted(list: seq<CallerId>, grants: seq<Request>) {
    forall i :: 0 <= i < |list| ==> GrantedTo(grants, list[i])
  }

  ghost predicate GrantedTo(grants: seq<Request>, caller: CallerId) {
    exists r :: r in grants && r.caller == caller
  }

  lemma OneMoreGranted(list: seq<CallerId>, grants: seq<Request>, r: Request)
    requires OnceGranted(list, grants)
    ensures OnceGranted(list + [r.caller], grants + [r])
  {
    var list', grants' := list + [r.caller], grants + [r];
    assert grants'[|grants|] == r;
    forall i | 0 <= i < |list'| ensures GrantedTo(grants', list'[i]) {
      if i < |list| {
        assert GrantedTo(grants, list[i]);
        var q :| q in grants && q.caller == list[i];
        assert q in grants';
      }
    }
  }

  /** What holds at every point of a step. */
  ghost predicate Coherent(t: Track) {
    && t.owners == |t.holding|
    && t.waiters == |t.queue| + |t.signaled|
    && t.state == StateOf(t.holding) && Compatible(t.holding)
    && Callers(t.holding) <= multiset(t.list)
    && Identified(t.holding, t.queue, t.signaled)
    && t.arrivals == t.grants + t.queue
    && |t.list| == |t.grants| && OnceGranted(t.list, t.grants)
  }

  ghost predicate Grantable(t: Track) {
    t.queue != [] && Compatible(t.holding + [t.queue[0]])
  }

  /** Between steps, moreover, the head of the queue cannot be granted. */
  ghost predicate Settled(t: Track) {
    Coherent(t) && !Grantable(t)
  }

  function Grant(t: Track): Track
    requires t.queue != []
  {
    var r := t.queue[0];
    t.(owners := t.owners + 1,
       state := if r.mode == Exclusive then ExclusiveState else SharedState,
       list := t.list + [r.caller],
       queue := t.queue[1..],
       holding := t.holding + [r],
       signaled := t.signaled + {r.id},
       grants := t.grants + [r])
  }

  lemma GrantListed(holding: seq<Request>, list: seq<CallerId>, r: Request)
    requires Callers(holding) <= multiset(list)
    ensures Callers(holding + [r]) <= multiset(list + [r.caller])
  {
    CallersConcat(holding, [r]);
  }

  lemma GrantCoherent(t: Track)
    requires Coherent(t) && Grantable(t)
    ensures Coherent(Grant(t))
  {
    var r := t.queue[0];
    GrantListed(t.holding, t.list, r);
    GrantIdentified(t.holding, t.queue, t.signaled);
    OneMoreGranted(t.list, t.grants, r);
    assert t.grants + t.queue == (t.grants + [r]) + t.queue[1..];
    var rs := t.holding + [r];
    assert rs[|rs| - 1] == r && (t.holding != [] ==> rs[0] == t.holding[0]);
  }

  /** The guard the code tests is whether the head is compatible with what is held. */
  lemma GrantableIff(t: Track)
    requires Coherent(t) && t.queue != []
    ensures Grantable(t) <==>
            if t.queue[0].mode == Exclusive then t.state == Stale else t.state != ExclusiveState
  {
    var rs := t.holding + [t.queue[0]];
    assert rs[|rs| - 1] == t.queue[0];
    if t.holding != [] {
      assert rs[0] == t.holding[0];
    }
  }

  /** Grants from the head of the queue as long as it can: the specification of processLocalQ. */
  ghost function Process(t: Track): Track
    decreases |t.queue|
  {
    if Grantable(t) then Process(Grant(t)) else t
  }

  lemma {:induction false} ProcessSettles(t: Track)
    requires Coherent(t)
    ensures Settled(Process(t))
    decreases |t.queue|
  {
    if Grantable(t) {
      GrantCoherent(t);
      ProcessSettles(Grant(t));
    }
  }

  lemma GrantedPrefix(t: Track, m: nat)
    requires t.queue != [] && m <= |t.queue| - 1
    ensures t.holding + t.queue[..m + 1] == Grant(t).holding + Grant(t).queue[..m]
    ensures t.queue[m + 1..] == Grant(t).queue[m..]
    ensures t.grants + t.queue[..m + 1] == Grant(t).grants + Grant(t).queue[..m]
  {
  }

  /** First come, first served: what is granted is the longest prefix of the
      queue that is compatible with what is held, and the rest stays queued in order. */
  lemma {:induction false} ProcessGrantsPrefix(t: Track) returns (n: nat)
    requires Coherent(t)
    ensures n <= |t.queue|
    ensures Process(t).holding == t.holding + t.queue[..n] && Process(t).queue == t.queue[n..]
    ensures Process(t).grants == t.grants + t.queue[..n] && Process(t).arrivals == t.arrivals
    ensures Compatible(t.holding + t.queue[..n])
    ensures n < |t.queue| ==> !Compatible(t.holding + t.queue[..n + 1])
    decreases |t.queue|
  {
    if Grantable(t) {
      GrantCoherent(t);
      var m := ProcessGrantsPrefix(Grant(t));
      GrantedPrefix(t, m);
      if m + 1 < |t.queue| {
        GrantedPrefix(t, m + 1);
      }
      n := m + 1;
    } else {
      n := 0;
      assert t.holding + t.queue[..0] == t.holding;
      if t.queue != [] {
        assert t.queue[..1] == [t.queue[0]];
      }
    }
  }

  /** Requests only move from the queue to what is held. */
  lemma {:induction false} ProcessKeeps(t: Track)
    ensures t.holding + t.queue == Process(t).holding + Process(t).queue
    decreases |t.queue|
  {
    if Grantable(t) {
      ProcessKeeps(Grant(t));
      assert t.holding + t.queue == Grant(t).holding + Grant(t).queue;
    }
  }

  function Enqueue(t: Track, r: Request): Track {
    t.(waiters := t.waiters + 1, queue := t.queue + [r], arrivals := t.arrivals + [r])
  }

  lemma EnqueueCoherent(t: Track, r: Request)
    requires Coherent(t) && r.id !in Ids(t.holding + t.queue)
    ensures Coherent(Enqueue(t, r))
  {
    assert t.holding + (t.queue + [r]) == (t.holding + t.queue) + [r];
    assert Ids((t.holding + t.queue) + [r]) == Ids(t.holding + t.queue) + [r.id];
    assert t.grants + (t.queue + [r]) == (t.grants + t.queue) + [r];
  }

  function Woken(t: Track, id: nat): Track
    requires t.waiters > 0
  {
    t.(waiters := t.waiters - 1, signaled := t.signaled - {id})
  }

  lemma WokenSettled(t: Track, id: nat)
    requires Settled(t) && id in t.signaled
    ensures t.waiters > 0 && Settled(Woken(t, id))
  {
  }

  /** Takes request `j` out of what is held; its caller's first entry in the list is at `i`. */
  function Release(t: Track, i: nat, j: nat): Track
    requires t.owners > 0 && i < |t.list| && j < |t.holding|
  {
    t.(owners := t.owners - 1,
       state := if t.owners == 1 then Stale else t.state,
       list := ShiftedOut(t.list, i),
       holding := t.holding[..j] + t.holding[j + 1..])
  }

  lemma ReleaseIdentified(holding: seq<Request>, queue: seq<Request>, signaled: set<nat>, j: nat)
    requires Identified(holding, queue, signaled)
    requires j < |holding| && holding[j].id !in signaled
    ensures Identified(holding[..j] + holding[j + 1..], queue, signaled)
  {
    var rest := holding[..j] + holding[j + 1..];
    var ids, ids' := Ids(holding + queue), Ids(rest + queue);
    forall k | 0 <= k < |ids'| ensures ids'[k] == ids[if k < j then k else k + 1] {
    }
    forall s | s in signaled ensures s in Ids(rest) {
      var k :| 0 <= k < |holding| && Ids(holding)[k] == s;
      assert Ids(rest)[if k < j then k else k - 1] == s;
    }
  }

  lemma ReleasedListed(t: Track, i: nat, j: nat)
    requires Coherent(t) && i < |t.list| && j < |t.holding| && t.holding[j].caller == t.list[i]
    ensures Callers(t.holding[..j] + t.holding[j + 1..]) <= multiset(ShiftedOut(t.list, i))
    ensures |ShiftedOut(t.list, i)| == |t.grants| && OnceGranted(ShiftedOut(t.list, i), t.grants)
  {
    CallersWithout(t.holding, j);
    ShiftedOutKeeps(t.list, i);
    var list := ShiftedOut(t.list, i);
    forall k | 0 <= k < |list| ensures GrantedTo(t.grants, list[k]) {
      assert list[k] in t.list;
    }
  }

  lemma ReleaseCoherent(t: Track, i: nat, j: nat)
    requires Coherent(t) && i < |t.list| && j < |t.holding|
    requires t.holding[j].caller == t.list[i] && t.holding[j].id !in t.signaled
    ensures Coherent(Release(t, i, j))
  {
    ReleaseIdentified(t.holding, t.queue, t.signaled, j);
    ReleasedListed(t, i, j);
    var rest := t.holding[..j] + t.holding[j + 1..];
    if rest != [] {
      assert rest[0] == t.holding[if j == 0 then 1 else 0];
    }
  }

  /** A call of commonLock past its busy check: queued, the queue processed, and gone on at once if granted. */
  ghost function Queued(t: Track, r: Request): Track {
    var p := Process(Enqueue(t, r));
    if r.id in p.signaled && p.waiters > 0 then Woken(p, r.id) else p
  }

  /** Processing a queue that ends with `r` leaves `r` held and signaled, or still queued. */
  lemma {:induction false} LastPlace(t: Track, r: Request)
    requires Coherent(t) && t.queue != [] && t.queue[|t.queue| - 1] == r
    ensures var p := Process(t);
            if r.id in p.signaled then r in p.holding else r in p.queue && r !in p.holding
    decreases |t.queue|
  {
    if Grantable(t) {
      var g := Grant(t);
      GrantCoherent(t);
      if |t.queue| == 1 {
        assert Process(t) == Process(g) == g;
        assert g.holding[|t.holding|] == r;
      } else {
        LastPlace(g, r);
      }
    } else {
      QueuedNotHeld(t.holding, t.queue, |t.queue| - 1);
    }
  }

  /** Afterwards the request is held, and the caller went on, or it is queued. */
  lemma QueuedPlace(t: Track, r: Request)
    requires Settled(t) && r.id !in Ids(t.holding + t.queue)
    ensures var q := Queued(t, r);
            && Settled(q)
            && (t.holding + t.queue) + [r] == q.holding + q.queue
            && (r in q.holding <==> r.id in Process(Enqueue(t, r)).signaled)
            && (r !in q.holding ==> r in q.queue)
  {
    EnqueueCoherent(t, r);
    var t' := Enqueue(t, r);
    assert (t.holding + t.queue) + [r] == t'.holding + t'.queue;
    ProcessSettles(t');
    ProcessKeeps(t');
    LastPlace(t', r);
    if r.id in Process(t').signaled {
      WokenSettled(Process(t'), r.id);
    }
  }

  lemma QueuedNotHeld(holding: seq<Request>, queue: seq<Request>, k: nat)
    requires Distinct(Ids(holding + queue)) && k < |queue|
    ensures queue[k].id !in Ids(holding) && queue[k] !in holding
  {
    forall i | 0 <= i < |holding| ensures holding[i].id != queue[k].id {
      assert Ids(holding + queue)[i] == holding[i].id;
      assert Ids(holding + queue)[|holding| + k] == queue[k].id;
    }
  }

  // ----- what a settled track guarantees -----

  /** One exclusive holder, or shared holders only, or none; `Stale` says none. */
  lemma MutualExclusion(t: Track)
    requires Settled(t)
    ensures forall i, j :: 0 <= i < j < |t.holding| ==> t.holding[i].mode == Shared && t.holding[j].mode == Shared
    ensures t.state == Stale <==> t.owners == 0
    ensures t.state == ExclusiveState ==> t.owners == 1 && t.holding[0].mode == Exclusive
    ensures t.state == SharedState ==> forall i :: 0 <= i < |t.holding| ==> t.holding[i].mode == Shared
  {
  }

  /** Every holder is in the list of owners. */
  lemma HoldersListed(t: Track, j: nat)
    requires Settled(t) && j < |t.holding|
    ensures t.holding[j].caller in t.list
  {
    CallerAmong(t.holding, j);
  }

  predicate StateFits(state: TrackState, heldType: HeldType) {
    match heldType
    case ReadLock => state == SharedState
    case WriteLock => state == ExclusiveState
    case AnyLock => state == ExclusiveState || state == SharedState
  }

  predicate OfType(mode: Mode, heldType: HeldType) {
    match heldType
    case ReadLock => mode == Shared
    case WriteLock => mode == Exclusive
    case AnyLock => true
  }

  /** What isLockHeld answers for a caller. */
  predicate Reported(t: Track, caller: CallerId, heldType: HeldType) {
    StateFits(t.state, heldType) && caller in t.list
  }

  /** The caller really holds the lock, in the way asked about. */
  ghost predicate Holds(t: Track, caller: CallerId, heldType: HeldType) {
    exists j :: 0 <= j < |t.holding| && t.holding[j].caller == caller && OfType(t.holding[j].mode, heldType)
  }

  /** Whoever is reported was granted the lock before, and somebody holds it the way asked about. */
  lemma ReportedWasGranted(t: Track, caller: CallerId, heldType: HeldType)
    requires Settled(t) && Reported(t, caller, heldType)
    ensures GrantedTo(t.grants, caller) && exists r :: r in t.holding && OfType(r.mode, heldType)
  {
    var i :| 0 <= i < |t.list| && t.list[i] == caller;
    assert t.holding[0] in t.holding;
  }

  lemma HoldersReported(t: Track, caller: CallerId, heldType: HeldType)
    requires Settled(t)
    ensures Holds(t, caller, heldType) ==> Reported(t, caller, heldType)
  {
    if j :| 0 <= j < |t.holding| && t.holding[j].caller == caller && OfType(t.holding[j].mode, heldType) {
      HoldersListed(t, j);
    }
  }

  function CallerSeq(rs: seq<Request>): seq<CallerId> {
    seq(|rs|, i requires 0 <= i < |rs| => rs[i].caller)
  }

  lemma {:induction false} ProcessLists(t: Track) returns (granted: seq<Request>)
    ensures Process(t).holding == t.holding + granted && Process(t).list == t.list + CallerSeq(granted)
    decreases |t.queue|
  {
    if Grantable(t) {
      var rest := ProcessLists(Grant(t));
      granted := [t.queue[0]] + rest;
      GrantedLists(t, rest);
    } else {
      granted := [];
    }
  }

  lemma GrantedLists(t: Track, rest: seq<Request>)
    requires t.queue != []
    ensures t.holding + ([t.queue[0]] + rest) == Grant(t).holding + rest
    ensures t.list + CallerSeq([t.queue[0]] + rest) == Grant(t).list + CallerSeq(rest)
  {
    assert CallerSeq([t.queue[0]] + rest) == [t.queue[0].caller] + CallerSeq(rest);
  }

  /** The first `n` of the queue, and no more, can be held together with `held`. */
  ghost predicate LongestCompatible(held: seq<Request>, queue: seq<Request>, n: nat) {
    && n <= |queue| && Compatible(held + queue[..n])
    && (n < |queue| ==> !Compatible(held + queue[..n + 1]))
  }

  lemma FewerCompatible(held: seq<Request>, queue: seq<Request>, m: nat, n: nat)
    requires m <= n <= |queue| && Compatible(held + queue[..n])
    ensures Compatible(held + queue[..m])
  {
    var few, many := held + queue[..m], held + queue[..n];
    assert |few| <= |many| && forall k :: 0 <= k < |few| ==> few[k] == many[k];
  }

  lemma LongestUnique(held: seq<Request>, queue: seq<Request>, m: nat, n: nat)
    requires LongestCompatible(held, queue, m) && LongestCompatible(held, queue, n)
    ensures m == n
  {
    if m < n {
      FewerCompatible(held, queue, m + 1, n);
    } else if n < m {
      FewerCompatible(held, queue, n + 1, m);
    }
  }

  /** What is left held when request `j` is released, before the queue is looked at. */
  function RestOf(t: Track, j: nat): seq<Request>
    requires j < |t.holding|
  {
    t.holding[..j] + t.holding[j + 1..]
  }

  /** Who holds the lock after an unlock, in terms of who held it and who was queued before. */
  lemma HeldAfterUnlock(t: Track, i: nat, j: nat, n: nat)
    requires Settled(t) && i < |t.list| && j < |t.holding|
    requires t.holding[j].caller == t.list[i] && t.holding[j].id !in t.signaled
    requires LongestCompatible(RestOf(t, j), t.queue, n)
    ensures var p := Process(Release(t, i, j));
            && p.holding == RestOf(t, j) + t.queue[..n]
            && p.list == ShiftedOut(t.list, i) + CallerSeq(t.queue[..n])
            && p.state == StateOf(p.holding)
  {
    var released := Release(t, i, j);
    assert Coherent(released) by {
      ReleaseCoherent(t, i, j);
    }
    var m := ProcessGrantsPrefix(released);
    LongestUnique(RestOf(t, j), t.queue, m, n);
    var granted := ProcessLists(released);
    assert granted == (RestOf(t, j) + granted)[|RestOf(t, j)|..] == t.queue[..n];
    ProcessSettles(released);
  }

  lemma SomeoneHolds(held: seq<Request>, queue: seq<Request>, n: nat)
    requires LongestCompatible(held, queue, n)
    ensures held + queue[..n] != [] <==> held != [] || queue != []
  {
    assert held == [] && queue != [] ==> |held + queue[..1]| == 1;
  }

  /** The way in which the lock is held next, if anybody holds or waits for it besides. */
  function NextMode(t: Track): Mode
    requires |t.holding| > 1 || t.queue != []
  {
    if |t.holding| > 1 then Shared else t.queue[0].mode
  }

  /** All that hold the lock after an unlock hold it that way, and the state says so. */
  lemma HeldInNextMode(t: Track, i: nat, j: nat, n: nat, heldType: HeldType)
    requires Settled(t) && i < |t.list| && j < |t.holding|
    requires t.holding[j].caller == t.list[i] && t.holding[j].id !in t.signaled
    requires LongestCompatible(RestOf(t, j), t.queue, n) && (|t.holding| > 1 || t.queue != [])
    ensures var p := Process(Release(t, i, j));
            && (forall k :: 0 <= k < |p.holding| ==> p.holding[k].mode == NextMode(t))
            && (StateFits(p.state, heldType) <==> OfType(NextMode(t), heldType))
  {
    HeldAfterUnlock(t, i, j, n);
    SomeoneHolds(RestOf(t, j), t.queue, n);
    var held := RestOf(t, j) + t.queue[..n];
    MutualExclusion(t);
    assert held[0].mode == NextMode(t);
    assert forall k :: 0 < k < |held| ==> held[0].mode == Shared && held[k].mode == Shared;
  }

  /** After its unlock a caller is reported as a holder exactly when somebody holds or waits for the lock besides,
      in the way asked about, and the caller's entry in the list was the last, or it had another, or it is granted
      the lock again. */
  lemma ReportedAfterUnlockIff(t: Track, i: nat, j: nat, n: nat, heldType: HeldType)
    requires Settled(t) && i < |t.list| && j < |t.holding|
    requires t.holding[j].caller == t.list[i] && t.list[i] !in t.list[..i] && t.holding[j].id !in t.signaled
    requires LongestCompatible(RestOf(t, j), t.queue, n)
    ensures Reported(Process(Release(t, i, j)), t.list[i], heldType) <==>
            && (|t.holding| > 1 || t.queue != []) && OfType(NextMode(t), heldType)
            && (i == |t.list| - 1 || t.list[i] in t.list[i + 1..] || t.list[i] in CallerSeq(t.queue[..n]))
  {
    HeldAfterUnlock(t, i, j, n);
    SomeoneHolds(RestOf(t, j), t.queue, n);
    StillListedIff(t.list, i);
    if |t.holding| > 1 || t.queue != [] {
      HeldInNextMode(t, i, j, n, heldType);
    }
  }

  /** It is reported wrongly, as a holder which it is not, exactly when moreover neither what
      is left held nor what is granted of the queue is its own. */
  lemma WronglyReportedIff(t: Track, i: nat, j: nat, n: nat, heldType: HeldType)
    requires Settled(t) && i < |t.list| && j < |t.holding|
    requires t.holding[j].caller == t.list[i] && t.list[i] !in t.list[..i] && t.holding[j].id !in t.signaled
    requires LongestCompatible(RestOf(t, j), t.queue, n)
    ensures var p, caller := Process(Release(t, i, j)), t.list[i];
            Reported(p, caller, heldType) && !Holds(p, caller, heldType) <==>
            && (|t.holding| > 1 || t.queue != []) && OfType(NextMode(t), heldType)
            && (i == |t.list| - 1 || caller in t.list[i + 1..])
            && caller !in CallerSeq(RestOf(t, j) + t.queue[..n])
  {
    ReportedAfterUnlockIff(t, i, j, n, heldType);
    if (|t.holding| > 1 || t.queue != []) && OfType(NextMode(t), heldType) {
      HeldAfterUnlock(t, i, j, n);
      HeldInNextMode(t, i, j, n, heldType);
      HoldsIffAmong(Process(Release(t, i, j)), t.list[i], heldType);
      AmongLater(RestOf(t, j), t.queue[..n], t.list[i]);
    }
  }

  lemma HoldsIffAmong(t: Track, caller: CallerId, heldType: HeldType)
    requires forall k :: 0 <= k < |t.holding| ==> OfType(t.holding[k].mode, heldType)
    ensures Holds(t, caller, heldType) <==> caller in CallerSeq(t.holding)
  {
    if caller in CallerSeq(t.holding) {
      var k :| 0 <= k < |t.holding| && CallerSeq(t.holding)[k] == caller;
      assert t.holding[k].caller == caller;
    }
    if k :| 0 <= k < |t.holding| && t.holding[k].caller == caller && OfType(t.holding[k].mode, heldType) {
      assert CallerSeq(t.holding)[k] == caller;
    }
  }

  lemma AmongLater(a: seq<Request>, b: seq<Request>, caller: CallerId)
    ensures caller in CallerSeq(b) ==> caller in CallerSeq(a + b)
  {
    assert CallerSeq(a + b) == CallerSeq(a) + CallerSeq(b);
  }

  /** Caller 1 holds the lock exclusively and caller 2 waits to. */
  function TwoWriters(): Track {
    Track(1, 1, ExclusiveState, [1], [Request(1, 2, Exclusive)], [Request(0, 1, Exclusive)], {},
          [Request(0, 1, Exclusive), Request(1, 2, Exclusive)], [Request(0, 1, Exclusive)])
  }

  lemma TwoWritersSettled()
    ensures Settled(TwoWriters())
  {
    var t := TwoWriters();
    assert Ids(t.holding + t.queue) == [0, 1] && Ids(t.queue) == [1];
    assert (t.holding + [t.queue[0]])[1] == t.queue[0];
    assert t.holding[1..] == [];
  }

  /** Caller 1 alone. */
  function OneWriter(): Track {
    Track(1, 0, ExclusiveState, [1], [], [Request(0, 1, Exclusive)], {}, [Request(0, 1, Exclusive)],
          [Request(0, 1, Exclusive)])
  }

  lemma OneWriterReached()
    ensures Queued(Fresh(), Request(0, 1, Exclusive)) == OneWriter()
  {
    var e := Enqueue(Fresh(), Request(0, 1, Exclusive));
    assert Grantable(e) && Grant(e).queue == [];
    assert Process(e) == Grant(e);
  }

  /** It comes about when the one asks for the lock and then the other. */
  lemma TwoWritersReached()
    ensures Queued(Queued(Fresh(), Request(0, 1, Exclusive)), Request(1, 2, Exclusive)) == TwoWriters()
  {
    OneWriterReached();
    SecondWriterWaits();
  }

  lemma SecondWriterWaits()
    ensures Queued(OneWriter(), Request(1, 2, Exclusive)) == TwoWriters()
  {
    var e := Enqueue(OneWriter(), Request(1, 2, Exclusive));
    assert (e.holding + [e.queue[0]])[1].mode == Exclusive;
    assert Process(e) == e;
  }

  /** So a writer that has gone is taken for the writer that came after it. */
  lemma FormerWriterReported()
    ensures var p := Process(Release(TwoWriters(), 0, 0));
            p.holding == [Request(1, 2, Exclusive)] && Reported(p, 1, WriteLock)
  {
    var r := Release(TwoWriters(), 0, 0);
    assert r.list == [1] && r.queue == [Request(1, 2, Exclusive)] && r.holding == [];
    assert Coherent(r) by {
      TwoWritersSettled();
      ReleaseCoherent(TwoWriters(), 0, 0);
    }
    GrantableIff(r);
    assert Coherent(Grant(r)) by {
      GrantCoherent(r);
    }
    ExclusiveStops(Grant(r));
    assert Process(r) == Grant(r);
    assert Grant(r).list == [1, 2];
  }

  /** A free lock has an empty queue, so a try that finds it free is granted at once. */
  lemma FreeLockHasNoQueue(t: Track)
    requires Settled(t) && t.state == Stale
    ensures t.queue == []
  {
    if t.queue != [] {
      GrantableIff(t);
    }
  }

  /** The busy check a try makes before queueing. */
  predicate IsBusy(state: TrackState, mode: Mode) {
    if mode == Exclusive then state != Stale else state == ExclusiveState
  }

  /** A request is not compatible with what is held. */
  ghost predicate Conflicts(t: Track, r: Request) {
    !Compatible(t.holding + [r])
  }

  /** The check says whether the request could be held together with what is. */
  lemma BusyIffConflicts(t: Track, r: Request)
    requires Settled(t)
    ensures IsBusy(t.state, r.mode) <==> Conflicts(t, r)
  {
    var rs := t.holding + [r];
    assert rs[|t.holding|] == r;
    assert forall i :: 0 <= i < |t.holding| ==> rs[i] == t.holding[i];
  }

  /** A try that passes the busy check goes on at once exactly when nobody is
      queued: a TryWriteLock always, a TryReadLock not behind a waiting writer. */
  lemma TryGoesOnIffNobodyQueued(t: Track, r: Request)
    requires Settled(t) && r.id !in Ids(t.holding + t.queue) && !Conflicts(t, r)
    ensures r in Queued(t, r).holding <==> t.queue == []
    ensures r.mode == Exclusive ==> t.queue == []
  {
    BusyIffConflicts(t, r);
    EnqueueCoherent(t, r);
    QueuedPlace(t, r);
    var t' := Enqueue(t, r);
    if t.queue == [] {
      GrantableIff(t');
      assert Process(t').holding == Grant(t').holding;
      assert Grant(t').holding[|t.holding|] == r;
    } else {
      assert t'.queue[0] == t.queue[0];
      assert Process(t') == t';
      QueuedNotHeld(t'.holding, t'.queue, |t.queue|);
    }
    if r.mode == Exclusive {
      FreeLockHasNoQueue(t);
    }
  }

  /** What a call of commonLock past its check comes to: the caller goes on at once exactly if nobody is queued
      and its request is compatible with what is held, else it is queued last; nobody else is affected. */
  lemma HeldAfterAsk(t: Track, r: Request)
    requires Settled(t) && r.id !in Ids(t.holding + t.queue)
    ensures var q := Queued(t, r);
            && q.arrivals == t.arrivals + [r] && q.signaled == t.signaled
            && if t.queue == [] && !Conflicts(t, r)
               then q.holding == t.holding + [r] && q.queue == [] && q.list == t.list + [r.caller]
               else q.holding == t.holding && q.queue == t.queue + [r] && q.list == t.list
  {
    EnqueueCoherent(t, r);
    var e := Enqueue(t, r);
    forall id | id in t.signaled ensures id in Ids(t.holding + t.queue) {
      var k :| 0 <= k < |t.holding| && Ids(t.holding)[k] == id;
      assert Ids(t.holding + t.queue)[k] == id;
    }
    if t.queue == [] {
      assert e.queue[0] == r;
      assert !Conflicts(t, r) ==> Grant(e).queue == [] && Process(e) == Grant(e);
    } else {
      assert e.queue[0] == t.queue[0];
    }
  }

  /** No overtaking: at any time the grants are a prefix of the arrivals, so of
      two requests the one queued first is granted first. */
  lemma GrantsFollowArrivals(t: Track, i: nat, j: nat)
    requires Settled(t) && i < j < |t.arrivals|
    ensures t.grants <= t.arrivals
    ensures j < |t.grants| ==> i < |t.grants| && t.grants[i] == t.arrivals[i] && t.grants[j] == t.arrivals[j]
  {
  }

  // ----- one lock, as the code keeps it -----

  class LockTrack {
    const lockId: string
    var owners: nat
    var waiters: nat
    var state: TrackState
    var listOfOwners: seq<CallerId>
    var waitReqQ: seq<Request>
    ghost var holding: seq<Request>
    /** The requests whose wakeUp flag is set and whose caller has not gone on yet. */
    var signaled: set<nat>
    ghost var arrivals: seq<Request>
    ghost var grants: seq<Request>

    ghost function View(): Track
      reads this
    {
      Track(owners, waiters, state, listOfOwners, waitReqQ, holding, signaled, arrivals, grants)
    }

    constructor (lockId: string)
      ensures this.lockId == lockId && View() == Fresh()
    {
      this.lockId := lockId;
      owners, waiters, state, listOfOwners, waitReqQ := 0, 0, Stale, [], [];
      holding, signaled, arrivals, grants := [], {}, [], [];
    }

    /** Grants `request`, just taken off the head of the queue. */
    method GrantAndSignal(request: Request)
      modifies this`state, this`listOfOwners, this`owners, this`holding, this`signaled, this`grants
      ensures View() == Grant(old(View()).(queue := [request] + old(waitReqQ)))
    {
      state := if request.mode == Exclusive then ExclusiveState else SharedState;
      listOfOwners := listOfOwners + [request.caller];
      owners := owners + 1;
      holding := holding + [request];
      signaled := signaled + {request.id};
      grants := grants + [request];
    }

    /** Grants whatever can be granted from the head of the queue. */
    method ProcessLocalQ()
      requires Coherent(View())
      modifies this
      ensures View() == Process(old(View()))
    {
      if |waitReqQ| == 0 {
        return;
      }
      if state == ExclusiveState {
        ExclusiveStops(View());
        return;
      }
      var stop := false;
      while !stop && |waitReqQ| > 0
        invariant stop || (Coherent(View()) && state != ExclusiveState)
        invariant if stop then View() == Process(old(View())) else Process(View()) == Process(old(View()))
        decreases |waitReqQ|, !stop
      {
        NextInLine(View());
        stop := GrantNext();
      }
    }

    /** Grants the request at the head of the queue, unless it wants the lock exclusively and others have it. */
    method GrantNext() returns (stop: bool)
      requires waitReqQ != []
      modifies this
      ensures stop <==> old(waitReqQ[0]).mode == Exclusive
      ensures View() == if stop && old(state) != Stale then old(View()) else Grant(old(View()))
    {
      var request := waitReqQ[0];
      waitReqQ := waitReqQ[1..];
      assert [request] + waitReqQ == old(waitReqQ);
      if request.mode == Exclusive && state == Stale {
        GrantAndSignal(request);
        return true;
      }
      if request.mode == Exclusive {
        waitReqQ := [request] + waitReqQ;
        return true;
      }
      GrantAndSignal(request);
      return false;
    }

    /** Queues a request, grants what can be granted, and goes on at once if that includes it. */
    method QueueRequest(request: Request) returns (granted: bool)
      requires Settled(View()) && request.id !in Ids(holding + waitReqQ)
      modifies this
      ensures granted <==> request.id in Process(Enqueue(old(View()), request)).signaled
      ensures View() == Queued(old(View()), request)
    {
      ghost var p := Process(Enqueue(View(), request));
      assert Coherent(Enqueue(View(), request)) by {
        EnqueueCoherent(View(), request);
      }
      assert request.id in p.signaled ==> p.waiters > 0 by {
        EnqueueCoherent(View(), request);
        ProcessSettles(Enqueue(View(), request));
      }
      waitReqQ := waitReqQ + [request];
      waiters := waiters + 1;
      arrivals := arrivals + [request];
      ProcessLocalQ();
      granted := request.id in signaled;
      if granted {
        waiters := waiters - 1;
        signaled := signaled - {request.id};
      }
    }

    /** Removes the caller from the list, as far as the code does. */
    method RemoveFromListOfOwners(caller: CallerId) returns (i: nat)
      requires caller in listOfOwners
      modifies this`listOfOwners
      ensures i < |old(listOfOwners)| && old(listOfOwners)[i] == caller && caller !in old(listOfOwners)[..i]
      ensures listOfOwners == ShiftedOut(old(listOfOwners), i)
    {
      ghost var k :| 0 <= k < |listOfOwners| && listOfOwners[k] == caller;
      i := 0;
      while listOfOwners[i] != caller
        invariant i <= k && caller !in listOfOwners[..i]
        decreases k - i
      {
        i := i + 1;
      }
      listOfOwners := listOfOwners[..i] + listOfOwners[i + 1..] + [listOfOwners[|listOfOwners| - 1]];
    }

    /** A signaled caller goes on. */
    method GoOn(id: nat)
      requires waiters > 0
      modifies this`waiters, this`signaled
      ensures View() == Woken(old(View()), id)
    {
      waiters := waiters - 1;
      signaled := signaled - {id};
    }

    /** The track's part of unlock: one owner fewer, and the queue processed. */
    method Unlock(caller: CallerId, ghost j: nat) returns (ghost i: nat)
      requires Settled(View()) && ReleasableBy(View(), j, caller)
      modifies this
      ensures FirstEntry(old(View()).list, i, caller)
      ensures View() == Process(Release(old(View()), i, j))
    {
      HoldersListed(View(), j);
      ghost var t := View();
      owners := owners - 1;
      i := RemoveFromListOfOwners(caller);
      if owners == 0 {
        state := Stale;
      }
      holding := holding[..j] + holding[j + 1..];
      assert View() == Release(t, i, j);
      ReleaseCoherent(t, i, j);
      ProcessLocalQ();
    }
  }

  /** Nothing is granted on top of an exclusive grant. */
  lemma ExclusiveStops(t: Track)
    requires Coherent(t) && t.state == ExclusiveState
    ensures Process(t) == t
  {
    if t.queue != [] {
      GrantableIff(t);
    }
  }

  /** What becomes of the head of the queue when the lock is not held exclusively. */
  lemma NextInLine(t: Track)
    requires Coherent(t) && t.queue != [] && t.state != ExclusiveState
    ensures t.queue[0].mode == Shared ==> Coherent(Grant(t)) && Process(t) == Process(Grant(t))
    ensures t.queue[0].mode == Exclusive ==> Process(t) == if t.state == Stale then Grant(t) else t
  {
    GrantableIff(t);
    if Grantable(t) {
      GrantCoherent(t);
      if t.queue[0].mode == Exclusive {
        ExclusiveStops(Grant(t));
      }
    }
  }

  /** Request `j` is held by `caller`, who has gone on. */
  ghost predicate ReleasableBy(t: Track, j: nat, caller: CallerId) {
    j < |t.holding| && t.holding[j].caller == caller && t.holding[j].id !in t.signaled
  }

  ghost predicate FirstEntry(list: seq<CallerId>, i: nat, caller: CallerId) {
    i < |list| && list[i] == caller && caller !in list[..i]
  }

  /** What a release leaves: the released request is gone, the others are held or queued as before, and the track is
      settled. */
  lemma ReleasedPlace(t: Track, i: nat, j: nat)
    requires Settled(t) && i < |t.list| && j < |t.holding|
    requires t.holding[j].caller == t.list[i] && t.holding[j].id !in t.signaled
    ensures var p := Process(Release(t, i, j));
            && Settled(p)
            && (t.holding[..j] + t.holding[j + 1..]) + t.queue == p.holding + p.queue
  {
    ReleaseCoherent(t, i, j);
    ProcessSettles(Release(t, i, j));
    ProcessKeeps(Release(t, i, j));
  }

  // ----- all locks -----

  /** Some caller holds or waits for the lock. */
  ghost predicate Used(t: Track) {
    t.holding + t.queue != []
  }

  ghost predicate IdsBelow(t: Track, next: nat) {
    forall i :: 0 <= i < |t.holding + t.queue| ==> (t.holding + t.queue)[i].id < next
  }

  lemma FreshId(t: Track, next: nat)
    requires IdsBelow(t, next)
    ensures next !in Ids(t.holding + t.queue)
  {
  }

  ghost predicate InOrder(t: Track, next: nat, mapped: bool) {
    Settled(t) && IdsBelow(t, next) && (Used(t) <==> mapped)
  }

  /** The request was queued, and granted if and only if it is held now. */
  ghost predicate WentOn(outcome: Outcome, was: Track, now: Track, request: Request) {
    && now == Queued(was, request)
    && (outcome == Granted <==> request in now.holding) && (outcome == Waiting <==> request in now.queue)
  }

  class LockManager {
    var localLockMap: map<string, LockTrack>
    var nextId: nat
    /** Every track ever made, in the map or dropped from it. */
    ghost var tracks: set<LockTrack>

    ghost predicate Mapped(t: LockTrack)
      reads `localLockMap
    {
      t.lockId in localLockMap && localLockMap[t.lockId] == t
    }

    ghost predicate TrackOk(t: LockTrack)
      reads this, t
    {
      InOrder(t.View(), nextId, Mapped(t))
    }

    ghost predicate MapOk()
      reads `localLockMap, `tracks
    {
      forall id :: id in localLockMap ==> localLockMap[id] in tracks && localLockMap[id].lockId == id
    }

    /** Every track but, perhaps, the one a step is at work on. */
    ghost predicate OthersOk(track: LockTrack)
      reads this, tracks
    {
      forall t :: t in tracks && t != track ==> TrackOk(t)
    }

    /** A lock id is in the map exactly when some caller holds or waits for
        it, and then on the one track the map names: no user is left on a dropped track. */
    ghost predicate Valid()
      reads this, tracks
    {
      && MapOk()
      && (forall t :: t in tracks ==> TrackOk(t))
    }

    constructor ()
      ensures Valid() && localLockMap == map[] && tracks == {}
    {
      localLockMap, nextId, tracks := map[], 0, {};
    }

    ghost function TrackFor(lockId: string): set<LockTrack>
      reads this
    {
      if lockId in localLockMap then {localLockMap[lockId]} else {}
    }

    method NewTrack(lockId: string) returns (track: LockTrack)
      requires Valid() && lockId !in localLockMap
      modifies `localLockMap, `tracks
      ensures MapOk() && OthersOk(track) && tracks == old(tracks) + {track}
      ensures lockId in localLockMap && localLockMap[lockId] == track && track.lockId == lockId
      ensures Settled(track.View()) && IdsBelow(track.View(), nextId)
      ensures fresh(track) && track.View() == Fresh()
    {
      track := new LockTrack(lockId);
      NewTrackSettled(nextId);
      MapTrack(track);
    }

    method MapTrack(track: LockTrack)
      requires Valid() && track !in tracks && track.lockId !in localLockMap
      modifies `localLockMap, `tracks
      ensures MapOk() && OthersOk(track) && tracks == old(tracks) + {track}
      ensures localLockMap == old(localLockMap)[track.lockId := track]
    {
      localLockMap := localLockMap[track.lockId := track];
      tracks := tracks + {track};
      forall t | t in tracks && t != track ensures TrackOk(t) {
        assert InOrder(t.View(), nextId, old(Mapped(t))) by {
          assert old(TrackOk(t));
        }
        assert Mapped(t) <==> old(Mapped(t));
      }
    }

    /** commonLock past the busy check, up to the point where its caller goes on or waits. */
    method QueueOn(track: LockTrack, caller: CallerId, mode: Mode) returns (granted: bool, request: Request)
      requires MapOk() && OthersOk(track) && track in tracks && Mapped(track)
      requires Settled(track.View()) && IdsBelow(track.View(), nextId)
      modifies `nextId, track
      ensures Valid()
      ensures request == Request(old(nextId), caller, mode) && nextId == old(nextId) + 1
      ensures track.View() == Queued(old(track.View()), request)
      ensures granted <==> request in track.holding
      ensures !granted <==> request in track.waitReqQ
    {
      request := Request(nextId, caller, mode);
      ghost var t := track.View();
      assert request.id !in Ids(t.holding + t.queue) by { FreshId(t, nextId); }
      nextId := nextId + 1;
      granted := track.QueueRequest(request);
      QueuedOk(t, request, nextId);
    }

    /** commonLock up to the point where its caller goes on or waits. */
    method CommonLock(lockId: string, caller: CallerId, mode: Mode, try: bool)
      returns (outcome: Outcome, track: LockTrack, request: Request)
      requires Valid()
      modifies this, TrackFor(lockId)
      ensures Valid() && tracks == old(tracks) + {track}
      ensures if old(lockId in localLockMap) then track == old(localLockMap[lockId]) else fresh(track)
      ensures outcome == Busy <==>
              && try && old(lockId in localLockMap)
              && old(Conflicts(localLockMap[lockId].View(), Request(nextId, caller, mode)))
      ensures outcome == Busy ==> unchanged(this) && unchanged(track)
      ensures outcome != Busy ==>
                && Mapped(track) && track.lockId == lockId
                && request == Request(old(nextId), caller, mode) && nextId == old(nextId) + 1
      ensures outcome != Busy ==>
                var was := if old(lockId in localLockMap) then old(localLockMap[lockId].View()) else Fresh();
                WentOn(outcome, was, track.View(), request)
    {
      if lockId in localLockMap {
        track := localLockMap[lockId];
        assert track in tracks && tracks + {track} == tracks;
        outcome, request := LockMapped(track, caller, mode, try);
      } else {
        outcome, track, request := LockNew(lockId, caller, mode);
      }
    }

    /** A lock nobody uses, so that a try finds it free. */
    method LockNew(lockId: string, caller: CallerId, mode: Mode)
      returns (outcome: Outcome, track: LockTrack, request: Request)
      requires Valid() && lockId !in localLockMap
      modifies this
      ensures Valid() && tracks == old(tracks) + {track} && fresh(track)
      ensures Mapped(track) && track.lockId == lockId && nextId == old(nextId) + 1
      ensures request == Request(old(nextId), caller, mode)
      ensures outcome != Busy && WentOn(outcome, Fresh(), track.View(), request)
    {
      track := NewTrack(lockId);
      var granted;
      granted, request := QueueOn(track, caller, mode);
      outcome := if granted then Granted else Waiting;
    }

    /** The busy check, as the code makes it on the track of a lock in use. */
    method CheckBusy(track: LockTrack, request: Request) returns (busy: bool)
      requires Valid() && track in tracks
      ensures busy <==> Conflicts(track.View(), request)
    {
      assert TrackOk(track);
      BusyIffConflicts(track.View(), request);
      busy := IsBusy(track.state, request.mode);
    }

    /** A lock in use. */
    method LockMapped(track: LockTrack, caller: CallerId, mode: Mode, try: bool)
      returns (outcome: Outcome, request: Request)
      requires Valid() && track in tracks && Mapped(track)
      modifies `nextId, track
      ensures Valid() && request == Request(old(nextId), caller, mode)
      ensures outcome == Busy <==> try && old(Conflicts(track.View(), Request(nextId, caller, mode)))
      ensures outcome == Busy ==> nextId == old(nextId) && unchanged(track)
      ensures outcome != Busy ==>
                nextId == old(nextId) + 1 && WentOn(outcome, old(track.View()), track.View(), request)
    {
      request := Request(nextId, caller, mode);
      if try {
        var busy := CheckBusy(track, request);
        if busy {
          return Busy, request;
        }
      }
      assert TrackOk(track);
      var granted;
      granted, request := QueueOn(track, caller, mode);
      outcome := if granted then Granted else Waiting;
    }

    /** A waiting caller wakes up, its request having been granted, and goes on. */
    method GoOn(track: LockTrack, request: Request)
      requires Valid() && track in tracks && request.id in track.signaled
      modifies track
      ensures Valid() && track.View() == Woken(old(track.View()), request.id)
      ensures track.signaled == old(track.signaled) - {request.id} && track.waiters == old(track.waiters) - 1
    {
      WokenOk(track.View(), request.id, nextId);
      track.GoOn(request.id);
    }

    /** Drops a lock from the map when its last user is about to go. */
    method DropIfLast(lockId: string, track: LockTrack)
      requires Valid() && lockId in localLockMap && localLockMap[lockId] == track
      modifies `localLockMap
      ensures MapOk() && OthersOk(track)
      ensures localLockMap ==
              if track.owners == 1 && track.waiters == 0 then old(localLockMap) - {lockId} else old(localLockMap)
    {
      if track.owners == 1 && track.waiters == 0 {
        localLockMap := localLockMap - {lockId};
      }
    }

    /** unlock, by a caller that holds the lock and has gone on: the map drops
        the lock exactly when nobody is left on it. */
    method Unlock(lockId: string, caller: CallerId, ghost j: nat) returns (track: LockTrack, ghost i: nat)
      requires Valid() && lockId in localLockMap
      requires ReleasableBy(localLockMap[lockId].View(), j, caller)
      modifies `localLockMap, TrackFor(lockId)
      ensures Valid() && track == old(localLockMap[lockId])
      ensures FirstEntry(old(track.View()).list, i, caller)
      ensures track.View() == Process(Release(old(track.View()), i, j))
      ensures localLockMap == if Used(track.View()) then old(localLockMap) else old(localLockMap) - {lockId}
    {
      track := localLockMap[lockId];
      DropIfLast(lockId, track);
      i := UnlockTrack(track, caller, j);
    }

    /** unlock from where the map is dealt with. */
    method UnlockTrack(track: LockTrack, caller: CallerId, ghost j: nat) returns (ghost i: nat)
      requires MapOk() && OthersOk(track) && track in tracks
      requires Settled(track.View()) && IdsBelow(track.View(), nextId) && ReleasableBy(track.View(), j, caller)
      requires Mapped(track) <==> !(track.owners == 1 && track.waiters == 0)
      modifies track
      ensures Valid() && (Mapped(track) <==> Used(track.View()))
      ensures FirstEntry(old(track.View()).list, i, caller)
      ensures track.View() == Process(Release(old(track.View()), i, j))
    {
      ghost var t := track.View();
      i := track.Unlock(caller, j);
      UnlockedOk(t, i, j, nextId);
    }

    /** isLockHeld: true for every actual holder of the kind asked about, and for nobody who
        never was granted the lock since it was last dropped from the map. */
    method IsLockHeld(lockId: string, caller: CallerId, heldType: HeldType) returns (held: bool)
      requires Valid()
      ensures held <==> lockId in localLockMap && Reported(localLockMap[lockId].View(), caller, heldType)
      ensures held <==>
              && lockId in localLockMap && caller in localLockMap[lockId].listOfOwners
              && StateFits(localLockMap[lockId].state, heldType)
      ensures held ==>
                && GrantedTo(localLockMap[lockId].grants, caller)
                && exists r :: r in localLockMap[lockId].holding && OfType(r.mode, heldType)
      ensures lockId in localLockMap && Holds(localLockMap[lockId].View(), caller, heldType) ==> held
    {
      if lockId !in localLockMap {
        return false;
      }
      var track := localLockMap[lockId];
      held := StateFits(track.state, heldType) && caller in track.listOfOwners;
      assert TrackOk(track);
      HoldersReported(track.View(), caller, heldType);
      if held {
        ReportedWasGranted(track.View(), caller, heldType);
      }
    }
  }

  lemma NewTrackSettled(next: nat)
    ensures Settled(Fresh()) && IdsBelow(Fresh(), next)
  {
  }

  lemma UnlockedOk(t: Track, i: nat, j: nat, next: nat)
    requires Settled(t) && IdsBelow(t, next) && i < |t.list| && j < |t.holding|
    requires t.holding[j].caller == t.list[i] && t.holding[j].id !in t.signaled
    ensures var p := Process(Release(t, i, j));
            && Settled(p) && IdsBelow(p, next)
            && (Used(p) <==> !(t.owners == 1 && t.waiters == 0))
  {
    ReleasedPlace(t, i, j);
    var p := Process(Release(t, i, j));
    var rest := t.holding[..j] + t.holding[j + 1..];
    forall k | 0 <= k < |p.holding + p.queue| ensures (p.holding + p.queue)[k].id < next {
      assert (p.holding + p.queue)[k] == (rest + t.queue)[k] == (t.holding + t.queue)[if k < j then k else k + 1];
    }
    if t.owners == 1 {
      assert Ids(t.holding) == [t.holding[0].id];
      assert t.signaled == {};
    }
  }

  lemma WokenOk(t: Track, id: nat, next: nat)
    requires Settled(t) && IdsBelow(t, next) && id in t.signaled
    ensures t.waiters > 0 && Settled(Woken(t, id)) && IdsBelow(Woken(t, id), next)
    ensures Used(Woken(t, id)) <==> Used(t)
  {
    WokenSettled(t, id);
  }

  lemma QueuedOk(t: Track, r: Request, next: nat)
    requires Settled(t) && IdsBelow(t, r.id) && next == r.id + 1
    ensures var q := Queued(t, r);
            && Settled(q) && IdsBelow(q, next) && Used(q)
            && (r in q.holding <==> r.id in Process(Enqueue(t, r)).signaled)
            && (r !in q.holding <==> r in q.queue)
  {
    FreshId(t, r.id);
    QueuedPlace(t, r);
    var q := Queued(t, r);
    assert (q.holding + q.queue)[|q.holding + q.queue| - 1] == r;
    forall i | 0 <= i < |q.holding + q.queue| ensures (q.holding + q.queue)[i].id < next {
      assert (q.holding + q.queue)[i] == ((t.holding + t.queue) + [r])[i];
    }
    if r in q.queue {
      var k :| 0 <= k < |q.queue| && q.queue[k] == r;
      QueuedNotHeld(q.holding, q.queue, k);
    }
  }
}
