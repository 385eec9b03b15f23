/** flushInodes and Destroy as the code runs them, whatever other operations do between their steps. */
module InodeVolumes {
  import opened Common
  import opened SegmentGc
  import opened SegmentHistories

  // ----- what a flush comes to if nobody touches its inodes -----

  /** The event may change the inode or its record. */
  ghost predicate Touches(v: Volume, e: Event, i: nat)
    requires Enabled(v, e)
  {
    match e
    case Create(j) => j == i
    case Load(j, _) => j == i
    case Purge(j) => j == i
    case Begin(j, _, _) => j == i
    case Recount(j, _, _) => j == i
    case Gather(_, j) => j == i
    case PutRecords(g) => i in v.flushes[g].done + v.flushes[g].records.Keys
    case Leave(j) => j == i
    case DeleteRecord(j) => j == i
    case Crash => true
    case Steal(_, elements, combination, _) => i in elements + {combination}
    case _ => false
  }

  ghost predicate SameAt<T>(m: map<nat, T>, m': map<nat, T>, i: nat) {
    (i in m <==> i in m') && (i in m ==> m[i] == m'[i])
  }

  lemma UntouchedInode(v: Volume, e: Event, i: nat)
    requires Enabled(v, e) && !Touches(v, e, i)
    ensures SameAt(v.inodes, Step(v, e).inodes, i)
  {
  }

  lemma UntouchedRecord(v: Volume, e: Event, i: nat)
    requires Enabled(v, e) && !Touches(v, e, i)
    ensures SameAt(v.table, Step(v, e).table, i)
  {
  }

  ghost predicate LeavesAll(v: Volume, e: Event, inos: set<nat>)
    requires Enabled(v, e)
  {
    forall i :: i in inos ==> !Touches(v, e, i)
  }

  ghost predicate SameIn(v: Volume, v': Volume, inos: set<nat>) {
    forall i :: i in inos ==> SameAt(v.inodes, v'.inodes, i) && SameAt(v.table, v'.table, i)
  }

  lemma UntouchedSame(v: Volume, e: Event, inos: set<nat>)
    requires Enabled(v, e) && LeavesAll(v, e, inos)
    ensures SameIn(v, Step(v, e), inos)
  {
    forall i | i in inos ensures SameAt(v.inodes, Step(v, e).inodes, i) && SameAt(v.table, Step(v, e).table, i) {
      UntouchedInode(v, e, i);
      UntouchedRecord(v, e, i);
    }
  }

  function EmptiedIn(inodes: map<nat, CachedInode>, inos: set<nat>): set<nat>
    requires inos <= inodes.Keys
  {
    set i, s | i in inos && s in Emptied(inodes[i].counts) :: s
  }

  /** The records of those of the inodes that are dirty. */
  function RecordsOf(inodes: map<nat, CachedInode>, inos: set<nat>): Records
    requires inos <= inodes.Keys
  {
    map i | i in inos && inodes[i].dirty :: Kept(inodes[i]).Keys
  }

  function Turned(inodes: map<nat, CachedInode>, done: set<nat>, i: nat): CachedInode
    requires i in inodes
  {
    if i in done then inodes[i].(counts := Kept(inodes[i])) else inodes[i]
  }

  /** Of the inodes of flush `f`, which began in `inodes` and `table`, those in `done` have had their turn. */
  ghost predicate Progress(inodes: map<nat, CachedInode>, table: Records, v: Volume, f: nat, inos: set<nat>) {
    && f in v.flushes && inos <= inodes.Keys
    && v.flushes[f].done <= inos && v.flushes[f].due == inos - v.flushes[f].done
    && v.flushes[f].records == RecordsOf(inodes, v.flushes[f].done)
    && v.flushes[f].emptied == EmptiedIn(inodes, v.flushes[f].done)
    && (forall i :: i in inos ==> i in v.inodes && v.inodes[i] == Turned(inodes, v.flushes[f].done, i))
    && (forall i :: i in inos ==> SameAt(table, v.table, i))
  }

  /** The inodes have been flushed. */
  ghost predicate Flushed(inodes: map<nat, CachedInode>, v: Volume, inos: set<nat>) {
    && inos <= inodes.Keys
    && (forall i :: i in inos ==> i in v.inodes && v.inodes[i] == CachedInode(Kept(inodes[i]), false))
    && (forall i :: i in inos ==> i in v.table && v.table[i] == Kept(inodes[i]).Keys)
  }

  lemma ProgressStart(v: Volume, f: nat, inos: set<nat>)
    requires f !in v.flushes && inos <= v.inodes.Keys
    ensures Progress(v.inodes, v.table, Started(v, f, inos), f, inos)
  {
  }

  lemma ProgressKept(inodes: map<nat, CachedInode>, table: Records, v: Volume, e: Event, f: nat, inos: set<nat>)
    requires Progress(inodes, table, v, f, inos) && Enabled(v, e) && !Of(f, e) && e != Crash
    requires LeavesAll(v, e, inos)
    ensures Progress(inodes, table, Step(v, e), f, inos)
  {
    OtherFlush(v, e, f);
    UntouchedSame(v, e, inos);
  }

  /** One inode more, be it for the second time. */
  lemma ProgressGather(inodes: map<nat, CachedInode>, table: Records, v: Volume, f: nat, inos: set<nat>, i: nat)
    requires Progress(inodes, table, v, f, inos) && i in inos
    ensures Progress(inodes, table, Gathered(v, f, i), f, inos)
  {
    KeptIsKept(inodes[i]);
    KeptIsKept(inodes[i].(counts := Kept(inodes[i])));
    TurnedFlush(inodes, v.flushes[f], i, v.inodes[i]);
  }

  lemma TurnedFlush(inodes: map<nat, CachedInode>, flush: Flush, i: nat, inode: CachedInode)
    requires flush.done + {i} <= inodes.Keys && inode == Turned(inodes, flush.done, i)
    requires flush.records == RecordsOf(inodes, flush.done) && flush.emptied == EmptiedIn(inodes, flush.done)
    ensures FlushWith(flush, i, inode).records == RecordsOf(inodes, flush.done + {i})
    ensures FlushWith(flush, i, inode).emptied == EmptiedIn(inodes, flush.done + {i})
  {
    KeptIsKept(inodes[i]);
    KeptIsKept(inodes[i].(counts := Kept(inodes[i])));
  }

  lemma ProgressPut(inodes: map<nat, CachedInode>, table: Records, v: Volume, f: nat, inos: set<nat>)
    requires Progress(inodes, table, v, f, inos) && v.flushes[f].due == {} && UpToDate(inodes, table)
    ensures Flushed(inodes, RecordsPut(v, f), inos)
  {
    assert forall i :: i in inos ==> i !in v.flushes[f].due;
    forall i | i in inos && !inodes[i].dirty ensures Kept(inodes[i]) == inodes[i].counts {
      KeptIsKept(inodes[i]);
    }
  }

  lemma ProgressEnd(inodes: map<nat, CachedInode>, table: Records, v: Volume, f: nat, inos: set<nat>)
    requires Progress(inodes, table, v, f, inos) && v.flushes[f].due == {} && v.flushes[f].records == map[]
    requires UpToDate(inodes, table)
    ensures Flushed(inodes, Ended(v, f), inos)
  {
    assert forall i :: i in inos ==> i !in v.flushes[f].due;
    assert v.flushes[f].done == inos;
    forall i | i in inos ensures !inodes[i].dirty && Kept(inodes[i]) == inodes[i].counts {
      assert i !in v.flushes[f].records;
      KeptIsKept(inodes[i]);
    }
  }

  /** Between steps `a` and `b` of the run, flush `f` has inodes `inos` to itself. */
  ghost predicate ToItself(states: seq<Volume>, events: seq<Event>, a: nat, b: nat, f: nat, inos: set<nat>)
    requires IsRun(states, events) && b <= |events|
  {
    forall k :: a <= k < b ==>
      if Of(f, events[k]) then events[k].Gather? else LeavesAll(states[k], events[k], inos) && events[k] != Crash
  }

  lemma {:induction false} FlushGoesOn(states: seq<Volume>, events: seq<Event>, a: nat, k: nat, f: nat, inos: set<nat>)
    requires IsRun(states, events) && a < k <= |events| && events[a] == StartFlush(f, inos)
    requires ToItself(states, events, a + 1, k, f, inos)
    ensures Progress(states[a].inodes, states[a].table, states[k], f, inos)
  {
    if k == a + 1 {
      ProgressStart(states[a], f, inos);
    } else {
      FlushGoesOn(states, events, a, k - 1, f, inos);
      var v, e := states[k - 1], events[k - 1];
      if Of(f, e) {
        ProgressGather(states[a].inodes, states[a].table, v, f, inos, e.i);
      } else {
        ProgressKept(states[a].inodes, states[a].table, v, e, f, inos);
      }
    }
  }

  lemma SameStep(v0: Volume, v: Volume, e: Event, inos: set<nat>)
    requires SameIn(v0, v, inos) && Enabled(v, e) && LeavesAll(v, e, inos)
    ensures SameIn(v0, Step(v, e), inos)
  {
    UntouchedSame(v, e, inos);
    SameSame(v0, v, Step(v, e), inos);
  }

  lemma SameSame(v0: Volume, v1: Volume, v2: Volume, inos: set<nat>)
    requires SameIn(v0, v1, inos) && SameIn(v1, v2, inos)
    ensures SameIn(v0, v2, inos)
  {
  }

  lemma {:induction false} StaysSame(states: seq<Volume>, events: seq<Event>, a: nat, b: nat, inos: set<nat>)
    requires IsRun(states, events) && a <= b <= |events|
    requires forall j :: a <= j < b ==> LeavesAll(states[j], events[j], inos)
    ensures SameIn(states[a], states[b], inos)
  {
    if a < b {
      StaysSame(states, events, a, b - 1, inos);
      SameStep(states[a], states[b - 1], events[b - 1], inos);
    }
  }

  lemma FlushedKept(inodes: map<nat, CachedInode>, v: Volume, v': Volume, inos: set<nat>)
    requires Flushed(inodes, v, inos) && SameIn(v, v', inos)
    ensures Flushed(inodes, v', inos)
  {
    assert forall i :: i in inos ==> SameAt(v.inodes, v'.inodes, i) && SameAt(v.table, v'.table, i);
  }

  /** A flush that has its inodes to itself: whatever the other events of the run are, it drops exactly the
      empty counts, and its inodes are clean then, with records that name exactly what they count. */
  lemma FlushAlone(states: seq<Volume>, events: seq<Event>, a: nat, p: nat, b: nat, f: nat, inos: set<nat>)
    requires IsRun(states, events) && a < p < b <= |events| && UpToDate(states[a].inodes, states[a].table)
    requires events[a] == StartFlush(f, inos) && (events[p] == PutRecords(f) || events[p] == EndFlush(f))
    requires ToItself(states, events, a + 1, p, f, inos)
    requires forall j :: p < j < b ==> LeavesAll(states[j], events[j], inos)
    ensures Flushed(states[a].inodes, states[b], inos)
    ensures f in states[p].flushes && states[p].flushes[f].emptied == EmptiedIn(states[a].inodes, inos)
  {
    FlushGoesOn(states, events, a, p, f, inos);
    assert states[p].flushes[f].done == inos by {
      assert forall i :: i in inos ==> i !in states[p].flushes[f].due;
    }
    if events[p].PutRecords? {
      ProgressPut(states[a].inodes, states[a].table, states[p], f, inos);
    } else {
      ProgressEnd(states[a].inodes, states[a].table, states[p], f, inos);
    }
    StaysSame(states, events, p + 1, b, inos);
    FlushedKept(states[a].inodes, states[p + 1], states[b], inos);
  }

  /** From step `a` to the end of the run, flush `f`, which is over with step `p`, has its inodes to itself. */
  ghost predicate Alone(states: seq<Volume>, events: seq<Event>, a: nat, p: nat, f: nat, inos: set<nat>)
    requires IsRun(states, events) && a < p < |events|
  {
    && ToItself(states, events, a + 1, p, f, inos)
    && forall j :: p < j < |events| ==> LeavesAll(states[j], events[j], inos)
  }

  // ----- the code -----

  /** The steps of flush `f` among the events from `from` on. */
  ghost function Own(f: nat, events: seq<Event>, from: nat): seq<Event> {
    if |events| <= from then [] else
    Own(f, events[..|events| - 1], from) + if Of(f, events[|events| - 1]) then [events[|events| - 1]] else []
  }

  lemma OwnAnd(f: nat, events: seq<Event>, from: nat, e: Event)
    requires from <= |events|
    ensures Own(f, events + [e], from) == Own(f, events, from) + if Of(f, e) then [e] else []
  {
    assert (events + [e])[..|events|] == events;
  }

  lemma {:induction false} OwnSame(f: nat, events: seq<Event>, events': seq<Event>, from: nat)
    requires from <= |events| && events <= events'
    requires forall k :: |events| <= k < |events'| ==> !Of(f, events'[k])
    ensures Own(f, events', from) == Own(f, events, from)
  {
    if |events'| > |events| {
      OwnSame(f, events, events'[..|events'| - 1], from);
    } else {
      assert events' == events;
    }
  }

  function Gathers(f: nat, inos: seq<nat>): seq<Event> {
    seq(|inos|, k requires 0 <= k < |inos| => Gather(f, inos[k]))
  }

  lemma GathersAnd(f: nat, inos: seq<nat>, k: nat)
    requires k < |inos|
    ensures Gathers(f, inos[..k + 1]) == Gathers(f, inos[..k]) + [Gather(f, inos[k])]
  {
  }

  /** The run from step `from` on has the steps of flush `f` of `inos`, in their order, the last of them at `put`. */
  ghost predicate HasFlush(states: seq<Volume>, events: seq<Event>, from: nat, put: nat, f: nat, inos: seq<nat>,
                           emptied: set<nat>) {
    && IsRun(states, events) && from < put < |events| && events[from] == StartFlush(f, Members(inos))
    && Own(f, events, from) == [StartFlush(f, Members(inos))] + Gathers(f, inos) + [events[put]]
    && (events[put] == PutRecords(f) || events[put] == EndFlush(f))
    && f in states[put].flushes && emptied == states[put].flushes[f].emptied
  }

  lemma HasFlushStill(states: seq<Volume>, events: seq<Event>, states': seq<Volume>, events': seq<Event>,
                      from: nat, put: nat, f: nat, inos: seq<nat>, emptied: set<nat>)
    requires HasFlush(states, events, from, put, f, inos, emptied)
    requires IsRun(states', events') && events <= events' && states <= states'
    requires forall k :: |events| <= k < |events'| ==> !Of(f, events'[k])
    ensures HasFlush(states', events', from, put, f, inos, emptied)
  {
    OwnSame(f, events, events', from);
  }

  lemma FlushedIfAlone(states: seq<Volume>, events: seq<Event>, from: nat, put: nat, f: nat, inos: seq<nat>,
                       emptied: set<nat>)
    requires HasFlush(states, events, from, put, f, inos, emptied)
    ensures var v := states[from];
            Alone(states, events, from, put, f, Members(inos)) && UpToDate(v.inodes, v.table) ==>
              && Flushed(v.inodes, states[|events|], Members(inos))
              && Members(inos) <= v.inodes.Keys && emptied == EmptiedIn(v.inodes, Members(inos))
  {
    var v := states[from];
    if Alone(states, events, from, put, f, Members(inos)) && UpToDate(v.inodes, v.table) {
      FlushAlone(states, events, from, put, |events|, f, Members(inos));
    }
  }

  lemma {:induction false} FlushUnderWay(states: seq<Volume>, events: seq<Event>, a: nat, b: nat, f: nat)
    requires IsRun(states, events) && a <= b <= |events| && f in states[a].flushes
    requires forall k :: a <= k < b ==> !Of(f, events[k]) && events[k] != Crash
    ensures f in states[b].flushes && states[b].flushes[f] == states[a].flushes[f]
  {
    if a < b {
      FlushUnderWay(states, events, a, b - 1, f);
      OtherFlush(states[b - 1], events[b - 1], f);
    }
  }

  lemma StillInHand(v: Volume, e: Event, s: nat)
    requires Enabled(v, e) && e != Schedule(s) && e != Crash && s in v.inHand
    ensures s in Step(v, e).inHand
  {
  }

  lemma {:induction false} StaysInHand(states: seq<Volume>, events: seq<Event>, a: nat, b: nat, s: nat)
    requires IsRun(states, events) && a <= b <= |events| && s in states[a].inHand
    requires forall k :: a <= k < b ==> events[k] != Schedule(s) && events[k] != Crash
    ensures s in states[b].inHand
  {
    if a < b {
      StaysInHand(states, events, a, b - 1, s);
      StillInHand(states[b - 1], events[b - 1], s);
    }
  }

  lemma StillLeaving(v: Volume, e: Event, i: nat)
    requires Enabled(v, e) && e != Leave(i) && e != DeleteRecord(i) && e != Crash && i in v.leaving
    ensures i in Step(v, e).leaving && Step(v, e).leaving[i] == v.leaving[i]
  {
  }

  lemma {:induction false} StaysLeaving(states: seq<Volume>, events: seq<Event>, a: nat, b: nat, i: nat)
    requires IsRun(states, events) && a <= b <= |events| && i in states[a].leaving
    requires forall k :: a <= k < b ==> events[k] != Leave(i) && events[k] != DeleteRecord(i) && events[k] != Crash
    ensures i in states[b].leaving && states[b].leaving[i] == states[a].leaving[i]
  {
    if a < b {
      StaysLeaving(states, events, a, b - 1, i);
      StillLeaving(states[b - 1], events[b - 1], i);
    }
  }

  /** A destroy that has its inode to itself leaves neither inode nor record. */
  lemma DestroyAlone(states: seq<Volume>, events: seq<Event>, a: nat, d: nat, i: nat)
    requires IsRun(states, events) && a < d < |events| && events[a] == Leave(i) && events[d] == DeleteRecord(i)
    requires forall j :: a < j < |events| && j != d ==> LeavesAll(states[j], events[j], {i})
    ensures i !in states[|events|].inodes && i !in states[|events|].table
  {
    StaysSame(states, events, a + 1, d, {i});
    StaysSame(states, events, d + 1, |events|, {i});
    assert i !in Left(states[a], i).inodes;
    assert SameAt(states[a + 1].inodes, states[d].inodes, i);
    assert i !in RecordDeleted(states[d], i).table;
    assert SameAt(states[d + 1].inodes, states[|events|].inodes, i);
    assert SameAt(states[d + 1].table, states[|events|].table, i);
  }

  /** The run from step `from` on has the steps of the one destroy of inode `i`, the second at `delete`. */
  ghost predicate HasDestroy(states: seq<Volume>, events: seq<Event>, from: nat, delete: nat, i: nat) {
    && IsRun(states, events) && from < delete < |events|
    && (forall k :: from <= k < |events| ==> (events[k] == Leave(i) <==> k == from))
    && (forall k :: from <= k < |events| ==> (events[k] == DeleteRecord(i) <==> k == delete))
  }

  lemma RunAnd(states: seq<Volume>, events: seq<Event>, e: Event)
    requires IsRun(states, events) && Enabled(states[|events|], e)
    ensures IsRun(states + [Step(states[|events|], e)], events + [e])
  {
  }

  /** Which of the steps others mean to do come about: those possible when they are reached, short of a crash and of
      the steps that are ours. */
  function Admitted(v: Volume, others: seq<Event>, ours: Event -> bool): seq<Event>
    decreases |others|
  {
    if others == [] then []
    else if Theirs(v, others[0], ours) then [others[0]] + Admitted(Step(v, others[0]), others[1..], ours)
    else Admitted(v, others[1..], ours)
  }

  predicate Theirs(v: Volume, e: Event, ours: Event -> bool) {
    !ours(e) && e != Crash && Enabled(v, e)
  }

  lemma AdmittedFirst(v: Volume, others: seq<Event>, ours: Event -> bool, w: Volume, done: seq<Event>)
    requires others != [] && (if Theirs(v, others[0], ours) then w == Step(v, others[0]) && done == [others[0]]
                              else w == v && done == [])
    ensures Admitted(v, others, ours) == done + Admitted(w, others[1..], ours)
  {
  }

  class InodeVolume {
    var inodes: map<nat, CachedInode>
    var table: Records
    var checkpointed: Records
    var flushes: map<nat, Flush>
    var leaving: Records
    var held: map<nat, nat>
    var objects: set<nat>
    var waiting: map<nat, int>
    var inHand: set<nat>
    var checkpoints: nat
    var used: set<nat>
    ghost var states: seq<Volume>
    ghost var events: seq<Event>

    function View(): Volume
      reads this
    {
      Volume(inodes, table, checkpointed, flushes, leaving, held, objects, waiting, inHand, checkpoints, used)
    }

    /** What has happened so far is a run that has come to the present state. */
    ghost predicate Valid()
      reads this
    {
      IsRun(states, events) && states[|events|] == View()
    }

    constructor ()
      ensures Valid() && View() == Empty() && events == []
    {
      inodes, table, checkpointed, flushes, leaving, held := map[], map[], map[], map[], map[], map[];
      objects, waiting, inHand, checkpoints, used := {}, map[], {}, 0, {};
      states, events := [Empty()], [];
    }

    ghost method Note(e: Event)
      requires Valid() && Enabled(View(), e)
      modifies `states, `events
      ensures IsRun(states, events) && events == old(events) + [e] && states == old(states) + [Step(View(), e)]
    {
      RunAnd(states, events, e);
      states, events := states + [Step(View(), e)], events + [e];
    }

    method SetRecords(v: Volume)
      modifies `inodes, `table, `checkpointed, `flushes
      ensures inodes == v.inodes && table == v.table && checkpointed == v.checkpointed && flushes == v.flushes
    {
      inodes, table := v.inodes, v.table;
      checkpointed, flushes := v.checkpointed, v.flushes;
    }

    method SetSegments(v: Volume)
      modifies `leaving, `held, `objects, `waiting, `inHand, `checkpoints, `used
      ensures leaving == v.leaving && held == v.held && objects == v.objects && waiting == v.waiting
      ensures inHand == v.inHand && checkpoints == v.checkpoints && used == v.used
    {
      leaving, held, objects := v.leaving, v.held, v.objects;
      waiting, inHand, checkpoints, used := v.waiting, v.inHand, v.checkpoints, v.used;
    }

    method Become(v: Volume)
      requires IsRun(states, events) && states[|events|] == v
      modifies this
      ensures Valid() && View() == v && states == old(states) && events == old(events)
    {
      SetRecords(v);
      SetSegments(v);
    }

    /** A step of some other operation. */
    method Perform(e: Event)
      requires Valid() && Enabled(View(), e)
      modifies this
      ensures Valid() && events == old(events) + [e] && states == old(states) + [View()]
      ensures View() == Step(old(View()), e)
    {
      var v := Step(View(), e);
      Note(e);
      Become(v);
    }

    /** A step of some other operation if it may be done now. */
    method Attempt(e: Event, ours: Event -> bool) returns (ghost did: seq<Event>)
      requires Valid()
      modifies this
      ensures Valid() && events == old(events) + did && old(states) <= states
      ensures did == if Theirs(old(View()), e, ours) then [e] else []
      ensures View() == if Theirs(old(View()), e, ours) then Step(old(View()), e) else old(View())
    {
      did := [];
      if Theirs(View(), e, ours) {
        did := [e];
        Perform(e);
      }
    }

    /** What other operations do meanwhile, short of a crash; the steps that are ours are not theirs to do. */
    method Meanwhile(others: seq<Event>, ours: Event -> bool)
      requires Valid()
      modifies this
      ensures Valid() && old(events) <= events && old(states) <= states
      ensures forall k :: |old(events)| <= k < |events| ==> !ours(events[k]) && events[k] != Crash
      ensures events == old(events) + Admitted(old(View()), others, ours)
    {
      for k := 0 to |others|
        invariant Valid() && old(events) <= events && old(states) <= states
        invariant forall k :: |old(events)| <= k < |events| ==> !ours(events[k]) && events[k] != Crash
        invariant events + Admitted(View(), others[k..], ours) == old(events) + Admitted(old(View()), others, ours)
      {
        assert others[k..][1..] == others[k + 1..];
        ghost var v, before := View(), events;
        ghost var did := Attempt(others[k], ours);
        AdmittedFirst(v, others[k..], ours, View(), did);
        assert before + did + Admitted(View(), others[k + 1..], ours)
            == before + (did + Admitted(View(), others[k + 1..], ours));
      }
    }

    /** The segments of an inode that count zero. */
    method FindEmptied(counts: map<nat, nat>) returns (emptied: set<nat>)
      ensures emptied == Emptied(counts)
    {
      emptied := {};
      var unseen := counts.Keys;
      while unseen != {}
        invariant unseen <= counts.Keys
        invariant emptied == set s | s in counts.Keys - unseen && counts[s] == 0
        decreases unseen
      {
        var s :| s in unseen;
        if counts[s] == 0 {
          emptied := emptied + {s};
        }
        unseen := unseen - {s};
      }
    }

    /** The inode's data is stored, its empty counts are dropped; `inode` is what it was. */
    method DropEmptied(i: nat) returns (inode: CachedInode, emptied: set<nat>)
      requires i in inodes
      modifies `inodes, `objects, `held
      ensures inode == old(inodes[i]) && emptied == Emptied(inode.counts)
      ensures inodes == old(inodes)[i := inode.(counts := Kept(inode))]
      ensures objects == old(objects) + inode.counts.Keys && held == old(held) - emptied
    {
      inode := inodes[i];
      objects := objects + inode.counts.Keys;
      emptied := FindEmptied(inode.counts);
      held := held - emptied;
      inodes := inodes[i := inode.(counts := inode.counts - emptied)];
    }

    /** One inode of a flush: its data is stored, its empty counts are dropped and its record converted if it is
        dirty. */
    method GatherOne(f: nat, i: nat)
      requires Valid() && f in flushes && i in flushes[f].due + flushes[f].done
      modifies `inodes, `objects, `flushes, `held, `states, `events
      ensures Valid() && View() == Gathered(old(View()), f, i)
      ensures events == old(events) + [Gather(f, i)] && states == old(states) + [View()]
    {
      Note(Gather(f, i));
      var flush := flushes[f];
      flush := flush.(due := flush.due - {i}, done := flush.done + {i});
      if i in inodes {
        var inode, emptied := DropEmptied(i);
        flush := flush.(emptied := flush.emptied + emptied);
        if inode.dirty {
          flush := flush.(records := flush.records[i := inodes[i].counts.Keys]);
        }
      }
      flushes := flushes[f := flush];
    }

    /** What others do between two steps of flush `f`. */
    method Interlude(f: nat, others: seq<Event>, ghost from: nat)
      requires Valid() && f in flushes && from <= |events|
      modifies this
      ensures Valid() && old(events) <= events && old(states) <= states
      ensures f in flushes && flushes[f] == old(flushes[f]) && Own(f, events, from) == old(Own(f, events, from))
    {
      Meanwhile(others, e => Of(f, e));
      OwnSame(f, old(events), events, from);
      assert states[|old(events)|] == old(View());
      FlushUnderWay(states, events, |old(events)|, |events|, f);
    }

    /** Flush `f`, under way since step `from`, has gone through the first `k` of its inodes. */
    ghost predicate GatheredSoFar(f: nat, inos: seq<nat>, k: nat, from: nat)
      requires k <= |inos|
      reads this
    {
      && f in flushes && flushes[f].due + flushes[f].done == Members(inos) && flushes[f].due !! Members(inos[..k])
      && from <= |events| && Own(f, events, from) == [StartFlush(f, Members(inos))] + Gathers(f, inos[..k])
    }

    method GatherNext(f: nat, inos: seq<nat>, k: nat, ghost from: nat)
      requires k < |inos| && Valid() && GatheredSoFar(f, inos, k, from)
      modifies `inodes, `objects, `flushes, `held, `states, `events
      ensures Valid() && GatheredSoFar(f, inos, k + 1, from)
      ensures events == old(events) + [Gather(f, inos[k])] && states == old(states) + [View()]
    {
      OwnAnd(f, events, from, Gather(f, inos[k]));
      GathersAnd(f, inos, k);
      assert inos[..k + 1] == inos[..k] + [inos[k]];
      GatherOne(f, inos[k]);
    }

    /** The turn of one inode, after whatever others have done. */
    method GatherTurn(f: nat, inos: seq<nat>, k: nat, others: seq<Event>, ghost from: nat)
      requires k < |inos| && Valid() && GatheredSoFar(f, inos, k, from)
      modifies this
      ensures Valid() && GatheredSoFar(f, inos, k + 1, from)
      ensures old(events) <= events && old(states) <= states
    {
      Interlude(f, others, from);
      GatherNext(f, inos, k, from);
    }

    /** The loop of flushInodes over its inodes, which may name one twice. */
    method GatherRecords(f: nat, inos: seq<nat>, meanwhile: seq<seq<Event>>, ghost from: nat)
      requires Valid() && GatheredSoFar(f, inos, 0, from) && |inos| <= |meanwhile|
      modifies this
      ensures Valid() && GatheredSoFar(f, inos, |inos|, from) && flushes[f].due == {}
      ensures old(events) <= events && old(states) <= states
    {
      for k := 0 to |inos|
        invariant Valid() && GatheredSoFar(f, inos, k, from)
        invariant old(events) <= events && old(states) <= states
      {
        GatherTurn(f, inos, k, meanwhile[k], from);
      }
      assert inos[..|inos|] == inos;
    }

    method ReplaceRecords(f: nat)
      requires f in flushes
      modifies `inodes, `table, `flushes, `inHand
      ensures View() == RecordsPut(old(View()), f)
    {
      var flush := flushes[f];
      table := table + flush.records;
      inodes := Cleaned(inodes, flush.done);
      inHand := inHand + flush.emptied;
      flushes := flushes - {f};
    }

    method PutConverted(f: nat)
      requires Valid() && Enabled(View(), PutRecords(f))
      modifies `inodes, `table, `flushes, `inHand, `states, `events
      ensures Valid() && events == old(events) + [PutRecords(f)] && states == old(states) + [View()]
      ensures inHand == old(inHand + flushes[f].emptied)
    {
      Note(PutRecords(f));
      ReplaceRecords(f);
    }

    method EndUnconverted(f: nat)
      requires Valid() && Enabled(View(), EndFlush(f))
      modifies `flushes, `waiting, `states, `events
      ensures Valid() && events == old(events) + [EndFlush(f)] && states == old(states) + [View()]
    {
      Note(EndFlush(f));
      waiting := waiting + map s | s in flushes[f].emptied :: -1;
      flushes := flushes - {f};
    }

    /** PutInodeRecs with the records converted, if there are any; else the flush is over, and
        what it has dropped goes without waiting. */
    method PutInodeRecs(f: nat) returns (emptied: set<nat>, anyDirty: bool)
      requires Valid() && f in flushes && flushes[f].due == {}
      modifies `inodes, `table, `flushes, `inHand, `waiting, `states, `events
      ensures Valid() && emptied == old(flushes[f].emptied) && (anyDirty ==> emptied <= inHand)
      ensures events == old(events) + [if anyDirty then PutRecords(f) else EndFlush(f)]
      ensures states == old(states) + [View()]
    {
      emptied, anyDirty := flushes[f].emptied, flushes[f].records != map[];
      if anyDirty {
        PutConverted(f);
      } else {
        EndUnconverted(f);
      }
    }

    method ScheduleOne(s: nat)
      requires Valid() && s in inHand
      modifies `waiting, `inHand, `states, `events
      ensures Valid() && waiting == old(waiting)[s := checkpoints] && inHand == old(inHand) - {s}
      ensures events == old(events) + [Schedule(s)] && states == old(states) + [View()]
    {
      Note(Schedule(s));
      waiting := waiting[s := checkpoints];
      inHand := inHand - {s};
    }

    /** Schedules the deletion of segments given up, to wait for the next checkpoint. */
    method DeleteLogSegmentsAsync(segments: set<nat>)
      requires Valid() && segments <= inHand
      modifies `waiting, `inHand, `states, `events
      ensures Valid() && old(events) <= events && old(states) <= states
      ensures forall k :: |old(events)| <= k < |events| ==> events[k].Schedule?
      ensures inHand == old(inHand) - segments && waiting == AllWait(old(waiting), segments, checkpoints)
    {
      var rest := segments;
      assert AllWait(waiting, {}, checkpoints) == waiting;
      while rest != {}
        invariant rest <= segments && Valid() && old(events) <= events && old(states) <= states
        invariant forall k :: |old(events)| <= k < |events| ==> events[k].Schedule?
        invariant inHand == old(inHand) - (segments - rest)
        invariant waiting == AllWait(old(waiting), segments - rest, checkpoints)
        decreases rest
      {
        var s :| s in rest;
        AllWaitAnd(old(waiting), segments - rest, checkpoints, s);
        assert segments - rest + {s} == segments - (rest - {s});
        ScheduleOne(s);
        rest := rest - {s};
      }
      assert segments - {} == segments;
    }

    method StartOf(f: nat, inos: seq<nat>)
      requires Valid() && f !in flushes && Members(inos) <= inodes.Keys
      modifies `flushes, `states, `events
      ensures Valid() && GatheredSoFar(f, inos, 0, |old(events)|)
      ensures events == old(events) + [StartFlush(f, Members(inos))] && states == old(states) + [View()]
    {
      Note(StartFlush(f, Members(inos)));
      flushes := flushes[f := Flush(Members(inos), {}, map[], {})];
      OwnAnd(f, old(events), |old(events)|, StartFlush(f, Members(inos)));
    }

    /** flushInodes up to PutInodeRecs. */
    method ConvertRecords(f: nat, inos: seq<nat>, meanwhile: seq<seq<Event>>)
      requires Valid() && f !in flushes && Members(inos) <= inodes.Keys && |inos| < |meanwhile|
      modifies this
      ensures Valid() && GatheredSoFar(f, inos, |inos|, |old(events)|) && flushes[f].due == {}
      ensures |old(events)| < |events| && events[|old(events)|] == StartFlush(f, Members(inos))
      ensures old(events) <= events && old(states) <= states
    {
      StartOf(f, inos);
      GatherRecords(f, inos, meanwhile, |old(events)|);
      Interlude(f, meanwhile[|inos|], |old(events)|);
    }

    /** flushInodes from there to the new records. */
    method PutGathered(f: nat, inos: seq<nat>, ghost from: nat) returns (emptied: set<nat>, anyDirty: bool)
      requires Valid() && GatheredSoFar(f, inos, |inos|, from) && flushes[f].due == {}
      requires from < |events| && events[from] == StartFlush(f, Members(inos))
      modifies `inodes, `table, `flushes, `inHand, `waiting, `states, `events
      ensures Valid() && HasFlush(states, events, from, |old(events)|, f, inos, emptied)
      ensures events == old(events) + [if anyDirty then PutRecords(f) else EndFlush(f)]
      ensures states == old(states) + [View()]
      ensures anyDirty ==> emptied <= inHand
    {
      assert inos[..|inos|] == inos && states[|events|] == View();
      emptied, anyDirty := PutInodeRecs(f);
      OwnAnd(f, old(events), from, events[|old(events)|]);
    }

    /** flushInodes, whatever others do between its steps: its own steps are these, in this order; what it has dropped
        waits for a checkpoint after its records were put; and if it had its inodes to itself they are flushed. */
    method FlushInodes(f: nat, inos: seq<nat>, meanwhile: seq<seq<Event>>)
      returns (ghost put: nat, emptied: set<nat>, anyDirty: bool)
      requires Valid() && f !in flushes && Members(inos) <= inodes.Keys && |meanwhile| == |inos| + 2
      modifies this
      ensures Valid() && old(events) <= events && old(states) <= states
      ensures HasFlush(states, events, |old(events)|, put, f, inos, emptied)
      ensures events[put] == (if anyDirty then PutRecords(f) else EndFlush(f))
      ensures anyDirty ==> forall s :: s in emptied ==> s in waiting && waiting[s] == checkpoints
      ensures Alone(states, events, |old(events)|, put, f, Members(inos)) && UpToDate(old(inodes), old(table)) ==>
                Flushed(old(inodes), View(), Members(inos)) && emptied == EmptiedIn(old(inodes), Members(inos))
    {
      ConvertRecords(f, inos, meanwhile);
      put := |events|;
      emptied, anyDirty := PutGathered(f, inos, |old(events)|);
      if anyDirty {
        ScheduleLater(f, emptied, meanwhile[|inos| + 1], |old(events)|, put, inos);
      }
      assert states[|old(events)|] == old(View());
      FlushedIfAlone(states, events, |old(events)|, put, f, inos, emptied);
    }

    /** Others get to work once more before the deletions are scheduled. */
    method ScheduleLater(f: nat, emptied: set<nat>, others: seq<Event>, ghost from: nat, ghost put: nat,
                         ghost inos: seq<nat>)
      requires Valid() && emptied <= inHand && HasFlush(states, events, from, put, f, inos, emptied)
      modifies this
      ensures Valid() && old(events) <= events && old(states) <= states
      ensures HasFlush(states, events, from, put, f, inos, emptied)
      ensures forall s :: s in emptied ==> s in waiting && waiting[s] == checkpoints
    {
      Meanwhile(others, e => Of(f, e) || (e.Schedule? && e.s in emptied));
      assert states[|old(events)|] == old(View());
      forall s | s in emptied ensures s in inHand {
        StaysInHand(states, events, |old(events)|, |events|, s);
      }
      DeleteLogSegmentsAsync(emptied);
      HasFlushStill(old(states), old(events), states, events, from, put, f, inos, emptied);
    }

    /** Destroy up to the data flush. */
    method LeaveMemory(i: nat) returns (segments: set<nat>)
      requires Valid() && i in inodes
      modifies `inodes, `leaving, `states, `events
      ensures Valid() && segments == old(inodes)[i].counts.Keys && i in leaving && leaving[i] == segments
      ensures events == old(events) + [Leave(i)] && states == old(states) + [View()]
    {
      Note(Leave(i));
      segments := inodes[i].counts.Keys;
      leaving := leaving[i := segments];
      inodes := inodes - {i};
    }

    /** The data flush: the streams of the inode end. */
    method StoreAll(segments: set<nat>)
      requires Valid()
      modifies this
      ensures Valid() && old(events) <= events && old(states) <= states
      ensures forall k :: |old(events)| <= k < |events| ==> events[k].Close?
    {
      var rest := segments;
      while rest != {}
        invariant Valid() && old(events) <= events && old(states) <= states
        invariant forall k :: |old(events)| <= k < |events| ==> events[k].Close?
        decreases rest
      {
        var s :| s in rest;
        if s in held {
          Perform(Close(s));
        }
        rest := rest - {s};
      }
    }

    method DeleteInodeRec(i: nat)
      requires Valid() && i in leaving
      modifies `table, `leaving, `held, `inHand, `states, `events
      ensures Valid() && events == old(events) + [DeleteRecord(i)] && states == old(states) + [View()]
      ensures old(leaving[i]) <= inHand
    {
      Note(DeleteRecord(i));
      table, held, inHand := table - {i}, held - leaving[i], inHand + leaving[i];
      leaving := leaving - {i};
    }

    /** What others do between two steps of the destroy of inode `i`, which is not theirs to do. */
    method DestroyInterlude(i: nat, segments: set<nat>, others: seq<Event>)
      requires Valid()
      modifies this
      ensures Valid() && old(events) <= events && old(states) <= states
      ensures forall k :: |old(events)| <= k < |events| ==>
                && events[k] != Leave(i) && events[k] != DeleteRecord(i) && events[k] != Crash
                && !(events[k].Schedule? && events[k].s in segments)
      ensures old(i in leaving) ==> i in leaving && leaving[i] == old(leaving[i])
      ensures segments <= old(inHand) ==> segments <= inHand
    {
      Meanwhile(others, e => e == Leave(i) || e == DeleteRecord(i) || (e.Schedule? && e.s in segments));
      assert states[|old(events)|] == old(View());
      if old(i in leaving) {
        StaysLeaving(states, events, |old(events)|, |events|, i);
      }
      forall s | s in segments && segments <= old(inHand) ensures s in inHand {
        StaysInHand(states, events, |old(events)|, |events|, s);
      }
    }

    method StoreStreams(i: nat, segments: set<nat>)
      requires Valid() && i in leaving
      modifies this
      ensures Valid() && old(events) <= events && old(states) <= states && i in leaving && leaving[i] == old(leaving[i])
      ensures forall k :: |old(events)| <= k < |events| ==> events[k].Close?
    {
      StoreAll(segments);
      assert states[|old(events)|] == old(View());
      StaysLeaving(states, events, |old(events)|, |events|, i);
    }

    /** Inode `i` has left memory at step `from`, and no step of its destroy has followed. */
    ghost predicate LeftAt(i: nat, from: nat)
      reads this
    {
      && from < |events| && events[from] == Leave(i)
      && forall k :: from < k < |events| ==> events[k] != Leave(i) && events[k] != DeleteRecord(i)
    }

    /** Destroy up to the record's deletion. */
    method LeaveAndStore(i: nat, meanwhile: seq<Event>) returns (segments: set<nat>)
      requires Valid() && i in inodes
      modifies this
      ensures Valid() && old(events) <= events && old(states) <= states && LeftAt(i, |old(events)|)
      ensures i in leaving && segments == leaving[i] == old(inodes)[i].counts.Keys
    {
      segments := LeaveMemory(i);
      DestroyInterlude(i, segments, meanwhile);
      StoreStreams(i, segments);
    }

    /** Destroy from there until the record is deleted. */
    method DestroyRecord(i: nat, segments: set<nat>, meanwhile: seq<Event>, ghost from: nat)
      requires Valid() && i in leaving && segments == leaving[i] && LeftAt(i, from)
      modifies this
      ensures Valid() && old(events) <= events && old(states) <= states && segments <= inHand
      ensures |old(events)| < |events| && HasDestroy(states, events, from, |events| - 1, i)
    {
      DestroyInterlude(i, segments, meanwhile);
      DeleteInodeRec(i);
    }

    /** Destroy once the record is deleted. */
    method DestroySegments(i: nat, segments: set<nat>, meanwhile: seq<Event>, ghost from: nat, ghost delete: nat)
      requires Valid() && segments <= inHand && HasDestroy(states, events, from, delete, i)
      modifies this
      ensures Valid() && old(events) <= events && old(states) <= states
      ensures HasDestroy(states, events, from, delete, i)
      ensures forall s :: s in segments ==> s in waiting && waiting[s] == checkpoints
    {
      DestroyInterlude(i, segments, meanwhile);
      DeleteLogSegmentsAsync(segments);
    }

    /** Destroy, whatever others do between its steps: everything the inode counted, empty counts included, waits
        for a checkpoint after its record was deleted; and if it had the inode to itself, inode and record are gone. */
    method Destroy(i: nat, meanwhile: seq<seq<Event>>) returns (ghost delete: nat)
      requires Valid() && i in inodes && |meanwhile| == 3
      modifies this
      ensures Valid() && old(events) <= events && old(states) <= states
      ensures HasDestroy(states, events, |old(events)|, delete, i)
      ensures forall s :: s in old(inodes)[i].counts ==> s in waiting && waiting[s] == checkpoints
      ensures (forall j :: |old(events)| < j < |events| && j != delete ==> LeavesAll(states[j], events[j], {i})) ==>
                i !in inodes && i !in table
    {
      var segments := LeaveAndStore(i, meanwhile[0]);
      DestroyRecord(i, segments, meanwhile[1], |old(events)|);
      delete := |events| - 1;
      DestroySegments(i, segments, meanwhile[2], |old(events)|, delete);
      if forall j :: |old(events)| < j < |events| && j != delete ==> LeavesAll(states[j], events[j], {i}) {
        DestroyAlone(states, events, |old(events)|, delete, i);
      }
    }

    /** As long as all steps have been orderly, each segment a record names has its object. */
    lemma SafeIfOrderly()
      requires Valid() && OrderlyRun(states, events)
      ensures Safe(View())
    {
      RunsAreSafe(states, events, |events|);
    }
  }

  /** All the segments wait for a checkpoint after the `n`th. */
  function AllWait(waiting: map<nat, int>, segments: set<nat>, n: nat): map<nat, int> {
    waiting + map s | s in segments :: n
  }

  lemma AllWaitAnd(waiting: map<nat, int>, segments: set<nat>, n: nat, s: nat)
    ensures AllWait(waiting, segments + {s}, n) == AllWait(waiting, segments, n)[s := n]
  {
  }
}
