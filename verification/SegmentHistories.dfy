/** What the states of a volume owe to the events that led to them: what each inode counts, which
objects there are, what waits to be deleted and where every record comes from can be told
from the events alone, and a crash brings back the last completed checkpoint.
*/
module SegmentHistories {
  import opened Common
  import opened SegmentGc

  // ----- flushes -----

  /** The event is a step of flush `f`. */
  predicate Of(f: nat, e: Event) {
    match e
    case StartFlush(g, _) => g == f
    case Gather(g, _) => g == f
    case PutRecords(g) => g == f
    case EndFlush(g) => g == f
    case Steal(g, _, _, _) => g == f
    case _ => false
  }

  /** A step that is not a flush's own, and starts none. */
  lemma OtherFlushInHand(v: Volume, e: Event, f: nat)
    requires Enabled(v, e) && f in v.flushes && e != Crash
    requires !e.StartFlush? && !e.Gather? && !e.PutRecords? && !e.EndFlush? && !e.Steal?
    ensures Step(v, e).flushes == v.flushes
  {
  }

  lemma OtherFlush(v: Volume, e: Event, f: nat)
    requires Enabled(v, e) && !Of(f, e) && e != Crash && f in v.flushes
    ensures f in Step(v, e).flushes && Step(v, e).flushes[f] == v.flushes[f]
  {
    if !e.StartFlush? && !e.Gather? && !e.PutRecords? && !e.EndFlush? && !e.Steal? {
      OtherFlushInHand(v, e, f);
    }
  }

  // ----- crashes -----

  /** Nothing that was in memory only is left. */
  ghost predicate Forgotten(v: Volume) {
    && v.inodes == map[] && v.flushes == map[] && v.leaving == map[] && v.held == map[]
    && v.waiting == map[] && v.inHand == {}
  }

  lemma CheckpointedStep(v: Volume, e: Event)
    requires Enabled(v, e)
    ensures Step(v, e).checkpointed == if e == Checkpoint then v.table else v.checkpointed
  {
  }

  /** From step `a` to step `b` no checkpoint completes. */
  ghost predicate NoCheckpoint(events: seq<Event>, a: nat, b: nat) {
    forall j :: a <= j < b <= |events| ==> events[j] != Checkpoint
  }

  /** What was checkpointed last changes only with a checkpoint. */
  ghost predicate CheckpointsFollow(states: seq<Volume>, events: seq<Event>) {
    |states| == |events| + 1 && forall k :: 0 <= k < |events| ==>
      states[k + 1].checkpointed == if events[k] == Checkpoint then states[k].table else states[k].checkpointed
  }

  lemma FollowCheckpoints(states: seq<Volume>, events: seq<Event>)
    requires IsRun(states, events)
    ensures CheckpointsFollow(states, events)
  {
    forall k | 0 <= k < |events| ensures
        states[k + 1].checkpointed == if events[k] == Checkpoint then states[k].table else states[k].checkpointed {
      CheckpointedStep(states[k], events[k]);
    }
  }

  /** So it is the table at the last checkpoint. */
  lemma {:induction false} LastCheckpoint(states: seq<Volume>, events: seq<Event>, c: nat, k: nat)
    requires CheckpointsFollow(states, events) && c < k <= |events|
    requires events[c] == Checkpoint && NoCheckpoint(events, c + 1, k)
    ensures states[k].checkpointed == states[c].table
  {
    if k > c + 1 {
      LastCheckpoint(states, events, c, k - 1);
    }
  }

  lemma {:induction false} NoCheckpointYet(states: seq<Volume>, events: seq<Event>, k: nat)
    requires CheckpointsFollow(states, events) && states[0].checkpointed == map[]
    requires k <= |events| && NoCheckpoint(events, 0, k)
    ensures states[k].checkpointed == map[]
  {
    if k > 0 {
      NoCheckpointYet(states, events, k - 1);
    }
  }

  lemma CrashStep(v: Volume)
    ensures var v' := Step(v, Crash);
            && v'.table == v.checkpointed == v'.checkpointed && Forgotten(v')
            && v'.objects == v.objects && v'.used == v.used && v'.checkpoints == v.checkpoints
  {
  }

  /** A crash brings back the records as they were when the last checkpoint before it
      completed, and nothing else is lost of what is in the store. */
  lemma CrashRestores(states: seq<Volume>, events: seq<Event>, c: nat, k: nat)
    requires IsRun(states, events) && c < k < |events| && events[k] == Crash && events[c] == Checkpoint
    requires NoCheckpoint(events, c + 1, k)
    ensures states[k + 1].table == states[c].table && Forgotten(states[k + 1])
    ensures states[k + 1].objects == states[k].objects && states[k + 1].used == states[k].used
  {
    FollowCheckpoints(states, events);
    LastCheckpoint(states, events, c, k);
    CrashStep(states[k]);
  }

  /** Without one it leaves no record. */
  lemma CrashLosesAll(states: seq<Volume>, events: seq<Event>, k: nat)
    requires IsRun(states, events) && k < |events| && events[k] == Crash && NoCheckpoint(events, 0, k)
    ensures states[k + 1].table == map[] && Forgotten(states[k + 1])
    ensures states[k + 1].objects == states[k].objects && states[k + 1].used == states[k].used
  {
    FollowCheckpoints(states, events);
    NoCheckpointYet(states, events, k);
    CrashStep(states[k]);
  }

  // ----- what inodes count -----

  /** The count of segment `s` in inode `i`, if it has one. */
  function CountIn(inodes: map<nat, CachedInode>, i: nat, s: nat): Option<nat> {
    if i in inodes && s in inodes[i].counts then Some(inodes[i].counts[s]) else None
  }

  function CountOf(counts: map<nat, nat>, s: nat): Option<nat> {
    if s in counts then Some(counts[s]) else None
  }

  /** What an event makes of that count. */
  function Said(e: Event, was: Option<nat>, i: nat, s: nat): Option<nat> {
    match e
    case Create(j) => if j == i then None else was
    case Load(j, counts) => if j == i then CountOf(counts, s) else was
    case Purge(j) => if j == i then None else was
    case Begin(j, t, bytes) => if j == i && t == s then Some(bytes) else was
    case Recount(j, t, bytes) => if j == i && t == s then Some(bytes) else was
    case Gather(_, j) => if j == i && was == Some(0) then None else was
    case Leave(j) => if j == i then None else was
    case Crash => None
    case Steal(_, elements, combination, counts) =>
      if i == combination then CountOf(counts, s) else if i in elements then None else was
    case _ => was
  }

  function CountAfter(events: seq<Event>, i: nat, s: nat): Option<nat> {
    if events == [] then None
    else Said(events[|events| - 1], CountAfter(events[..|events| - 1], i, s), i, s)
  }

  /** Events that change the count of one inode only, or none. */
  lemma CountStepOfOne(v: Volume, e: Event, i: nat, s: nat)
    requires Enabled(v, e) && (e.Create? || e.Load? || e.Purge? || e.Begin? || e.Recount? || e.Leave?)
    ensures CountIn(Step(v, e).inodes, i, s) == Said(e, CountIn(v.inodes, i, s), i, s)
  {
  }

  lemma CountStepOfSteal(v: Volume, e: Event, i: nat, s: nat)
    requires Enabled(v, e) && e.Steal?
    ensures CountIn(Step(v, e).inodes, i, s) == Said(e, CountIn(v.inodes, i, s), i, s)
  {
  }

  lemma CountStepOfFlush(v: Volume, e: Event, i: nat, s: nat)
    requires Enabled(v, e) && (e.Gather? || e.PutRecords?)
    ensures CountIn(Step(v, e).inodes, i, s) == Said(e, CountIn(v.inodes, i, s), i, s)
  {
  }

  lemma CountStep(v: Volume, e: Event, i: nat, s: nat)
    requires Enabled(v, e)
    ensures CountIn(Step(v, e).inodes, i, s) == Said(e, CountIn(v.inodes, i, s), i, s)
  {
    if e.Create? || e.Load? || e.Purge? || e.Begin? || e.Recount? || e.Leave? {
      CountStepOfOne(v, e, i, s);
    } else if e.Gather? || e.PutRecords? {
      CountStepOfFlush(v, e, i, s);
    } else if e.Steal? {
      CountStepOfSteal(v, e, i, s);
    }
  }

  /** In every state of every run inodes count what the events say, and nothing else. */
  lemma {:induction false} CountsAreHistory(states: seq<Volume>, events: seq<Event>, k: nat, i: nat, s: nat)
    requires IsRun(states, events) && k <= |events|
    ensures CountIn(states[k].inodes, i, s) == CountAfter(events[..k], i, s)
  {
    if k > 0 {
      CountsAreHistory(states, events, k - 1, i, s);
      CountStep(states[k - 1], events[k - 1], i, s);
      assert events[..k][..k - 1] == events[..k - 1];
    }
  }

  /** An inode is in memory. */
  function InMemoryAfter(events: seq<Event>, i: nat): bool {
    if events == [] then false else
    match events[|events| - 1]
    case Create(j) => j == i || InMemoryAfter(events[..|events| - 1], i)
    case Load(j, _) => j == i || InMemoryAfter(events[..|events| - 1], i)
    case Purge(j) => j != i && InMemoryAfter(events[..|events| - 1], i)
    case Leave(j) => j != i && InMemoryAfter(events[..|events| - 1], i)
    case Crash => false
    case _ => InMemoryAfter(events[..|events| - 1], i)
  }

  lemma InMemoryStep(v: Volume, e: Event, i: nat)
    requires Enabled(v, e)
    ensures i in Step(v, e).inodes <==>
            match e
            case Create(j) => j == i || i in v.inodes
            case Load(j, _) => j == i || i in v.inodes
            case Purge(j) => j != i && i in v.inodes
            case Leave(j) => j != i && i in v.inodes
            case Crash => false
            case _ => i in v.inodes
  {
  }

  lemma {:induction false} MemoryIsHistory(states: seq<Volume>, events: seq<Event>, k: nat, i: nat)
    requires IsRun(states, events) && k <= |events|
    ensures i in states[k].inodes <==> InMemoryAfter(events[..k], i)
  {
    if k > 0 {
      MemoryIsHistory(states, events, k - 1, i);
      InMemoryStep(states[k - 1], events[k - 1], i);
      assert events[..k][..k - 1] == events[..k - 1];
    }
  }

  // ----- which objects there are -----

  /** The object of a segment exists once its stream has ended, be it by a flush, until it is deleted. */
  function ObjectAfter(events: seq<Event>, s: nat): bool {
    if events == [] then false else
    match events[|events| - 1]
    case Close(t) => t == s || ObjectAfter(events[..|events| - 1], s)
    case Gather(_, i) => CountAfter(events[..|events| - 1], i, s).Some? || ObjectAfter(events[..|events| - 1], s)
    case Reap(t) => t != s && ObjectAfter(events[..|events| - 1], s)
    case _ => ObjectAfter(events[..|events| - 1], s)
  }

  lemma ObjectStep(v: Volume, e: Event, s: nat)
    requires Enabled(v, e)
    ensures s in Step(v, e).objects <==>
            match e
            case Close(t) => t == s || s in v.objects
            case Gather(_, i) => CountIn(v.inodes, i, s).Some? || s in v.objects
            case Reap(t) => t != s && s in v.objects
            case _ => s in v.objects
  {
  }

  lemma {:induction false} ObjectsAreHistory(states: seq<Volume>, events: seq<Event>, k: nat, s: nat)
    requires IsRun(states, events) && k <= |events|
    ensures s in states[k].objects <==> ObjectAfter(events[..k], s)
  {
    if k > 0 {
      ObjectsAreHistory(states, events, k - 1, s);
      ObjectStep(states[k - 1], events[k - 1], s);
      assert events[..k][..k - 1] == events[..k - 1];
      if events[k - 1].Gather? {
        CountsAreHistory(states, events, k - 1, events[k - 1].i, s);
      }
    }
  }

  // ----- what waits to be deleted -----

  function CheckpointsIn(events: seq<Event>): nat {
    if events == [] then 0
    else CheckpointsIn(events[..|events| - 1]) + if events[|events| - 1] == Checkpoint then 1 else 0
  }

  /** How many checkpoints had completed when the deletion of the segment was scheduled, if it waits. */
  function WaitAfter(events: seq<Event>, s: nat): Option<nat> {
    if events == [] then None else
    match events[|events| - 1]
    case Schedule(t) => if t == s then Some(CheckpointsIn(events)) else WaitAfter(events[..|events| - 1], s)
    case Reap(t) => if t == s then None else WaitAfter(events[..|events| - 1], s)
    case Crash => None
    case _ => WaitAfter(events[..|events| - 1], s)
  }

  lemma CheckpointsStep(v: Volume, e: Event)
    requires Enabled(v, e)
    ensures Step(v, e).checkpoints == v.checkpoints + if e == Checkpoint then 1 else 0
  {
  }

  lemma {:induction false} CheckpointsAreCounted(states: seq<Volume>, events: seq<Event>, k: nat)
    requires IsRun(states, events) && k <= |events|
    ensures states[k].checkpoints == CheckpointsIn(events[..k])
  {
    if k > 0 {
      CheckpointsAreCounted(states, events, k - 1);
      CheckpointsStep(states[k - 1], events[k - 1]);
      assert events[..k][..k - 1] == events[..k - 1];
    }
  }

  ghost predicate Waits(waiting: map<nat, int>, s: nat, since: Option<nat>) {
    if since.Some? then s in waiting && waiting[s] == since.value else s !in waiting
  }

  lemma WaitingStep(v: Volume, e: Event, s: nat, since: Option<nat>)
    requires Enabled(v, e) && DroppedOnce(v.flushes, v.held.Keys) && Waits(v.waiting, s, since)
    ensures Waits(Step(v, e).waiting, s,
                  match e
                  case Schedule(t) => if t == s then Some(v.checkpoints) else since
                  case Reap(t) => if t == s then None else since
                  case Crash => None
                  case _ => since)
  {
  }

  /** In every state of every orderly run a segment waits to be deleted exactly if its deletion was scheduled,
      by no flush that waits for nothing, and neither done nor forgotten in a crash since. */
  lemma {:induction false} WaitingIsHistory(states: seq<Volume>, events: seq<Event>, k: nat, s: nat)
    requires OrderlyRun(states, events) && k <= |events|
    ensures Waits(states[k].waiting, s, WaitAfter(events[..k], s))
  {
    if k > 0 {
      WaitingIsHistory(states, events, k - 1, s);
      RunsAreSafe(states, events, k - 1);
      CheckpointsAreCounted(states, events, k - 1);
      WaitingStep(states[k - 1], events[k - 1], s, WaitAfter(events[..k - 1], s));
      assert events[..k][..k - 1] == events[..k - 1];
    }
  }

  // ----- where records come from -----

  /** At step `g` flush `f` converted the record of the inode. */
  ghost predicate Converts(states: seq<Volume>, events: seq<Event>, g: nat, f: nat, i: nat, record: set<nat>)
    requires IsRun(states, events)
  {
    && g < |events| && events[g] == Gather(f, i) && i in states[g].inodes && states[g].inodes[i].dirty
    && record == set s | s in states[g].inodes[i].counts && states[g].inodes[i].counts[s] > 0
  }

  /** Before step `k` some flush did. */
  ghost predicate WasConverted(states: seq<Volume>, events: seq<Event>, k: nat, i: nat, record: set<nat>)
    requires IsRun(states, events)
  {
    exists g: nat, f: nat :: g < k && Converts(states, events, g, f, i, record)
  }

  ghost predicate AllConverted(states: seq<Volume>, events: seq<Event>, k: nat, records: Records)
    requires IsRun(states, events)
  {
    forall i :: i in records ==> WasConverted(states, events, k, i, records[i])
  }

  lemma KeptPositive(inode: CachedInode)
    ensures Kept(inode).Keys == set s | s in inode.counts && inode.counts[s] > 0
  {
  }

  lemma LaterConverted(states: seq<Volume>, events: seq<Event>, k: nat, records: Records)
    requires IsRun(states, events) && AllConverted(states, events, k, records)
    ensures AllConverted(states, events, k + 1, records)
  {
    forall i | i in records ensures WasConverted(states, events, k + 1, i, records[i]) {
      assert WasConverted(states, events, k, i, records[i]);
      var g: nat, f: nat :| g < k && Converts(states, events, g, f, i, records[i]);
      assert g < k + 1 && Converts(states, events, g, f, i, records[i]);
    }
  }

  ghost predicate FlushesConverted(states: seq<Volume>, events: seq<Event>, k: nat, flushes: map<nat, Flush>)
    requires IsRun(states, events)
  {
    forall f :: f in flushes ==> AllConverted(states, events, k, flushes[f].records)
  }

  ghost predicate RecordsConverted(states: seq<Volume>, events: seq<Event>, k: nat)
    requires IsRun(states, events) && k <= |events|
  {
    && AllConverted(states, events, k, states[k].table) && AllConverted(states, events, k, states[k].checkpointed)
    && FlushesConverted(states, events, k, states[k].flushes)
  }

  lemma RecordsAfter(v: Volume, e: Event)
    requires Enabled(v, e)
    ensures Step(v, e).table ==
            match e
            case PutRecords(f) => v.table + v.flushes[f].records
            case DeleteRecord(i) => v.table - {i}
            case Crash => v.checkpointed
            case _ => v.table
  {
  }

  lemma FlushAfter(v: Volume, e: Event, f: nat)
    requires Enabled(v, e) && f in Step(v, e).flushes
    ensures var flush := Step(v, e).flushes[f];
            if e.Gather? && e.f == f && e.i in v.inodes && v.inodes[e.i].dirty then
              f in v.flushes && flush.records == v.flushes[f].records[e.i := Kept(v.inodes[e.i]).Keys]
            else flush.records == map[] || (f in v.flushes && flush.records == v.flushes[f].records)
  {
    if f !in v.flushes {
      NewFlush(v, e, f);
    } else if !Of(f, e) && e != Crash {
      OtherFlush(v, e, f);
    } else {
      OwnFlush(v, e, f);
    }
  }

  lemma NewFlush(v: Volume, e: Event, f: nat)
    requires Enabled(v, e) && f !in v.flushes && f in Step(v, e).flushes
    ensures Step(v, e).flushes[f].records == map[] && !e.Gather?
  {
  }

  lemma OwnFlush(v: Volume, e: Event, f: nat)
    requires Enabled(v, e) && f in v.flushes && Of(f, e) && f in Step(v, e).flushes
    ensures e.Gather? && e.f == f && Step(v, e).flushes[f].records ==
            if e.i in v.inodes && v.inodes[e.i].dirty then v.flushes[f].records[e.i := Kept(v.inodes[e.i]).Keys]
            else v.flushes[f].records
  {
  }

  lemma TableConverted(states: seq<Volume>, events: seq<Event>, k: nat)
    requires IsRun(states, events) && k < |events| && RecordsConverted(states, events, k)
    ensures AllConverted(states, events, k + 1, states[k + 1].table)
    ensures AllConverted(states, events, k + 1, states[k + 1].checkpointed)
  {
    RecordsAfter(states[k], events[k]);
    CheckpointedStep(states[k], events[k]);
    LaterConverted(states, events, k, states[k].table);
    LaterConverted(states, events, k, states[k].checkpointed);
    if events[k].PutRecords? {
      LaterConverted(states, events, k, states[k].flushes[events[k].f].records);
    }
  }

  lemma FlushConverted(states: seq<Volume>, events: seq<Event>, k: nat, f: nat)
    requires IsRun(states, events) && k < |events| && RecordsConverted(states, events, k)
    requires f in states[k + 1].flushes
    ensures AllConverted(states, events, k + 1, states[k + 1].flushes[f].records)
  {
    var v, e := states[k], events[k];
    FlushAfter(v, e, f);
    if f in v.flushes {
      LaterConverted(states, events, k, v.flushes[f].records);
    }
    if e.Gather? && e.f == f && e.i in v.inodes && v.inodes[e.i].dirty {
      KeptPositive(v.inodes[e.i]);
      assert Converts(states, events, k, f, e.i, Kept(v.inodes[e.i]).Keys);
    }
  }

  /** In every state of every run each record, current, checkpointed or about to be put, names exactly the
      segments of which its inode counted a byte when some flush came to it. */
  lemma {:induction false} RecordsWereCounted(states: seq<Volume>, events: seq<Event>, k: nat)
    requires IsRun(states, events) && k <= |events|
    ensures RecordsConverted(states, events, k)
  {
    if k > 0 {
      RecordsWereCounted(states, events, k - 1);
      TableConverted(states, events, k - 1);
      forall f | f in states[k].flushes ensures AllConverted(states, events, k, states[k].flushes[f].records) {
        FlushConverted(states, events, k - 1, f);
      }
    }
  }

  /** Between the two steps flush `f` does nothing to its record of inode `i`, and there is no crash. */
  ghost predicate Undisturbed(events: seq<Event>, a: nat, b: nat, f: nat, i: nat)
    requires b <= |events|
  {
    forall k :: a <= k < b ==>
      && events[k] != Gather(f, i) && events[k] != PutRecords(f) && events[k] != EndFlush(f) && events[k] != Crash
  }

  lemma RecordKept(v: Volume, e: Event, f: nat, i: nat)
    requires Enabled(v, e) && f in v.flushes && i in v.flushes[f].records
    requires e != Gather(f, i) && e != PutRecords(f) && e != EndFlush(f) && e != Crash
    ensures f in Step(v, e).flushes && i in Step(v, e).flushes[f].records
    ensures Step(v, e).flushes[f].records[i] == v.flushes[f].records[i]
  {
    if !Of(f, e) {
      OtherFlush(v, e, f);
    }
  }

  lemma {:induction false} RecordStays(states: seq<Volume>, events: seq<Event>, a: nat, b: nat, f: nat, i: nat)
    requires IsRun(states, events) && a <= b <= |events| && Undisturbed(events, a, b, f, i)
    requires f in states[a].flushes && i in states[a].flushes[f].records
    ensures f in states[b].flushes && i in states[b].flushes[f].records
    ensures states[b].flushes[f].records[i] == states[a].flushes[f].records[i]
  {
    if a < b {
      RecordStays(states, events, a, b - 1, f, i);
      RecordKept(states[b - 1], events[b - 1], f, i);
    }
  }

  /** Whatever happens meanwhile, a flush puts the record it has converted last: the segments
      of which the inode counted a byte at its turn. */
  lemma PutIsConverted(states: seq<Volume>, events: seq<Event>, g: nat, p: nat, f: nat, i: nat, record: set<nat>)
    requires IsRun(states, events) && g < p < |events| && Converts(states, events, g, f, i, record)
    requires events[p] == PutRecords(f) && Undisturbed(events, g + 1, p, f, i)
    ensures i in states[p + 1].table && states[p + 1].table[i] == record
  {
    FlushAfter(states[g], events[g], f);
    KeptPositive(states[g].inodes[i]);
    RecordStays(states, events, g + 1, p, f, i);
    RecordsAfter(states[p], events[p]);
  }

  /** The event leaves the count of the segment in the inode alone, unless that is zero. */
  ghost predicate Silent(e: Event, i: nat, s: nat) {
    forall n: nat :: n > 0 ==> Said(e, Some(n), i, s) == Some(n)
  }

  /** It leaves it alone, zero or not. */
  ghost predicate Mute(e: Event, i: nat, s: nat) {
    forall n: nat :: Said(e, Some(n), i, s) == Some(n)
  }

  lemma {:induction false} CountLasts(events: seq<Event>, j: nat, i: nat, s: nat, bytes: nat)
    requires j < |events| && Said(events[j], CountAfter(events[..j], i, s), i, s) == Some(bytes)
    requires forall k :: j < k < |events| ==> if bytes > 0 then Silent(events[k], i, s) else Mute(events[k], i, s)
    ensures CountAfter(events, i, s) == Some(bytes)
  {
    var k := |events| - 1;
    if j < k {
      assert events[..k][..j] == events[..j];
      CountLasts(events[..k], j, i, s, bytes);
    }
  }

  /** What an inode was last told to count of a segment decides whether the next record of the inode names it. */
  lemma LastCountDecides(states: seq<Volume>, events: seq<Event>, j: nat, g: nat, p: nat, f: nat,
                         i: nat, s: nat, bytes: nat)
    requires IsRun(states, events) && j < g < p < |events|
    requires events[j] == Recount(i, s, bytes) || events[j] == Begin(i, s, bytes)
    requires forall k :: j < k < g ==> if bytes > 0 then Silent(events[k], i, s) else Mute(events[k], i, s)
    requires events[g] == Gather(f, i) && i in states[g].inodes && states[g].inodes[i].dirty
    requires events[p] == PutRecords(f) && Undisturbed(events, g + 1, p, f, i)
    ensures i in states[p + 1].table && (s in states[p + 1].table[i] <==> bytes > 0)
  {
    assert events[..g][..j] == events[..j];
    CountLasts(events[..g], j, i, s, bytes);
    CountsAreHistory(states, events, g, i, s);
    var record := set t | t in states[g].inodes[i].counts && states[g].inodes[i].counts[t] > 0;
    PutIsConverted(states, events, g, p, f, i, record);
  }

  /** The flush is not over between the two steps. */
  ghost predicate GoesOn(events: seq<Event>, a: nat, b: nat, f: nat)
    requires b <= |events|
  {
    forall k :: a <= k < b ==> events[k] != PutRecords(f) && events[k] != EndFlush(f) && events[k] != Crash
  }

  lemma DroppedKept(v: Volume, e: Event, f: nat, s: nat)
    requires Enabled(v, e) && Drops(v.flushes, f, s) && e != PutRecords(f) && e != EndFlush(f) && e != Crash
    ensures Drops(Step(v, e).flushes, f, s)
  {
    if !Of(f, e) {
      OtherFlush(v, e, f);
    }
  }

  lemma {:induction false} DroppedStays(states: seq<Volume>, events: seq<Event>, a: nat, b: nat, f: nat, s: nat)
    requires IsRun(states, events) && a <= b <= |events| && GoesOn(events, a, b, f) && Drops(states[a].flushes, f, s)
    ensures Drops(states[b].flushes, f, s)
  {
    if a < b {
      DroppedStays(states, events, a, b - 1, f, s);
      DroppedKept(states[b - 1], events[b - 1], f, s);
    }
  }

  /** Whatever happens meanwhile, a segment of which a flush finds no byte counted is given up when the flush puts its
      records. */
  lemma EmptiedIsGivenUp(states: seq<Volume>, events: seq<Event>, g: nat, p: nat, f: nat, i: nat, s: nat)
    requires IsRun(states, events) && g < p < |events| && events[g] == Gather(f, i)
    requires CountIn(states[g].inodes, i, s) == Some(0)
    requires events[p] == PutRecords(f) && GoesOn(events, g + 1, p, f)
    ensures s in states[p + 1].inHand && CountIn(states[g + 1].inodes, i, s) == None
  {
    assert Drops(states[g + 1].flushes, f, s);
    DroppedStays(states, events, g + 1, p, f, s);
  }
}
