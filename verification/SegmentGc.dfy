/** When log segments are deleted: flushes and destroyed inodes give segments up,
deletions wait for a checkpoint, and a crash falls back to the last one.

A flush, a destroy and a coalesce each take several steps, and anything may come
between two of them, operations on the same inodes included: a move flushes files
it has not locked. Each step keeps the volume in order exactly when it is `Orderly`.
*/
module SegmentGc {
  import opened Common

  /** An inode in memory: its byte count per log segment, and whether it was changed since its record was put. */
  datatype CachedInode = CachedInode(counts: map<nat, nat>, dirty: bool)

  /** A flush under way: the inodes whose turn is still to come, those it has been through, the
      records it has converted but not put, and the segments it has dropped from its inodes. */
  datatype Flush = Flush(due: set<nat>, done: set<nat>, records: map<nat, set<nat>>, emptied: set<nat>)

  /** `table` are the inode records (the segments each names) and `checkpointed` those
      of the last completed checkpoint; `leaving` are the segments of the inodes being destroyed;
      `held` maps each segment an inode in memory counts to that inode; `waiting` maps a
      segment to be deleted to the number of checkpoints completed when its deletion was
      scheduled, or to -1 if it waits for none; `inHand` are segments given up whose
      deletion is not scheduled yet; `used` are all segment numbers ever handed out. */
  datatype Volume = Volume(
    inodes: map<nat, CachedInode>, table: map<nat, set<nat>>, checkpointed: map<nat, set<nat>>,
    flushes: map<nat, Flush>, leaving: map<nat, set<nat>>, held: map<nat, nat>,
    objects: set<nat>, waiting: map<nat, int>, inHand: set<nat>, checkpoints: nat, used: set<nat>)

  type Records = map<nat, set<nat>>

  ghost predicate Names(records: Records, i: nat, s: nat) {
    i in records && s in records[i]
  }

  /** Flush `f` has dropped the segment and not given it up yet. */
  ghost predicate Drops(flushes: map<nat, Flush>, f: nat, s: nat) {
    f in flushes && s in flushes[f].emptied
  }

  /** Inode `i` counts the segment, in memory. */
  ghost predicate CountsIt(inodes: map<nat, CachedInode>, i: nat, s: nat) {
    i in inodes && s in inodes[i].counts
  }

  ghost predicate Stored(records: Records, objects: set<nat>) {
    forall i, s :: Names(records, i, s) ==> s in objects
  }

  /** No record, current or checkpointed, names a segment whose object is gone. */
  ghost predicate Safe(v: Volume) {
    Stored(v.table, v.objects) && Stored(v.checkpointed, v.objects)
  }

  ghost predicate NamedOnce(records: Records) {
    forall i, j, s :: Names(records, i, s) && Names(records, j, s) ==> i == j
  }

  /** The record of an inode not changed names just what is counted, none of it empty. */
  ghost predicate UpToDate(inodes: map<nat, CachedInode>, table: Records) {
    forall i :: i in inodes && !inodes[i].dirty ==>
      i in table && table[i] == inodes[i].counts.Keys && Emptied(inodes[i].counts) == {}
  }

  /** No two inodes in memory count the same segment. */
  ghost predicate HeldOnce(inodes: map<nat, CachedInode>, leaving: Records, held: map<nat, nat>) {
    && (forall i, s :: CountsIt(inodes, i, s) ==> s in held && held[s] == i)
    && (forall i, s :: Names(leaving, i, s) ==> s in held && held[s] == i)
    && leaving.Keys !! inodes.Keys
  }

  /** What the record of an inode not in memory names nobody holds and no flush has dropped. */
  ghost predicate Unloaded(table: Records, inMemory: set<nat>, held: set<nat>, flushes: map<nat, Flush>) {
    && (forall i, s :: Names(table, i, s) && i !in inMemory ==> s !in held)
    && (forall i, s, f :: Names(table, i, s) && i !in inMemory ==> !Drops(flushes, f, s))
  }

  function InMemory(v: Volume): set<nat> {
    v.inodes.Keys + v.leaving.Keys
  }

  /** What a flush has dropped nobody counts, and one that has nothing to put has dropped nothing. */
  ghost predicate DroppedOnce(flushes: map<nat, Flush>, held: set<nat>) {
    && (forall f, s :: Drops(flushes, f, s) ==> s !in held)
    && (forall f, g, s :: Drops(flushes, f, s) && Drops(flushes, g, s) ==> f == g)
    && (forall f :: f in flushes && flushes[f].records == map[] ==> flushes[f].emptied == {})
  }

  /** A segment given up is counted by no inode and named by no record. */
  ghost predicate GivenUp(gone: set<nat>, held: set<nat>, table: Records) {
    gone !! held && forall i, s :: Names(table, i, s) ==> s !in gone
  }

  /** Once a checkpoint followed its scheduling, by none of that checkpoint either. */
  ghost predicate Overdue(waiting: map<nat, int>, checkpoints: nat, checkpointed: Records) {
    && (forall s, i :: s in waiting && Names(checkpointed, i, s) ==> waiting[s] >= checkpoints)
    && (forall s :: s in waiting ==> waiting[s] <= checkpoints)
  }

  ghost predicate Known(v: Volume) {
    && v.held.Keys + v.waiting.Keys + v.inHand <= v.used
    && Stored(v.table, v.used) && Stored(v.checkpointed, v.used) && FlushesKnown(v.flushes, v.used)
  }

  ghost predicate FlushesKnown(flushes: map<nat, Flush>, used: set<nat>) {
    forall f :: f in flushes ==>
      flushes[f].emptied <= used && Stored(flushes[f].records, used) && flushes[f].records.Keys <= flushes[f].done
  }

  /** A volume in order. */
  ghost predicate Inv(v: Volume) {
    && Safe(v) && NamedOnce(v.table) && NamedOnce(v.checkpointed) && UpToDate(v.inodes, v.table)
    && HeldOnce(v.inodes, v.leaving, v.held) && Unloaded(v.table, InMemory(v), v.held.Keys, v.flushes)
    && DroppedOnce(v.flushes, v.held.Keys) && GivenUp(v.waiting.Keys + v.inHand, v.held.Keys, v.table)
    && Overdue(v.waiting, v.checkpoints, v.checkpointed) && Known(v)
  }

  function Empty(): Volume {
    Volume(map[], map[], map[], map[], map[], map[], {}, map[], {}, 0, {})
  }

  // ----- what a changed field leaves as it was -----

  lemma UpToDateWith(inodes: map<nat, CachedInode>, table: Records, i: nat, inode: CachedInode)
    requires UpToDate(inodes, table)
    requires inode.dirty || (i in inodes && inodes[i] == inode)
    ensures UpToDate(inodes[i := inode], table)
  {
  }

  /** Inode `i` may come to hold more, or less. */
  lemma HeldWith(inodes: map<nat, CachedInode>, leaving: Records, held: map<nat, nat>, i: nat, inode: CachedInode,
                 held': map<nat, nat>)
    requires HeldOnce(inodes, leaving, held) && i !in leaving
    requires HeldBy(held', i, inode.counts.Keys) && SameFor(held, held', i)
    ensures HeldOnce(inodes[i := inode], leaving, held')
  {
    var inodes' := inodes[i := inode];
    forall j, s | CountsIt(inodes', j, s) ensures s in held' && held'[s] == j {
      assert j != i ==> CountsIt(inodes, j, s);
    }
  }

  ghost predicate HeldBy(held: map<nat, nat>, i: nat, segments: set<nat>) {
    forall s :: s in segments ==> s in held && held[s] == i
  }

  /** All but inode `i` hold what they held. */
  ghost predicate SameFor(held: map<nat, nat>, held': map<nat, nat>, i: nat) {
    forall s :: s in held && held[s] != i ==> s in held' && held'[s] == held[s]
  }

  lemma CountedHeld(inodes: map<nat, CachedInode>, leaving: Records, held: map<nat, nat>, i: nat)
    requires HeldOnce(inodes, leaving, held) && i in inodes
    ensures HeldBy(held, i, inodes[i].counts.Keys)
  {
    assert forall s :: s in inodes[i].counts ==> CountsIt(inodes, i, s);
  }

  lemma UnloadedStill(table: Records, inMemory: set<nat>, inMemory': set<nat>, held: set<nat>, held': set<nat>,
                      flushes: map<nat, Flush>, flushes': map<nat, Flush>)
    requires Unloaded(table, inMemory, held, flushes) && inMemory <= inMemory'
    requires forall j, s :: Names(table, j, s) && s in held' - held ==> j in inMemory'
    requires forall f, s :: Drops(flushes', f, s) && s !in held ==> Drops(flushes, f, s)
    ensures Unloaded(table, inMemory', held', flushes')
  {
  }

  lemma DroppedStill(flushes: map<nat, Flush>, flushes': map<nat, Flush>, held: set<nat>, held': set<nat>)
    requires DroppedOnce(flushes, held)
    requires forall f, s :: Drops(flushes', f, s) ==> Drops(flushes, f, s) && s !in held' - held
    requires forall f :: f in flushes' && flushes'[f].records == map[] ==> flushes'[f].emptied == {}
    ensures DroppedOnce(flushes', held')
  {
  }

  lemma StoredIn(records: Records, objects: set<nat>, objects': set<nat>)
    requires Stored(records, objects) && objects <= objects'
    ensures Stored(records, objects')
  {
  }

  /** A flush is added that has dropped nothing, and the segments held are the same. */
  lemma FlushAdded(v: Volume, v': Volume, f: nat)
    requires DroppedOnce(v.flushes, v.held.Keys) && Unloaded(v.table, InMemory(v), v.held.Keys, v.flushes)
    requires FlushesKnown(v.flushes, v.used)
    requires f in v'.flushes && v'.flushes == v.flushes[f := v'.flushes[f]] && v'.held.Keys == v.held.Keys
    requires f !in v.flushes
    requires v'.flushes[f].emptied == {} && v'.flushes[f].records == map[]
    ensures DroppedOnce(v'.flushes, v'.held.Keys) && Unloaded(v.table, InMemory(v), v'.held.Keys, v'.flushes)
    ensures FlushesKnown(v'.flushes, v.used)
  {
    UnloadedStill(v.table, InMemory(v), InMemory(v), v.held.Keys, v'.held.Keys, v.flushes, v'.flushes);
    DroppedStill(v.flushes, v'.flushes, v.held.Keys, v'.held.Keys);
    assert Stored(map[], v.used);
  }

  // ----- inodes and their segments -----

  function Created(v: Volume, i: nat): Volume {
    v.(inodes := v.inodes[i := CachedInode(map[], true)])
  }

  lemma CreatedInv(v: Volume, i: nat)
    requires Inv(v) && i !in v.inodes && i !in v.table && i !in v.leaving
    ensures Inv(Created(v, i))
  {
    var v' := Created(v, i);
    UpToDateWith(v.inodes, v.table, i, v'.inodes[i]);
    HeldWith(v.inodes, v.leaving, v.held, i, v'.inodes[i], v.held);
    UnloadedStill(v.table, InMemory(v), InMemory(v'), v.held.Keys, v.held.Keys, v.flushes, v.flushes);
  }

  /** fetchOnDiskInode: a record is brought into memory, as dirty. */
  function Loaded(v: Volume, i: nat, counts: map<nat, nat>): Volume {
    v.(inodes := v.inodes[i := CachedInode(counts, true)], held := v.held + map s | s in counts :: i)
  }

  /** What the record names is free for the inode to hold. */
  lemma LoadedFree(v: Volume, i: nat, counts: map<nat, nat>)
    requires NamedOnce(v.table) && Unloaded(v.table, InMemory(v), v.held.Keys, v.flushes) && Known(v)
    requires GivenUp(v.waiting.Keys + v.inHand, v.held.Keys, v.table)
    requires i !in v.inodes && i in v.table && counts.Keys == v.table[i] && i !in v.leaving
    ensures var held := Loaded(v, i, counts).held;
            && HeldBy(held, i, counts.Keys) && SameFor(v.held, held, i) && held.Keys == v.held.Keys + counts.Keys
            && held.Keys <= v.used && GivenUp(v.waiting.Keys + v.inHand, held.Keys, v.table)
    ensures forall j, s :: Names(v.table, j, s) && s in counts ==> j == i
    ensures forall f, s :: Drops(v.flushes, f, s) ==> s !in counts
  {
    assert forall s :: s in counts ==> Names(v.table, i, s);
  }

  lemma LoadedInv(v: Volume, i: nat, counts: map<nat, nat>)
    requires Inv(v) && i !in v.inodes && i in v.table && counts.Keys == v.table[i] && i !in v.leaving
    ensures Inv(Loaded(v, i, counts))
  {
    var v' := Loaded(v, i, counts);
    LoadedFree(v, i, counts);
    UpToDateWith(v.inodes, v.table, i, v'.inodes[i]);
    HeldWith(v.inodes, v.leaving, v.held, i, v'.inodes[i], v'.held);
    UnloadedStill(v.table, InMemory(v), InMemory(v'), v.held.Keys, v'.held.Keys, v.flushes, v.flushes);
    DroppedStill(v.flushes, v.flushes, v.held.Keys, v'.held.Keys);
  }

  lemma LoadedInvIff(v: Volume, i: nat, counts: map<nat, nat>)
    requires Inv(v) && i !in v.inodes && i in v.table && counts.Keys == v.table[i]
    ensures Inv(Loaded(v, i, counts)) <==> i !in v.leaving
  {
    if i !in v.leaving {
      LoadedInv(v, i, counts);
    } else {
      assert i in Loaded(v, i, counts).inodes;
    }
  }

  /** A clean inode leaves memory. */
  function Purged(v: Volume, i: nat): Volume
    requires i in v.inodes
  {
    v.(inodes := v.inodes - {i}, held := v.held - v.inodes[i].counts.Keys)
  }

  lemma PurgedHeld(v: Volume, i: nat)
    requires HeldOnce(v.inodes, v.leaving, v.held) && i in v.inodes && HeldBy(v.held, i, v.inodes[i].counts.Keys)
    ensures var v' := Purged(v, i); HeldOnce(v'.inodes, v'.leaving, v'.held)
  {
    assert forall j, s :: CountsIt(Purged(v, i).inodes, j, s) ==> CountsIt(v.inodes, j, s) && j != i;
  }

  lemma PurgedUnloaded(v: Volume, i: nat)
    requires Unloaded(v.table, InMemory(v), v.held.Keys, v.flushes) && DroppedOnce(v.flushes, v.held.Keys)
    requires i in v.inodes && HeldBy(v.held, i, v.inodes[i].counts.Keys)
    requires i in v.table && v.table[i] == v.inodes[i].counts.Keys
    ensures var v' := Purged(v, i); Unloaded(v'.table, InMemory(v'), v'.held.Keys, v'.flushes)
  {
  }

  lemma PurgedInv(v: Volume, i: nat)
    requires Inv(v) && i in v.inodes && !v.inodes[i].dirty
    ensures Inv(Purged(v, i))
  {
    var v' := Purged(v, i);
    CountedHeld(v.inodes, v.leaving, v.held, i);
    PurgedHeld(v, i);
    PurgedUnloaded(v, i);
    DroppedStill(v.flushes, v.flushes, v.held.Keys, v'.held.Keys);
    assert v'.held.Keys <= v.held.Keys;
  }

  /** A write begins a segment, numbered as none before. */
  function Begun(v: Volume, i: nat, s: nat, bytes: nat): Volume
    requires i in v.inodes
  {
    v.(inodes := v.inodes[i := CachedInode(v.inodes[i].counts[s := bytes], true)],
       held := v.held[s := i], used := v.used + {s})
  }

  lemma BegunUnseen(v: Volume, s: nat)
    requires Known(v) && HeldOnce(v.inodes, v.leaving, v.held) && s !in v.used
    ensures forall j :: !Names(v.table, j, s)
    ensures forall f :: !Drops(v.flushes, f, s)
    ensures s !in v.held && s !in v.waiting.Keys + v.inHand
  {
  }

  lemma BegunKnown(v: Volume, s: nat)
    requires Known(v)
    ensures Stored(v.table, v.used + {s}) && Stored(v.checkpointed, v.used + {s})
    ensures FlushesKnown(v.flushes, v.used + {s})
  {
    forall f | f in v.flushes ensures Stored(v.flushes[f].records, v.used + {s}) {
      StoredIn(v.flushes[f].records, v.used, v.used + {s});
    }
  }

  lemma BegunHeld(v: Volume, i: nat, s: nat, bytes: nat)
    requires HeldOnce(v.inodes, v.leaving, v.held) && i in v.inodes && s !in v.held
    ensures var v' := Begun(v, i, s, bytes); HeldOnce(v'.inodes, v'.leaving, v'.held) && InMemory(v') == InMemory(v)
  {
    var v' := Begun(v, i, s, bytes);
    CountedHeld(v.inodes, v.leaving, v.held, i);
    HeldWith(v.inodes, v.leaving, v.held, i, v'.inodes[i], v'.held);
  }

  lemma BegunInv(v: Volume, i: nat, s: nat, bytes: nat)
    requires Inv(v) && i in v.inodes && s !in v.used
    ensures Inv(Begun(v, i, s, bytes))
  {
    var v' := Begun(v, i, s, bytes);
    BegunUnseen(v, s);
    BegunKnown(v, s);
    UpToDateWith(v.inodes, v.table, i, v'.inodes[i]);
    BegunHeld(v, i, s, bytes);
    UnloadedStill(v.table, InMemory(v), InMemory(v), v.held.Keys, v'.held.Keys, v.flushes, v.flushes);
    DroppedStill(v.flushes, v.flushes, v.held.Keys, v'.held.Keys);
  }

  /** Writes and truncations change a count, down to zero if they will. */
  function Recounted(v: Volume, i: nat, s: nat, bytes: nat): Volume
    requires i in v.inodes
  {
    v.(inodes := v.inodes[i := CachedInode(v.inodes[i].counts[s := bytes], true)])
  }

  lemma RecountedInv(v: Volume, i: nat, s: nat, bytes: nat)
    requires Inv(v) && i in v.inodes && s in v.inodes[i].counts
    ensures Inv(Recounted(v, i, s, bytes))
  {
    var v' := Recounted(v, i, s, bytes);
    assert v'.inodes[i].counts.Keys == v.inodes[i].counts.Keys;
    assert InMemory(v') == InMemory(v);
    UpToDateWith(v.inodes, v.table, i, v'.inodes[i]);
    CountedHeld(v.inodes, v.leaving, v.held, i);
    HeldWith(v.inodes, v.leaving, v.held, i, v'.inodes[i], v.held);
  }

  /** In the background the stream of a segment ends and its object exists. */
  function Closed(v: Volume, s: nat): Volume {
    v.(objects := v.objects + {s})
  }

  lemma ClosedInv(v: Volume, s: nat)
    requires Inv(v)
    ensures Inv(Closed(v, s))
  {
  }

  // ----- flushing -----

  /** A call of flushInodes. */
  function Started(v: Volume, f: nat, inos: set<nat>): Volume {
    v.(flushes := v.flushes[f := Flush(inos, {}, map[], {})])
  }

  lemma StartedInv(v: Volume, f: nat, inos: set<nat>)
    requires Inv(v) && f !in v.flushes
    ensures Inv(Started(v, f, inos))
  {
    FlushAdded(v, Started(v, f, inos), f);
  }

  /** What an inode counts once its empty counts are dropped. */
  function Kept(inode: CachedInode): map<nat, nat> {
    inode.counts - Emptied(inode.counts)
  }

  /** The flush once inode `i`, found in memory, has had its turn: its record is converted, to be put later, if it is
      dirty. */
  function FlushWith(flush: Flush, i: nat, inode: CachedInode): Flush {
    Flush(flush.due - {i}, flush.done + {i},
          if inode.dirty then flush.records[i := Kept(inode).Keys] else flush.records,
          flush.emptied + Emptied(inode.counts))
  }

  /** One inode of a flush: its data is in the store, its counts of zero are dropped
      and its record is converted. One that has left memory meanwhile is passed over. */
  function Gathered(v: Volume, f: nat, i: nat): Volume
    requires f in v.flushes
  {
    var flush := v.flushes[f];
    if i !in v.inodes then v.(flushes := v.flushes[f := flush.(due := flush.due - {i}, done := flush.done + {i})]) else
    var inode := v.inodes[i];
    v.(inodes := v.inodes[i := inode.(counts := Kept(inode))],
       flushes := v.flushes[f := FlushWith(flush, i, inode)],
       held := v.held - Emptied(inode.counts),
       objects := v.objects + inode.counts.Keys)
  }

  lemma KeptIsKept(inode: CachedInode)
    ensures Emptied(Kept(inode)) == {} && Kept(inode).Keys == inode.counts.Keys - Emptied(inode.counts)
    ensures Emptied(inode.counts) == {} ==> Kept(inode) == inode.counts
  {
  }

  lemma GatheredHeld(v: Volume, f: nat, i: nat)
    requires HeldOnce(v.inodes, v.leaving, v.held) && f in v.flushes && i in v.inodes
    ensures var v' := Gathered(v, f, i); HeldOnce(v'.inodes, v'.leaving, v'.held) && InMemory(v') == InMemory(v)
    ensures v.inodes[i].counts.Keys <= v.held.Keys
  {
    var v' := Gathered(v, f, i);
    KeptIsKept(v.inodes[i]);
    CountedHeld(v.inodes, v.leaving, v.held, i);
    HeldWith(v.inodes, v.leaving, v.held, i, v'.inodes[i], v'.held);
  }

  lemma GatheredUpToDate(v: Volume, f: nat, i: nat)
    requires UpToDate(v.inodes, v.table) && f in v.flushes && i in v.inodes
    ensures UpToDate(Gathered(v, f, i).inodes, v.table)
    ensures Emptied(v.inodes[i].counts) != {} ==> v.inodes[i].dirty
  {
    KeptIsKept(v.inodes[i]);
    UpToDateWith(v.inodes, v.table, i, Gathered(v, f, i).inodes[i]);
  }

  lemma GatheredDropped(v: Volume, f: nat, i: nat)
    requires DroppedOnce(v.flushes, v.held.Keys) && f in v.flushes && i in v.inodes
    requires v.inodes[i].counts.Keys <= v.held.Keys && (Emptied(v.inodes[i].counts) != {} ==> v.inodes[i].dirty)
    ensures var v' := Gathered(v, f, i); DroppedOnce(v'.flushes, v'.held.Keys)
    ensures forall g, s :: Drops(Gathered(v, f, i).flushes, g, s) && s !in v.held ==> Drops(v.flushes, g, s)
    ensures Gathered(v, f, i).held.Keys <= v.held.Keys
  {
    var v' := Gathered(v, f, i);
    assert v.inodes[i].dirty ==> i in v'.flushes[f].records;
    forall g, s | Drops(v'.flushes, g, s)
      ensures Drops(v.flushes, g, s) || (g == f && s in v.held && s in Emptied(v.inodes[i].counts))
    {}
  }

  lemma GatheredKnown(v: Volume, f: nat, i: nat)
    requires FlushesKnown(v.flushes, v.used) && f in v.flushes && i in v.inodes && v.inodes[i].counts.Keys <= v.used
    ensures FlushesKnown(Gathered(v, f, i).flushes, v.used)
  {
    var records := v.flushes[f].records[i := Kept(v.inodes[i]).Keys];
    forall j, s | Names(records, j, s) ensures s in v.used {
      assert j != i ==> Names(v.flushes[f].records, j, s);
    }
  }

  lemma PassedOver(v: Volume, f: nat, i: nat)
    requires Inv(v) && f in v.flushes && i !in v.inodes
    ensures Inv(Gathered(v, f, i))
  {
    var v' := Gathered(v, f, i);
    UnloadedStill(v.table, InMemory(v), InMemory(v), v.held.Keys, v.held.Keys, v.flushes, v'.flushes);
    DroppedStill(v.flushes, v'.flushes, v.held.Keys, v.held.Keys);
  }

  lemma GatheredInv(v: Volume, f: nat, i: nat)
    requires Inv(v) && f in v.flushes
    ensures Inv(Gathered(v, f, i))
  {
    var v' := Gathered(v, f, i);
    if i in v.inodes {
      GatheredHeld(v, f, i);
      GatheredUpToDate(v, f, i);
      GatheredDropped(v, f, i);
      GatheredKnown(v, f, i);
      UnloadedStill(v.table, InMemory(v), InMemory(v), v.held.Keys, v'.held.Keys, v.flushes, v'.flushes);
      StoredIn(v.table, v.objects, v'.objects);
      StoredIn(v.checkpointed, v.objects, v'.objects);
    } else {
      PassedOver(v, f, i);
    }
  }

  function Cleaned(inodes: map<nat, CachedInode>, inos: set<nat>): map<nat, CachedInode> {
    map i | i in inodes :: if i in inos then inodes[i].(dirty := false) else inodes[i]
  }

  /** The records a flush has converted are put together, and its inodes marked clean. */
  function RecordsPut(v: Volume, f: nat): Volume
    requires f in v.flushes
  {
    var flush := v.flushes[f];
    v.(inodes := Cleaned(v.inodes, flush.done), table := v.table + flush.records,
       flushes := v.flushes - {f}, inHand := v.inHand + flush.emptied)
  }

  /** What is to be put is stored and not given up, and is no more than the inode's own if that is not in memory. */
  ghost predicate PutsOwn(v: Volume, f: nat)
    requires f in v.flushes
  {
    var records := v.flushes[f].records;
    && Stored(records, v.objects)
    && (forall i, s :: Names(records, i, s) ==> s !in v.waiting && s !in v.inHand)
    && (forall i, s :: Names(records, i, s) && i !in InMemory(v) ==> s !in v.held)
    && (forall i, s, g :: Names(records, i, s) && i !in InMemory(v) && g != f ==> !Drops(v.flushes, g, s))
  }

  /** No other record names it then, nor does any record name what the flush has dropped. */
  ghost predicate PutsOnce(v: Volume, f: nat)
    requires f in v.flushes
  {
    var table := v.table + v.flushes[f].records;
    NamedOnce(table) && forall i, s :: Names(table, i, s) ==> s !in v.flushes[f].emptied
  }

  /** No inode of the flush has changed since it had its turn. */
  ghost predicate PutsLatest(v: Volume, f: nat)
    requires f in v.flushes
  {
    var table := v.table + v.flushes[f].records;
    forall i :: i in v.flushes[f].done && i in v.inodes ==>
      i in table && table[i] == v.inodes[i].counts.Keys && Emptied(v.inodes[i].counts) == {}
  }

  ghost predicate Current(v: Volume, f: nat)
    requires f in v.flushes
  {
    PutsOwn(v, f) && PutsOnce(v, f) && PutsLatest(v, f)
  }

  lemma NamedAfter(table: Records, records: Records)
    ensures forall i, s :: Names(table + records, i, s) <==>
              if i in records then Names(records, i, s) else Names(table, i, s)
  {
  }

  lemma RecordsPutStored(v: Volume, f: nat)
    requires Inv(v) && f in v.flushes && PutsOwn(v, f)
    ensures Safe(RecordsPut(v, f)) && Known(RecordsPut(v, f))
  {
    NamedAfter(v.table, v.flushes[f].records);
  }

  lemma RecordsPutUpToDate(v: Volume, f: nat)
    requires UpToDate(v.inodes, v.table) && f in v.flushes && PutsLatest(v, f)
    requires v.flushes[f].records.Keys <= v.flushes[f].done
    ensures var v' := RecordsPut(v, f); UpToDate(v'.inodes, v'.table)
  {
  }

  lemma RecordsPutHeld(v: Volume, f: nat)
    requires Inv(v) && f in v.flushes
    ensures var v' := RecordsPut(v, f);
            && HeldOnce(v'.inodes, v'.leaving, v'.held) && DroppedOnce(v'.flushes, v'.held.Keys)
            && v.flushes[f].emptied !! v.held.Keys
  {
    var v' := RecordsPut(v, f);
    assert forall i, s :: CountsIt(v'.inodes, i, s) ==> CountsIt(v.inodes, i, s);
    DroppedStill(v.flushes, v'.flushes, v.held.Keys, v.held.Keys);
    assert forall s :: s in v.flushes[f].emptied ==> Drops(v.flushes, f, s);
  }

  lemma RecordsPutGivenUp(v: Volume, f: nat)
    requires f in v.flushes && PutsOwn(v, f) && PutsOnce(v, f) && v.flushes[f].emptied !! v.held.Keys
    requires GivenUp(v.waiting.Keys + v.inHand, v.held.Keys, v.table)
    ensures var v' := RecordsPut(v, f); GivenUp(v'.waiting.Keys + v'.inHand, v'.held.Keys, v'.table)
  {
    NamedAfter(v.table, v.flushes[f].records);
  }

  lemma RecordsPutUnloaded(v: Volume, f: nat)
    requires f in v.flushes && PutsOwn(v, f) && Unloaded(v.table, InMemory(v), v.held.Keys, v.flushes)
    ensures var v' := RecordsPut(v, f); Unloaded(v'.table, InMemory(v'), v'.held.Keys, v'.flushes)
  {
    var v' := RecordsPut(v, f);
    NamedAfter(v.table, v.flushes[f].records);
    assert InMemory(v') == InMemory(v);
    assert forall g, s :: Drops(v'.flushes, g, s) <==> Drops(v.flushes, g, s) && g != f;
  }

  lemma InOrderPutsOwn(v: Volume, f: nat)
    requires Inv(v) && f in v.flushes && Inv(RecordsPut(v, f))
    ensures PutsOwn(v, f) && PutsOnce(v, f)
  {
    var v' := RecordsPut(v, f);
    NamedAfter(v.table, v.flushes[f].records);
    assert InMemory(v') == InMemory(v);
    assert forall g, s :: Drops(v'.flushes, g, s) <==> Drops(v.flushes, g, s) && g != f;
  }

  lemma InOrderPutsLatest(v: Volume, f: nat)
    requires f in v.flushes && UpToDate(RecordsPut(v, f).inodes, RecordsPut(v, f).table)
    ensures PutsLatest(v, f)
  {
    var v' := RecordsPut(v, f);
    assert forall i :: i in v.flushes[f].done && i in v.inodes ==> i in v'.inodes && !v'.inodes[i].dirty;
  }

  /** Putting the records of a flush keeps the volume in order exactly when they are current. */
  lemma RecordsPutInvIff(v: Volume, f: nat)
    requires Inv(v) && f in v.flushes
    ensures Inv(RecordsPut(v, f)) <==> Current(v, f)
  {
    if Current(v, f) {
      RecordsPutStored(v, f);
      RecordsPutUpToDate(v, f);
      RecordsPutHeld(v, f);
      RecordsPutGivenUp(v, f);
      RecordsPutUnloaded(v, f);
    }
    if Inv(RecordsPut(v, f)) {
      InOrderPutsOwn(v, f);
      InOrderPutsLatest(v, f);
    }
  }

  /** A flush that has nothing to put ends; what it has dropped is deleted without waiting for a checkpoint. */
  function Ended(v: Volume, f: nat): Volume
    requires f in v.flushes
  {
    v.(flushes := v.flushes - {f}, waiting := v.waiting + map s | s in v.flushes[f].emptied :: -1)
  }

  lemma EndedInv(v: Volume, f: nat)
    requires Inv(v) && f in v.flushes && v.flushes[f].records == map[]
    ensures Inv(Ended(v, f)) && Ended(v, f).waiting == v.waiting
  {
    var v' := Ended(v, f);
    assert v'.waiting == v.waiting;
    UnloadedStill(v.table, InMemory(v), InMemory(v), v.held.Keys, v.held.Keys, v.flushes, v'.flushes);
    DroppedStill(v.flushes, v'.flushes, v.held.Keys, v.held.Keys);
  }

  /** deleteLogSegmentAsync with the wait group of the next checkpoint. */
  function Scheduled(v: Volume, s: nat): Volume {
    v.(waiting := v.waiting[s := v.checkpoints], inHand := v.inHand - {s})
  }

  lemma ScheduledInv(v: Volume, s: nat)
    requires Inv(v) && s in v.inHand
    ensures Inv(Scheduled(v, s))
  {
  }

  // ----- destroying -----

  /** The first part of a destroy: the inode leaves memory. */
  function Left(v: Volume, i: nat): Volume
    requires i in v.inodes
  {
    v.(inodes := v.inodes - {i}, leaving := v.leaving[i := v.inodes[i].counts.Keys])
  }

  lemma LeftHeld(v: Volume, i: nat)
    requires HeldOnce(v.inodes, v.leaving, v.held) && i in v.inodes
    ensures var v' := Left(v, i); HeldOnce(v'.inodes, v'.leaving, v'.held)
  {
    var v' := Left(v, i);
    assert forall j, s :: CountsIt(v'.inodes, j, s) ==> CountsIt(v.inodes, j, s) && j != i;
    assert forall j, s :: Names(v'.leaving, j, s) ==> Names(v.leaving, j, s) || CountsIt(v.inodes, j, s);
  }

  lemma LeftInv(v: Volume, i: nat)
    requires Inv(v) && i in v.inodes
    ensures Inv(Left(v, i))
  {
    var v' := Left(v, i);
    assert InMemory(v') == InMemory(v);
    LeftHeld(v, i);
    assert UpToDate(v'.inodes, v'.table);
  }

  /** The second part: the record is deleted, and all the inode counted is given up. */
  function RecordDeleted(v: Volume, i: nat): Volume
    requires i in v.leaving
  {
    v.(table := v.table - {i}, leaving := v.leaving - {i},
       held := v.held - v.leaving[i], inHand := v.inHand + v.leaving[i])
  }

  /** No record but its own names what the inode counted. */
  ghost predicate LeavesAlone(v: Volume, i: nat)
    requires i in v.leaving
  {
    forall j :: j in v.table && j != i ==> v.table[j] !! v.leaving[i]
  }

  lemma RecordDeletedOwners(v: Volume, i: nat)
    requires Inv(v) && i in v.leaving
    ensures var v' := RecordDeleted(v, i);
            && HeldOnce(v'.inodes, v'.leaving, v'.held) && Unloaded(v'.table, InMemory(v'), v'.held.Keys, v'.flushes)
            && DroppedOnce(v'.flushes, v'.held.Keys) && v.leaving[i] <= v.held.Keys
  {
    var v' := RecordDeleted(v, i);
    assert forall j, s :: Names(v'.table, j, s) <==> Names(v.table, j, s) && j != i;
    assert forall j, s :: Names(v'.leaving, j, s) <==> Names(v.leaving, j, s) && j != i;
    assert forall s :: s in v.leaving[i] ==> Names(v.leaving, i, s);
  }

  lemma RecordDeletedInv(v: Volume, i: nat)
    requires Inv(v) && i in v.leaving && LeavesAlone(v, i)
    ensures Inv(RecordDeleted(v, i))
  {
    var v' := RecordDeleted(v, i);
    RecordDeletedOwners(v, i);
    RecordDeletedRecords(v, i);
  }

  lemma RecordDeletedRecords(v: Volume, i: nat)
    requires Inv(v) && i in v.leaving && LeavesAlone(v, i) && v.leaving[i] <= v.held.Keys
    ensures var v' := RecordDeleted(v, i);
            && Safe(v') && NamedOnce(v'.table) && UpToDate(v'.inodes, v'.table) && Known(v')
            && GivenUp(v'.waiting.Keys + v'.inHand, v'.held.Keys, v'.table)
  {
    var v' := RecordDeleted(v, i);
    assert forall j, s :: Names(v'.table, j, s) <==> Names(v.table, j, s) && j != i;
  }

  lemma RecordDeletedInvIff(v: Volume, i: nat)
    requires Inv(v) && i in v.leaving
    ensures Inv(RecordDeleted(v, i)) <==> LeavesAlone(v, i)
  {
    var v' := RecordDeleted(v, i);
    if LeavesAlone(v, i) {
      RecordDeletedInv(v, i);
    } else {
      var j, s :| j in v.table && j != i && s in v.table[j] && s in v.leaving[i];
      assert Names(v'.table, j, s) && s in v'.inHand;
    }
  }

  // ----- checkpoints, deletions, crashes -----

  /** A checkpoint completes: the records now in the table are the ones to fall
      back to, and deletions scheduled before it may proceed. */
  function CheckpointTaken(v: Volume): Volume {
    v.(checkpointed := v.table, checkpoints := v.checkpoints + 1)
  }

  lemma CheckpointTakenInv(v: Volume)
    requires Inv(v)
    ensures Inv(CheckpointTaken(v))
  {
  }

  /** A deletion happens, once a checkpoint has followed its scheduling. */
  predicate MayReap(v: Volume, s: nat) {
    s in v.waiting && v.waiting[s] < v.checkpoints
  }

  function Reaped(v: Volume, s: nat): Volume {
    v.(waiting := v.waiting - {s}, objects := v.objects - {s})
  }

  lemma ReapedInv(v: Volume, s: nat)
    requires Inv(v) && MayReap(v, s)
    ensures Inv(Reaped(v, s))
  {
  }

  /** A crash and the restart: what was only in memory is gone, scheduled deletions with it. */
  function Crashed(v: Volume): Volume {
    v.(inodes := map[], table := v.checkpointed, flushes := map[], leaving := map[], held := map[],
       waiting := map[], inHand := {})
  }

  lemma CrashedInv(v: Volume)
    requires Inv(v)
    ensures Inv(Crashed(v))
  {
  }

  // ----- coalescing -----

  function CountedIn(v: Volume, inos: set<nat>): set<nat>
    requires inos <= v.inodes.Keys
  {
    set i, s | i in inos && s in v.inodes[i].counts.Keys :: s
  }

  /** The elements were flushed, the combination counts nothing yet, and what it will count is what they count. */
  predicate CoalesceReady(v: Volume, elements: set<nat>, combination: nat, counts: map<nat, nat>) {
    && elements <= v.inodes.Keys && combination in v.inodes && combination !in elements
    && v.inodes[combination].counts == map[]
    && (forall i :: i in elements ==> !v.inodes[i].dirty)
    && counts.Keys == CountedIn(v, elements)
  }

  /** The elements' segments become the combination's, in memory, and the flush of all of them begins. */
  function Stolen(v: Volume, f: nat, elements: set<nat>, combination: nat, counts: map<nat, nat>): Volume {
    v.(inodes := (map i | i in v.inodes ::
         if i in elements then CachedInode(map[], true) else v.inodes[i])[combination := CachedInode(counts, true)],
       held := v.held + (map s | s in counts :: combination),
       flushes := v.flushes[f := Flush(elements + {combination}, {}, map[], {})])
  }

  lemma StolenTaken(v: Volume, elements: set<nat>, combination: nat, counts: map<nat, nat>, s: nat)
    requires HeldOnce(v.inodes, v.leaving, v.held) && CoalesceReady(v, elements, combination, counts) && s in counts
    ensures s in v.held && v.held[s] in elements
  {
    var e :| e in elements && s in v.inodes[e].counts.Keys;
    assert CountsIt(v.inodes, e, s);
  }

  lemma StolenHeld(v: Volume, f: nat, elements: set<nat>, combination: nat, counts: map<nat, nat>)
    requires HeldOnce(v.inodes, v.leaving, v.held) && CoalesceReady(v, elements, combination, counts)
    requires forall s :: s in counts ==> s in v.held && v.held[s] in elements
    ensures var v' := Stolen(v, f, elements, combination, counts); HeldOnce(v'.inodes, v'.leaving, v'.held)
  {
    var v' := Stolen(v, f, elements, combination, counts);
    forall i, s | CountsIt(v'.inodes, i, s) ensures s in v'.held && v'.held[s] == i {
      if i != combination {
        assert i !in elements && CountsIt(v.inodes, i, s);
      }
    }
    forall i, s | Names(v'.leaving, i, s) ensures s in v'.held && v'.held[s] == i {
      assert Names(v.leaving, i, s);
    }
  }

  lemma StolenShape(v: Volume, f: nat, elements: set<nat>, combination: nat, counts: map<nat, nat>)
    requires CoalesceReady(v, elements, combination, counts) && counts.Keys <= v.held.Keys
    ensures var v' := Stolen(v, f, elements, combination, counts);
            v'.held.Keys == v.held.Keys && InMemory(v') == InMemory(v)
  {
  }

  lemma StolenInv(v: Volume, f: nat, elements: set<nat>, combination: nat, counts: map<nat, nat>)
    requires Inv(v) && CoalesceReady(v, elements, combination, counts) && f !in v.flushes
    ensures Inv(Stolen(v, f, elements, combination, counts))
  {
    var v' := Stolen(v, f, elements, combination, counts);
    forall s | s in counts ensures s in v.held && v.held[s] in elements {
      StolenTaken(v, elements, combination, counts, s);
    }
    StolenHeld(v, f, elements, combination, counts);
    StolenShape(v, f, elements, combination, counts);
    StolenUpToDate(v, f, elements, combination, counts);
    FlushAdded(v, v', f);
  }

  lemma StolenUpToDate(v: Volume, f: nat, elements: set<nat>, combination: nat, counts: map<nat, nat>)
    requires UpToDate(v.inodes, v.table)
    ensures UpToDate(Stolen(v, f, elements, combination, counts).inodes, v.table)
  {
  }

  /** Once a coalesce has put its records, each segment of the combination is named and counted by
      it alone, and destroying an element gives up nothing. */
  lemma CoalescedElementsHoldNothing(v: Volume, f: nat, combination: nat, e: nat, s: nat)
    requires Inv(v) && f in v.flushes && Current(v, f) && combination in v.flushes[f].done && combination in v.inodes
    requires e in v.inodes && v.inodes[e].counts == map[] && s in v.inodes[combination].counts
    ensures var v' := RecordsPut(v, f);
            && (forall i :: Names(v'.table, i, s) <==> i == combination)
            && (forall i :: CountsIt(v'.inodes, i, s) <==> i == combination)
            && RecordDeleted(Left(v', e), e).inHand == v'.inHand
  {
    var v' := RecordsPut(v, f);
    RecordsPutInvIff(v, f);
    assert Names(v'.table, combination, s) && CountsIt(v'.inodes, combination, s);
  }

  // ----- runs -----

  datatype Event =
    | Create(i: nat)
    | Load(i: nat, counts: map<nat, nat>)
    | Purge(i: nat)
    | Begin(i: nat, s: nat, bytes: nat)
    | Recount(i: nat, s: nat, bytes: nat)
    | Close(s: nat)
    | StartFlush(f: nat, inos: set<nat>)
    | Gather(f: nat, i: nat)
    | PutRecords(f: nat)
    | EndFlush(f: nat)
    | Schedule(s: nat)
    | Leave(i: nat)
    | DeleteRecord(i: nat)
    | Checkpoint
    | Reap(s: nat)
    | Crash
    | Steal(f: nat, elements: set<nat>, combination: nat, counts: map<nat, nat>)

  predicate Enabled(v: Volume, e: Event) {
    match e
    case Create(i) => i !in v.inodes && i !in v.table && i !in v.leaving
    case Load(i, counts) => i !in v.inodes && i in v.table && counts.Keys == v.table[i]
    case Purge(i) => i in v.inodes && !v.inodes[i].dirty
    case Begin(i, s, _) => i in v.inodes && s !in v.used
    case Recount(i, s, _) => i in v.inodes && s in v.inodes[i].counts
    case Close(s) => s in v.held
    case StartFlush(f, inos) => f !in v.flushes && inos <= v.inodes.Keys
    case Gather(f, i) => f in v.flushes && i in v.flushes[f].due + v.flushes[f].done
    case PutRecords(f) => f in v.flushes && v.flushes[f].due == {} && v.flushes[f].records != map[]
    case EndFlush(f) => f in v.flushes && v.flushes[f].due == {} && v.flushes[f].records == map[]
    case Schedule(s) => s in v.inHand
    case Leave(i) => i in v.inodes
    case DeleteRecord(i) => i in v.leaving
    case Checkpoint => true
    case Reap(s) => MayReap(v, s)
    case Crash => true
    case Steal(f, elements, combination, counts) => f !in v.flushes && CoalesceReady(v, elements, combination, counts)
  }

  function Step(v: Volume, e: Event): Volume
    requires Enabled(v, e)
  {
    match e
    case Create(i) => Created(v, i)
    case Load(i, counts) => Loaded(v, i, counts)
    case Purge(i) => Purged(v, i)
    case Begin(i, s, bytes) => Begun(v, i, s, bytes)
    case Recount(i, s, bytes) => Recounted(v, i, s, bytes)
    case Close(s) => Closed(v, s)
    case StartFlush(f, inos) => Started(v, f, inos)
    case Gather(f, i) => Gathered(v, f, i)
    case PutRecords(f) => RecordsPut(v, f)
    case EndFlush(f) => Ended(v, f)
    case Schedule(s) => Scheduled(v, s)
    case Leave(i) => Left(v, i)
    case DeleteRecord(i) => RecordDeleted(v, i)
    case Checkpoint => CheckpointTaken(v)
    case Reap(s) => Reaped(v, s)
    case Crash => Crashed(v)
    case Steal(f, elements, combination, counts) => Stolen(v, f, elements, combination, counts)
  }

  /** Records are put while they are current, an inode being destroyed is not
      loaded again, and no other record names what it counted. */
  ghost predicate Orderly(v: Volume, e: Event)
    requires Enabled(v, e)
  {
    match e
    case Load(i, _) => i !in v.leaving
    case PutRecords(f) => Current(v, f)
    case DeleteRecord(i) => LeavesAlone(v, i)
    case _ => true
  }

  lemma StepInv(v: Volume, e: Event)
    requires Inv(v) && Enabled(v, e) && !e.Load? && !e.PutRecords? && !e.DeleteRecord?
    ensures Inv(Step(v, e))
  {
    match e
    case Create(i) => CreatedInv(v, i);
    case Purge(i) => PurgedInv(v, i);
    case Begin(i, s, bytes) => BegunInv(v, i, s, bytes);
    case Recount(i, s, bytes) => RecountedInv(v, i, s, bytes);
    case Close(s) => ClosedInv(v, s);
    case StartFlush(f, inos) => StartedInv(v, f, inos);
    case Gather(f, i) => GatheredInv(v, f, i);
    case EndFlush(f) => EndedInv(v, f);
    case Schedule(s) => ScheduledInv(v, s);
    case Leave(i) => LeftInv(v, i);
    case Checkpoint => CheckpointTakenInv(v);
    case Reap(s) => ReapedInv(v, s);
    case Crash => CrashedInv(v);
    case Steal(f, elements, combination, counts) => StolenInv(v, f, elements, combination, counts);
  }

  /** A step keeps a volume in order exactly when it is orderly. */
  lemma StepInvIff(v: Volume, e: Event)
    requires Inv(v) && Enabled(v, e)
    ensures Inv(Step(v, e)) <==> Orderly(v, e)
  {
    if e.Load? {
      LoadedInvIff(v, e.i, e.counts);
    } else if e.PutRecords? {
      RecordsPutInvIff(v, e.f);
    } else if e.DeleteRecord? {
      RecordDeletedInvIff(v, e.i);
    } else {
      StepInv(v, e);
    }
  }

  /** A run from the empty volume: its states, linked by enabled events. */
  ghost predicate IsRun(states: seq<Volume>, events: seq<Event>) {
    && |states| == |events| + 1 && states[0] == Empty()
    && forall k :: 0 <= k < |events| ==> Enabled(states[k], events[k]) && states[k + 1] == Step(states[k], events[k])
  }

  ghost predicate OrderlyRun(states: seq<Volume>, events: seq<Event>) {
    IsRun(states, events) && forall k :: 0 <= k < |events| ==> Orderly(states[k], events[k])
  }

  /** In every state of every orderly run, each segment a record names, in the table or in the last checkpoint, has
      its object. */
  lemma {:induction false} RunsAreSafe(states: seq<Volume>, events: seq<Event>, k: nat)
    requires OrderlyRun(states, events) && k < |states|
    ensures Inv(states[k]) && Safe(states[k])
  {
    if k > 0 {
      RunsAreSafe(states, events, k - 1);
      StepInvIff(states[k - 1], events[k - 1]);
    }
  }

  /** A run is orderly exactly when every state of it is in order. */
  lemma OrderlyIffInOrder(states: seq<Volume>, events: seq<Event>)
    requires IsRun(states, events)
    ensures OrderlyRun(states, events) <==> forall k :: 0 <= k < |states| ==> Inv(states[k])
  {
    if OrderlyRun(states, events) {
      forall k | 0 <= k < |states| ensures Inv(states[k]) {
        RunsAreSafe(states, events, k);
      }
    }
    if forall k :: 0 <= k < |states| ==> Inv(states[k]) {
      forall k | 0 <= k < |events| ensures Orderly(states[k], events[k]) {
        assert Inv(states[k]) && Inv(states[k + 1]);
        StepInvIff(states[k], events[k]);
      }
    }
  }

  lemma WaitingBefore(v: Volume, e: Event, s: nat)
    requires Enabled(v, e) && DroppedOnce(v.flushes, v.held.Keys) && s in Step(v, e).waiting && e != Schedule(s)
    ensures s in v.waiting && Step(v, e).waiting[s] == v.waiting[s]
  {
  }

  lemma SameCheckpoints(v: Volume, e: Event)
    requires Enabled(v, e) && e != Checkpoint
    ensures Step(v, e).checkpoints == v.checkpoints
  {
  }

  /** A deletion in the run was scheduled earlier in it, when the number of checkpoints was the one noted. */
  lemma {:induction false} WaitingWasScheduled(states: seq<Volume>, events: seq<Event>, k: nat, s: nat) returns (j: nat)
    requires OrderlyRun(states, events) && k < |states| && s in states[k].waiting
    ensures j < k && events[j] == Schedule(s) && states[j].checkpoints == states[k].waiting[s]
  {
    var v, e := states[k - 1], events[k - 1];
    if e == Schedule(s) {
      j := k - 1;
    } else {
      RunsAreSafe(states, events, k - 1);
      WaitingBefore(v, e, s);
      j := WaitingWasScheduled(states, events, k - 1, s);
    }
  }

  lemma {:induction false} CheckpointBetween(states: seq<Volume>, events: seq<Event>, j: nat, k: nat) returns (c: nat)
    requires IsRun(states, events) && j <= k < |states| && states[j].checkpoints < states[k].checkpoints
    ensures j <= c < k && events[c] == Checkpoint
  {
    if events[k - 1] == Checkpoint {
      c := k - 1;
    } else {
      SameCheckpoints(states[k - 1], events[k - 1]);
      c := CheckpointBetween(states, events, j, k - 1);
    }
  }

  /** An object is deleted only after a checkpoint that came after its segment
      was given up, when no record named it any more. */
  lemma DeletionFollowsCheckpoint(states: seq<Volume>, events: seq<Event>, k: nat, s: nat) returns (j: nat, c: nat)
    requires OrderlyRun(states, events) && k < |events| && events[k] == Reap(s)
    ensures j < c < k && events[j] == Schedule(s) && events[c] == Checkpoint
    ensures forall i :: !Names(states[j].table, i, s)
  {
    j := WaitingWasScheduled(states, events, k, s);
    c := CheckpointBetween(states, events, j, k);
    RunsAreSafe(states, events, j);
  }
}
