/** What becomes of a volume when flushes overlap other operations on their inodes, as those of a move may:
it locks the two directories only, and flushes the file moved and the file overwritten all the same.
*/
module StaleFlushes {
  import opened Common
  import opened SegmentGc

  /** A record put that names a segment on its way out is left naming it when the object goes, in the checkpoint too. */
  lemma GivenUpIsLost(v: Volume, f: nat, i: nat, s: nat)
    requires Inv(v) && f in v.flushes && Names(v.flushes[f].records, i, s) && s in v.waiting
    ensures var w := CheckpointTaken(RecordsPut(v, f));
            MayReap(w, s) && !Stored(Reaped(w, s).checkpointed, Reaped(w, s).objects)
  {
    var w := Reaped(CheckpointTaken(RecordsPut(v, f)), s);
    assert Names(w.checkpointed, i, s);
  }

  /** An inode marked clean though it was truncated since: its next flush has no record
      to put, and what it drops is deleted at once, while the record still names it. */
  lemma MarkedCleanIsLost(v: Volume, f: nat, g: nat, i: nat, s: nat)
    requires f in v.flushes && g !in v.flushes && i in v.flushes[f].done && i in v.inodes
    requires Names(v.table + v.flushes[f].records, i, s) && s in Emptied(v.inodes[i].counts)
    ensures var w := Gathered(Started(RecordsPut(v, f), g, {i}), g, i);
            Enabled(w, EndFlush(g)) && MayReap(Ended(w, g), s) && !Safe(Reaped(Ended(w, g), s))
  {
    var w := Gathered(Started(RecordsPut(v, f), g, {i}), g, i);
    assert !RecordsPut(v, f).inodes[i].dirty;
    assert s in w.flushes[g].emptied && w.flushes[g].records == map[];
    assert Names(Reaped(Ended(w, g), s).table, i, s);
  }

  /** An inode destroyed while another record names its segment takes the object with it. */
  lemma SharedIsLost(v: Volume, i: nat, j: nat, s: nat)
    requires i in v.leaving && s in v.leaving[i] && j != i && Names(v.table, j, s)
    ensures var w := CheckpointTaken(Scheduled(RecordDeleted(v, i), s)); MayReap(w, s) && !Safe(Reaped(w, s))
  {
    var w := CheckpointTaken(Scheduled(RecordDeleted(v, i), s));
    assert Names(Reaped(w, s).table, j, s);
  }

  // ----- runs that lead there -----

  /** `v` is reached by orderly steps. */
  ghost predicate Reached(v: Volume) {
    exists states, events :: OrderlyRun(states, events) && states[|events|] == v
  }

  lemma EmptyReached()
    ensures Reached(Empty())
  {
    assert OrderlyRun([Empty()], []);
  }

  lemma StepReached(v: Volume, e: Event)
    requires Reached(v) && Enabled(v, e) && Orderly(v, e)
    ensures Reached(Step(v, e))
  {
    var states, events :| OrderlyRun(states, events) && states[|events|] == v;
    var states', events' := states + [Step(v, e)], events + [e];
    assert OrderlyRun(states', events') by {
      forall k | 0 <= k < |events'|
        ensures Enabled(states'[k], events'[k]) && states'[k + 1] == Step(states'[k], events'[k])
        ensures Orderly(states'[k], events'[k])
      {}
    }
    assert states'[|events'|] == Step(v, e);
  }

  /** A move has stored and converted file 1, all of it in segment 7, and not put its record. */
  function Moving(): Volume {
    Volume(map[1 := CachedInode(map[7 := 5], true)], map[], map[], map[1 := Flush({}, {1}, map[1 := {7}], {})], map[],
           map[7 := 1], {7}, map[], {}, 0, {7})
  }

  /** The file before the move converts it. */
  function Written(): Volume {
    Volume(map[1 := CachedInode(map[7 := 5], true)], map[], map[], map[1 := Flush({1}, {}, map[], {})], map[],
           map[7 := 1], {}, map[], {}, 0, {7})
  }

  lemma WrittenReached()
    ensures Reached(Written())
  {
    EmptyReached();
    StepReached(Empty(), Create(1));
    var created := Created(Empty(), 1);
    StepReached(created, Begin(1, 7, 5));
    StepReached(Begun(created, 1, 7, 5), StartFlush(1, {1}));
    assert Started(Begun(created, 1, 7, 5), 1, {1}) == Written();
  }

  lemma WrittenGathered()
    ensures Gathered(Written(), 1, 1) == Moving()
  {
    assert Emptied(map[7 := 5]) == {};
    assert Kept(Written().inodes[1]) == map[7 := 5];
    assert Kept(Written().inodes[1]).Keys == {7};
    var v := Gathered(Written(), 1, 1);
    var flush := FlushWith(Flush({1}, {}, map[], {}), 1, Written().inodes[1]);
    assert flush.due == {} && flush.done == {1} && flush.emptied == {} && flush.records == map[1 := {7}];
    assert v.flushes == Moving().flushes;
    assert v.inodes == Moving().inodes && v.held == Moving().held && v.objects == {7};
  }

  lemma MovingReached()
    ensures Reached(Moving())
  {
    WrittenReached();
    WrittenGathered();
    StepReached(Written(), Gather(1, 1));
  }

  /** Meanwhile the file is truncated to nothing, and its own flush begins. */
  function Truncating(): Volume {
    Moving().(inodes := map[1 := CachedInode(map[7 := 0], true)],
              flushes := map[1 := Flush({}, {1}, map[1 := {7}], {}), 2 := Flush({1}, {}, map[], {})])
  }

  lemma TruncatingReached()
    ensures Reached(Truncating())
  {
    MovingReached();
    StepReached(Moving(), Recount(1, 7, 0));
    var recounted := Recounted(Moving(), 1, 7, 0);
    StepReached(recounted, StartFlush(2, {1}));
    assert recounted.inodes[1].counts == map[7 := 0] && recounted.inodes == Truncating().inodes;
    assert Started(recounted, 2, {1}).flushes == Truncating().flushes;
  }

  /** It drops segment 7. */
  function Truncated(): Volume {
    Volume(map[1 := CachedInode(map[], true)], map[], map[],
           map[1 := Flush({}, {1}, map[1 := {7}], {}), 2 := Flush({}, {1}, map[1 := {}], {7})], map[],
           map[], {7}, map[], {}, 0, {7})
  }

  lemma TruncatingGathered()
    ensures Gathered(Truncating(), 2, 1) == Truncated()
  {
    assert Emptied(map[7 := 0]) == {7};
    assert Kept(Truncating().inodes[1]) == map[];
    assert Kept(Truncating().inodes[1]).Keys == {};
    var v := Gathered(Truncating(), 2, 1);
    var flush := FlushWith(Flush({1}, {}, map[], {}), 1, Truncating().inodes[1]);
    assert flush.due == {} && flush.done == {1} && flush.emptied == {7} && flush.records == map[1 := {}];
    assert v.flushes == Truncated().flushes;
    assert v.inodes == Truncated().inodes && v.held == Truncated().held && v.objects == {7};
  }

  lemma TruncatedCurrent()
    ensures Enabled(Truncated(), PutRecords(2)) && Current(Truncated(), 2)
  {
    assert Emptied(map[]) == {};
    assert forall i, s :: !Names(map[1 := {}], i, s);
    var records := Truncated().flushes[2].records;
    assert records == map[1 := {}] && 1 in records && records != map[];
    assert Truncated().table + Truncated().flushes[2].records == map[1 := {}];
  }

  /** Its record is put, and segment 7 waits to be deleted. */
  function Flushed(): Volume {
    Scheduled(RecordsPut(Truncated(), 2), 7)
  }

  lemma FlushedReached()
    ensures Reached(Flushed())
  {
    TruncatingReached();
    TruncatingGathered();
    StepReached(Truncating(), Gather(2, 1));
    TruncatedCurrent();
    StepReached(Truncated(), PutRecords(2));
    StepReached(RecordsPut(Truncated(), 2), Schedule(7));
  }

  /** A truncation in the midst of a move: its flush gives segment 7 up, and then the move's brings the record back. */
  lemma TruncationOverlapped() returns (v: Volume)
    ensures Reached(v) && Enabled(v, PutRecords(1)) && !Orderly(v, PutRecords(1))
    ensures MayReap(CheckpointTaken(RecordsPut(v, 1)), 7) && !Safe(Reaped(CheckpointTaken(RecordsPut(v, 1)), 7))
  {
    v := Flushed();
    FlushedReached();
    ReachedInv(v);
    assert Names(v.flushes[1].records, 1, 7);
    GivenUpIsLost(v, 1, 1, 7);
  }

  lemma ReachedInv(v: Volume)
    requires Reached(v)
    ensures Inv(v)
  {
    var states, events :| OrderlyRun(states, events) && states[|events|] == v;
    RunsAreSafe(states, events, |events|);
  }

  /** An unlink of the file's last other name in the midst of a move: the destroy
      gives segment 7 up, and then the move brings the record back. */
  lemma DestroyOverlapped() returns (v: Volume)
    ensures Reached(v) && Enabled(v, PutRecords(1)) && !Orderly(v, PutRecords(1)) && 1 !in v.table && 1 !in v.inodes
    ensures MayReap(CheckpointTaken(RecordsPut(v, 1)), 7) && !Safe(Reaped(CheckpointTaken(RecordsPut(v, 1)), 7))
  {
    MovingReached();
    StepReached(Moving(), Leave(1));
    var left := Left(Moving(), 1);
    StepReached(left, DeleteRecord(1));
    var deleted := RecordDeleted(left, 1);
    StepReached(deleted, Schedule(7));
    v := Scheduled(deleted, 7);
    ReachedInv(v);
    assert Names(v.flushes[1].records, 1, 7);
    GivenUpIsLost(v, 1, 1, 7);
  }

  /** A truncation before the move's put, which then marks the file clean: the truncation's own
      flush deletes segment 7 at once, waiting for no checkpoint. */
  lemma TruncationMarkedClean() returns (v: Volume)
    ensures Reached(v) && Enabled(v, PutRecords(1)) && !Orderly(v, PutRecords(1))
    ensures var w := Gathered(Started(RecordsPut(v, 1), 2, {1}), 2, 1);
            Enabled(w, EndFlush(2)) && MayReap(Ended(w, 2), 7) && !Safe(Reaped(Ended(w, 2), 7))
  {
    MovingReached();
    StepReached(Moving(), Recount(1, 7, 0));
    v := Recounted(Moving(), 1, 7, 0);
    assert v.inodes[1].counts == map[7 := 0] && 7 in Emptied(v.inodes[1].counts);
    assert Names(v.table + v.flushes[1].records, 1, 7);
    MarkedCleanIsLost(v, 1, 2, 1, 7);
  }
}
