/** Where every operation has locked the inodes it works on, and keeps them locked to its end,
all steps are orderly: no flush finds an inode changed that it has converted.
*/
module LockedFlushes {
  import opened Common
  import opened SegmentGc

  /** Flush `f` works on inode `i`. */
  ghost predicate At(flushes: map<nat, Flush>, f: nat, i: nat) {
    f in flushes && i in flushes[f].due + flushes[f].done
  }

  /** No flush works on the inode. */
  ghost predicate Idle(flushes: map<nat, Flush>, i: nat) {
    forall f :: !At(flushes, f, i)
  }

  ghost predicate Dirty(inodes: map<nat, CachedInode>, i: nat) {
    i in inodes && inodes[i].dirty
  }

  /** The step is on inodes nobody else works on, for an operation begins by locking them. */
  ghost predicate Locked(v: Volume, e: Event) {
    match e
    case Create(i) => Idle(v.flushes, i) && i !in v.leaving
    case Load(i, _) => Idle(v.flushes, i) && i !in v.leaving
    case Purge(i) => Idle(v.flushes, i)
    case Begin(i, _, _) => Idle(v.flushes, i)
    case Recount(i, _, _) => Idle(v.flushes, i)
    case StartFlush(_, inos) => forall i :: i in inos ==> Idle(v.flushes, i)
    case Leave(i) => Idle(v.flushes, i)
    case Steal(_, elements, combination, _) => forall i :: i in elements + {combination} ==> Idle(v.flushes, i)
    case _ => true
  }

  // ----- what locks keep -----

  /** The inodes of a flush stay in memory, and no two flushes work on one. */
  ghost predicate Apart(flushes: map<nat, Flush>, inMemory: set<nat>) {
    && (forall f, i :: At(flushes, f, i) ==> i in inMemory)
    && (forall f, g, i :: At(flushes, f, i) && At(flushes, g, i) ==> f == g)
  }

  /** An inode that had its turn is as it was then: stored, and converted exactly if dirty. */
  ghost predicate AsConverted(flush: Flush, i: nat, inode: CachedInode, objects: set<nat>) {
    && inode.counts.Keys <= objects && Emptied(inode.counts) == {}
    && (inode.dirty <==> i in flush.records)
    && (i in flush.records ==> flush.records[i] == inode.counts.Keys)
  }

  ghost predicate Converted(flushes: map<nat, Flush>, inodes: map<nat, CachedInode>, objects: set<nat>) {
    forall f, i :: f in flushes && i in flushes[f].done && i in inodes ==>
        AsConverted(flushes[f], i, inodes[i], objects)
  }

  ghost predicate Together(flushes: map<nat, Flush>, i: nat, j: nat) {
    exists f :: At(flushes, f, i) && At(flushes, f, j)
  }

  /** A record that names what another inode holds, or what a flush has dropped, is about to be put anew. */
  ghost predicate Crossed(table: Records, held: map<nat, nat>, flushes: map<nat, Flush>,
                          inodes: map<nat, CachedInode>) {
    && (forall j, s :: Names(table, j, s) && s in held && held[s] != j ==>
         Dirty(inodes, j) && Together(flushes, held[s], j))
    && (forall j, s, f :: Names(table, j, s) && Drops(flushes, f, s) ==> Dirty(inodes, j) && At(flushes, f, j))
  }

  ghost predicate LockInv(v: Volume) {
    && Inv(v) && Apart(v.flushes, v.inodes.Keys) && Converted(v.flushes, v.inodes, v.objects)
    && Crossed(v.table, v.held, v.flushes, v.inodes)
  }

  // ----- records put under locks are current -----

  /** At the put a record that names what the flush's inodes hold or have dropped is among those put. */
  lemma CrossedIsPut(v: Volume, f: nat, j: nat)
    requires LockInv(v) && f in v.flushes && v.flushes[f].due == {} && At(v.flushes, f, j) && Dirty(v.inodes, j)
    ensures j in v.flushes[f].records && v.flushes[f].records[j] == v.inodes[j].counts.Keys
  {
    assert AsConverted(v.flushes[f], j, v.inodes[j], v.objects);
  }

  lemma PutIsHeld(v: Volume, f: nat, i: nat, s: nat)
    requires LockInv(v) && f in v.flushes && Names(v.flushes[f].records, i, s)
    ensures CountsIt(v.inodes, i, s) && s in v.held && v.held[s] == i && s in v.objects && At(v.flushes, f, i)
  {
    assert i in v.flushes[f].done && At(v.flushes, f, i);
    assert AsConverted(v.flushes[f], i, v.inodes[i], v.objects);
    assert CountsIt(v.inodes, i, s);
  }

  lemma LockedPutsOwn(v: Volume, f: nat)
    requires LockInv(v) && f in v.flushes
    ensures PutsOwn(v, f)
  {
    forall i, s | Names(v.flushes[f].records, i, s)
      ensures s in v.objects && s !in v.waiting && s !in v.inHand && i in InMemory(v)
    {
      PutIsHeld(v, f, i, s);
    }
  }

  /** No record but the one put names a segment of the flush's inodes, or one it has dropped. */
  lemma LockedPutsOnce(v: Volume, f: nat)
    requires LockInv(v) && f in v.flushes && v.flushes[f].due == {}
    ensures PutsOnce(v, f)
  {
    var table := v.table + v.flushes[f].records;
    forall i, s | Names(table, i, s) ensures s !in v.flushes[f].emptied {
      LockedPutsNoneDropped(v, f, i, s);
    }
    forall i, j, s | Names(table, i, s) && Names(table, j, s) ensures i == j {
      LockedPutsNoneTwice(v, f, i, j, s);
    }
  }

  lemma LockedPutsNoneDropped(v: Volume, f: nat, i: nat, s: nat)
    requires LockInv(v) && f in v.flushes && v.flushes[f].due == {} && Names(v.table + v.flushes[f].records, i, s)
    ensures s !in v.flushes[f].emptied
  {
    if i in v.flushes[f].records {
      PutIsHeld(v, f, i, s);
      assert !Drops(v.flushes, f, s);
    } else if Drops(v.flushes, f, s) {
      assert Names(v.table, i, s);
      CrossedIsPut(v, f, i);
    }
  }

  lemma LockedPutsNoneTwice(v: Volume, f: nat, i: nat, j: nat, s: nat)
    requires LockInv(v) && f in v.flushes && v.flushes[f].due == {}
    requires Names(v.table + v.flushes[f].records, i, s) && Names(v.table + v.flushes[f].records, j, s)
    ensures i == j
  {
    var records := v.flushes[f].records;
    if i !in records && j !in records {
      assert Names(v.table, i, s) && Names(v.table, j, s);
    } else if i in records {
      OnlyThePutOne(v, f, i, j, s);
    } else {
      OnlyThePutOne(v, f, j, i, s);
    }
  }

  lemma OnlyThePutOne(v: Volume, f: nat, i: nat, j: nat, s: nat)
    requires LockInv(v) && f in v.flushes && v.flushes[f].due == {}
    requires Names(v.flushes[f].records, i, s) && Names(v.table + v.flushes[f].records, j, s)
    ensures i == j
  {
    PutIsHeld(v, f, i, s);
    if j in v.flushes[f].records {
      PutIsHeld(v, f, j, s);
    } else if i != j {
      assert Names(v.table, j, s);
      var g :| At(v.flushes, g, i) && At(v.flushes, g, j);
      assert g == f;
      CrossedIsPut(v, f, j);
    }
  }

  lemma LockedPutsLatest(v: Volume, f: nat)
    requires LockInv(v) && f in v.flushes && v.flushes[f].due == {}
    ensures PutsLatest(v, f)
  {
    forall i | i in v.flushes[f].done && i in v.inodes
      ensures var table := v.table + v.flushes[f].records;
              i in table && table[i] == v.inodes[i].counts.Keys && Emptied(v.inodes[i].counts) == {}
    {
      assert AsConverted(v.flushes[f], i, v.inodes[i], v.objects);
    }
  }

  lemma LockedLeavesAlone(v: Volume, i: nat)
    requires LockInv(v) && i in v.leaving
    ensures LeavesAlone(v, i)
  {
    assert forall j :: !Together(v.flushes, i, j);
    forall j | j in v.table && j != i ensures v.table[j] !! v.leaving[i] {
      assert forall s :: s in v.table[j] ==> Names(v.table, j, s);
      assert forall s :: s in v.leaving[i] ==> Names(v.leaving, i, s);
    }
  }

  /** A step under locks is orderly. */
  lemma LockedOrderly(v: Volume, e: Event)
    requires LockInv(v) && Enabled(v, e) && Locked(v, e)
    ensures Orderly(v, e)
  {
    if e.PutRecords? {
      LockedPutsOwn(v, e.f);
      LockedPutsOnce(v, e.f);
      LockedPutsLatest(v, e.f);
    } else if e.DeleteRecord? {
      LockedLeavesAlone(v, e.i);
    }
  }

  // ----- locks keep what they keep -----

  /** What is done to an inode no flush works on, flushes do not notice. */
  lemma IdleChanged(flushes: map<nat, Flush>, inodes: map<nat, CachedInode>, inodes': map<nat, CachedInode>,
                    objects: set<nat>, i: nat)
    requires Apart(flushes, inodes.Keys) && Converted(flushes, inodes, objects) && Idle(flushes, i)
    requires forall j :: j != i && j in inodes ==> j in inodes' && inodes'[j] == inodes[j]
    ensures Apart(flushes, inodes'.Keys) && Converted(flushes, inodes', objects)
  {
    forall f, j | f in flushes && j in flushes[f].done && j in inodes'
      ensures AsConverted(flushes[f], j, inodes'[j], objects)
    {
      assert At(flushes, f, j);
    }
  }

  /** Nor do records that name what another inode holds. */
  lemma IdleCrossed(table: Records, held: map<nat, nat>, held': map<nat, nat>, flushes: map<nat, Flush>,
                    inodes: map<nat, CachedInode>, inodes': map<nat, CachedInode>, i: nat)
    requires Crossed(table, held, flushes, inodes) && Idle(flushes, i)
    requires forall j :: j != i && j in inodes ==> j in inodes' && inodes'[j] == inodes[j]
    requires forall j, s :: Names(table, j, s) && s in held' && held'[s] != j ==> s in held && held[s] == held'[s]
    ensures Crossed(table, held', flushes, inodes')
  {
    forall j, s | Names(table, j, s) && s in held' && held'[s] != j
      ensures Dirty(inodes', j) && Together(flushes, held'[s], j)
    {
      assert Together(flushes, held[s], j);
    }
  }

  /** A step on an idle inode may take what its record names into its hands, or a new segment; nothing else comes
      into other hands. */
  lemma TouchedHeld(v: Volume, e: Event, j: nat, s: nat)
    requires Inv(v) && Enabled(v, e) && (e.Create? || e.Load? || e.Purge? || e.Begin? || e.Recount? || e.Leave?)
    requires Names(v.table, j, s) && s in Step(v, e).held
    ensures Step(v, e).held[s] == j || (s in v.held && v.held[s] == Step(v, e).held[s])
  {
    if e.Load? {
      assert s in e.counts ==> Names(v.table, e.i, s);
    }
  }

  lemma LockedTouch(v: Volume, e: Event)
    requires LockInv(v) && Enabled(v, e) && Locked(v, e)
    requires e.Create? || e.Load? || e.Purge? || e.Begin? || e.Recount? || e.Leave?
    ensures LockInv(Step(v, e))
  {
    var v' := Step(v, e);
    LockedOrderly(v, e);
    StepInvIff(v, e);
    IdleChanged(v.flushes, v.inodes, v'.inodes, v.objects, e.i);
    forall j, s | Names(v.table, j, s) && s in v'.held && v'.held[s] != j
      ensures s in v.held && v.held[s] == v'.held[s]
    {
      TouchedHeld(v, e, j, s);
    }
    IdleCrossed(v.table, v.held, v'.held, v.flushes, v.inodes, v'.inodes, e.i);
  }

  /** A flush begins on inodes no flush works on. */
  lemma FlushBegun(flushes: map<nat, Flush>, f: nat, inos: set<nat>, inMemory: set<nat>)
    requires Apart(flushes, inMemory) && f !in flushes && inos <= inMemory && forall i :: i in inos ==> Idle(flushes, i)
    ensures var flushes' := flushes[f := Flush(inos, {}, map[], {})];
            && Apart(flushes', inMemory)
            && (forall g, i :: At(flushes', g, i) <==> At(flushes, g, i) || (g == f && i in inos))
            && (forall g, s :: Drops(flushes', g, s) <==> Drops(flushes, g, s))
            && (forall i, j :: Together(flushes, i, j) ==> Together(flushes', i, j))
  {
    var flushes' := flushes[f := Flush(inos, {}, map[], {})];
    assert forall g, i :: At(flushes', g, i) <==> At(flushes, g, i) || (g == f && i in inos);
    forall i, j | Together(flushes, i, j) ensures Together(flushes', i, j) {
      var g :| At(flushes, g, i) && At(flushes, g, j);
      assert At(flushes', g, i) && At(flushes', g, j);
    }
  }

  lemma LockedStart(v: Volume, f: nat, inos: set<nat>)
    requires LockInv(v) && Enabled(v, StartFlush(f, inos)) && Locked(v, StartFlush(f, inos))
    ensures LockInv(Started(v, f, inos))
  {
    StartedInv(v, f, inos);
    FlushBegun(v.flushes, f, inos, v.inodes.Keys);
  }

  lemma StolenConverted(v: Volume, f: nat, elements: set<nat>, combination: nat, counts: map<nat, nat>)
    requires Converted(v.flushes, v.inodes, v.objects) && f !in v.flushes
    requires CoalesceReady(v, elements, combination, counts)
    requires forall i :: i in elements + {combination} ==> Idle(v.flushes, i)
    ensures var v' := Stolen(v, f, elements, combination, counts); Converted(v'.flushes, v'.inodes, v'.objects)
  {
    var v' := Stolen(v, f, elements, combination, counts);
    forall g, i | g in v'.flushes && i in v'.flushes[g].done && i in v'.inodes
      ensures AsConverted(v'.flushes[g], i, v'.inodes[i], v'.objects)
    {
      assert At(v.flushes, g, i);
      assert i !in elements + {combination} && v'.inodes[i] == v.inodes[i];
    }
  }

  lemma StolenCrossed(v: Volume, f: nat, elements: set<nat>, combination: nat, counts: map<nat, nat>)
    requires LockInv(v) && f !in v.flushes && CoalesceReady(v, elements, combination, counts)
    requires forall i :: i in elements + {combination} ==> Idle(v.flushes, i)
    ensures var v' := Stolen(v, f, elements, combination, counts); Crossed(v'.table, v'.held, v'.flushes, v'.inodes)
  {
    var v' := Stolen(v, f, elements, combination, counts);
    FlushBegun(v.flushes, f, elements + {combination}, v.inodes.Keys);
    forall j, s | Names(v.table, j, s) && s in v'.held && v'.held[s] != j
      ensures Dirty(v'.inodes, j) && Together(v'.flushes, v'.held[s], j)
    {
      if s in counts {
        StolenNamed(v, elements, combination, counts, j, s);
        assert At(v'.flushes, f, combination) && At(v'.flushes, f, j);
      } else {
        assert Dirty(v.inodes, j) && Together(v.flushes, v.held[s], j);
        StolenDirty(v, f, elements, combination, counts, j);
      }
    }
    forall j, s, g | Names(v.table, j, s) && Drops(v'.flushes, g, s)
      ensures Dirty(v'.inodes, j) && At(v'.flushes, g, j)
    {
      assert Drops(v.flushes, g, s);
      StolenDirty(v, f, elements, combination, counts, j);
    }
  }

  lemma StolenDirty(v: Volume, f: nat, elements: set<nat>, combination: nat, counts: map<nat, nat>, j: nat)
    requires Dirty(v.inodes, j)
    ensures Dirty(Stolen(v, f, elements, combination, counts).inodes, j)
  {
  }

  /** What an element counts its record alone names. */
  lemma StolenNamed(v: Volume, elements: set<nat>, combination: nat, counts: map<nat, nat>, j: nat, s: nat)
    requires Inv(v) && CoalesceReady(v, elements, combination, counts) && s in counts && Names(v.table, j, s)
    ensures j in elements
  {
    var e :| e in elements && s in v.inodes[e].counts.Keys;
    assert Names(v.table, e, s);
  }

  lemma LockedSteal(v: Volume, f: nat, elements: set<nat>, combination: nat, counts: map<nat, nat>)
    requires LockInv(v) && f !in v.flushes && CoalesceReady(v, elements, combination, counts)
    requires forall i :: i in elements + {combination} ==> Idle(v.flushes, i)
    ensures LockInv(Stolen(v, f, elements, combination, counts))
  {
    StolenInv(v, f, elements, combination, counts);
    StolenConverted(v, f, elements, combination, counts);
    StolenCrossed(v, f, elements, combination, counts);
    StolenApart(v, f, elements, combination, counts);
  }

  lemma StolenApart(v: Volume, f: nat, elements: set<nat>, combination: nat, counts: map<nat, nat>)
    requires Apart(v.flushes, v.inodes.Keys) && f !in v.flushes && elements + {combination} <= v.inodes.Keys
    requires forall i :: i in elements + {combination} ==> Idle(v.flushes, i)
    ensures var v' := Stolen(v, f, elements, combination, counts); Apart(v'.flushes, v'.inodes.Keys)
  {
    FlushBegun(v.flushes, f, elements + {combination}, v.inodes.Keys);
    assert Stolen(v, f, elements, combination, counts).inodes.Keys == v.inodes.Keys;
  }

  // ----- a flush under locks -----

  lemma GatheredAt(v: Volume, f: nat, i: nat)
    requires Apart(v.flushes, v.inodes.Keys) && At(v.flushes, f, i)
    ensures i in v.inodes && Apart(Gathered(v, f, i).flushes, v.inodes.Keys)
    ensures forall g, j :: At(Gathered(v, f, i).flushes, g, j) <==> At(v.flushes, g, j)
    ensures forall j, k :: Together(v.flushes, j, k) ==> Together(Gathered(v, f, i).flushes, j, k)
  {
    var flushes' := Gathered(v, f, i).flushes;
    assert forall g, j :: At(flushes', g, j) <==> At(v.flushes, g, j);
    forall j, k | Together(v.flushes, j, k) ensures Together(flushes', j, k) {
      var g :| At(v.flushes, g, j) && At(v.flushes, g, k);
      assert At(flushes', g, j) && At(flushes', g, k);
    }
  }

  lemma GatheredConverted(v: Volume, f: nat, i: nat)
    requires LockInv(v) && At(v.flushes, f, i)
    ensures var v' := Gathered(v, f, i); Converted(v'.flushes, v'.inodes, v'.objects)
  {
    var v' := Gathered(v, f, i);
    GatheredAt(v, f, i);
    KeptIsKept(v.inodes[i]);
    forall g, j | g in v'.flushes && j in v'.flushes[g].done && j in v'.inodes
      ensures AsConverted(v'.flushes[g], j, v'.inodes[j], v'.objects)
    {
      assert At(v.flushes, g, j);
      if j != i {
        assert AsConverted(v.flushes[g], j, v.inodes[j], v.objects);
      } else {
        assert g == f;
        GatheredOne(v, f, i);
      }
    }
  }

  lemma GatheredOne(v: Volume, f: nat, i: nat)
    requires LockInv(v) && At(v.flushes, f, i) && i in v.inodes
    ensures var v' := Gathered(v, f, i); AsConverted(v'.flushes[f], i, v'.inodes[i], v'.objects)
  {
    KeptIsKept(v.inodes[i]);
    if i in v.flushes[f].done {
      assert AsConverted(v.flushes[f], i, v.inodes[i], v.objects);
    } else {
      assert i !in v.flushes[f].records;
    }
  }

  /** What is dropped only the record of an inode of the flush names, and that is about to be put anew. */
  lemma GatheredCrossed(v: Volume, f: nat, i: nat)
    requires LockInv(v) && At(v.flushes, f, i)
    ensures var v' := Gathered(v, f, i); Crossed(v'.table, v'.held, v'.flushes, v'.inodes)
  {
    var v' := Gathered(v, f, i);
    GatheredAt(v, f, i);
    forall j, s, g | Names(v.table, j, s) && Drops(v'.flushes, g, s)
      ensures Dirty(v'.inodes, j) && At(v'.flushes, g, j)
    {
      if !Drops(v.flushes, g, s) {
        assert g == f && s in Emptied(v.inodes[i].counts);
        DroppedIsCrossed(v, f, i, j, s);
      }
      assert Dirty(v.inodes, j) && At(v.flushes, g, j);
    }
    forall j, s | Names(v.table, j, s) && s in v'.held && v'.held[s] != j
      ensures Dirty(v'.inodes, j) && Together(v'.flushes, v'.held[s], j)
    {
      assert Together(v.flushes, v.held[s], j);
    }
  }

  lemma DroppedIsCrossed(v: Volume, f: nat, i: nat, j: nat, s: nat)
    requires LockInv(v) && At(v.flushes, f, i) && i in v.inodes && s in Emptied(v.inodes[i].counts)
    requires Names(v.table, j, s)
    ensures Dirty(v.inodes, j) && At(v.flushes, f, j)
  {
    assert CountsIt(v.inodes, i, s);
    if i != j {
      var g :| At(v.flushes, g, i) && At(v.flushes, g, j);
      assert g == f;
    }
  }

  lemma LockedGather(v: Volume, f: nat, i: nat)
    requires LockInv(v) && At(v.flushes, f, i)
    ensures LockInv(Gathered(v, f, i))
  {
    GatheredInv(v, f, i);
    GatheredAt(v, f, i);
    GatheredConverted(v, f, i);
    GatheredCrossed(v, f, i);
    assert Gathered(v, f, i).inodes.Keys == v.inodes.Keys;
  }

  /** A flush is over. */
  lemma FlushOver(flushes: map<nat, Flush>, f: nat, inMemory: set<nat>)
    requires Apart(flushes, inMemory)
    ensures Apart(flushes - {f}, inMemory)
    ensures forall g, i :: At(flushes - {f}, g, i) <==> At(flushes, g, i) && g != f
    ensures forall g, s :: Drops(flushes - {f}, g, s) <==> Drops(flushes, g, s) && g != f
    ensures forall i, j :: Together(flushes, i, j) && !At(flushes, f, j) ==> Together(flushes - {f}, i, j)
  {
    var flushes' := flushes - {f};
    assert forall g, i :: At(flushes', g, i) <==> At(flushes, g, i) && g != f;
    assert forall g, s :: Drops(flushes', g, s) <==> Drops(flushes, g, s) && g != f;
    forall i, j | Together(flushes, i, j) && !At(flushes, f, j) ensures Together(flushes', i, j) {
      var g :| At(flushes, g, i) && At(flushes, g, j);
      assert At(flushes', g, i) && At(flushes', g, j);
    }
  }

  lemma PutConverted(v: Volume, f: nat)
    requires LockInv(v) && f in v.flushes
    ensures var v' := RecordsPut(v, f); Converted(v'.flushes, v'.inodes, v'.objects)
  {
    var v' := RecordsPut(v, f);
    forall g, i | g in v'.flushes && i in v'.flushes[g].done && i in v'.inodes
      ensures AsConverted(v'.flushes[g], i, v'.inodes[i], v'.objects)
    {
      assert At(v.flushes, g, i);
      assert i in v.flushes[f].done ==> At(v.flushes, f, i);
      assert AsConverted(v.flushes[g], i, v.inodes[i], v.objects);
    }
  }

  /** A dirty inode that is not in this flush is dirty after it. */
  lemma StaysDirty(v: Volume, f: nat, j: nat)
    requires f in v.flushes && Dirty(v.inodes, j) && !At(v.flushes, f, j)
    ensures Dirty(RecordsPut(v, f).inodes, j)
  {
  }

  lemma PutCrossed(v: Volume, f: nat)
    requires LockInv(v) && f in v.flushes && v.flushes[f].due == {}
    ensures var v' := RecordsPut(v, f); Crossed(v'.table, v'.held, v'.flushes, v'.inodes)
  {
    var v' := RecordsPut(v, f);
    FlushOver(v.flushes, f, v.inodes.Keys);
    forall j, s | Names(v'.table, j, s) && s in v'.held && v'.held[s] != j
      ensures Dirty(v'.inodes, j) && Together(v'.flushes, v'.held[s], j)
    {
      PutNames(v, f, j, s);
      assert Together(v.flushes, v.held[s], j);
      StaysDirty(v, f, j);
    }
    forall j, s, g | Names(v'.table, j, s) && Drops(v'.flushes, g, s)
      ensures Dirty(v'.inodes, j) && At(v'.flushes, g, j)
    {
      PutNames(v, f, j, s);
      StaysDirty(v, f, j);
    }
  }

  /** What a record names after the put its inode holds, or the record is an old one of an inode the flush leaves
      alone. */
  lemma PutNames(v: Volume, f: nat, j: nat, s: nat)
    requires LockInv(v) && f in v.flushes && v.flushes[f].due == {} && Names(RecordsPut(v, f).table, j, s)
    ensures (s in v.held && v.held[s] == j) || (Names(v.table, j, s) && (Dirty(v.inodes, j) ==> !At(v.flushes, f, j)))
  {
    if j in v.flushes[f].records {
      PutIsHeld(v, f, j, s);
    } else if At(v.flushes, f, j) && Dirty(v.inodes, j) {
      CrossedIsPut(v, f, j);
    }
  }

  lemma LockedPut(v: Volume, f: nat)
    requires LockInv(v) && Enabled(v, PutRecords(f))
    ensures LockInv(RecordsPut(v, f))
  {
    LockedOrderly(v, PutRecords(f));
    RecordsPutInvIff(v, f);
    FlushOver(v.flushes, f, v.inodes.Keys);
    PutConverted(v, f);
    PutCrossed(v, f);
    assert RecordsPut(v, f).inodes.Keys == v.inodes.Keys;
  }

  lemma LockedEnd(v: Volume, f: nat)
    requires LockInv(v) && Enabled(v, EndFlush(f))
    ensures LockInv(Ended(v, f))
  {
    var v' := Ended(v, f);
    EndedInv(v, f);
    FlushOver(v.flushes, f, v.inodes.Keys);
    forall j | At(v.flushes, f, j) && Dirty(v.inodes, j) ensures false {
      CrossedIsPut(v, f, j);
    }
    forall j, s | Names(v.table, j, s) && s in v.held && v.held[s] != j
      ensures Dirty(v'.inodes, j) && Together(v'.flushes, v'.held[s], j)
    {
      assert Together(v.flushes, v.held[s], j);
    }
  }

  // ----- runs -----

  lemma LockedClose(v: Volume, s: nat)
    requires LockInv(v)
    ensures LockInv(Closed(v, s))
  {
    ClosedInv(v, s);
    assert forall f, i :: f in v.flushes && i in v.flushes[f].done && i in v.inodes ==>
        AsConverted(v.flushes[f], i, v.inodes[i], v.objects);
  }

  lemma LockedReap(v: Volume, s: nat)
    requires LockInv(v) && MayReap(v, s)
    ensures LockInv(Reaped(v, s))
  {
    ReapedInv(v, s);
    forall f, i | f in v.flushes && i in v.flushes[f].done && i in v.inodes
      ensures AsConverted(v.flushes[f], i, v.inodes[i], v.objects - {s})
    {
      assert AsConverted(v.flushes[f], i, v.inodes[i], v.objects);
      assert !CountsIt(v.inodes, i, s);
    }
  }

  lemma LockedDelete(v: Volume, i: nat)
    requires LockInv(v) && i in v.leaving
    ensures LockInv(RecordDeleted(v, i))
  {
    var v' := RecordDeleted(v, i);
    LockedLeavesAlone(v, i);
    RecordDeletedInvIff(v, i);
    DeletedCrossed(v, i);
  }

  lemma DeletedCrossed(v: Volume, i: nat)
    requires Crossed(v.table, v.held, v.flushes, v.inodes) && i in v.leaving
    ensures var v' := RecordDeleted(v, i); Crossed(v'.table, v'.held, v'.flushes, v'.inodes)
  {
    assert forall j, s :: Names(RecordDeleted(v, i).table, j, s) ==> Names(v.table, j, s);
  }

  lemma LockedRest(v: Volume, e: Event)
    requires LockInv(v) && Enabled(v, e) && (e.Schedule? || e.Checkpoint? || e.Crash?)
    ensures LockInv(Step(v, e))
  {
    StepInv(v, e);
  }

  /** A step under locks is orderly, and leaves everything as locks keep it. */
  lemma LockedStep(v: Volume, e: Event)
    requires LockInv(v) && Enabled(v, e) && Locked(v, e)
    ensures Orderly(v, e) && LockInv(Step(v, e))
  {
    LockedOrderly(v, e);
    if e.Create? || e.Load? || e.Purge? || e.Begin? || e.Recount? || e.Leave? {
      LockedTouch(v, e);
    } else if e.Schedule? || e.Checkpoint? || e.Crash? {
      LockedRest(v, e);
    } else {
      match e
      case StartFlush(f, inos) => LockedStart(v, f, inos);
      case Gather(f, i) => LockedGather(v, f, i);
      case PutRecords(f) => LockedPut(v, f);
      case EndFlush(f) => LockedEnd(v, f);
      case Steal(f, elements, combination, counts) => LockedSteal(v, f, elements, combination, counts);
      case Close(s) => LockedClose(v, s);
      case Reap(s) => LockedReap(v, s);
      case DeleteRecord(i) => LockedDelete(v, i);
    }
  }

  /** A run in which every step finds its inodes locked by nobody else is orderly, so all its states are safe. */
  lemma {:induction false} LockedRunsOrderly(states: seq<Volume>, events: seq<Event>, k: nat)
    requires IsRun(states, events) && k < |states|
    requires forall j :: 0 <= j < k ==> Locked(states[j], events[j])
    ensures LockInv(states[k]) && Safe(states[k])
    ensures forall j :: 0 <= j < k ==> Orderly(states[j], events[j])
  {
    if k > 0 {
      LockedRunsOrderly(states, events, k - 1);
      LockedStep(states[k - 1], events[k - 1]);
    }
  }
}
