/** The volume check: a walk over the directory tree that counts the entries
naming each inode, and the correction of link counts that differ from it.
*/
module TreeWalks {
  import opened Common
  import opened Directories
  import opened DirectoryRuns
  import DirVolumes
  import NameTables

  /** Entry `n` of `d` leads down to directory `c`. */
  predicate LeadsTo(v: Inodes, d: nat, n: string, c: nat) {
    Names(v, d, n, c) && Ordinary(n) && c in v && v[c].isDir
  }

  /** The directories form a tree: each is led to once at most, the root never,
      and `rank` falls along the way down, so there is no cycle. */
  ghost predicate TreeShaped(v: Inodes, rank: nat -> nat) {
    && Sound(v)
    && (forall d, n, c :: LeadsTo(v, d, n, c) ==> rank(c) < rank(d) && c != RootDirInodeNumber)
    && (forall d, n, d', n', c :: LeadsTo(v, d, n, c) && LeadsTo(v, d', n', c) ==> d == d' && n == n')
  }

  /** The directories at or below `d`. */
  ghost function Subtree(v: Inodes, rank: nat -> nat, d: nat): set<nat>
    requires TreeShaped(v, rank)
    decreases rank(d)
  {
    if d !in v then {}
    else {d} + (set n, x |
                  n in v[d].entries && LeadsTo(v, d, n, v[d].entries[n]) && x in Subtree(v, rank, v[d].entries[n]) :: x)
  }

  lemma SubtreeIff(v: Inodes, rank: nat -> nat, d: nat, x: nat)
    requires TreeShaped(v, rank) && d in v
    ensures x in Subtree(v, rank, d) <==> x == d || exists n, c :: LeadsTo(v, d, n, c) && x in Subtree(v, rank, c)
  {
    if n, c :| LeadsTo(v, d, n, c) && x in Subtree(v, rank, c) {
      assert n in v[d].entries && c == v[d].entries[n];
    }
  }

  /** Below a directory ranks are lower, and every directory there is one. */
  lemma {:induction false} SubtreeRanks(v: Inodes, rank: nat -> nat, d: nat, x: nat)
    requires TreeShaped(v, rank) && d in v && v[d].isDir && x in Subtree(v, rank, d)
    ensures x in v && v[x].isDir && rank(x) <= rank(d)
    decreases rank(d)
  {
    SubtreeIff(v, rank, d, x);
    if x != d {
      var n, c :| LeadsTo(v, d, n, c) && x in Subtree(v, rank, c);
      SubtreeRanks(v, rank, c, x);
    }
  }

  /** Whatever leads to a directory below `d` is at or below `d` itself. */
  lemma {:induction false} ParentInSubtree(v: Inodes, rank: nat -> nat, d: nat, p: nat, n: string, x: nat)
    requires TreeShaped(v, rank) && d in v && v[d].isDir && x in Subtree(v, rank, d) && x != d && LeadsTo(v, p, n, x)
    ensures p in Subtree(v, rank, d)
    decreases rank(d)
  {
    SubtreeIff(v, rank, d, x);
    var m, c :| LeadsTo(v, d, m, c) && x in Subtree(v, rank, c);
    if x == c {
      SubtreeIff(v, rank, d, d);
    } else {
      ParentInSubtree(v, rank, c, p, n, x);
      SubtreeIff(v, rank, d, p);
    }
  }

  /** Two entries of one directory lead to parts of the tree with nothing in common. */
  lemma {:induction false} SiblingsApart(v: Inodes, rank: nat -> nat, d: nat, n1: string, c1: nat,
                                         n2: string, c2: nat, x: nat)
    requires TreeShaped(v, rank) && LeadsTo(v, d, n1, c1) && LeadsTo(v, d, n2, c2) && c1 != c2
    requires x in Subtree(v, rank, c1)
    ensures x !in Subtree(v, rank, c2)
    decreases rank(c1) - rank(x)
  {
    SubtreeRanks(v, rank, c1, x);
    if x in Subtree(v, rank, c2) {
      if x == c1 {
        ParentInSubtree(v, rank, c2, d, n1, x);
        SubtreeRanks(v, rank, c2, d);
      } else if x == c2 {
        ParentInSubtree(v, rank, c1, d, n2, x);
        SubtreeRanks(v, rank, c1, d);
      } else {
        SubtreeIff(v, rank, c1, x);
        var p, m := ParentOf(v, rank, c1, x);
        ParentInSubtree(v, rank, c1, p, m, x);
        ParentInSubtree(v, rank, c2, p, m, x);
        SiblingsApart(v, rank, d, n1, c1, n2, c2, p);
      }
    }
  }

  lemma {:induction false} ParentOf(v: Inodes, rank: nat -> nat, d: nat, x: nat) returns (p: nat, n: string)
    requires TreeShaped(v, rank) && d in v && v[d].isDir && x in Subtree(v, rank, d) && x != d
    ensures LeadsTo(v, p, n, x)
    decreases rank(d)
  {
    SubtreeIff(v, rank, d, x);
    var m, c :| LeadsTo(v, d, m, c) && x in Subtree(v, rank, c);
    if x == c {
      p, n := d, m;
    } else {
      p, n := ParentOf(v, rank, c, x);
    }
  }

  // ----- counting -----

  /** How many of the entries `done` name inode `i`. */
  function Tally(v: Inodes, done: set<(nat, string)>, i: nat): nat {
    |set e | e in done && Names(v, e.0, e.1, i)|
  }

  /** The counts are the tallies of the entries `done`, and only inodes named have one. */
  ghost predicate Tallied(v: Inodes, done: set<(nat, string)>, counts: map<nat, nat>) {
    && (forall i :: Recorded(counts, i) == Tally(v, done, i))
    && (forall i :: i in counts ==> counts[i] > 0)
  }

  lemma TallyOneMore(v: Inodes, done: set<(nat, string)>, d: nat, n: string, i: nat)
    requires d in v && n in v[d].entries && (d, n) !in done
    ensures Tally(v, done + {(d, n)}, i) == Tally(v, done, i) + if i == v[d].entries[n] then 1 else 0
  {
    var before := set e | e in done && Names(v, e.0, e.1, i);
    var after := set e | e in done + {(d, n)} && Names(v, e.0, e.1, i);
    if i == v[d].entries[n] {
      assert after == before + {(d, n)};
    } else {
      assert after == before;
    }
  }

  lemma TalliedOneMore(v: Inodes, done: set<(nat, string)>, counts: map<nat, nat>, d: nat, n: string)
    requires Tallied(v, done, counts) && d in v && n in v[d].entries && (d, n) !in done
    ensures var i := v[d].entries[n];
            Tallied(v, done + {(d, n)}, counts[i := Recorded(counts, i) + 1])
  {
    var t := v[d].entries[n];
    forall i ensures Recorded(counts[t := Recorded(counts, t) + 1], i) == Tally(v, done + {(d, n)}, i) {
      TallyOneMore(v, done, d, n, i);
    }
  }

  /** All entries of the directories `ds`. */
  function EntriesOf(v: Inodes, ds: set<nat>): set<(nat, string)> {
    set d, n | d in ds && d in v && n in v[d].entries :: (d, n)
  }

  /** The directories below those of the entries `names` of `d` that lead to one. */
  ghost function Below(v: Inodes, rank: nat -> nat, d: nat, names: set<string>): set<nat>
    requires TreeShaped(v, rank) && d in v && names <= v[d].entries.Keys
  {
    set n, x | n in names && LeadsTo(v, d, n, v[d].entries[n]) && x in Subtree(v, rank, v[d].entries[n]) :: x
  }

  /** What has been counted of the tree below `d` once its entries `names` are dealt with. */
  ghost function Covered(v: Inodes, rank: nat -> nat, d: nat, names: set<string>): set<(nat, string)>
    requires TreeShaped(v, rank) && d in v && names <= v[d].entries.Keys
  {
    (set n | n in names :: (d, n)) + EntriesOf(v, Below(v, rank, d, names))
  }

  lemma CoveredNext(v: Inodes, rank: nat -> nat, d: nat, names: set<string>, n: string)
    requires TreeShaped(v, rank) && d in v && names <= v[d].entries.Keys && n in v[d].entries
    ensures names + {n} <= v[d].entries.Keys
    ensures Covered(v, rank, d, names + {n}) ==
            Covered(v, rank, d, names) + {(d, n)}
            + if LeadsTo(v, d, n, v[d].entries[n]) then EntriesOf(v, Subtree(v, rank, v[d].entries[n])) else {}
  {
    var c := v[d].entries[n];
    var more := if LeadsTo(v, d, n, c) then Subtree(v, rank, c) else {};
    assert Below(v, rank, d, names + {n}) == Below(v, rank, d, names) + more;
    assert EntriesOf(v, Below(v, rank, d, names) + more) == EntriesOf(v, Below(v, rank, d, names)) + EntriesOf(v, more);
  }

  lemma CoveredAll(v: Inodes, rank: nat -> nat, d: nat)
    requires TreeShaped(v, rank) && d in v
    ensures Covered(v, rank, d, v[d].entries.Keys) == EntriesOf(v, Subtree(v, rank, d))
  {
    assert Subtree(v, rank, d) == {d} + Below(v, rank, d, v[d].entries.Keys);
  }

  /** No entry counted so far belongs to a directory still to be walked. */
  ghost predicate NotYet(v: Inodes, rank: nat -> nat, d: nat, done: set<(nat, string)>)
    requires TreeShaped(v, rank)
  {
    forall e :: e in done ==> e.0 !in Subtree(v, rank, d)
  }

  lemma BelowIff(v: Inodes, rank: nat -> nat, d: nat, names: set<string>, x: nat)
    requires TreeShaped(v, rank) && d in v && names <= v[d].entries.Keys
    ensures x in Below(v, rank, d, names) <==>
            exists n, c :: n in names && LeadsTo(v, d, n, c) && x in Subtree(v, rank, c)
  {
    if n, c :| n in names && LeadsTo(v, d, n, c) && x in Subtree(v, rank, c) {
      assert c == v[d].entries[n];
    }
  }

  /** The next entry is not counted yet, nor is anything below it. */
  lemma NextIsNew(v: Inodes, rank: nat -> nat, d: nat, start: set<(nat, string)>, names: set<string>, n: string)
    requires TreeShaped(v, rank) && d in v && v[d].isDir && names <= v[d].entries.Keys && NotYet(v, rank, d, start)
    requires n in v[d].entries && n !in names
    ensures (d, n) !in start + Covered(v, rank, d, names)
    ensures LeadsTo(v, d, n, v[d].entries[n]) ==>
              NotYet(v, rank, v[d].entries[n], start + Covered(v, rank, d, names) + {(d, n)})
  {
    SubtreeIff(v, rank, d, d);
    var c := v[d].entries[n];
    forall x | x in Below(v, rank, d, names) ensures x != d && (LeadsTo(v, d, n, c) ==> x !in Subtree(v, rank, c)) {
      BelowIff(v, rank, d, names, x);
      var m, b :| m in names && LeadsTo(v, d, m, b) && x in Subtree(v, rank, b);
      SubtreeRanks(v, rank, b, x);
      if LeadsTo(v, d, n, c) {
        SiblingsApart(v, rank, d, m, b, n, c, x);
      }
    }
    if LeadsTo(v, d, n, c) {
      NewBelow(v, rank, d, start, names, n);
    }
  }

  lemma NewBelow(v: Inodes, rank: nat -> nat, d: nat, start: set<(nat, string)>, names: set<string>, n: string)
    requires TreeShaped(v, rank) && d in v && v[d].isDir && names <= v[d].entries.Keys && NotYet(v, rank, d, start)
    requires n in v[d].entries && LeadsTo(v, d, n, v[d].entries[n])
    requires forall x :: x in Below(v, rank, d, names) ==> x !in Subtree(v, rank, v[d].entries[n])
    ensures NotYet(v, rank, v[d].entries[n], start + Covered(v, rank, d, names) + {(d, n)})
  {
    var c := v[d].entries[n];
    forall e | e in start + Covered(v, rank, d, names) + {(d, n)} ensures e.0 !in Subtree(v, rank, c) {
      if e in start {
        SubtreeIff(v, rank, d, e.0);
      } else if e.0 == d {
        if d in Subtree(v, rank, c) {
          SubtreeRanks(v, rank, c, d);
        }
      }
    }
  }

  /** What one entry adds to the count. */
  ghost function Under(v: Inodes, rank: nat -> nat, d: nat, n: string): set<(nat, string)>
    requires TreeShaped(v, rank) && d in v && n in v[d].entries
  {
    {(d, n)} + if LeadsTo(v, d, n, v[d].entries[n]) then EntriesOf(v, Subtree(v, rank, v[d].entries[n])) else {}
  }

  lemma UnderDir(v: Inodes, rank: nat -> nat, d: nat, n: string, done: set<(nat, string)>)
    requires TreeShaped(v, rank) && d in v && n in v[d].entries && LeadsTo(v, d, n, v[d].entries[n])
    ensures (done + {(d, n)}) + EntriesOf(v, Subtree(v, rank, v[d].entries[n])) == done + Under(v, rank, d, n)
  {
  }

  lemma WalkNext(v: Inodes, rank: nat -> nat, d: nat, start: set<(nat, string)>, names: set<string>, n: string)
    requires TreeShaped(v, rank) && d in v && v[d].isDir && names <= v[d].entries.Keys && NotYet(v, rank, d, start)
    requires n in v[d].entries && n !in names
    ensures var done := start + Covered(v, rank, d, names);
            && (d, n) !in done
            && (LeadsTo(v, d, n, v[d].entries[n]) ==> NotYet(v, rank, v[d].entries[n], done + {(d, n)}))
            && names + {n} <= v[d].entries.Keys
            && start + Covered(v, rank, d, names + {n}) == done + Under(v, rank, d, n)
  {
    NextIsNew(v, rank, d, start, names, n);
    CoveredNext(v, rank, d, names, n);
  }

  // ----- the walk and the corrections -----

  class TreeWalk {
    var inodes: Inodes
    var inodeRefCountMap: map<nat, nat>

    constructor (inodes: Inodes)
      ensures this.inodes == inodes && inodeRefCountMap == map[]
    {
      this.inodes, inodeRefCountMap := inodes, map[];
    }

    method CountEntry(d: nat, n: string, ghost done: set<(nat, string)>)
      requires d in inodes && n in inodes[d].entries && (d, n) !in done && Tallied(inodes, done, inodeRefCountMap)
      modifies `inodeRefCountMap
      ensures Tallied(inodes, done + {(d, n)}, inodeRefCountMap)
    {
      var c := inodes[d].entries[n];
      TalliedOneMore(inodes, done, inodeRefCountMap, d, n);
      if c in inodeRefCountMap {
        inodeRefCountMap := inodeRefCountMap[c := 1 + inodeRefCountMap[c]];
      } else {
        inodeRefCountMap := inodeRefCountMap[c := 1];
      }
    }

    /** Counts one entry, and what is below it if it leads to a directory. */
    method ValidateEntry(d: nat, n: string, ghost rank: nat -> nat, ghost done: set<(nat, string)>)
      requires TreeShaped(inodes, rank) && d in inodes && n in inodes[d].entries && (d, n) !in done
      requires Tallied(inodes, done, inodeRefCountMap)
      requires LeadsTo(inodes, d, n, inodes[d].entries[n]) ==>
                NotYet(inodes, rank, inodes[d].entries[n], done + {(d, n)})
      modifies `inodeRefCountMap
      ensures Tallied(inodes, done + Under(inodes, rank, d, n), inodeRefCountMap)
      decreases rank(d), 0
    {
      var c := inodes[d].entries[n];
      assert Names(inodes, d, n, c);
      ghost var counted := done + {(d, n)};
      CountEntry(d, n, done);
      if n != "." && n != ".." && inodes[c].isDir {
        assert LeadsTo(inodes, d, n, c);
        UnderDir(inodes, rank, d, n, done);
        ValidateDirInode(c, rank, counted);
      } else {
        assert !LeadsTo(inodes, d, n, c);
      }
    }

    /** Counts every entry of the directory and, once each, of all directories below it. */
    method ValidateDirInode(d: nat, ghost rank: nat -> nat, ghost start: set<(nat, string)>)
      requires TreeShaped(inodes, rank) && d in inodes && inodes[d].isDir
      requires Tallied(inodes, start, inodeRefCountMap) && NotYet(inodes, rank, d, start)
      modifies `inodeRefCountMap
      ensures Tallied(inodes, start + EntriesOf(inodes, Subtree(inodes, rank, d)), inodeRefCountMap)
      decreases rank(d), 1
    {
      var unseen := inodes[d].entries.Keys;
      ghost var names: set<string> := {};
      assert start + Covered(inodes, rank, d, {}) == start;
      while unseen != {}
        invariant unseen <= inodes[d].entries.Keys && names == inodes[d].entries.Keys - unseen
        invariant Tallied(inodes, start + Covered(inodes, rank, d, names), inodeRefCountMap)
        decreases unseen
      {
        var n :| n in unseen;
        WalkNext(inodes, rank, d, start, names, n);
        ValidateEntry(d, n, rank, start + Covered(inodes, rank, d, names));
        unseen := unseen - {n};
        names := names + {n};
      }
      assert names == inodes[d].entries.Keys;
      CoveredAll(inodes, rank, d);
    }

    /** Sets every link count that differs from its tally. */
    method CorrectLinkCounts() returns (linkCountsFixed: nat)
      requires forall i :: i in inodeRefCountMap ==> i in inodes
      modifies `inodes
      ensures inodes == Corrected(old(inodes), inodeRefCountMap)
      ensures linkCountsFixed == |Wrong(old(inodes), inodeRefCountMap)|
    {
      linkCountsFixed := 0;
      var unseen := inodeRefCountMap.Keys;
      ghost var wrong := {};
      while unseen != {}
        invariant unseen <= inodeRefCountMap.Keys
        invariant inodes == Corrected(old(inodes), inodeRefCountMap - unseen)
        invariant wrong == Wrong(old(inodes), inodeRefCountMap - unseen) && linkCountsFixed == |wrong|
        decreases unseen
      {
        var i :| i in unseen;
        CorrectedNext(old(inodes), inodeRefCountMap, unseen, i);
        if inodes[i].linkCount != inodeRefCountMap[i] {
          inodes := inodes[i := inodes[i].(linkCount := inodeRefCountMap[i])];
          linkCountsFixed := linkCountsFixed + 1;
          wrong := wrong + {i};
        }
        unseen := unseen - {i};
      }
      assert inodeRefCountMap - {} == inodeRefCountMap;
    }

    /** The whole check: afterwards no link count of an inode the walk comes across
        differs from the number of entries naming it, and nothing else has changed. */
    method ValidateVolume(ghost rank: nat -> nat) returns (linkCountsFixed: nat)
      requires TreeShaped(inodes, rank)
      modifies this
      ensures Tallied(old(inodes), Reached(old(inodes), rank), inodeRefCountMap)
      ensures inodes == Corrected(old(inodes), inodeRefCountMap)
      ensures linkCountsFixed == |Miscounted(old(inodes), rank)|
      ensures TreeShaped(inodes, rank) && Miscounted(inodes, rank) == {}
    {
      inodeRefCountMap := map[];
      NothingTallied(inodes);
      ValidateDirInode(RootDirInodeNumber, rank, {});
      assert {} + Reached(inodes, rank) == Reached(inodes, rank);
      TalliedExist(inodes, Reached(inodes, rank), inodeRefCountMap);
      WrongAreMiscounted(inodes, rank, inodeRefCountMap);
      CorrectedCounts(inodes, rank, inodeRefCountMap);
      linkCountsFixed := CorrectLinkCounts();
    }
  }

  /** The entries of the directories the walk visits. */
  ghost function Reached(v: Inodes, rank: nat -> nat): set<(nat, string)>
    requires TreeShaped(v, rank)
  {
    EntriesOf(v, Subtree(v, rank, RootDirInodeNumber))
  }

  /** The inodes come across whose link count is not the number of entries that name them. */
  ghost function Miscounted(v: Inodes, rank: nat -> nat): set<nat>
    requires TreeShaped(v, rank)
  {
    set i | i in v && Tally(v, Reached(v, rank), i) > 0 && v[i].linkCount != Tally(v, Reached(v, rank), i)
  }

  lemma NothingTallied(v: Inodes)
    ensures Tallied(v, {}, map[])
  {
    forall i ensures Tally(v, {}, i) == 0 {
      var none: set<(nat, string)> := {};
      assert (set e | e in none && Names(v, e.0, e.1, i)) == {};
    }
  }

  /** Only inodes there are get counted. */
  lemma TalliedExist(v: Inodes, done: set<(nat, string)>, counts: map<nat, nat>)
    requires Sound(v) && Tallied(v, done, counts)
    ensures forall i :: i in counts ==> i in v
  {
    forall i | i in counts ensures i in v {
      var naming := set e | e in done && Names(v, e.0, e.1, i);
      assert Recorded(counts, i) == Tally(v, done, i) == |naming|;
      assert naming != {};
      var e :| e in naming;
      assert Names(v, e.0, e.1, i);
    }
  }

  lemma WrongAreMiscounted(v: Inodes, rank: nat -> nat, counts: map<nat, nat>)
    requires TreeShaped(v, rank) && Tallied(v, Reached(v, rank), counts)
    ensures Wrong(v, counts) == Miscounted(v, rank)
  {
    forall i ensures i in Wrong(v, counts) <==> i in Miscounted(v, rank) {
      assert Recorded(counts, i) == Tally(v, Reached(v, rank), i);
    }
  }

  // ----- running it again -----

  /** The same entries and kinds of inode, whatever the link counts. */
  ghost predicate SameShape(v: Inodes, w: Inodes) {
    v.Keys == w.Keys && forall i :: i in v ==> v[i].entries == w[i].entries && v[i].isDir == w[i].isDir
  }

  lemma SameNamesThere(v: Inodes, w: Inodes)
    requires SameShape(v, w)
    ensures forall d, n, i :: Names(v, d, n, i) <==> Names(w, d, n, i)
  {
  }

  lemma SameTree(v: Inodes, w: Inodes, rank: nat -> nat)
    requires SameShape(v, w) && TreeShaped(v, rank)
    ensures TreeShaped(w, rank)
  {
    SameNamesThere(v, w);
    forall d, n, c ensures LeadsTo(v, d, n, c) <==> LeadsTo(w, d, n, c) {}
  }

  lemma {:induction false} SameSubtree(v: Inodes, w: Inodes, rank: nat -> nat, d: nat)
    requires SameShape(v, w) && TreeShaped(v, rank) && TreeShaped(w, rank)
    ensures Subtree(v, rank, d) == Subtree(w, rank, d)
    decreases rank(d)
  {
    if d in v {
      SameNamesThere(v, w);
      forall x ensures x in Subtree(v, rank, d) <==> x in Subtree(w, rank, d) {
        SubtreeIff(v, rank, d, x);
        SubtreeIff(w, rank, d, x);
        forall n, c | LeadsTo(v, d, n, c) ensures LeadsTo(w, d, n, c) && Subtree(v, rank, c) == Subtree(w, rank, c) {
          SameSubtree(v, w, rank, c);
        }
        assert forall n, c :: LeadsTo(w, d, n, c) ==> LeadsTo(v, d, n, c);
      }
    }
  }

  /** Once the counts are corrected a walk finds none to correct. */
  lemma CorrectedCounts(v: Inodes, rank: nat -> nat, counts: map<nat, nat>)
    requires TreeShaped(v, rank) && Tallied(v, Reached(v, rank), counts)
    ensures var w := Corrected(v, counts); TreeShaped(w, rank) && Miscounted(w, rank) == {}
  {
    var w := Corrected(v, counts);
    SameTree(v, w, rank);
    SameSubtree(v, w, rank, RootDirInodeNumber);
    assert Reached(w, rank) == Reached(v, rank);
    SameNamesThere(v, w);
    forall i | i in w && Tally(w, Reached(w, rank), i) > 0 ensures w[i].linkCount == Tally(w, Reached(w, rank), i) {
      SameTally(v, w, Reached(v, rank), i);
      assert Recorded(counts, i) == Tally(v, Reached(v, rank), i);
    }
  }

  lemma SameTally(v: Inodes, w: Inodes, done: set<(nat, string)>, i: nat)
    requires SameShape(v, w)
    ensures Tally(v, done, i) == Tally(w, done, i)
  {
    SameNamesThere(v, w);
    assert (set e | e in done && Names(v, e.0, e.1, i)) == (set e | e in done && Names(w, e.0, e.1, i));
  }

  // ----- a volume built by the directory operations -----

  lemma {:induction false} ChildInSubtree(v: Inodes, rank: nat -> nat, d: nat, p: nat, n: string, c: nat)
    requires TreeShaped(v, rank) && d in v && p in Subtree(v, rank, d) && LeadsTo(v, p, n, c)
    ensures c in Subtree(v, rank, d)
    decreases rank(d)
  {
    SubtreeIff(v, rank, d, p);
    SubtreeIff(v, rank, d, c);
    SubtreeIff(v, rank, c, c);
    if p != d {
      var m, b :| LeadsTo(v, d, m, b) && p in Subtree(v, rank, b);
      ChildInSubtree(v, rank, b, p, n, c);
    }
  }

  lemma {:induction false} RanksBounded(rank: nat -> nat, numbers: set<nat>) returns (bound: nat)
    ensures forall i :: i in numbers ==> rank(i) <= bound
  {
    if numbers == {} {
      bound := 0;
    } else {
      var i :| i in numbers;
      bound := RanksBounded(rank, numbers - {i});
      bound := if bound < rank(i) then rank(i) else bound;
    }
  }

  /** Every directory hangs below the root when all but the root have a "..". */
  lemma {:induction false} AllReached(v: Inodes, rank: nat -> nat, bound: nat, d: nat)
    requires Inv(v) && Homed(v) && TreeShaped(v, rank) && (forall i :: i in v ==> rank(i) <= bound)
    requires d in v && v[d].isDir
    ensures d in Subtree(v, rank, RootDirInodeNumber)
    decreases bound - rank(d)
  {
    if d == RootDirInodeNumber {
      SubtreeIff(v, rank, d, d);
    } else {
      var p := v[d].entries[".."];
      assert Names(v, d, "..", p);
      var n :| Ordinary(n) && Names(v, p, n, d);
      assert LeadsTo(v, p, n, d);
      AllReached(v, rank, bound, p);
      ChildInSubtree(v, rank, RootDirInodeNumber, p, n, d);
    }
  }

  /** On a volume as the directory operations leave it there is nothing to correct. */
  lemma NothingToCorrect(v: Inodes, rank: nat -> nat)
    requires Inv(v) && Homed(v) && TreeShaped(v, rank)
    ensures Miscounted(v, rank) == {}
  {
    var bound := RanksBounded(rank, v.Keys);
    forall i | i in v ensures v[i].linkCount == Tally(v, Reached(v, rank), i) {
      forall e ensures e in NamesOf(v, i) <==> e in Reached(v, rank) && Names(v, e.0, e.1, i) {
        NamesOfIff(v, i, e);
        if Names(v, e.0, e.1, i) {
          AllReached(v, rank, bound, e.0);
        }
      }
      assert NamesOf(v, i) == set e | e in Reached(v, rank) && Names(v, e.0, e.1, i);
      assert Excess(v, i) == 0;
    }
  }

  /** The inodes with the link counts tallied for them. */
  function Corrected(v: Inodes, counts: map<nat, nat>): Inodes {
    map i | i in v :: if i in counts then v[i].(linkCount := counts[i]) else v[i]
  }

  /** The inodes whose link count is not the one tallied. */
  function Wrong(v: Inodes, counts: map<nat, nat>): set<nat> {
    set i | i in counts && i in v && v[i].linkCount != counts[i]
  }

  lemma CorrectedNext(v: Inodes, counts: map<nat, nat>, unseen: set<nat>, i: nat)
    requires unseen <= counts.Keys && i in unseen && i in v
    ensures var before, after := Corrected(v, counts - unseen), Corrected(v, counts - (unseen - {i}));
            && before[i].linkCount == v[i].linkCount
            && after == before[i := before[i].(linkCount := counts[i])]
            && (before[i].linkCount == counts[i] ==> after == before)
    ensures var before, after := Wrong(v, counts - unseen), Wrong(v, counts - (unseen - {i}));
            && i !in before
            && after == before + if v[i].linkCount != counts[i] then {i} else {}
  {
  }

  /** Whatever operations a volume is built by, if its directories form a tree the check corrects nothing. */
  method BuildVolume(ops: seq<NameTables.Operation>) returns (volume: DirVolumes.DirVolume)
    requires forall k :: 0 <= k < |ops| ==> DirVolumes.WithOrdinaryNames(ops[k])
    ensures NameTables.Models(volume.inodes, volume.nextInodeNumber, NameTables.AfterAll(NameTables.NewSpace(), ops))
    ensures forall rank: nat -> nat :: TreeShaped(volume.inodes, rank) ==> Miscounted(volume.inodes, rank) == {}
  {
    volume := new DirVolumes.DirVolume();
    volume.Run(ops, NameTables.NewSpace());
    forall rank: nat -> nat | TreeShaped(volume.inodes, rank) ensures Miscounted(volume.inodes, rank) == {} {
      NothingToCorrect(volume.inodes, rank);
    }
  }
}
