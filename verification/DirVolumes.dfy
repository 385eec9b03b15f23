/** The directory operations as the code runs them, on the inodes of a volume. */
module DirVolumes {
  import opened Common
  import opened Directories
  import opened DirectoryRuns
  import opened NameTables

  datatype Outcome = Done | Refused | Panicked

  class DirVolume {
    var inodes: Inodes
    var nextInodeNumber: nat

    ghost predicate Valid()
      reads this
    {
      Inv(inodes) && Homed(inodes) && forall i :: i in inodes ==> i < nextInodeNumber
    }

    constructor ()
      ensures Valid() && inodes == NewVolume() && Models(inodes, nextInodeNumber, NewSpace())
    {
      inodes := NewVolume();
      nextInodeNumber := 2;
      NewVolumeInv();
    }

    // ----- the operations on inodes -----

    method AddDirEntry(d: nat, t: nat, basename: string) returns (outcome: Outcome)
      requires d in inodes && t in inodes
      modifies `inodes
      ensures outcome == if basename in old(inodes)[d].entries then Refused else Done
      ensures inodes == if outcome == Done then Linked(old(inodes), d, basename, t) else old(inodes)
    {
      if basename in inodes[d].entries {
        return Refused;
      }
      inodes := WithEntry(inodes, d, basename, t);
      inodes := WithLinks(inodes, t, 1);
      if inodes[t].isDir && t != RootDirInodeNumber {
        if ".." !in inodes[t].entries {
          inodes := WithEntry(inodes, t, "..", d);
        }
        inodes := WithLinks(inodes, d, 1);
      }
      return Done;
    }

    method Link(d: nat, basename: string, t: nat) returns (outcome: Outcome)
      requires Counted(inodes)
      modifies `inodes
      ensures outcome == if IsFree(old(inodes), d, basename) && t in old(inodes) then Done else Refused
      ensures outcome != Done ==> inodes == old(inodes)
      ensures outcome == Done ==>
                && inodes == Linked(old(inodes), d, basename, t)
                && inodes.Keys == old(inodes).Keys && Names(inodes, d, basename, t)
                && (Counted(inodes) <==> !HasParent(old(inodes), d, basename, t))
    {
      if d !in inodes || !inodes[d].isDir || t !in inodes {
        return Refused;
      }
      if basename !in inodes[d].entries {
        LinkedCountedIff(inodes, d, basename, t);
        LinkedKeeps(inodes, d, basename, t);
      }
      outcome := AddDirEntry(d, t, basename);
    }

    method RemoveDirEntry(d: nat, u: nat, basename: string) returns (outcome: Outcome)
      requires d in inodes && u in inodes && Names(inodes, d, basename, u)
      modifies `inodes
      ensures outcome == if Unlinked(old(inodes), d, basename, u).Some? then Done else Panicked
      ensures outcome == Done ==> inodes == Unlinked(old(inodes), d, basename, u).value
    {
      inodes := WithoutEntry(inodes, d, basename);
      inodes := WithLinks(inodes, u, -1);
      if inodes[u].isDir {
        if ".." !in inodes[u].entries {
          return Panicked;
        }
        inodes := WithoutEntry(inodes, u, "..");
        inodes := WithLinks(inodes, d, -1);
      }
      return Done;
    }

    method Unlink(d: nat, basename: string) returns (outcome: Outcome)
      requires Counted(inodes)
      modifies `inodes
      ensures outcome == Refused <==>
              !(d in old(inodes) && old(inodes)[d].isDir && basename in old(inodes)[d].entries
                && old(inodes)[d].entries[basename] in old(inodes))
      ensures outcome == Refused ==> inodes == old(inodes)
      ensures outcome != Refused ==>
                var u := old(inodes)[d].entries[basename];
                && (outcome == Done <==> Unlinked(old(inodes), d, basename, u).Some?)
                && (outcome == Done ==>
                      && inodes == Unlinked(old(inodes), d, basename, u).value && inodes.Keys == old(inodes).Keys
                      && (Counted(inodes) <==> !OtherParent(old(inodes), d, u)))
    {
      if d !in inodes || !inodes[d].isDir || basename !in inodes[d].entries {
        return Refused;
      }
      var u := inodes[d].entries[basename];
      if u !in inodes {
        return Refused;
      }
      if Unlinked(inodes, d, basename, u).Some? {
        UnlinkedCountedIff(inodes, d, basename, u);
      }
      outcome := RemoveDirEntry(d, u, basename);
    }

    /** Panics where the code does: a directory that does not exist, an entry naming no inode, a directory without
        "..". */
    method Move(sd: nat, sn: string, dd: nat, dn: string) returns (outcome: Outcome)
      requires Counted(inodes)
      modifies `inodes
      ensures outcome == Done ==>
                && Movable(old(inodes), sd, sn, dd, dn) && Moved(old(inodes), sd, sn, dd, dn) == Some(inodes)
                && (Counted(inodes) <==> !MoveMiscounts(old(inodes), sd, sn, dd, old(inodes)[sd].entries[sn]))
      ensures outcome == Refused ==> inodes == old(inodes) && !Movable(old(inodes), sd, sn, dd, dn)
      ensures Movable(old(inodes), sd, sn, dd, dn) && Moved(old(inodes), sd, sn, dd, dn).Some? ==> outcome == Done
      ensures !Movable(old(inodes), sd, sn, dd, dn) ==> inodes == old(inodes)
    {
      if sd !in inodes || !inodes[sd].isDir {
        return Panicked;
      }
      if sd == dd && sn == dn {
        return Refused;
      }
      if dd !in inodes || !inodes[dd].isDir {
        return Panicked;
      }
      if sn !in inodes[sd].entries || inodes[sd].entries[sn] !in inodes {
        return Refused;
      }
      var src := inodes[sd].entries[sn];
      var dst := Destination(inodes, dd, dn);
      if dst.Some? && dst.value !in inodes {
        return Panicked;
      }
      if dst.Some? && inodes[dst.value].isDir {
        return Refused;
      }
      assert Movable(inodes, sd, sn, dd, dn);
      ghost var v := inodes;
      if Rehomed(v, sd, dd, src).Some? {
        MovedCountedIff(v, sd, sn, dd, dn);
      }
      if sd != dd && inodes[src].isDir {
        inodes := WithLinks(inodes, sd, -1);
        inodes := WithLinks(inodes, dd, 1);
        if ".." !in inodes[src].entries {
          return Panicked;
        }
        inodes := WithEntry(inodes, src, "..", dd);
      }
      inodes := WithoutEntry(inodes, sd, sn);
      if dst.Some? {
        inodes := WithLinks(inodes, dst.value, -1);
      }
      inodes := WithEntry(inodes, dd, dn, src);
      return Done;
    }

    // ----- the file system's operations -----

    method Create(d: nat, name: string) returns (outcome: Outcome)
      requires Valid()
      modifies this
      ensures Valid()
      ensures outcome == if IsFree(old(inodes), d, name) then Done else Refused
      ensures outcome == Done ==> FileMade(old(inodes), inodes, d, name, old(nextInodeNumber))
      ensures outcome != Done ==> inodes == old(inodes)
      ensures nextInodeNumber == old(nextInodeNumber) + if d in old(inodes) then 1 else 0
    {
      ghost var v, i := inodes, nextInodeNumber;
      if d !in inodes {
        return Refused;
      }
      outcome := MakeFile(d, name);
      if outcome == Done {
        FileMadeBy(v, d, name, i);
      }
    }

    /** A file is made, linked, and destroyed again if that fails. */
    method MakeFile(d: nat, name: string) returns (outcome: Outcome)
      requires Valid() && d in inodes
      modifies this
      ensures Valid() && nextInodeNumber == old(nextInodeNumber) + 1
      ensures outcome == if IsFree(old(inodes), d, name) then Done else Refused
      ensures var i := old(nextInodeNumber);
              inodes == if outcome == Done then Linked(WithFile(old(inodes), i), d, name, i) else old(inodes)
    {
      ghost var v := inodes;
      var i := nextInodeNumber;
      nextInodeNumber := nextInodeNumber + 1;
      inodes := WithFile(inodes, i);
      assert Inv(inodes) && Homed(inodes) by {
        WithFileInv(v, i);
      }
      outcome := LinkNewFile(d, name, i);
      if outcome != Done {
        inodes := inodes - {i};
        AddedThenRemoved(v, i, Inode(false, 0, map[]));
      }
    }

    /** The link of a file just made. */
    method LinkNewFile(d: nat, name: string, t: nat) returns (outcome: Outcome)
      requires Inv(inodes) && Homed(inodes) && t in inodes && !inodes[t].isDir
      modifies `inodes
      ensures Inv(inodes) && Homed(inodes) && inodes.Keys == old(inodes).Keys
      ensures outcome == if IsFree(old(inodes), d, name) then Done else Refused
      ensures inodes == if outcome == Done then Linked(old(inodes), d, name, t) else old(inodes)
    {
      outcome := LinkFile(d, name, t);
    }

    method Mkdir(d: nat, name: string) returns (outcome: Outcome)
      requires Valid()
      modifies this
      ensures Valid()
      ensures outcome == if IsFree(old(inodes), d, name) then Done else Refused
      ensures outcome == Done ==> DirMade(old(inodes), inodes, d, name, old(nextInodeNumber))
      ensures outcome != Done ==> inodes == old(inodes)
      ensures nextInodeNumber == old(nextInodeNumber) + if d in old(inodes) then 1 else 0
    {
      ghost var v, i := inodes, nextInodeNumber;
      if d !in inodes {
        return Refused;
      }
      outcome := MakeDirectory(d, name);
      if outcome == Done {
        DirMadeBy(v, d, name, i);
      }
    }

    /** A directory is made, linked, and destroyed again if that fails. */
    method MakeDirectory(d: nat, name: string) returns (outcome: Outcome)
      requires Valid() && d in inodes
      modifies this
      ensures Valid() && nextInodeNumber == old(nextInodeNumber) + 1
      ensures outcome == if IsFree(old(inodes), d, name) then Done else Refused
      ensures var i := old(nextInodeNumber);
              inodes == if outcome == Done then Linked(WithDir(old(inodes), i), d, name, i) else old(inodes)
    {
      ghost var v := inodes;
      var i := nextInodeNumber;
      nextInodeNumber := nextInodeNumber + 1;
      inodes := WithDir(inodes, i);
      assert Inv(inodes) && HomedBut(inodes, i) by {
        WithDirInv(v, i);
      }
      outcome := LinkNewDir(d, name, i);
      if outcome != Done {
        inodes := inodes - {i};
        AddedThenRemoved(v, i, Inode(true, 1, map["." := i]));
      }
    }

    /** The link of a directory just made. */
    method LinkNewDir(d: nat, name: string, t: nat) returns (outcome: Outcome)
      requires Inv(inodes) && HomedBut(inodes, t) && d != t && t != RootDirInodeNumber
      requires t in inodes && inodes[t].isDir && inodes[t].entries == map["." := t]
      modifies `inodes
      ensures Inv(inodes) && inodes.Keys == old(inodes).Keys
      ensures outcome == if IsFree(old(inodes), d, name) then Done else Refused
      ensures outcome == Done ==> Homed(inodes) && inodes == Linked(old(inodes), d, name, t)
      ensures outcome != Done ==> inodes == old(inodes)
    {
      if d in inodes && inodes[d].isDir && name !in inodes[d].entries {
        FreeNameOrdinary(inodes, d, name, t);
        NewDirLinked(inodes, d, name, t);
        LinkedHomed(inodes, d, name, t);
      }
      outcome := Link(d, name, t);
    }

    /** Link: not for directories. */
    method LinkFile(d: nat, name: string, t: nat) returns (outcome: Outcome)
      requires Inv(inodes) && Homed(inodes)
      modifies `inodes
      ensures Inv(inodes) && Homed(inodes) && inodes.Keys == old(inodes).Keys
      ensures outcome ==
              if IsFree(old(inodes), d, name) && t in old(inodes) && !old(inodes)[t].isDir then Done else Refused
      ensures outcome == Done ==>
                inodes == Linked(old(inodes), d, name, t) && NameAdded(old(inodes), inodes, d, name, t)
      ensures outcome != Done ==> inodes == old(inodes)
    {
      if t !in inodes || inodes[t].isDir {
        return Refused;
      }
      if d in inodes && inodes[d].isDir && name !in inodes[d].entries {
        FreeNameOrdinary(inodes, d, name, RootDirInodeNumber);
        LinkedFileInv(inodes, d, name, t);
        LinkedHomed(inodes, d, name, t);
        LinkedNames(inodes, d, name, t);
      }
      outcome := Link(d, name, t);
    }

    /** Unlink: not for directories; the last name takes the file with it. */
    method UnlinkFile(d: nat, name: string) returns (outcome: Outcome)
      requires Valid()
      modifies `inodes
      ensures Valid()
      ensures outcome == if HasFile(old(inodes), d, name) then Done else Refused
      ensures outcome == Refused ==> inodes == old(inodes)
      ensures outcome == Done ==>
                FileNameRemoved(old(inodes), inodes, d, name, old(inodes)[d].entries[name])
    {
      if d !in inodes || !inodes[d].isDir || name !in inodes[d].entries {
        return Refused;
      }
      var u := inodes[d].entries[name];
      if u !in inodes || inodes[u].isDir {
        return Refused;
      }
      ghost var v := inodes;
      FileNameOrdinary(v, d, name, u);
      UnlinkedFileInv(v, d, name, u);
      UnlinkedHomed(v, d, name, u);
      LastNameIff(v, d, name, u);
      outcome := Unlink(d, name);
      if inodes[u].linkCount == 0 {
        UnlinkedFileHasNoName(inodes, u);
        DestroyedInv(inodes, u);
        inodes := inodes - {u};
      }
      FileNameRemovedBy(v, d, name, u);
    }

    /** Rmdir: only a directory with no entries but "." and "..". */
    method Rmdir(d: nat, name: string) returns (outcome: Outcome)
      requires Valid() && Ordinary(name)
      modifies `inodes
      ensures Valid()
      ensures outcome == if HasEmptyDir(old(inodes), d, name) then Done else Refused
      ensures outcome == Refused ==> inodes == old(inodes)
      ensures outcome == Done ==> DirRemoved(old(inodes), inodes, d, name, old(inodes)[d].entries[name])
    {
      if d !in inodes || !inodes[d].isDir || name !in inodes[d].entries {
        return Refused;
      }
      var u := inodes[d].entries[name];
      if u !in inodes || !inodes[u].isDir || |inodes[u].entries| != 2 {
        return Refused;
      }
      DirRemovedBy(inodes, d, name, u);
      RemovedDirInv(inodes, d, name, u);
      outcome := Unlink(d, name);
      inodes := inodes - {u};
    }

    method Rename(sd: nat, sn: string, dd: nat, dn: string) returns (outcome: Outcome)
      requires Valid() && Ordinary(sn) && Ordinary(dn)
      modifies `inodes
      ensures Valid()
      ensures outcome == Done <==> Movable(old(inodes), sd, sn, dd, dn)
      ensures outcome == Done ==> Moved(old(inodes), sd, sn, dd, dn) == Some(inodes)
      ensures outcome == Done ==> EntryMoved(old(inodes), inodes, sd, sn, dd, dn, old(inodes)[sd].entries[sn])
      ensures outcome != Done ==> inodes == old(inodes)
    {
      ghost var v := inodes;
      if sd !in inodes || dd !in inodes {
        return Refused;
      }
      outcome := Move(sd, sn, dd, dn);
      if Movable(v, sd, sn, dd, dn) {
        MovedInv(v, sd, sn, dd, dn);
        MovedNames(v, sd, sn, dd, dn);
        MovedHomed(v, sd, sn, dd, dn);
      }
    }

    /** Making an inode is what it is in the table of names. */
    method PerformMake(op: Operation, ghost s: Space) returns (outcome: Outcome)
      requires Valid() && Models(inodes, nextInodeNumber, s) && (op.CreateFile? || op.MakeDir?)
      modifies this
      ensures Valid() && Models(inodes, nextInodeNumber, After(s, op))
      ensures outcome == Done <==> Allowed(s, op)
    {
      ghost var v := inodes;
      IsFreeIff(v, nextInodeNumber, s, op.dir, op.name);
      if op.CreateFile? {
        outcome := Create(op.dir, op.name);
        if outcome == Done {
          FileMadeModels(v, inodes, s, op.dir, op.name);
        }
      } else {
        outcome := Mkdir(op.dir, op.name);
        if outcome == Done {
          DirMadeModels(v, inodes, s, op.dir, op.name);
        }
      }
    }

    /** So are the operations on names. */
    method PerformName(op: Operation, ghost s: Space) returns (outcome: Outcome)
      requires Valid() && Models(inodes, nextInodeNumber, s) && (op.LinkFile? || op.UnlinkFile?)
      modifies `inodes
      ensures Valid() && Models(inodes, nextInodeNumber, After(s, op))
      ensures outcome == Done <==> Allowed(s, op)
    {
      ghost var v := inodes;
      if op.LinkFile? {
        IsFreeIff(v, nextInodeNumber, s, op.dir, op.name);
        outcome := LinkFile(op.dir, op.name, op.target);
        if outcome == Done {
          NameAddedModels(v, inodes, s, op.dir, op.name, op.target);
        }
      } else {
        HasFileIff(v, nextInodeNumber, s, op.dir, op.name);
        outcome := UnlinkFile(op.dir, op.name);
        if outcome == Done {
          assert Names(v, op.dir, op.name, s.names[(op.dir, op.name)]);
          FileNameRemovedModels(v, inodes, s, op.dir, op.name);
        }
      }
    }

    method PerformTree(op: Operation, ghost s: Space) returns (outcome: Outcome)
      requires Valid() && Models(inodes, nextInodeNumber, s) && (op.RemoveDir? || op.Rename?) && WithOrdinaryNames(op)
      modifies `inodes
      ensures Valid() && Models(inodes, nextInodeNumber, After(s, op))
      ensures outcome == Done <==> Allowed(s, op)
    {
      ghost var v := inodes;
      if op.RemoveDir? {
        HasEmptyDirIff(v, nextInodeNumber, s, op.dir, op.name);
        outcome := Rmdir(op.dir, op.name);
        if outcome == Done {
          assert Names(v, op.dir, op.name, s.names[(op.dir, op.name)]);
          DirRemovedModels(v, inodes, s, op.dir, op.name);
        }
      } else {
        MovableIff(v, nextInodeNumber, s, op.srcDir, op.srcName, op.dstDir, op.dstName);
        outcome := Rename(op.srcDir, op.srcName, op.dstDir, op.dstName);
        if outcome == Done {
          assert Names(v, op.srcDir, op.srcName, s.names[(op.srcDir, op.srcName)]);
          EntryMovedModels(v, inodes, s, op.srcDir, op.srcName, op.dstDir, op.dstName);
        }
      }
    }

    /** Each operation succeeds exactly if it is allowed in the table of names, and does there what it should. */
    method Perform(op: Operation, ghost s: Space) returns (outcome: Outcome)
      requires Valid() && Models(inodes, nextInodeNumber, s) && WithOrdinaryNames(op)
      modifies this
      ensures Valid() && Models(inodes, nextInodeNumber, After(s, op))
      ensures outcome == Done <==> Allowed(s, op)
    {
      if op.CreateFile? || op.MakeDir? {
        outcome := PerformMake(op, s);
      } else if op.LinkFile? || op.UnlinkFile? {
        outcome := PerformName(op, s);
      } else {
        outcome := PerformTree(op, s);
      }
    }

    /** Through every sequence of operations the volume is what the table of names says, and
        every link count stays the number of entries naming its inode. */
    method Run(ops: seq<Operation>, ghost s: Space)
      requires Valid() && Models(inodes, nextInodeNumber, s)
      requires forall k :: 0 <= k < |ops| ==> WithOrdinaryNames(ops[k])
      modifies this
      ensures Valid() && Models(inodes, nextInodeNumber, AfterAll(s, ops))
      ensures forall i :: i in inodes ==> inodes[i].linkCount == |NamesOf(inodes, i)|
    {
      assert ops[..0] == [];
      for k := 0 to |ops|
        invariant Valid() && Models(inodes, nextInodeNumber, AfterAll(s, ops[..k]))
      {
        assert ops[..k + 1][..k] == ops[..k];
        var _ := Perform(ops[k], AfterAll(s, ops[..k]));
      }
      assert ops[..|ops|] == ops;
      assert forall i :: i in inodes ==> Excess(inodes, i) == 0;
    }
  }

  /** A new file, linked. */
  lemma FileMadeBy(v: Inodes, d: nat, n: string, i: nat)
    requires i !in v && d in v && n !in v[d].entries
    ensures FileMade(v, Linked(WithFile(v, i), d, n, i), d, n, i)
  {
    LinkedNames(WithFile(v, i), d, n, i);
  }

  /** A new directory, linked. */
  lemma DirMadeBy(v: Inodes, d: nat, n: string, i: nat)
    requires i !in v && d in v && n !in v[d].entries && i != RootDirInodeNumber
    ensures DirMade(v, Linked(WithDir(v, i), d, n, i), d, n, i)
  {
    var w := WithDir(v, i);
    LinkedNames(w, d, n, i);
    assert forall e, m, x :: Names(w, e, m, x) <==> Names(v, e, m, x) || (e == i && m == "." && x == i);
  }

  lemma WithoutNames(w: Inodes, u: nat, e: nat, m: string, x: nat)
    ensures Names(w - {u}, e, m, x) <==> Names(w, e, m, x) && e != u
  {
  }

  /** A file unlinked, and destroyed if that was its last name. */
  lemma FileNameRemovedBy(v: Inodes, d: nat, n: string, u: nat)
    requires Inv(v) && u in v && !v[u].isDir && Names(v, d, n, u)
    ensures Unlinked(v, d, n, u).Some?
    ensures var w := Unlinked(v, d, n, u).value;
            FileNameRemoved(v, if w[u].linkCount == 0 then w - {u} else w, d, n, u)
  {
    LastNameIff(v, d, n, u);
    FileHasNoEntries(v, u);
    FileLeaves(v, d, n, u);
  }

  lemma FileHasNoEntries(v: Inodes, u: nat)
    requires Sound(v) && u in v && !v[u].isDir
    ensures forall m, x :: !Names(v, u, m, x)
  {
  }

  lemma FileLeaves(v: Inodes, d: nat, n: string, u: nat)
    requires u in v && !v[u].isDir && Names(v, d, n, u) && forall m, x :: !Names(v, u, m, x)
    requires Unlinked(v, d, n, u).value[u].linkCount == 0 <==> NamesOf(v, u) == {(d, n)}
    ensures var w := Unlinked(v, d, n, u).value;
            FileNameRemoved(v, if w[u].linkCount == 0 then w - {u} else w, d, n, u)
  {
    UnlinkedNames(v, d, n, u);
    var w := Unlinked(v, d, n, u).value;
    var w' := if w[u].linkCount == 0 then w - {u} else w;
    forall e, m, x ensures Names(w', e, m, x) <==> Names(v, e, m, x) && !(e == d && m == n) {
      WithoutNames(w, u, e, m, x);
    }
  }

  /** A directory with no entries but "." and ".." unlinked and destroyed. */
  lemma DirRemovedBy(v: Inodes, d: nat, n: string, u: nat)
    requires Inv(v) && Names(v, d, n, u) && Ordinary(n) && u in v && v[u].isDir && |v[u].entries| == 2
    ensures Unlinked(v, d, n, u).Some? && DirRemoved(v, Unlinked(v, d, n, u).value - {u}, d, n, u)
  {
    assert Unlinked(v, d, n, u).Some? by {
      RemovedDirDetached(v, d, n, u);
    }
    UnlinkedNames(v, d, n, u);
    var w := Unlinked(v, d, n, u).value;
    forall e, m, x ensures Names(w - {u}, e, m, x) <==> Names(v, e, m, x) && !(e == d && m == n) && e != u {
      WithoutNames(w, u, e, m, x);
    }
  }

  lemma RemovedDirInv(v: Inodes, d: nat, n: string, u: nat)
    requires Inv(v) && Homed(v) && Names(v, d, n, u) && Ordinary(n) && u in v && v[u].isDir && |v[u].entries| == 2
    ensures Unlinked(v, d, n, u).Some?
    ensures var w := Unlinked(v, d, n, u).value - {u}; Inv(w) && Homed(w) && w.Keys == v.Keys - {u}
  {
    RemovedDirDetached(v, d, n, u);
    UnlinkedDirInv(v, d, n, u);
    UnlinkedHomed(v, d, n, u);
    DetachedDirGoes(Unlinked(v, d, n, u).value, u);
  }

  lemma LinkedKeeps(v: Inodes, d: nat, n: string, t: nat)
    requires d in v && t in v && n !in v[d].entries
    ensures Linked(v, d, n, t).Keys == v.Keys && Names(Linked(v, d, n, t), d, n, t)
  {
  }

  lemma AddedThenRemoved(v: Inodes, i: nat, inode: Inode)
    requires i !in v
    ensures v[i := inode] - {i} == v
  {
  }

  /** Only to remove or rename by "." or ".." is not covered. */
  predicate WithOrdinaryNames(op: Operation) {
    match op
    case Rename(_, srcName, _, dstName) => Ordinary(srcName) && Ordinary(dstName)
    case RemoveDir(_, name) => Ordinary(name)
    case _ => true
  }

  /** A file is down to no link exactly when the entry removed was its only name. */
  lemma LastNameIff(v: Inodes, d: nat, n: string, u: nat)
    requires Inv(v) && u in v && !v[u].isDir && Names(v, d, n, u)
    ensures Unlinked(v, d, n, u).Some?
    ensures Unlinked(v, d, n, u).value[u].linkCount == 0 <==> NamesOf(v, u) == {(d, n)}
  {
    assert Excess(v, u) == 0;
    NamesOfIff(v, u, (d, n));
    var rest := NamesOf(v, u) - {(d, n)};
    assert NamesOf(v, u) == rest + {(d, n)};
    assert |NamesOf(v, u)| == |rest| + 1;
  }

  /** Of two entries, with ".." gone, "." is left. */
  lemma OnlyDotLeft(entries: map<string, nat>, u: nat)
    requires |entries| == 2 && "." in entries && entries["."] == u && ".." in entries
    ensures entries - {".."} == map["." := u]
    ensures forall n :: n in entries ==> n == "." || n == ".."
  {
    var others := entries.Keys - {".", ".."};
    assert entries.Keys == others + {".", ".."};
    assert |others| == 0;
    assert forall n :: n in entries && n != "." && n != ".." ==> n in others;
  }

  lemma RemovedDirDetached(v: Inodes, d: nat, n: string, u: nat)
    requires Inv(v) && Names(v, d, n, u) && Ordinary(n) && u in v && v[u].isDir && |v[u].entries| == 2
    ensures Unlinked(v, d, n, u).Some? && !OtherParent(v, d, u)
    ensures Unlinked(v, d, n, u).value[u].entries == map["." := u] && u != RootDirInodeNumber
    ensures Unlinked(v, d, n, u).value.Keys == v.Keys && Unlinked(v, d, n, u).value[u].isDir
  {
    assert Names(v, u, "..", d) && Names(v, u, ".", u);
    OnlyDotLeft(v[u].entries, u);
    assert d != u;
  }

  /** A directory with only "." left can go. */
  lemma DetachedDirGoes(v: Inodes, u: nat)
    requires Inv(v) && u in v && v[u].isDir && u != RootDirInodeNumber && v[u].entries == map["." := u]
    ensures Inv(v - {u})
  {
    EmptyDirIsDetached(v, u);
    assert forall m, i :: Names(v, u, m, i) ==> i == u;
    DestroyedInv(v, u);
  }

  /** A new directory can be linked. */
  lemma NewDirLinked(v: Inodes, d: nat, n: string, i: nat)
    requires Inv(v) && i in v && v[i].isDir && i != RootDirInodeNumber && v[i].entries == map["." := i]
    requires d in v && v[d].isDir && d != i && Ordinary(n) && n !in v[d].entries
    ensures Inv(Linked(v, d, n, i))
  {
    EmptyDirIsDetached(v, i);
    LinkedDirInv(v, d, n, i);
  }
}
