/** Runs of the file system's directory operations, with the guards it puts on them. */
module DirectoryRuns {
  import opened Common
  import opened Directories

  predicate Ordinary(n: string) {
    n != "." && n != ".."
  }

  /** Every directory names itself, only directories have entries, and entries name inodes there are. */
  ghost predicate Sound(v: Inodes) {
    && RootDirInodeNumber in v && v[RootDirInodeNumber].isDir
    && Names(v, RootDirInodeNumber, "..", RootDirInodeNumber)
    && (forall d, n, i :: Names(v, d, n, i) ==> v[d].isDir && i in v)
    && (forall d :: d in v && v[d].isDir ==> Names(v, d, ".", d))
  }

  /** A directory other than the root is named once, from its parent, to which its ".." leads back. */
  ghost predicate Treelike(v: Inodes) {
    && (forall d, n, i :: Names(v, d, n, i) && Ordinary(n) && i in v && v[i].isDir ==>
          i != RootDirInodeNumber && Names(v, i, "..", d))
    && (forall d, n, d', n', i ::
          Names(v, d, n, i) && Names(v, d', n', i) && Ordinary(n) && Ordinary(n') && i in v && v[i].isDir ==>
          d == d' && n == n')
    && (forall c, d :: Names(v, c, "..", d) && c != RootDirInodeNumber ==> exists n :: Ordinary(n) && Names(v, d, n, c))
  }

  /** Every directory but the root, and but `t`, has a ".." entry. */
  ghost predicate HomedBut(v: Inodes, t: nat) {
    forall c :: c in v && v[c].isDir && c != RootDirInodeNumber && c != t ==> ".." in v[c].entries
  }

  ghost predicate Homed(v: Inodes) {
    HomedBut(v, RootDirInodeNumber)
  }

  /** What every run keeps. */
  ghost predicate Inv(v: Inodes) {
    Sound(v) && Treelike(v) && Counted(v)
  }

  // ----- new volumes and new inodes -----

  function NewVolume(): Inodes {
    map[RootDirInodeNumber := Inode(true, 2, map["." := RootDirInodeNumber, ".." := RootDirInodeNumber])]
  }

  lemma NewVolumeInv()
    ensures Inv(NewVolume())
  {
    var v := NewVolume();
    forall e
      ensures e in NamesOf(v, RootDirInodeNumber) <==> e in {(RootDirInodeNumber, "."), (RootDirInodeNumber, "..")}
    {
      NamesOfIff(v, RootDirInodeNumber, e);
    }
    assert NamesOf(v, RootDirInodeNumber) == {(RootDirInodeNumber, "."), (RootDirInodeNumber, "..")};
  }

  function WithFile(v: Inodes, i: nat): Inodes {
    v[i := Inode(false, 0, map[])]
  }

  /** A new directory names itself. */
  function WithDir(v: Inodes, i: nat): Inodes {
    v[i := Inode(true, 1, map["." := i])]
  }

  /** An inode there is not has no names. */
  lemma NoNames(v: Inodes, i: nat)
    requires Sound(v) && i !in v
    ensures NamesOf(v, i) == {}
  {
    forall e ensures e !in NamesOf(v, i) {
      NamesOfIff(v, i, e);
    }
  }

  lemma SameNames(v: Inodes, w: Inodes, j: nat)
    requires forall d, n :: Names(w, d, n, j) <==> Names(v, d, n, j)
    ensures NamesOf(w, j) == NamesOf(v, j)
  {
    forall e ensures e in NamesOf(w, j) <==> e in NamesOf(v, j) {
      NamesOfIff(w, j, e);
      NamesOfIff(v, j, e);
    }
  }

  lemma WithFileCounted(v: Inodes, i: nat)
    requires Inv(v) && i !in v
    ensures Counted(WithFile(v, i))
  {
    var w := WithFile(v, i);
    forall j | j in w ensures Excess(w, j) == 0 {
      SameNames(v, w, j);
      if j == i {
        NoNames(v, i);
      }
    }
  }

  lemma WithFileInv(v: Inodes, i: nat)
    requires Inv(v) && i !in v
    ensures Inv(WithFile(v, i))
  {
    WithFileCounted(v, i);
    var w := WithFile(v, i);
    forall d, n, j ensures Names(w, d, n, j) <==> Names(v, d, n, j) {}
    WaysBackKept(v, w);
  }

  lemma WithDirCounted(v: Inodes, i: nat)
    requires Inv(v) && i !in v
    ensures Counted(WithDir(v, i))
  {
    var w := WithDir(v, i);
    forall d, n, j ensures Names(w, d, n, j) <==> Names(v, d, n, j) || (d == i && n == "." && j == i) {}
    forall j | j in w ensures Excess(w, j) == 0 {
      if j == i {
        NoNames(v, i);
        forall e ensures e in NamesOf(w, i) <==> e == (i, ".") {
          NamesOfIff(w, i, e);
          NamesOfIff(v, i, e);
        }
        assert NamesOf(w, i) == {(i, ".")};
      } else {
        SameNames(v, w, j);
      }
    }
  }

  lemma WithDirInv(v: Inodes, i: nat)
    requires Inv(v) && i !in v
    ensures Inv(WithDir(v, i))
  {
    WithDirCounted(v, i);
    var w := WithDir(v, i);
    forall d, n, j ensures Names(w, d, n, j) <==> Names(v, d, n, j) || (d == i && n == "." && j == i) {}
    WaysBackKept(v, w);
  }

  /** Ways back lead to a name as long as names are kept and no way back is new. */
  lemma WaysBackKept(v: Inodes, w: Inodes)
    requires Treelike(v)
    requires forall c, d :: Names(w, c, "..", d) ==> Names(v, c, "..", d)
    requires forall c, d, n :: Names(v, d, n, c) && Ordinary(n) && Names(w, c, "..", d) ==> Names(w, d, n, c)
    ensures forall c, d :: Names(w, c, "..", d) && c != RootDirInodeNumber ==>
              exists n :: Ordinary(n) && Names(w, d, n, c)
  {
    forall c, d | Names(w, c, "..", d) && c != RootDirInodeNumber ensures exists n :: Ordinary(n) && Names(w, d, n, c) {
      var n :| Ordinary(n) && Names(v, d, n, c);
      assert Names(w, d, n, c);
    }
  }

  // ----- linking a file or a new directory -----

  lemma LinkedNames(v: Inodes, d: nat, n: string, t: nat)
    requires d in v && t in v && n !in v[d].entries
    ensures var w := Linked(v, d, n, t);
            && w.Keys == v.Keys && (forall i :: i in v ==> w[i].isDir == v[i].isDir)
            && forall e, m, i :: Names(w, e, m, i) <==>
                 || Names(v, e, m, i)
                 || (e == d && m == n && i == t)
                 || (v[t].isDir && t != RootDirInodeNumber && !HasParent(v, d, n, t) && e == t && m == ".." && i == d)
  {
  }

  lemma LinkedFileInv(v: Inodes, d: nat, n: string, t: nat)
    requires Inv(v) && d in v && v[d].isDir && t in v && !v[t].isDir && Ordinary(n) && n !in v[d].entries
    ensures Inv(Linked(v, d, n, t))
  {
    LinkedCountedIff(v, d, n, t);
    LinkedNames(v, d, n, t);
    WaysBackKept(v, Linked(v, d, n, t));
  }

  /** A directory nothing names but itself. */
  ghost predicate Detached(v: Inodes, t: nat) {
    && t in v && v[t].isDir && t != RootDirInodeNumber
    && v[t].entries == map["." := t]
    && forall e, m :: Names(v, e, m, t) ==> e == t
  }

  lemma LinkedDirTree(v: Inodes, d: nat, n: string, t: nat)
    requires Inv(v) && d in v && v[d].isDir && t != d && Detached(v, t) && Ordinary(n) && n !in v[d].entries
    ensures Sound(Linked(v, d, n, t)) && Treelike(Linked(v, d, n, t))
  {
    LinkedNames(v, d, n, t);
    var w := Linked(v, d, n, t);
    forall c, p | Names(w, c, "..", p) && c != RootDirInodeNumber ensures exists m :: Ordinary(m) && Names(w, p, m, c) {
      if c == t && p == d {
        assert Ordinary(n) && Names(w, p, n, c);
      } else {
        var m :| Ordinary(m) && Names(v, p, m, c);
        assert Names(w, p, m, c);
      }
    }
  }

  lemma LinkedDirInv(v: Inodes, d: nat, n: string, t: nat)
    requires Inv(v) && d in v && v[d].isDir && t != d && Detached(v, t) && Ordinary(n) && n !in v[d].entries
    ensures Inv(Linked(v, d, n, t))
  {
    LinkedCountedIff(v, d, n, t);
    LinkedDirTree(v, d, n, t);
  }

  // ----- unlinking -----

  lemma UnlinkedNames(v: Inodes, d: nat, n: string, u: nat)
    requires d in v && u in v && Names(v, d, n, u) && Unlinked(v, d, n, u).Some?
    ensures var w := Unlinked(v, d, n, u).value;
            && w.Keys == v.Keys && (forall i :: i in v ==> w[i].isDir == v[i].isDir)
            && forall e, m, i :: Names(w, e, m, i) <==>
                 Names(v, e, m, i) && !(e == d && m == n) && !(v[u].isDir && e == u && m == "..")
  {
  }

  lemma UnlinkedFileInv(v: Inodes, d: nat, n: string, u: nat)
    requires Inv(v) && u in v && !v[u].isDir && Names(v, d, n, u) && Ordinary(n)
    ensures Unlinked(v, d, n, u).Some? && Inv(Unlinked(v, d, n, u).value)
  {
    UnlinkedCountedIff(v, d, n, u);
    UnlinkedNames(v, d, n, u);
    WaysBackKept(v, Unlinked(v, d, n, u).value);
  }

  lemma UnlinkedDirInv(v: Inodes, d: nat, n: string, u: nat)
    requires Inv(v) && u in v && v[u].isDir && Names(v, d, n, u) && Ordinary(n)
    ensures Unlinked(v, d, n, u).Some? && Inv(Unlinked(v, d, n, u).value)
  {
    assert Names(v, u, "..", d);
    UnlinkedCountedIff(v, d, n, u);
    UnlinkedNames(v, d, n, u);
    WaysBackKept(v, Unlinked(v, d, n, u).value);
  }

  // ----- destroying -----

  /** Without inode `u`, whose only names are its own entries, the others are named as before. */
  lemma DestroyedCounted(v: Inodes, u: nat)
    requires Inv(v) && u in v && (forall e, m :: Names(v, e, m, u) ==> e == u)
    requires forall m, i :: Names(v, u, m, i) ==> i == u
    ensures Counted(v - {u})
  {
    var w := v - {u};
    forall j | j in w ensures Excess(w, j) == 0 {
      NamedAsBefore(v, u, j);
      SameNames(v, w, j);
      assert Excess(v, j) == 0;
    }
  }

  lemma NamedAsBefore(v: Inodes, u: nat, j: nat)
    requires j != u && forall m, i :: Names(v, u, m, i) ==> i == u
    ensures forall e, m :: Names(v - {u}, e, m, j) <==> Names(v, e, m, j)
  {
  }

  lemma DestroyedTree(v: Inodes, u: nat)
    requires Inv(v) && u in v && u != RootDirInodeNumber
    requires (forall e, m :: Names(v, e, m, u) ==> e == u) && (forall m, i :: Names(v, u, m, i) ==> i == u)
    ensures Sound(v - {u}) && Treelike(v - {u})
  {
    var w := v - {u};
    forall e, m, i ensures Names(w, e, m, i) <==> Names(v, e, m, i) && e != u {}
    WaysBackKept(v, w);
  }

  lemma DestroyedInv(v: Inodes, u: nat)
    requires Inv(v) && u in v && u != RootDirInodeNumber
    requires (forall e, m :: Names(v, e, m, u) ==> e == u) && (forall m, i :: Names(v, u, m, i) ==> i == u)
    ensures Inv(v - {u})
  {
    DestroyedCounted(v, u);
    DestroyedTree(v, u);
  }

  /** A file whose link count is zero has no name left. */
  lemma UnlinkedFileHasNoName(v: Inodes, u: nat)
    requires Inv(v) && u in v && !v[u].isDir && v[u].linkCount == 0
    ensures forall e, m :: !Names(v, e, m, u) && !Names(v, u, m, e)
  {
    assert Excess(v, u) == 0;
    assert NamesOf(v, u) == {};
    forall e, m ensures !Names(v, e, m, u) {
      NamesOfIff(v, u, (e, m));
    }
  }

  /** A directory with "." for its only entry is detached: nothing else names it. */
  lemma EmptyDirIsDetached(v: Inodes, u: nat)
    requires Inv(v) && u in v && v[u].isDir && u != RootDirInodeNumber && v[u].entries == map["." := u]
    ensures Detached(v, u)
  {
    assert forall n, x :: Names(v, u, n, x) <==> n == "." && x == u;
    forall e, m ensures Names(v, e, m, u) ==> e == u {
      assert m == "." && Names(v, e, m, u) ==> Names(v, e, ".", e);
      assert m == ".." && Names(v, e, m, u) ==> e == RootDirInodeNumber && Names(v, e, "..", e);
      assert Ordinary(m) ==> !Names(v, e, m, u);
    }
  }

  // ----- moving -----

  lemma RehomedNames(v: Inodes, sd: nat, dd: nat, src: nat)
    requires sd in v && dd in v && src in v && Rehomed(v, sd, dd, src).Some?
    ensures var w := Rehomed(v, sd, dd, src).value;
            && w.Keys == v.Keys && (forall i :: i in v ==> w[i].isDir == v[i].isDir)
            && forall e, m, i :: Names(w, e, m, i) <==>
                 if sd != dd && v[src].isDir && e == src && m == ".." then i == dd else Names(v, e, m, i)
  {
  }

  lemma ShiftedNames(v: Inodes, sd: nat, sn: string, dd: nat, dn: string, src: nat, dst: Option<nat>)
    requires sd in v && dd in v && (dst.Some? ==> dst.value in v) && (sd, sn) != (dd, dn)
    ensures var w := Shifted(v, sd, sn, dd, dn, src, dst);
            && w.Keys == v.Keys && (forall i :: i in v ==> w[i].isDir == v[i].isDir)
            && forall e, m, i :: Names(w, e, m, i) <==>
                 if e == dd && m == dn then i == src else Names(v, e, m, i) && !(e == sd && m == sn)
  {
  }

  lemma MovedNames(v: Inodes, sd: nat, sn: string, dd: nat, dn: string)
    requires Movable(v, sd, sn, dd, dn) && Moved(v, sd, sn, dd, dn).Some?
    ensures var w, src := Moved(v, sd, sn, dd, dn).value, v[sd].entries[sn];
            && w.Keys == v.Keys && (forall i :: i in v ==> w[i].isDir == v[i].isDir)
            && forall e, m, i :: Names(w, e, m, i) <==>
                 if e == dd && m == dn then i == src
                 else if e == sd && m == sn then false
                 else if sd != dd && v[src].isDir && e == src && m == ".." then i == dd
                 else Names(v, e, m, i)
  {
    var src := v[sd].entries[sn];
    RehomedNames(v, sd, dd, src);
    ShiftedNames(Rehomed(v, sd, dd, src).value, sd, sn, dd, dn, src, Destination(v, dd, dn));
  }

  lemma MovedSound(v: Inodes, sd: nat, sn: string, dd: nat, dn: string)
    requires Sound(v) && Movable(v, sd, sn, dd, dn) && v[sd].entries[sn] != RootDirInodeNumber && Ordinary(sn)
    requires Ordinary(dn) && Moved(v, sd, sn, dd, dn).Some?
    ensures Sound(Moved(v, sd, sn, dd, dn).value)
  {
    MovedNames(v, sd, sn, dd, dn);
    var w, src := Moved(v, sd, sn, dd, dn).value, v[sd].entries[sn];
    assert Names(v, sd, sn, src);
  }

  /** The ways back after a move. */
  lemma MovedWaysBack(v: Inodes, sd: nat, sn: string, dd: nat, dn: string)
    requires Sound(v) && Treelike(v) && Movable(v, sd, sn, dd, dn) && Ordinary(sn) && Ordinary(dn)
    requires Moved(v, sd, sn, dd, dn).Some?
    ensures var w := Moved(v, sd, sn, dd, dn).value;
            forall c, p :: Names(w, c, "..", p) && c != RootDirInodeNumber ==>
              exists m :: Ordinary(m) && Names(w, p, m, c)
  {
    MovedNames(v, sd, sn, dd, dn);
    var w, src := Moved(v, sd, sn, dd, dn).value, v[sd].entries[sn];
    assert Names(v, sd, sn, src) && Names(w, dd, dn, src);
    forall c, p | Names(w, c, "..", p) && c != RootDirInodeNumber ensures exists m :: Ordinary(m) && Names(w, p, m, c) {
      if c == src {
        assert Ordinary(dn) && Names(w, p, dn, c);
      } else {
        var m :| Ordinary(m) && Names(v, p, m, c);
        assert Names(w, p, m, c);
      }
    }
  }

  lemma MovedTree(v: Inodes, sd: nat, sn: string, dd: nat, dn: string)
    requires Sound(v) && Treelike(v) && Movable(v, sd, sn, dd, dn) && Ordinary(sn) && Ordinary(dn)
    requires Moved(v, sd, sn, dd, dn).Some?
    ensures Treelike(Moved(v, sd, sn, dd, dn).value)
  {
    MovedWaysBack(v, sd, sn, dd, dn);
    MovedNames(v, sd, sn, dd, dn);
    assert Names(v, sd, sn, v[sd].entries[sn]);
  }

  lemma MovedInv(v: Inodes, sd: nat, sn: string, dd: nat, dn: string)
    requires Inv(v) && Movable(v, sd, sn, dd, dn) && Ordinary(sn) && Ordinary(dn)
    ensures Moved(v, sd, sn, dd, dn).Some? && Inv(Moved(v, sd, sn, dd, dn).value)
  {
    var src := v[sd].entries[sn];
    if v[src].isDir {
      assert Names(v, sd, sn, src) && Names(v, src, "..", sd);
    }
    MovedCountedIff(v, sd, sn, dd, dn);
    assert Treelike(Moved(v, sd, sn, dd, dn).value) by {
      MovedTree(v, sd, sn, dd, dn);
    }
    assert Names(v, sd, sn, src);
    MovedSound(v, sd, sn, dd, dn);
  }

  // ----- ".." entries -----

  lemma LinkedHomed(v: Inodes, d: nat, n: string, t: nat)
    requires d in v && t in v && n !in v[d].entries
    ensures v[t].isDir && HomedBut(v, t) ==> Homed(Linked(v, d, n, t))
    ensures Homed(v) ==> Homed(Linked(v, d, n, t))
  {
  }

  lemma UnlinkedHomed(v: Inodes, d: nat, n: string, u: nat)
    requires Homed(v) && d in v && u in v && Ordinary(n) && Names(v, d, n, u) && Unlinked(v, d, n, u).Some?
    ensures HomedBut(Unlinked(v, d, n, u).value, u)
    ensures !v[u].isDir ==> Homed(Unlinked(v, d, n, u).value)
  {
  }

  lemma MovedHomed(v: Inodes, sd: nat, sn: string, dd: nat, dn: string)
    requires Homed(v) && Movable(v, sd, sn, dd, dn) && Ordinary(sn) && Moved(v, sd, sn, dd, dn).Some?
    ensures Homed(Moved(v, sd, sn, dd, dn).value)
  {
    MovedNames(v, sd, sn, dd, dn);
    var w, src := Moved(v, sd, sn, dd, dn).value, v[sd].entries[sn];
    forall c | c in w && w[c].isDir && c != RootDirInodeNumber ensures ".." in w[c].entries {
      assert Names(v, c, "..", v[c].entries[".."]);
      assert Names(w, c, "..", v[c].entries[".."]) || Names(w, c, "..", dd) || Names(w, c, "..", src);
    }
  }

  // ----- where counts go wrong -----

  /** A new volume with one directory, number 2, named "a" in the root. */
  function OneDirectory(): Inodes {
    map[RootDirInodeNumber := Inode(true, 3, map["." := RootDirInodeNumber, ".." := RootDirInodeNumber, "a" := 2]),
        2 := Inode(true, 2, map["." := 2, ".." := RootDirInodeNumber])]
  }

  lemma OneDirectoryBuilt()
    ensures OneDirectory() == Linked(WithDir(NewVolume(), 2), RootDirInodeNumber, "a", 2)
  {
    var v := WithDir(NewVolume(), 2);
    var w := WithLinks(WithEntry(v, RootDirInodeNumber, "a", 2), 2, 1);
    assert w[2].entries == map["." := 2];
    assert OneDirectory() == WithLinks(WithEntry(w, 2, "..", RootDirInodeNumber), RootDirInodeNumber, 1);
  }

  lemma OneDirectoryInv()
    ensures Inv(OneDirectory())
  {
    OneDirectoryBuilt();
    var v := WithDir(NewVolume(), 2);
    assert Inv(v) by {
      NewVolumeInv();
      WithDirInv(NewVolume(), 2);
    }
    EmptyDirIsDetached(v, 2);
    LinkedDirInv(v, RootDirInodeNumber, "a", 2);
  }

  /** A second link to the directory counts a ".." that is not there. */
  lemma SecondLinkMiscounts()
    ensures !Counted(Linked(OneDirectory(), RootDirInodeNumber, "b", 2))
  {
    OneDirectoryInv();
    LinkedCountedIff(OneDirectory(), RootDirInodeNumber, "b", 2);
  }

  /** Unlinking the directory by its own "." takes the ".." that was counted for the root from the directory itself. */
  lemma UnlinkMiscounts()
    ensures Unlinked(OneDirectory(), 2, ".", 2).Some? && !Counted(Unlinked(OneDirectory(), 2, ".", 2).value)
  {
    OneDirectoryInv();
    UnlinkedCountedIff(OneDirectory(), 2, ".", 2);
  }

  /** So does moving it by its own "." into the root. */
  lemma MoveByDotMiscounts()
    ensures Movable(OneDirectory(), 2, ".", RootDirInodeNumber, "b")
    ensures var moved := Moved(OneDirectory(), 2, ".", RootDirInodeNumber, "b"); moved.Some? && !Counted(moved.value)
  {
    OneDirectoryInv();
    MovedCountedIff(OneDirectory(), 2, ".", RootDirInodeNumber, "b");
  }
}
