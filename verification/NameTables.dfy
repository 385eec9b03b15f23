/** What the directory operations come to: a table of names. "." and "..", and all link counts,
follow from it.
*/
module NameTables {
  import opened Common
  import opened Directories
  import opened DirectoryRuns

  datatype Operation =
    | CreateFile(dir: nat, name: string)
    | MakeDir(dir: nat, name: string)
    | LinkFile(dir: nat, name: string, target: nat)
    | UnlinkFile(dir: nat, name: string)
    | RemoveDir(dir: nat, name: string)
    | Rename(srcDir: nat, srcName: string, dstDir: nat, dstName: string)

  /** The directories, the other inodes, what the names other than "." and ".." stand for, and the next inode number. */
  datatype Space = Space(dirs: set<nat>, files: set<nat>, names: map<(nat, string), nat>, next: nat)

  function NewSpace(): Space {
    Space({RootDirInodeNumber}, {}, map[], 2)
  }

  predicate Free(s: Space, d: nat, n: string) {
    d in s.dirs && Ordinary(n) && (d, n) !in s.names
  }

  /** The operation is not refused. */
  predicate Allowed(s: Space, op: Operation) {
    match op
    case CreateFile(d, n) => Free(s, d, n)
    case MakeDir(d, n) => Free(s, d, n)
    case LinkFile(d, n, t) => Free(s, d, n) && t in s.files
    case UnlinkFile(d, n) => (d, n) in s.names && s.names[(d, n)] in s.files
    case RemoveDir(d, n) =>
      (d, n) in s.names && s.names[(d, n)] in s.dirs && forall e :: e in s.names ==> e.0 != s.names[(d, n)]
    case Rename(sd, sn, dd, dn) =>
      && sd in s.dirs && dd in s.dirs && (sd, sn) != (dd, dn) && (sd, sn) in s.names
      && ((dd, dn) in s.names ==> s.names[(dd, dn)] in s.files)
  }

  /** A number is used up for an inode even if it cannot be linked, unless the directory is missing. */
  predicate Numbers(s: Space, op: Operation) {
    (op.CreateFile? || op.MakeDir?) && op.dir in s.dirs + s.files
  }

  /** Another name stands for the same inode. */
  predicate NamedElsewhere(s: Space, name: (nat, string))
    requires name in s.names
  {
    exists e :: e in s.names && e != name && s.names[e] == s.names[name]
  }

  /** What the operation makes of the table. A file goes with its last name, but not when another is moved over that. */
  function After(s: Space, op: Operation): Space {
    if !Allowed(s, op) then s.(next := s.next + if Numbers(s, op) then 1 else 0)
    else
      match op
      case CreateFile(d, n) => Space(s.dirs, s.files + {s.next}, s.names[(d, n) := s.next], s.next + 1)
      case MakeDir(d, n) => Space(s.dirs + {s.next}, s.files, s.names[(d, n) := s.next], s.next + 1)
      case LinkFile(d, n, t) => s.(names := s.names[(d, n) := t])
      case UnlinkFile(d, n) =>
        var u := s.names[(d, n)];
        s.(names := s.names - {(d, n)},
           files := if NamedElsewhere(s, (d, n)) then s.files else s.files - {u})
      case RemoveDir(d, n) => s.(names := s.names - {(d, n)}, dirs := s.dirs - {s.names[(d, n)]})
      case Rename(sd, sn, dd, dn) => s.(names := (s.names - {(sd, sn)})[(dd, dn) := s.names[(sd, sn)]])
  }

  function AfterAll(s: Space, ops: seq<Operation>): Space {
    if ops == [] then s else After(AfterAll(s, ops[..|ops| - 1]), ops[|ops| - 1])
  }

  /** The inodes are those of the table. */
  ghost predicate Models(v: Inodes, next: nat, s: Space) {
    && next == s.next && SameInodes(v, s)
    && (forall e :: e in s.names ==> Ordinary(e.1))
    && (forall d: nat, n: string, x: nat :: Ordinary(n) ==>
         (Names(v, d, n, x) <==> (d, n) in s.names && s.names[(d, n)] == x))
  }

  ghost predicate SameInodes(v: Inodes, s: Space) {
    && (forall i :: i in s.dirs <==> i in v && v[i].isDir)
    && (forall i :: i in s.files <==> i in v && !v[i].isDir)
  }

  lemma NewVolumeModels()
    ensures Models(NewVolume(), 2, NewSpace())
  {
  }

  // ----- the table says it all -----

  /** In a volume as the operations leave it, the way back of a directory leads to where it is named. */
  lemma WayBack(v: Inodes, c: nat)
    requires Inv(v) && Homed(v) && c in v && v[c].isDir && c != RootDirInodeNumber
    ensures ".." in v[c].entries && exists n :: Ordinary(n) && Names(v, v[c].entries[".."], n, c)
  {
    assert Names(v, c, "..", v[c].entries[".."]);
  }

  lemma SameWayBack(v: Inodes, w: Inodes, next: nat, s: Space, c: nat)
    requires Inv(v) && Homed(v) && Models(v, next, s) && Inv(w) && Homed(w) && Models(w, next, s)
    requires c in v && v[c].isDir
    ensures c in w && ".." in v[c].entries && ".." in w[c].entries && v[c].entries[".."] == w[c].entries[".."]
  {
    assert c in s.dirs;
    if c == RootDirInodeNumber {
      assert Names(v, c, "..", c) && Names(w, c, "..", c);
    } else {
      WayBack(v, c);
      WayBack(w, c);
      var n :| Ordinary(n) && Names(v, v[c].entries[".."], n, c);
      assert Names(w, v[c].entries[".."], n, c);
    }
  }

  lemma SameEntries(v: Inodes, w: Inodes, next: nat, s: Space, c: nat, n: string)
    requires Inv(v) && Homed(v) && Models(v, next, s) && Inv(w) && Homed(w) && Models(w, next, s)
    requires c in v && n in v[c].entries
    ensures Names(w, c, n, v[c].entries[n])
  {
    assert Names(v, c, n, v[c].entries[n]);
    if n == ".." {
      SameWayBack(v, w, next, s, c);
    } else if n == "." {
      assert c in s.dirs && Names(v, c, ".", c) && Names(w, c, ".", c);
    }
  }

  lemma SameEntriesAt(v: Inodes, w: Inodes, next: nat, s: Space, c: nat)
    requires Inv(v) && Homed(v) && Models(v, next, s) && Inv(w) && Homed(w) && Models(w, next, s) && c in v
    ensures c in w && w[c].isDir == v[c].isDir && w[c].entries == v[c].entries
  {
    assert c in s.dirs + s.files;
    forall n | n in v[c].entries ensures n in w[c].entries && w[c].entries[n] == v[c].entries[n] {
      SameEntries(v, w, next, s, c, n);
    }
    forall n | n in w[c].entries ensures n in v[c].entries {
      SameEntries(w, v, next, s, c, n);
    }
  }

  lemma SameCounts(v: Inodes, w: Inodes)
    requires Counted(v) && Counted(w) && v.Keys == w.Keys
    requires forall c :: c in v ==> w[c].isDir == v[c].isDir && w[c].entries == v[c].entries
    ensures v == w
  {
    forall c | c in v ensures w[c] == v[c] {
      SameNames(v, w, c);
      assert Excess(v, c) == 0 && Excess(w, c) == 0;
    }
  }

  /** Two volumes with the same table are the same, link counts and all. */
  lemma TableSaysAll(v: Inodes, w: Inodes, next: nat, s: Space)
    requires Inv(v) && Homed(v) && Models(v, next, s) && Inv(w) && Homed(w) && Models(w, next, s)
    ensures v == w
  {
    forall c | c in v ensures c in w && w[c].isDir == v[c].isDir && w[c].entries == v[c].entries {
      SameEntriesAt(v, w, next, s, c);
    }
    forall c | c in w ensures c in v {
      SameEntriesAt(w, v, next, s, c);
    }
    SameCounts(v, w);
  }

  // ----- when operations are allowed -----

  /** "." and ".." are never free. */
  lemma FreeNameOrdinary(v: Inodes, d: nat, n: string, t: nat)
    requires Sound(v) && HomedBut(v, t) && IsFree(v, d, n) && (d != t || d == RootDirInodeNumber)
    ensures Ordinary(n)
  {
    assert Names(v, d, ".", d);
    assert Names(v, RootDirInodeNumber, "..", RootDirInodeNumber);
  }

  /** They name no file. */
  lemma FileNameOrdinary(v: Inodes, d: nat, n: string, u: nat)
    requires Inv(v) && Names(v, d, n, u) && u in v && !v[u].isDir
    ensures Ordinary(n)
  {
    assert n == "." ==> Names(v, d, ".", d);
    assert n == ".." && d != RootDirInodeNumber ==> exists m :: Ordinary(m) && Names(v, u, m, d);
  }

  predicate IsFree(v: Inodes, d: nat, n: string) {
    d in v && v[d].isDir && n !in v[d].entries
  }

  predicate HasFile(v: Inodes, d: nat, n: string) {
    d in v && v[d].isDir && n in v[d].entries && v[d].entries[n] in v && !v[v[d].entries[n]].isDir
  }

  predicate HasEmptyDir(v: Inodes, d: nat, n: string) {
    && d in v && v[d].isDir && n in v[d].entries && v[d].entries[n] in v
    && v[v[d].entries[n]].isDir && |v[v[d].entries[n]].entries| == 2
  }

  lemma IsFreeIff(v: Inodes, next: nat, s: Space, d: nat, n: string)
    requires Inv(v) && Homed(v) && Models(v, next, s)
    ensures IsFree(v, d, n) <==> Free(s, d, n)
  {
    if IsFree(v, d, n) {
      FreeNameOrdinary(v, d, n, RootDirInodeNumber);
      assert (d, n) in s.names ==> Names(v, d, n, s.names[(d, n)]);
    }
    if Free(s, d, n) && n in v[d].entries {
      assert Names(v, d, n, v[d].entries[n]);
    }
  }

  lemma HasFileIff(v: Inodes, next: nat, s: Space, d: nat, n: string)
    requires Inv(v) && Models(v, next, s)
    ensures HasFile(v, d, n) <==> Allowed(s, UnlinkFile(d, n))
  {
    if HasFile(v, d, n) {
      assert Names(v, d, n, v[d].entries[n]);
      FileNameOrdinary(v, d, n, v[d].entries[n]);
    }
    if (d, n) in s.names {
      assert Names(v, d, n, s.names[(d, n)]);
    }
  }

  /** Of two entries "." and ".." are one each. */
  lemma OnlyDots(entries: map<string, nat>)
    requires "." in entries && ".." in entries
    ensures |entries| == 2 <==> forall n :: n in entries ==> !Ordinary(n)
  {
    var others := entries.Keys - {".", ".."};
    assert entries.Keys == others + {".", ".."};
    assert |entries.Keys| == |others| + 2;
    if |others| > 0 {
      var n :| n in others;
      assert n in entries && Ordinary(n);
    }
    assert forall n :: n in entries && Ordinary(n) ==> n in others;
  }

  lemma HasEmptyDirIff(v: Inodes, next: nat, s: Space, d: nat, n: string)
    requires Inv(v) && Homed(v) && Models(v, next, s) && Ordinary(n)
    ensures HasEmptyDir(v, d, n) <==> Allowed(s, RemoveDir(d, n))
  {
    if d in v && n in v[d].entries {
      assert Names(v, d, n, v[d].entries[n]);
    }
    if (d, n) in s.names {
      var u := s.names[(d, n)];
      assert Names(v, d, n, u);
      if u in v && v[u].isDir {
        assert Names(v, u, ".", u) && Names(v, u, "..", d);
        OnlyDots(v[u].entries);
        forall e | e in s.names && e.0 == u ensures e.1 in v[u].entries && Ordinary(e.1) {
          assert Names(v, e.0, e.1, s.names[e]);
        }
        forall m | m in v[u].entries && Ordinary(m) ensures (u, m) in s.names {
          assert Names(v, u, m, v[u].entries[m]);
        }
      }
    }
  }

  lemma MovableIff(v: Inodes, next: nat, s: Space, sd: nat, sn: string, dd: nat, dn: string)
    requires Inv(v) && Models(v, next, s) && Ordinary(sn) && Ordinary(dn)
    ensures Movable(v, sd, sn, dd, dn) <==> Allowed(s, Rename(sd, sn, dd, dn))
  {
    if sd in v && sn in v[sd].entries {
      assert Names(v, sd, sn, v[sd].entries[sn]);
    }
    if dd in v && dn in v[dd].entries {
      assert Names(v, dd, dn, v[dd].entries[dn]);
    }
    if (sd, sn) in s.names {
      assert Names(v, sd, sn, s.names[(sd, sn)]);
    }
    if (dd, dn) in s.names {
      assert Names(v, dd, dn, s.names[(dd, dn)]);
    }
  }

  // ----- what operations make of the inodes -----

  /** Every inode of both is a directory in both or in neither. */
  ghost predicate SameKinds(v: Inodes, w: Inodes) {
    forall i :: i in v && i in w ==> w[i].isDir == v[i].isDir
  }

  /** Inode `i`, new, is a file with one name. */
  ghost predicate FileMade(v: Inodes, w: Inodes, d: nat, n: string, i: nat) {
    && w.Keys == v.Keys + {i} && SameKinds(v, w) && !w[i].isDir && w[i].linkCount == 1
    && forall e, m, x :: Names(w, e, m, x) <==> Names(v, e, m, x) || (e == d && m == n && x == i)
  }

  /** Inode `i`, new, is a directory with a name, itself and a way back. */
  ghost predicate DirMade(v: Inodes, w: Inodes, d: nat, n: string, i: nat) {
    && w.Keys == v.Keys + {i} && SameKinds(v, w) && w[i].isDir && w[i].linkCount == 2
    && forall e, m, x :: Names(w, e, m, x) <==>
         || Names(v, e, m, x) || (e == d && m == n && x == i)
         || (e == i && m == "." && x == i) || (e == i && m == ".." && x == d)
  }

  /** Inode `t` has another name. */
  ghost predicate NameAdded(v: Inodes, w: Inodes, d: nat, n: string, t: nat) {
    && w.Keys == v.Keys && SameKinds(v, w)
    && forall e, m, x :: Names(w, e, m, x) <==> Names(v, e, m, x) || (e == d && m == n && x == t)
  }

  /** A name is gone, and with it the file if it was its last. */
  ghost predicate FileNameRemoved(v: Inodes, w: Inodes, d: nat, n: string, u: nat) {
    && w.Keys == (if NamesOf(v, u) == {(d, n)} then v.Keys - {u} else v.Keys) && SameKinds(v, w)
    && forall e, m, x :: Names(w, e, m, x) <==> Names(v, e, m, x) && !(e == d && m == n)
  }

  /** A directory is gone, with its name and its own entries. */
  ghost predicate DirRemoved(v: Inodes, w: Inodes, d: nat, n: string, u: nat) {
    && w.Keys == v.Keys - {u} && SameKinds(v, w)
    && forall e, m, x :: Names(w, e, m, x) <==> Names(v, e, m, x) && !(e == d && m == n) && e != u
  }

  /** An entry has moved, over another perhaps, and a directory's way back with it. */
  ghost predicate EntryMoved(v: Inodes, w: Inodes, sd: nat, sn: string, dd: nat, dn: string, src: nat) {
    && w.Keys == v.Keys && SameKinds(v, w) && src in v
    && forall e, m, x :: Names(w, e, m, x) <==>
         if e == dd && m == dn then x == src
         else if e == sd && m == sn then false
         else if sd != dd && v[src].isDir && e == src && m == ".." then x == dd
         else Names(v, e, m, x)
  }

  // ----- and of the table -----

  lemma FileMadeModels(v: Inodes, w: Inodes, s: Space, d: nat, n: string)
    requires Models(v, s.next, s) && Free(s, d, n) && s.next !in v && FileMade(v, w, d, n, s.next)
    ensures Models(w, s.next + 1, After(s, CreateFile(d, n)))
  {
  }

  lemma DirMadeModels(v: Inodes, w: Inodes, s: Space, d: nat, n: string)
    requires Models(v, s.next, s) && Free(s, d, n) && s.next !in v && DirMade(v, w, d, n, s.next)
    ensures Models(w, s.next + 1, After(s, MakeDir(d, n)))
  {
  }

  lemma NameAddedModels(v: Inodes, w: Inodes, s: Space, d: nat, n: string, t: nat)
    requires Models(v, s.next, s) && Allowed(s, LinkFile(d, n, t)) && NameAdded(v, w, d, n, t)
    ensures Models(w, s.next, After(s, LinkFile(d, n, t)))
  {
  }

  lemma LastNameInTable(v: Inodes, s: Space, d: nat, n: string, u: nat)
    requires Inv(v) && Models(v, s.next, s) && (d, n) in s.names && u == s.names[(d, n)] && u in v && !v[u].isDir
    ensures NamesOf(v, u) == {(d, n)} <==> !NamedElsewhere(s, (d, n))
  {
    assert Names(v, d, n, u);
    NamesOfIff(v, u, (d, n));
    forall e | e in NamesOf(v, u) ensures e in s.names && s.names[e] == u {
      NamesOfIff(v, u, e);
      FileNameOrdinary(v, e.0, e.1, u);
    }
    forall e | e in s.names && s.names[e] == u ensures e in NamesOf(v, u) {
      assert Names(v, e.0, e.1, u);
      NamesOfIff(v, u, e);
    }
  }

  lemma FileGone(v: Inodes, w: Inodes, s: Space, d: nat, n: string, gone: set<nat>)
    requires Models(v, s.next, s) && (d, n) in s.names && gone !! s.dirs && w.Keys == v.Keys - gone && SameKinds(v, w)
    requires forall e, m, x :: Names(w, e, m, x) <==> Names(v, e, m, x) && !(e == d && m == n)
    ensures Models(w, s.next, s.(names := s.names - {(d, n)}, files := s.files - gone))
  {
  }

  lemma FileNameRemovedModels(v: Inodes, w: Inodes, s: Space, d: nat, n: string)
    requires Inv(v) && Models(v, s.next, s) && Allowed(s, UnlinkFile(d, n))
    requires FileNameRemoved(v, w, d, n, s.names[(d, n)])
    ensures Models(w, s.next, After(s, UnlinkFile(d, n)))
  {
    var u := s.names[(d, n)];
    LastNameInTable(v, s, d, n, u);
    FileGone(v, w, s, d, n, if NamedElsewhere(s, (d, n)) then {} else {u});
    assert s.files - {} == s.files;
  }

  lemma DirRemovedModels(v: Inodes, w: Inodes, s: Space, d: nat, n: string)
    requires Models(v, s.next, s) && Allowed(s, RemoveDir(d, n)) && DirRemoved(v, w, d, n, s.names[(d, n)])
    ensures Models(w, s.next, After(s, RemoveDir(d, n)))
  {
  }

  lemma EntryMovedModels(v: Inodes, w: Inodes, s: Space, sd: nat, sn: string, dd: nat, dn: string)
    requires Models(v, s.next, s) && Allowed(s, Rename(sd, sn, dd, dn)) && Ordinary(sn) && Ordinary(dn)
    requires EntryMoved(v, w, sd, sn, dd, dn, s.names[(sd, sn)])
    ensures Models(w, s.next, After(s, Rename(sd, sn, dd, dn)))
  {
  }

  // ----- files without a name -----

  /** What names stand for is there, a directory has one name at most, and numbers from the next on are new. */
  ghost predicate Grounded(s: Space) {
    && (forall e :: e in s.names ==> s.names[e] in s.dirs + s.files)
    && (forall e, e' :: e in s.names && e' in s.names && s.names[e] == s.names[e'] && s.names[e] in s.dirs ==> e == e')
    && s.dirs !! s.files && forall i :: i in s.dirs + s.files ==> i < s.next
  }

  lemma GroundedNext(s: Space, op: Operation)
    requires Grounded(s)
    ensures Grounded(After(s, op))
  {
    var s' := After(s, op);
    forall e | e in s'.names ensures s'.names[e] in s'.dirs + s'.files {
      NamedIsThere(s, op, e);
    }
    NumbersBelow(s, op);
    forall e, e' | e in s'.names && e' in s'.names && s'.names[e] == s'.names[e'] && s'.names[e] in s'.dirs
      ensures e == e'
    {
      DirNameBefore(s, op, e);
      DirNameBefore(s, op, e');
    }
  }

  lemma NamedIsThere(s: Space, op: Operation, e: (nat, string))
    requires Grounded(s) && e in After(s, op).names
    ensures After(s, op).names[e] in After(s, op).dirs + After(s, op).files
  {
    if Allowed(s, op) {
      match op
      case CreateFile(_, _) =>
      case MakeDir(_, _) =>
      case LinkFile(_, _, _) =>
      case UnlinkFile(d, n) =>
        assert s.names[e] == s.names[(d, n)] ==> NamedElsewhere(s, (d, n));
      case RemoveDir(d, n) =>
        assert s.names[e] != s.names[(d, n)];
      case Rename(_, _, _, _) =>
        assert After(s, op).names[e] == s.names[NameBefore(s, op, e)];
    }
  }

  lemma NumbersBelow(s: Space, op: Operation)
    requires Grounded(s)
    ensures After(s, op).dirs !! After(s, op).files
    ensures forall i :: i in After(s, op).dirs + After(s, op).files ==> i < After(s, op).next
  {
    var s' := After(s, op);
    assert s.next !in s.dirs + s.files;
    forall i | i in s'.dirs + s'.files ensures i < s'.next {
      assert i in s.dirs + s.files || (i == s.next && s'.next == s.next + 1);
    }
  }

  lemma DirNameBefore(s: Space, op: Operation, e: (nat, string))
    requires Grounded(s) && e in After(s, op).names && After(s, op).names[e] in After(s, op).dirs
    ensures var i := After(s, op).names[e];
            if i == s.next then op.MakeDir? && e == (op.dir, op.name)
            else NameBefore(s, op, e) in s.names && s.names[NameBefore(s, op, e)] == i && i in s.dirs
  {
  }

  /** The name that what the name stands for had before. */
  function NameBefore(s: Space, op: Operation, e: (nat, string)): (nat, string) {
    if op.Rename? && Allowed(s, op) && e == (op.dstDir, op.dstName) then (op.srcDir, op.srcName) else e
  }

  /** Every file has a name. */
  ghost predicate AllNamed(s: Space) {
    forall i :: i in s.files ==> exists e :: e in s.names && s.names[e] == i
  }

  /** The entry is moved over the last name of another file. */
  ghost predicate MovesOverLast(s: Space, op: Operation) {
    && op.Rename? && Allowed(s, op) && (op.dstDir, op.dstName) in s.names
    && s.names[(op.dstDir, op.dstName)] != s.names[(op.srcDir, op.srcName)]
    && !NamedElsewhere(s, (op.dstDir, op.dstName))
  }

  /** A name is left to every file that one stands for and that keeps it, or another. */
  lemma StillNamed(s: Space, op: Operation, i: nat)
    requires Grounded(s) && AllNamed(s) && i in After(s, op).files && !MovesOverLast(s, op)
    ensures exists e :: e in After(s, op).names && After(s, op).names[e] == i
  {
    var s' := After(s, op);
    if op.CreateFile? && Allowed(s, op) && i == s.next {
      assert s'.names[(op.dir, op.name)] == i;
    } else {
      var e :| e in s.names && s.names[e] == i;
      if op.UnlinkFile? && Allowed(s, op) && e == (op.dir, op.name) {
        var e' :| e' in s.names && e' != e && s.names[e'] == i;
        assert s'.names[e'] == i;
      } else if op.Rename? && Allowed(s, op) && e == (op.srcDir, op.srcName) {
        assert s'.names[(op.dstDir, op.dstName)] == i;
      } else if op.Rename? && Allowed(s, op) && e == (op.dstDir, op.dstName) {
        MovedOverNamed(s, op, i);
      } else {
        assert s'.names[e] == i;
      }
    }
  }

  lemma MovedOverNamed(s: Space, op: Operation, i: nat)
    requires op.Rename? && Allowed(s, op) && !MovesOverLast(s, op)
    requires (op.dstDir, op.dstName) in s.names && s.names[(op.dstDir, op.dstName)] == i
    ensures exists e :: e in After(s, op).names && After(s, op).names[e] == i
  {
    var s', dst := After(s, op), (op.dstDir, op.dstName);
    if s.names[(op.srcDir, op.srcName)] == i {
      assert s'.names[dst] == i;
    } else {
      var e :| e in s.names && e != dst && s.names[e] == i;
      assert s'.names[e] == i;
    }
  }

  lemma MovedOverUnnamed(s: Space, op: Operation)
    requires MovesOverLast(s, op)
    ensures s.names[(op.dstDir, op.dstName)] in After(s, op).files
    ensures forall e :: e in After(s, op).names ==> After(s, op).names[e] != s.names[(op.dstDir, op.dstName)]
  {
  }

  /** Every file keeps a name, or goes with its last one, exactly unless an entry is moved over that. */
  lemma AllNamedIff(s: Space, op: Operation)
    requires Grounded(s) && AllNamed(s)
    ensures AllNamed(After(s, op)) <==> !MovesOverLast(s, op)
  {
    if MovesOverLast(s, op) {
      MovedOverUnnamed(s, op);
    } else {
      forall i | i in After(s, op).files ensures exists e :: e in After(s, op).names && After(s, op).names[e] == i {
        StillNamed(s, op, i);
      }
    }
  }

  /** The table once the first `k` operations are done on a new volume. */
  function Reached(ops: seq<Operation>, k: nat): Space
    requires k <= |ops|
  {
    AfterAll(NewSpace(), ops[..k])
  }

  lemma ReachedNext(ops: seq<Operation>, k: nat)
    requires k < |ops|
    ensures Reached(ops, k + 1) == After(Reached(ops, k), ops[k])
  {
    assert ops[..k + 1][..k] == ops[..k];
  }

  lemma {:induction false} ReachedGrounded(ops: seq<Operation>, k: nat)
    requires k <= |ops|
    ensures Grounded(Reached(ops, k))
  {
    if k > 0 {
      ReachedGrounded(ops, k - 1);
      ReachedNext(ops, k - 1);
      GroundedNext(Reached(ops, k - 1), ops[k - 1]);
    }
  }

  lemma {:induction false} NamedUpTo(ops: seq<Operation>, k: nat)
    requires k <= |ops| && forall j :: 0 <= j < k ==> !MovesOverLast(Reached(ops, j), ops[j])
    ensures AllNamed(Reached(ops, k))
  {
    if k > 0 {
      NamedUpTo(ops, k - 1);
      ReachedGrounded(ops, k - 1);
      ReachedNext(ops, k - 1);
      AllNamedIff(Reached(ops, k - 1), ops[k - 1]);
    }
  }

  /** Every file has a name all through a run exactly if no entry is moved over the last name of another file. */
  lemma AlwaysNamedIff(ops: seq<Operation>)
    ensures (forall k :: 0 <= k <= |ops| ==> AllNamed(Reached(ops, k))) <==>
            forall k :: 0 <= k < |ops| ==> !MovesOverLast(Reached(ops, k), ops[k])
  {
    if forall k :: 0 <= k <= |ops| ==> AllNamed(Reached(ops, k)) {
      forall k | 0 <= k < |ops| ensures !MovesOverLast(Reached(ops, k), ops[k]) {
        ReachedGrounded(ops, k);
        ReachedNext(ops, k);
        assert AllNamed(Reached(ops, k)) && AllNamed(Reached(ops, k + 1));
        AllNamedIff(Reached(ops, k), ops[k]);
      }
    }
    if forall k :: 0 <= k < |ops| ==> !MovesOverLast(Reached(ops, k), ops[k]) {
      forall k | 0 <= k <= |ops| ensures AllNamed(Reached(ops, k)) {
        NamedUpTo(ops, k);
      }
    }
  }

  /** A file another was moved over is left behind, without a name and with no link. */
  lemma FileLeftBehind(v: Inodes, next: nat, s: Space, op: Operation)
    requires Inv(v) && MovesOverLast(s, op) && Models(v, next, After(s, op))
    ensures var i := s.names[(op.dstDir, op.dstName)]; i in v && !v[i].isDir && v[i].linkCount == 0
  {
    var i := s.names[(op.dstDir, op.dstName)];
    MovedOverUnnamed(s, op);
    assert i in v && !v[i].isDir;
    forall e ensures e !in NamesOf(v, i) {
      NamesOfIff(v, i, e);
      if Names(v, e.0, e.1, i) {
        FileNameOrdinary(v, e.0, e.1, i);
      }
    }
    assert NamesOf(v, i) == {};
    assert Excess(v, i) == 0;
  }

  /** Two files are created and the one renamed to the other. */
  function CreateTwoAndRename(): seq<Operation> {
    [CreateFile(RootDirInodeNumber, "a"), CreateFile(RootDirInodeNumber, "b"),
     Rename(RootDirInodeNumber, "a", RootDirInodeNumber, "b")]
  }

  lemma RenameLeavesFile()
    ensures var s := AfterAll(NewSpace(), CreateTwoAndRename());
            s.files == {2, 3} && s.names == map[(RootDirInodeNumber, "b") := 2]
  {
    var ops := CreateTwoAndRename();
    assert ops[..1] == [ops[0]] && ops[..2][..1] == ops[..1] && ops[..1][..0] == [];
    var s1 := After(NewSpace(), ops[0]);
    assert AfterAll(NewSpace(), ops[..1]) == s1;
    assert s1 == Space({1}, {2}, map[(1, "a") := 2], 3);
    var s2 := After(s1, ops[1]);
    assert AfterAll(NewSpace(), ops[..2]) == s2;
    assert s2 == Space({1}, {2, 3}, map[(1, "a") := 2, (1, "b") := 3], 4);
    assert ops[..|ops| - 1] == ops[..2];
  }
}
