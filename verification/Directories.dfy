/** Directories and link counts: every inode's link count is the number of
directory entries that name it, "." and ".." included.
*/
module Directories {
  import opened Common

  /** A file or symbolic link has no entries. */
  datatype Inode = Inode(isDir: bool, linkCount: int, entries: map<string, nat>)

  type Inodes = map<nat, Inode>

  /** The entries that name inode `i`, by directory and name. */
  function NamesOf(v: Inodes, i: nat): set<(nat, string)> {
    set d, n | d in v && n in v[d].entries && v[d].entries[n] == i :: (d, n)
  }

  /** Entry `n` of directory `d` names inode `i`. */
  predicate Names(v: Inodes, d: nat, n: string, i: nat) {
    d in v && n in v[d].entries && v[d].entries[n] == i
  }

  lemma NamesOfIff(v: Inodes, i: nat, e: (nat, string))
    ensures e in NamesOf(v, i) <==> Names(v, e.0, e.1, i)
  {
    if Names(v, e.0, e.1, i) {
      assert (e.0, e.1) in NamesOf(v, i);
    }
  }

  /** By how much the link count of `i` is too high. */
  function Excess(v: Inodes, i: nat): int
    requires i in v
  {
    v[i].linkCount - |NamesOf(v, i)|
  }

  /** Every link count is right. */
  ghost predicate Counted(v: Inodes) {
    forall i :: i in v ==> Excess(v, i) == 0
  }

  // ----- the three ways in which a volume changes -----

  function WithEntry(v: Inodes, d: nat, n: string, t: nat): Inodes
    requires d in v
  {
    v[d := v[d].(entries := v[d].entries[n := t])]
  }

  function WithoutEntry(v: Inodes, d: nat, n: string): Inodes
    requires d in v
  {
    v[d := v[d].(entries := v[d].entries - {n})]
  }

  function WithLinks(v: Inodes, i: nat, delta: int): Inodes
    requires i in v
  {
    v[i := v[i].(linkCount := v[i].linkCount + delta)]
  }

  lemma NameRemoved(v: Inodes, d: nat, n: string, i: nat, e: (nat, string))
    requires d in v
    ensures e in NamesOf(WithoutEntry(v, d, n), i) <==> e in NamesOf(v, i) && e != (d, n)
  {
    NamesOfIff(v, i, e);
    NamesOfIff(WithoutEntry(v, d, n), i, e);
  }

  /** Removing an entry raises the excess of what it named. */
  lemma EntryRemoved(v: Inodes, d: nat, n: string, i: nat)
    requires d in v && n in v[d].entries && i in v
    ensures Excess(WithoutEntry(v, d, n), i) == Excess(v, i) + if i == v[d].entries[n] then 1 else 0
  {
    var v' := WithoutEntry(v, d, n);
    forall e ensures e in NamesOf(v', i) <==> e in NamesOf(v, i) && e != (d, n) {
      NameRemoved(v, d, n, i, e);
    }
    NamesOfIff(v, i, (d, n));
    if i == v[d].entries[n] {
      assert NamesOf(v, i) == NamesOf(v', i) + {(d, n)};
    } else {
      assert NamesOf(v', i) == NamesOf(v, i);
    }
  }

  /** A new entry lowers the excess of what it names. */
  lemma EntryAdded(v: Inodes, d: nat, n: string, t: nat, i: nat)
    requires d in v && n !in v[d].entries && i in v
    ensures Excess(WithEntry(v, d, n, t), i) == Excess(v, i) - if i == t then 1 else 0
  {
    var v' := WithEntry(v, d, n, t);
    EntryRemoved(v', d, n, i);
    assert v'[d].entries - {n} == v[d].entries;
    assert WithoutEntry(v', d, n) == v;
  }

  /** Pointing an entry elsewhere is removing it and adding it anew. */
  lemma EntryPatched(v: Inodes, d: nat, n: string, t: nat, i: nat)
    requires d in v && n in v[d].entries && i in v
    ensures Excess(WithEntry(v, d, n, t), i) ==
            Excess(v, i) + (if i == v[d].entries[n] then 1 else 0) - (if i == t then 1 else 0)
  {
    var without := WithoutEntry(v, d, n);
    EntryRemoved(v, d, n, i);
    EntryAdded(without, d, n, t, i);
    assert (v[d].entries - {n})[n := t] == v[d].entries[n := t];
    assert WithEntry(without, d, n, t) == WithEntry(v, d, n, t);
  }

  lemma LinksChanged(v: Inodes, j: nat, delta: int, i: nat)
    requires i in v && j in v
    ensures Excess(WithLinks(v, j, delta), i) == Excess(v, i) + if i == j then delta else 0
  {
    assert NamesOf(WithLinks(v, j, delta), i) == NamesOf(v, i);
  }

  // ----- linking -----

  /** addDirEntryInMemory for a name not in the directory: the entry, the
      target's link, and for a directory its way back and its parent's link. */
  function Linked(v: Inodes, d: nat, n: string, t: nat): Inodes
    requires d in v && t in v
  {
    var w := WithLinks(WithEntry(v, d, n, t), t, 1);
    if !w[t].isDir || t == RootDirInodeNumber then w
    else WithLinks(if ".." in w[t].entries then w else WithEntry(w, t, "..", d), d, 1)
  }

  /** The target is a directory that already has a way back. */
  predicate HasParent(v: Inodes, d: nat, n: string, t: nat)
    requires t in v
  {
    v[t].isDir && t != RootDirInodeNumber && (".." in v[t].entries || (t == d && n == ".."))
  }

  lemma LinkedExcess(v: Inodes, d: nat, n: string, t: nat, i: nat)
    requires d in v && t in v && i in v && n !in v[d].entries
    ensures i in Linked(v, d, n, t)
    ensures Excess(Linked(v, d, n, t), i) == Excess(v, i) + if i == d && HasParent(v, d, n, t) then 1 else 0
  {
    var w1 := WithEntry(v, d, n, t);
    var w := WithLinks(w1, t, 1);
    EntryAdded(v, d, n, t, i);
    LinksChanged(w1, t, 1, i);
    if w[t].isDir && t != RootDirInodeNumber {
      if ".." in w[t].entries {
        LinksChanged(w, d, 1, i);
      } else {
        EntryAdded(w, t, "..", d, i);
        LinksChanged(WithEntry(w, t, "..", d), d, 1, i);
      }
    }
  }

  /** Linking keeps the counts exactly when it does not give a directory a second parent. */
  lemma LinkedCountedIff(v: Inodes, d: nat, n: string, t: nat)
    requires Counted(v) && d in v && t in v && n !in v[d].entries
    ensures Counted(Linked(v, d, n, t)) <==> !HasParent(v, d, n, t)
  {
    var w := Linked(v, d, n, t);
    assert w.Keys == v.Keys;
    forall i | i in v ensures Excess(w, i) == if i == d && HasParent(v, d, n, t) then 1 else 0 {
      LinkedExcess(v, d, n, t, i);
    }
  }

  // ----- unlinking -----

  /** removeDirEntryInMemory: None where a directory has no way back to remove. */
  function Unlinked(v: Inodes, d: nat, n: string, u: nat): Option<Inodes>
    requires d in v && u in v
  {
    var w := WithLinks(WithoutEntry(v, d, n), u, -1);
    if !w[u].isDir then Some(w)
    else if ".." !in w[u].entries then None
    else Some(WithLinks(WithoutEntry(w, u, ".."), d, -1))
  }

  /** The way back of a directory does not lead to `d`. */
  predicate OtherParent(v: Inodes, d: nat, u: nat)
    requires u in v
  {
    v[u].isDir && ".." in v[u].entries && v[u].entries[".."] != d
  }

  lemma UnlinkedExcess(v: Inodes, d: nat, n: string, u: nat, i: nat)
    requires d in v && u in v && i in v && Names(v, d, n, u) && Unlinked(v, d, n, u).Some?
    ensures i in Unlinked(v, d, n, u).value
    ensures Excess(Unlinked(v, d, n, u).value, i) ==
            Excess(v, i) +
            if !OtherParent(v, d, u) then 0 else if i == v[u].entries[".."] then 1 else if i == d then -1 else 0
  {
    var w1 := WithoutEntry(v, d, n);
    var w := WithLinks(w1, u, -1);
    EntryRemoved(v, d, n, i);
    LinksChanged(w1, u, -1, i);
    if w[u].isDir {
      EntryRemoved(w, u, "..", i);
      LinksChanged(WithoutEntry(w, u, ".."), d, -1, i);
    }
  }

  /** Unlinking keeps the counts exactly when a directory is unlinked from its own parent. */
  lemma UnlinkedCountedIff(v: Inodes, d: nat, n: string, u: nat)
    requires Counted(v) && d in v && u in v && Names(v, d, n, u) && Unlinked(v, d, n, u).Some?
    ensures Counted(Unlinked(v, d, n, u).value) <==> !OtherParent(v, d, u)
  {
    var w := Unlinked(v, d, n, u).value;
    assert w.Keys == v.Keys;
    forall i | i in v
      ensures Excess(w, i) ==
              if !OtherParent(v, d, u) then 0 else if i == v[u].entries[".."] then 1 else if i == d then -1 else 0
    {
      UnlinkedExcess(v, d, n, u, i);
    }
  }

  // ----- moving -----

  /** What Move has found out before it changes anything: both directories
      exist, the source is an inode, and a destination there already is no directory. */
  ghost predicate Movable(v: Inodes, sd: nat, sn: string, dd: nat, dn: string) {
    && sd in v && v[sd].isDir && dd in v && v[dd].isDir && (sd, sn) != (dd, dn)
    && sn in v[sd].entries && v[sd].entries[sn] in v
    && (dn in v[dd].entries ==> v[dd].entries[dn] in v && !v[v[dd].entries[dn]].isDir)
  }

  /** A directory moved to another gets a new way back: None where it has none. */
  function Rehomed(v: Inodes, sd: nat, dd: nat, src: nat): Option<Inodes>
    requires sd in v && dd in v && src in v
  {
    if sd == dd || !v[src].isDir then Some(v)
    else if ".." !in v[src].entries then None
    else Some(WithEntry(WithLinks(WithLinks(v, sd, -1), dd, 1), src, "..", dd))
  }

  /** The entry itself moves, over one that may be there. */
  function Shifted(v: Inodes, sd: nat, sn: string, dd: nat, dn: string, src: nat, dst: Option<nat>): Inodes
    requires sd in v && dd in v && (dst.Some? ==> dst.value in v)
  {
    var w := WithoutEntry(v, sd, sn);
    WithEntry(if dst.None? then w else WithLinks(w, dst.value, -1), dd, dn, src)
  }

  function Destination(v: Inodes, dd: nat, dn: string): Option<nat>
    requires dd in v
  {
    if dn in v[dd].entries then Some(v[dd].entries[dn]) else None
  }

  ghost function Moved(v: Inodes, sd: nat, sn: string, dd: nat, dn: string): Option<Inodes>
    requires Movable(v, sd, sn, dd, dn)
  {
    var src := v[sd].entries[sn];
    var w := Rehomed(v, sd, dd, src);
    if w.None? then None else Some(Shifted(w.value, sd, sn, dd, dn, src, Destination(v, dd, dn)))
  }

  /** 1 for the inode meant, 0 for any other. */
  function One(i: nat, j: nat): int {
    if i == j then 1 else 0
  }

  lemma RehomedExcess(v: Inodes, sd: nat, dd: nat, src: nat, i: nat)
    requires sd in v && dd in v && src in v && i in v && Rehomed(v, sd, dd, src).Some?
    ensures i in Rehomed(v, sd, dd, src).value
    ensures Excess(Rehomed(v, sd, dd, src).value, i) ==
            Excess(v, i) + if sd == dd || !v[src].isDir then 0 else One(i, v[src].entries[".."]) - One(i, sd)
  {
    if sd != dd && v[src].isDir {
      var w1 := WithLinks(v, sd, -1);
      var w2 := WithLinks(w1, dd, 1);
      LinksChanged(v, sd, -1, i);
      LinksChanged(w1, dd, 1, i);
      EntryPatched(w2, src, "..", dd, i);
    }
  }

  lemma ShiftedExcess(v: Inodes, sd: nat, sn: string, dd: nat, dn: string, src: nat, dst: Option<nat>, i: nat)
    requires sd in v && dd in v && (dst.Some? ==> dst.value in v) && i in v && (sd, sn) != (dd, dn)
    requires sn in v[sd].entries && (dst.Some? <==> dn in v[dd].entries)
    ensures i in Shifted(v, sd, sn, dd, dn, src, dst)
    ensures Excess(Shifted(v, sd, sn, dd, dn, src, dst), i) ==
            Excess(v, i) + One(i, v[sd].entries[sn]) - One(i, src)
            + if dst.None? then 0 else One(i, v[dd].entries[dn]) - One(i, dst.value)
  {
    var w := WithoutEntry(v, sd, sn);
    EntryRemoved(v, sd, sn, i);
    if dst.None? {
      EntryAdded(w, dd, dn, src, i);
    } else {
      LinksChanged(w, dst.value, -1, i);
      EntryPatched(WithLinks(w, dst.value, -1), dd, dn, src, i);
    }
  }

  /** A directory is taken to another from elsewhere than its parent, or by its own "..". */
  predicate MoveMiscounts(v: Inodes, sd: nat, sn: string, dd: nat, src: nat)
    requires src in v
  {
    sd != dd && v[src].isDir && (OtherParent(v, sd, src) || (src == sd && sn == ".."))
  }

  lemma MovedExcess(v: Inodes, sd: nat, sn: string, dd: nat, dn: string, i: nat)
    requires Movable(v, sd, sn, dd, dn) && Moved(v, sd, sn, dd, dn).Some? && i in v
    ensures i in Moved(v, sd, sn, dd, dn).value
    ensures var src, w := v[sd].entries[sn], Moved(v, sd, sn, dd, dn).value;
            && (!MoveMiscounts(v, sd, sn, dd, src) ==> Excess(w, i) == Excess(v, i))
            && (MoveMiscounts(v, sd, sn, dd, src) && i == sd ==> Excess(w, i) == Excess(v, i) - 1)
  {
    var src := v[sd].entries[sn];
    var r := Rehomed(v, sd, dd, src).value;
    RehomedExcess(v, sd, dd, src, i);
    ShiftedExcess(r, sd, sn, dd, dn, src, Destination(v, dd, dn), i);
  }

  /** Move keeps the counts, also over another name of the same file, exactly
      when a directory that changes directories is taken from its own parent. */
  lemma MovedCountedIff(v: Inodes, sd: nat, sn: string, dd: nat, dn: string)
    requires Counted(v) && Movable(v, sd, sn, dd, dn) && Moved(v, sd, sn, dd, dn).Some?
    ensures Counted(Moved(v, sd, sn, dd, dn).value) <==> !MoveMiscounts(v, sd, sn, dd, v[sd].entries[sn])
  {
    var w := Moved(v, sd, sn, dd, dn).value;
    assert w.Keys == v.Keys;
    forall i | i in v
      ensures !MoveMiscounts(v, sd, sn, dd, v[sd].entries[sn]) ==> Excess(w, i) == 0
      ensures MoveMiscounts(v, sd, sn, dd, v[sd].entries[sn]) && i == sd ==> Excess(w, i) == -1
    {
      MovedExcess(v, sd, sn, dd, dn, i);
    }
  }
}
