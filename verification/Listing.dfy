/** Container listings: the order in which the walk over a directory tree emits
paths, and exactly when that order is the ascending one.
*/
module Listing {
  import opened PathOrder

  /** A directory's entries, "." and ".." (`Itself`) included. */
  datatype Node = File | Dir(entries: seq<Entry>) | Itself
  datatype Entry = Entry(name: string, node: Node)

  predicate IsDot(e: Entry) {
    e.name == "." || e.name == ".."
  }

  /** Entries are sorted by name and the first is there: a directory always has ".". */
  ghost predicate WellFormed(d: Node) {
    && d.Dir? && d.entries != [] && Sorted(d.entries)
    && (forall e :: e in d.entries ==> IsName(e.name) && (IsDot(e) <==> e.node.Itself?))
    && (forall e :: e in d.entries && e.node.Dir? ==> WellFormed(e.node))
  }

  ghost predicate Sorted(es: seq<Entry>) {
    forall i, j :: 0 <= i < j < |es| ==> Less(es[i].name, es[j].name)
  }

  // ----- the paths of a container -----

  /** `p` is a path below directory `d`, whose own path is `path`. */
  ghost predicate IsPath(d: Node, path: string, p: string) {
    && d.Dir?
    && exists e :: && e in d.entries && !e.node.Itself?
                   && (p == path + e.name || (e.node.Dir? && IsPath(e.node, path + e.name + "/", p)))
  }

  /** `p` is a path below the directory `e` of directory `path`. */
  ghost predicate Inside(path: string, e: Entry, p: string) {
    e.node.Dir? && IsPath(e.node, path + e.name + "/", p)
  }

  ghost predicate Yields(path: string, e: Entry, p: string) {
    !e.node.Itself? && (p == path + e.name || Inside(path, e, p))
  }

  lemma IsPathIff(d: Node, path: string, p: string)
    ensures IsPath(d, path, p) <==> d.Dir? && exists e :: e in d.entries && Yields(path, e, p)
  {
    if d.Dir? && exists e :: e in d.entries && Yields(path, e, p) {
      var e :| e in d.entries && Yields(path, e, p);
      assert e in d.entries && !e.node.Itself?;
    }
    if IsPath(d, path, p) {
      var e :| && e in d.entries && !e.node.Itself?
               && (p == path + e.name || (e.node.Dir? && IsPath(e.node, path + e.name + "/", p)));
      assert Yields(path, e, p);
    }
  }

  lemma {:induction false} PathExtends(d: Node, path: string, p: string)
    requires WellFormed(d) && IsPath(d, path, p)
    ensures path <= p && path != p
    decreases d
  {
    IsPathIff(d, path, p);
    var e :| e in d.entries && Yields(path, e, p);
    if p != path + e.name {
      PathExtends(e.node, path + e.name + "/", p);
    }
  }

  lemma InsideExtends(path: string, e: Entry, p: string) returns (x: string)
    requires e.node.Dir? && WellFormed(e.node) && Inside(path, e, p)
    ensures p == path + e.name + "/" + x && x != ""
  {
    PathExtends(e.node, path + e.name + "/", p);
    x := p[|path + e.name + "/"|..];
  }

  lemma YieldsExtends(path: string, e: Entry, p: string) returns (y: string)
    requires (e.node.Dir? ==> WellFormed(e.node)) && Yields(path, e, p)
    ensures p == path + e.name + y
  {
    if p == path + e.name {
      y := "";
    } else {
      var x := InsideExtends(path, e, p);
      y := "/" + x;
    }
  }

  ghost predicate HasContent(e: Entry) {
    e.node.Dir? && exists x :: x in e.node.entries && !x.node.Itself?
  }

  lemma InsideHasContent(path: string, e: Entry, p: string)
    requires Inside(path, e, p)
    ensures HasContent(e)
  {
  }

  lemma ContentHasPath(path: string, e: Entry) returns (p: string)
    requires HasContent(e)
    ensures Inside(path, e, p)
  {
    var x :| x in e.node.entries && !x.node.Itself?;
    p := path + e.name + "/" + x.name;
    assert Yields(path + e.name + "/", x, p);
    IsPathIff(e.node, path + e.name + "/", p);
  }

  // ----- the order in which the walk emits them -----

  /** The directory pending longest is due before the next entry. */
  predicate Due(es: seq<Entry>, pending: seq<Entry>) {
    pending != [] && (es == [] || Less(pending[0].name + "/", es[0].name))
  }

  function Later(pending: seq<Entry>, e: Entry): seq<Entry> {
    if e.node.Dir? then pending + [e] else pending
  }

  /** The walk over directory `d`: `es` are the entries not looked at yet, and `pending`
      the directories to descend into, first come first served. */
  ghost function Emit(d: Node, path: string, es: seq<Entry>, pending: seq<Entry>): seq<string>
    requires d.Dir? && (forall e :: e in es || e in pending ==> e in d.entries)
    requires forall e :: e in pending ==> e.node.Dir?
    decreases d, |es|, |pending|
  {
    if es != [] && es[0].node.Itself? then
      Emit(d, path, es[1..], pending)
    else if Due(es, pending) then
      assert pending[0] in pending;
      EmitDir(pending[0].node, path + pending[0].name + "/") + Emit(d, path, es, pending[1..])
    else if es == [] then
      []
    else
      [path + es[0].name] + Emit(d, path, es[1..], Later(pending, es[0]))
  }

  ghost function EmitDir(d: Node, path: string): seq<string>
    requires d.Dir?
    decreases d, |d.entries| + 1
  {
    Emit(d, path, d.entries, [])
  }

  /** A state of the walk: what is pending comes before what is not looked at yet. */
  ghost predicate OnTheWay(d: Node, es: seq<Entry>, pending: seq<Entry>) {
    && WellFormed(d) && Sorted(pending) && Sorted(es)
    && (forall a, b :: a in pending && b in es ==> Less(a.name, b.name))
    && (forall e :: e in es || e in pending ==> e in d.entries)
    && (forall e :: e in pending ==> e.node.Dir?)
  }

  lemma SortedNext(es: seq<Entry>)
    requires Sorted(es) && es != []
    ensures Sorted(es[1..]) && forall e :: e in es[1..] ==> Less(es[0].name, e.name)
  {
    forall e | e in es[1..] ensures Less(es[0].name, e.name) {
      var i :| 0 <= i < |es[1..]| && es[1..][i] == e;
      assert es[i + 1] == e;
    }
  }

  lemma LookedAt(d: Node, es: seq<Entry>, pending: seq<Entry>)
    requires OnTheWay(d, es, pending) && es != []
    ensures OnTheWay(d, es[1..], pending)
    ensures es[0].node.Dir? ==> OnTheWay(d, es[1..], pending + [es[0]])
  {
    SortedNext(es);
    assert es[0] in es;
    assert forall e :: e in es[1..] ==> e in es;
  }

  lemma Descended(d: Node, es: seq<Entry>, pending: seq<Entry>)
    requires OnTheWay(d, es, pending) && pending != []
    ensures OnTheWay(d, es, pending[1..])
    ensures pending[0] in d.entries && WellFormed(pending[0].node)
  {
    SortedNext(pending);
    assert pending[0] in pending;
    assert forall e :: e in pending[1..] ==> e in pending;
  }

  /** The walk emits every path, and nothing else. */
  lemma {:induction false} EmitMembers(d: Node, path: string, es: seq<Entry>, pending: seq<Entry>, p: string)
    requires OnTheWay(d, es, pending)
    ensures p in Emit(d, path, es, pending) <==>
            (exists e :: e in es && Yields(path, e, p)) || (exists e :: e in pending && Inside(path, e, p))
    decreases d, |es|, |pending|
  {
    if es != [] && es[0].node.Itself? {
      LookedAt(d, es, pending);
      EmitMembers(d, path, es[1..], pending, p);
      SkipMembers(path, es, p);
    } else if Due(es, pending) {
      Descended(d, es, pending);
      EmitDirMembers(pending[0].node, path + pending[0].name + "/", p);
      EmitMembers(d, path, es, pending[1..], p);
      DescentMembers(path, pending, p);
    } else if es != [] {
      LookedAt(d, es, pending);
      var later := Later(pending, es[0]);
      EmitMembers(d, path, es[1..], later, p);
      StepMembers(path, es, pending, later, p);
    }
  }

  lemma SkipMembers(path: string, es: seq<Entry>, p: string)
    requires es != [] && es[0].node.Itself?
    ensures (exists e :: e in es && Yields(path, e, p)) <==> exists e :: e in es[1..] && Yields(path, e, p)
  {
    assert es == [es[0]] + es[1..];
  }

  lemma DescentMembers(path: string, pending: seq<Entry>, p: string)
    requires pending != []
    ensures (exists e :: e in pending && Inside(path, e, p)) <==>
            Inside(path, pending[0], p) || exists e :: e in pending[1..] && Inside(path, e, p)
  {
    assert pending == [pending[0]] + pending[1..];
  }

  lemma StepMembers(path: string, es: seq<Entry>, pending: seq<Entry>, later: seq<Entry>, p: string)
    requires es != [] && !es[0].node.Itself? && later == Later(pending, es[0])
    ensures (exists e :: e in es && Yields(path, e, p)) || (exists e :: e in pending && Inside(path, e, p)) <==>
            || p == path + es[0].name
            || (exists e :: e in es[1..] && Yields(path, e, p)) || (exists e :: e in later && Inside(path, e, p))
  {
    forall e ensures e in es <==> e == es[0] || e in es[1..] {
      assert es == [es[0]] + es[1..];
    }
    assert Yields(path, es[0], p) <==> p == path + es[0].name || Inside(path, es[0], p);
  }

  lemma {:induction false} EmitDirMembers(d: Node, path: string, p: string)
    requires WellFormed(d)
    ensures p in EmitDir(d, path) <==> IsPath(d, path, p)
    decreases d, |d.entries| + 1
  {
    assert [] + d.entries == d.entries;
    EmitMembers(d, path, d.entries, [], p);
    IsPathIff(d, path, p);
  }

  // ----- when the order is ascending -----

  /** Directory `b`, pending behind `a`, has contents to come before those of `a`. */
  ghost predicate Clash(a: Entry, b: Entry) {
    HasContent(a) && HasContent(b) && Less(a.name, b.name) && Less(b.name, a.name + "/")
  }

  /** Directory `b`, pending behind `a`, has contents to come before entry `m`, for which `a` does not move. */
  ghost predicate Blocks(a: Entry, b: Entry, m: Entry) {
    && a.node.Dir? && HasContent(b) && !m.node.Itself?
    && Less(a.name, b.name) && Less(b.name + "/", m.name) && Less(m.name, a.name + "/")
  }

  ghost predicate Unobstructed(d: Node) {
    && d.Dir?
    && (forall a, b :: a in d.entries && b in d.entries ==> !Clash(a, b))
    && (forall a, b, m :: a in d.entries && b in d.entries && m in d.entries ==> !Blocks(a, b, m))
  }

  ghost predicate Orderly(d: Node) {
    d.Dir? && Unobstructed(d) && forall e :: e in d.entries && e.node.Dir? ==> Orderly(e.node)
  }

  /** No two sibling directories where one's name extends the other's by a byte below the slash. */
  ghost predicate PlainSiblings(d: Node) {
    && d.Dir?
    && (forall a, b ::
          a in d.entries && b in d.entries && a.node.Dir? && b.node.Dir? && a.name <= b.name && |a.name| < |b.name| ==>
          b.name[|a.name|] >= '/')
    && forall e :: e in d.entries && e.node.Dir? ==> PlainSiblings(e.node)
  }

  lemma BlocksBetween(a: Entry, b: Entry, m: Entry)
    requires Blocks(a, b, m)
    ensures Less(b.name, a.name + "/")
  {
    LessExtended(b.name, "/");
    LessTransitive(b.name, b.name + "/", m.name);
    LessTransitive(b.name, m.name, a.name + "/");
  }

  lemma {:induction false} PlainSiblingsOrderly(d: Node)
    requires WellFormed(d) && PlainSiblings(d)
    ensures Orderly(d)
  {
    forall a, b | a in d.entries && b in d.entries && a.node.Dir? && b.node.Dir? && Less(a.name, b.name)
      ensures !Less(b.name, a.name + "/")
    {
      if Less(b.name, a.name + "/") {
        BelowSlashExtends(a.name, b.name);
      }
    }
    forall a, b, m | a in d.entries && b in d.entries && m in d.entries ensures !Blocks(a, b, m) {
      if Blocks(a, b, m) {
        BlocksBetween(a, b, m);
      }
    }
    forall e | e in d.entries && e.node.Dir? ensures Orderly(e.node) {
      PlainSiblingsOrderly(e.node);
    }
  }

  /** What is inside a pending directory comes before what is of another entry after it. */
  lemma InsideFirst(path: string, a: Entry, x: string, e: Entry, y: string)
    requires a.node.Dir? && WellFormed(a.node) && Inside(path, a, x)
    requires (e.node.Dir? ==> WellFormed(e.node)) && Yields(path, e, y) && IsName(e.name) && Less(a.name + "/", e.name)
    ensures Less(x, y)
  {
    var u := InsideExtends(path, a, x);
    var v := YieldsExtends(path, e, y);
    InsideBefore(path, a.name, u, e.name, v);
  }

  /** Of two pending directories with contents the first comes first. */
  lemma PendingInOrder(d: Node, path: string, a: Entry, x: string, b: Entry, y: string)
    requires WellFormed(d) && Unobstructed(d) && a in d.entries && b in d.entries && Less(a.name, b.name)
    requires Inside(path, a, x) && Inside(path, b, y)
    ensures Less(x, y)
  {
    InsideHasContent(path, a, x);
    InsideHasContent(path, b, y);
    SlashedIsNoStart(a.name, b.name);
    LessOne(b.name, a.name + "/");
    assert !Clash(a, b);
    InsideFirst(path, a, x, b, y);
  }

  /** An entry whose turn has come is before everything pending. */
  lemma TurnBeforePending(d: Node, path: string, first: Entry, b: Entry, y: string, m: Entry)
    requires WellFormed(d) && Unobstructed(d) && first in d.entries && b in d.entries && m in d.entries
    requires first.node.Dir? && (first == b || Less(first.name, b.name)) && Inside(path, b, y) && !m.node.Itself?
    requires !Less(first.name + "/", m.name)
    ensures Less(path + m.name, y)
  {
    InsideHasContent(path, b, y);
    SlashedIsNoStart(first.name, m.name);
    SlashedIsNoStart(b.name, m.name);
    LessOne(m.name, first.name + "/");
    LessOne(m.name, b.name + "/");
    assert !Blocks(first, b, m);
    var x := InsideExtends(path, b, y);
    EntryBefore(path, m.name, b.name + "/", x);
    assert y == path + (b.name + "/") + x;
  }

  lemma {:induction false} EmitAscending(d: Node, path: string, es: seq<Entry>, pending: seq<Entry>)
    requires OnTheWay(d, es, pending) && Orderly(d)
    ensures Ascending(Emit(d, path, es, pending))
    decreases d, |es|, |pending|
  {
    if es != [] && es[0].node.Itself? {
      LookedAt(d, es, pending);
      EmitAscending(d, path, es[1..], pending);
    } else if Due(es, pending) {
      Descended(d, es, pending);
      var inside, rest := EmitDir(pending[0].node, path + pending[0].name + "/"), Emit(d, path, es, pending[1..]);
      EmitDirAscending(pending[0].node, path + pending[0].name + "/");
      EmitAscending(d, path, es, pending[1..]);
      forall x, y | x in inside && y in rest ensures Less(x, y) {
        DescentFirst(d, path, es, pending, x, y);
      }
      AscendingConcat(inside, rest);
    } else if es != [] {
      LookedAt(d, es, pending);
      var later := Later(pending, es[0]);
      var rest := Emit(d, path, es[1..], later);
      EmitAscending(d, path, es[1..], later);
      forall y | y in rest ensures Less(path + es[0].name, y) {
        TurnFirst(d, path, es, pending, y);
      }
      AscendingConcat([path + es[0].name], rest);
    }
  }

  lemma {:induction false} EmitDirAscending(d: Node, path: string)
    requires WellFormed(d) && Orderly(d)
    ensures Ascending(EmitDir(d, path))
    decreases d, |d.entries| + 1
  {
    assert [] + d.entries == d.entries;
    EmitAscending(d, path, d.entries, []);
  }

  lemma DescentFirst(d: Node, path: string, es: seq<Entry>, pending: seq<Entry>, x: string, y: string)
    requires OnTheWay(d, es, pending) && Unobstructed(d)
    requires Due(es, pending)
    requires x in EmitDir(pending[0].node, path + pending[0].name + "/") && y in Emit(d, path, es, pending[1..])
    ensures Less(x, y)
  {
    Descended(d, es, pending);
    SortedNext(pending);
    var first := pending[0];
    EmitDirMembers(first.node, path + first.name + "/", x);
    assert Inside(path, first, x) && first in pending;
    EmitMembers(d, path, es, pending[1..], y);
    if e :| e in es && Yields(path, e, y) {
      AfterNext(es, first.name + "/", e);
      InsideFirst(path, first, x, e, y);
    } else {
      var e :| e in pending[1..] && Inside(path, e, y);
      PendingInOrder(d, path, first, x, e, y);
    }
  }

  lemma AfterNext(es: seq<Entry>, n: string, e: Entry)
    requires Sorted(es) && e in es && Less(n, es[0].name)
    ensures Less(n, e.name)
  {
    SortedNext(es);
    if e != es[0] {
      assert es == [es[0]] + es[1..];
      LessTransitive(n, es[0].name, e.name);
    }
  }

  lemma TurnFirst(d: Node, path: string, es: seq<Entry>, pending: seq<Entry>, y: string)
    requires OnTheWay(d, es, pending) && Unobstructed(d)
    requires es != [] && !es[0].node.Itself? && !Due(es, pending)
    requires y in Emit(d, path, es[1..], Later(pending, es[0]))
    ensures Less(path + es[0].name, y)
  {
    LookedAt(d, es, pending);
    assert es[0] in es;
    EmitMembers(d, path, es[1..], Later(pending, es[0]), y);
    if e :| e in es[1..] && Yields(path, e, y) {
      TurnBeforeLater(d, path, es, e, y);
    } else if e :| e in pending && Inside(path, e, y) {
      TurnBeforeAll(d, path, pending, e, y, es[0]);
    } else {
      TurnBeforeOwn(path, es[0], y);
    }
  }

  lemma TurnBeforeLater(d: Node, path: string, es: seq<Entry>, e: Entry, y: string)
    requires WellFormed(d) && Sorted(es) && (forall x :: x in es ==> x in d.entries)
    requires es != [] && e in es[1..] && Yields(path, e, y)
    ensures Less(path + es[0].name, y)
  {
    SortedNext(es);
    assert e in es;
    var v := YieldsExtends(path, e, y);
    EntryBefore(path, es[0].name, e.name, v);
  }

  lemma TurnBeforeOwn(path: string, e: Entry, y: string)
    requires e.node.Dir? && WellFormed(e.node) && Inside(path, e, y)
    ensures Less(path + e.name, y)
  {
    var x := InsideExtends(path, e, y);
    LessExtended(path + e.name, "/" + x);
    assert y == path + e.name + ("/" + x);
  }

  lemma TurnBeforeAll(d: Node, path: string, pending: seq<Entry>, b: Entry, y: string, m: Entry)
    requires WellFormed(d) && Unobstructed(d) && Sorted(pending)
    requires forall e :: e in pending ==> e in d.entries && e.node.Dir?
    requires b in pending && Inside(path, b, y) && m in d.entries && !m.node.Itself?
    requires !Less(pending[0].name + "/", m.name)
    ensures Less(path + m.name, y)
  {
    SortedNext(pending);
    assert pending == [pending[0]] + pending[1..];
    assert pending[0] in pending;
    TurnBeforePending(d, path, pending[0], b, y, m);
  }

  // ----- and only then -----

  ghost predicate Waits(es: seq<Entry>, pending: seq<Entry>, e: Entry) {
    e in pending || e in es
  }

  lemma RestAfterDot(d: Node, path: string, es: seq<Entry>, pending: seq<Entry>)
    requires OnTheWay(d, es, pending) && Ascending(Emit(d, path, es, pending)) && es != [] && es[0].node.Itself?
    ensures OnTheWay(d, es[1..], pending) && Ascending(Emit(d, path, es[1..], pending))
    ensures forall e :: Waits(es, pending, e) && !e.node.Itself? ==> Waits(es[1..], pending, e)
  {
    LookedAt(d, es, pending);
    assert es == [es[0]] + es[1..];
  }

  lemma RestAfterDescent(d: Node, path: string, es: seq<Entry>, pending: seq<Entry>)
    requires OnTheWay(d, es, pending) && Ascending(Emit(d, path, es, pending)) && Due(es, pending)
    requires es == [] || !es[0].node.Itself?
    ensures OnTheWay(d, es, pending[1..]) && Ascending(Emit(d, path, es, pending[1..]))
    ensures forall e :: Waits(es, pending, e) && e != pending[0] ==> Waits(es, pending[1..], e)
    ensures WellFormed(pending[0].node)
    ensures forall x, y ::
              x in EmitDir(pending[0].node, path + pending[0].name + "/") && y in Emit(d, path, es, pending[1..]) ==>
                Less(x, y)
  {
    Descended(d, es, pending);
    AscendingConcat(EmitDir(pending[0].node, path + pending[0].name + "/"), Emit(d, path, es, pending[1..]));
    assert pending == [pending[0]] + pending[1..];
  }

  lemma RestAfterTurn(d: Node, path: string, es: seq<Entry>, pending: seq<Entry>)
    requires OnTheWay(d, es, pending) && Ascending(Emit(d, path, es, pending)) && es != [] && !es[0].node.Itself?
    requires !Due(es, pending)
    ensures OnTheWay(d, es[1..], Later(pending, es[0])) && Ascending(Emit(d, path, es[1..], Later(pending, es[0])))
    ensures forall e :: Waits(es, pending, e) && e.node.Dir? ==> Waits(es[1..], Later(pending, es[0]), e)
    ensures forall e :: e in es && e != es[0] ==> e in es[1..]
    ensures forall y :: y in Emit(d, path, es[1..], Later(pending, es[0])) ==> Less(path + es[0].name, y)
  {
    LookedAt(d, es, pending);
    AscendingConcat([path + es[0].name], Emit(d, path, es[1..], Later(pending, es[0])));
    assert es == [es[0]] + es[1..];
  }

  lemma Emitted(d: Node, path: string, es: seq<Entry>, pending: seq<Entry>, b: Entry, y: string)
    requires OnTheWay(d, es, pending) && Waits(es, pending, b) && Inside(path, b, y)
    ensures y in Emit(d, path, es, pending)
  {
    EmitMembers(d, path, es, pending, y);
    assert Yields(path, b, y);
  }

  lemma NotFirst(es: seq<Entry>, pending: seq<Entry>, a: Entry, b: Entry)
    requires Sorted(pending) && pending != [] && (forall e, f :: e in pending && f in es ==> Less(e.name, f.name))
    requires Waits(es, pending, a) && Waits(es, pending, b) && Less(a.name, b.name)
    ensures b != pending[0]
  {
    SortedNext(pending);
    assert pending == [pending[0]] + pending[1..];
    assert pending[0] in pending;
    LessOne(a.name, b.name);
    LessOne(a.name, a.name);
  }

  /** Directories are descended into in the order of their names. */
  lemma {:induction false} InsideInTurn(d: Node, path: string, es: seq<Entry>, pending: seq<Entry>, a: Entry, x: string,
                                        b: Entry, y: string)
    requires OnTheWay(d, es, pending) && Ascending(Emit(d, path, es, pending))
    requires Waits(es, pending, a) && Waits(es, pending, b) && Less(a.name, b.name)
    requires Inside(path, a, x) && Inside(path, b, y)
    ensures Less(x, y)
    decreases |es|, |pending|
  {
    if es != [] && es[0].node.Itself? {
      RestAfterDot(d, path, es, pending);
      InsideInTurn(d, path, es[1..], pending, a, x, b, y);
    } else if Due(es, pending) {
      NotFirst(es, pending, a, b);
      RestAfterDescent(d, path, es, pending);
      if a == pending[0] {
        EmitDirMembers(a.node, path + a.name + "/", x);
        Emitted(d, path, es, pending[1..], b, y);
      } else {
        InsideInTurn(d, path, es, pending[1..], a, x, b, y);
      }
    } else {
      RestAfterTurn(d, path, es, pending);
      InsideInTurn(d, path, es[1..], Later(pending, es[0]), a, x, b, y);
    }
  }

  /** An entry before "a/" comes before what is inside directories later than `a`. */
  lemma {:induction false} TurnComes(d: Node, path: string, es: seq<Entry>, pending: seq<Entry>, a: Entry, b: Entry,
                                     y: string, m: Entry)
    requires OnTheWay(d, es, pending) && Ascending(Emit(d, path, es, pending))
    requires Waits(es, pending, a) && Waits(es, pending, b) && m in es && a.node.Dir? && !m.node.Itself?
    requires Less(a.name, b.name) && Less(m.name, a.name + "/") && Inside(path, b, y)
    ensures Less(path + m.name, y)
    decreases |es|, |pending|
  {
    if es[0].node.Itself? {
      RestAfterDot(d, path, es, pending);
      assert m in es[1..] by { assert es == [es[0]] + es[1..]; }
      TurnComes(d, path, es[1..], pending, a, b, y, m);
    } else if Due(es, pending) {
      NotFirst(es, pending, a, b);
      RestAfterDescent(d, path, es, pending);
      AfterNext(es, pending[0].name + "/", m);
      LessOne(pending[0].name + "/", m.name);
      TurnComes(d, path, es, pending[1..], a, b, y, m);
    } else {
      RestAfterTurn(d, path, es, pending);
      if es[0] == m {
        Emitted(d, path, es[1..], Later(pending, es[0]), b, y);
      } else {
        TurnComes(d, path, es[1..], Later(pending, es[0]), a, b, y, m);
      }
    }
  }

  lemma AscendingUnobstructed(d: Node, path: string)
    requires WellFormed(d) && Ascending(EmitDir(d, path))
    ensures Unobstructed(d)
  {
    forall a, b | a in d.entries && b in d.entries ensures !Clash(a, b) {
      if Clash(a, b) {
        var x := ContentHasPath(path, a);
        var y := ContentHasPath(path, b);
        InsideInTurn(d, path, d.entries, [], a, x, b, y);
        ClashOutOfOrder(d, path, a, x, b, y);
      }
    }
    forall a, b, m | a in d.entries && b in d.entries && m in d.entries ensures !Blocks(a, b, m) {
      if Blocks(a, b, m) {
        var y := ContentHasPath(path, b);
        TurnComes(d, path, d.entries, [], a, b, y, m);
        InsideFirst(path, b, y, m, path + m.name);
        LessOne(y, path + m.name);
      }
    }
  }

  lemma ClashOutOfOrder(d: Node, path: string, a: Entry, x: string, b: Entry, y: string)
    requires WellFormed(d) && a in d.entries && b in d.entries && Clash(a, b) && Inside(path, a, x)
    requires Inside(path, b, y)
    ensures !Less(x, y)
  {
    var u := InsideExtends(path, a, x);
    var v := InsideExtends(path, b, y);
    BelowSlashExtends(a.name, b.name);
    LessApart(b.name, a.name + "/", "/" + v, u);
    LessWithin(path, b.name + ("/" + v), a.name + "/" + u);
    assert y == path + (b.name + ("/" + v)) && x == path + (a.name + "/" + u);
    LessOne(x, y);
  }

  /** The walk emits the paths in ascending order exactly when the tree is orderly. */
  lemma {:induction false} AscendingIffOrderly(d: Node, path: string)
    requires WellFormed(d)
    ensures Ascending(EmitDir(d, path)) <==> Orderly(d)
  {
    if Orderly(d) {
      EmitDirAscending(d, path);
    }
    if Ascending(EmitDir(d, path)) {
      AscendingUnobstructed(d, path);
      forall e | e in d.entries && e.node.Dir? ensures Orderly(e.node) {
        AscendingIffOrderly(e.node, path + e.name + "/");
        PartAscending(d, path, d.entries, [], e);
      }
    }
  }

  /** What the walk emits for a directory it emits in one piece. */
  lemma {:induction false} PartAscending(d: Node, path: string, es: seq<Entry>, pending: seq<Entry>, a: Entry)
    requires OnTheWay(d, es, pending) && Ascending(Emit(d, path, es, pending)) && Waits(es, pending, a) && a.node.Dir?
    ensures Ascending(EmitDir(a.node, path + a.name + "/"))
    decreases |es|, |pending|
  {
    if es != [] && es[0].node.Itself? {
      RestAfterDot(d, path, es, pending);
      PartAscending(d, path, es[1..], pending, a);
    } else if Due(es, pending) {
      RestAfterDescent(d, path, es, pending);
      if a == pending[0] {
        AscendingConcat(EmitDir(a.node, path + a.name + "/"), Emit(d, path, es, pending[1..]));
      } else {
        PartAscending(d, path, es, pending[1..], a);
      }
    } else {
      RestAfterTurn(d, path, es, pending);
      PartAscending(d, path, es[1..], Later(pending, es[0]), a);
    }
  }
}
