/** Listing a container: the paged walk over its directories, pruned by marker and prefix. */
module ContainerListings {
  import opened PathOrder
  import opened Listing

  datatype Query = Query(maxEntries: nat, marker: string, prefix: string) {

    /** Whether the listing is to have path `p`. */
    predicate Passes(p: string) {
      Less(marker, p) && prefix <= p
    }

    function Select(s: seq<string>): seq<string> {
      if s == [] then [] else (if Passes(s[0]) then [s[0]] else []) + Select(s[1..])
    }

    /** Listing `ents` with as many more of `rest` as may be had. */
    function Filled(ents: seq<string>, rest: seq<string>): seq<string>
      requires |ents| <= maxEntries
    {
      ents + Firsts(Select(rest), maxEntries - |ents|)
    }
  }

  function Firsts(s: seq<string>, n: nat): seq<string> {
    if |s| <= n then s else s[..n]
  }

  lemma {:induction false} SelectConcat(q: Query, a: seq<string>, b: seq<string>)
    ensures q.Select(a + b) == q.Select(a) + q.Select(b)
  {
    if a == [] {
      assert a + b == b;
    } else {
      assert (a + b)[1..] == a[1..] + b;
      SelectConcat(q, a[1..], b);
    }
  }

  lemma {:induction false} SelectMembers(q: Query, s: seq<string>, p: string)
    ensures p in q.Select(s) <==> p in s && q.Passes(p)
  {
    if s != [] {
      SelectMembers(q, s[1..], p);
      assert s == [s[0]] + s[1..];
    }
  }

  lemma {:induction false} SelectAscending(q: Query, s: seq<string>)
    requires Ascending(s)
    ensures Ascending(q.Select(s))
  {
    if s != [] {
      NotAgain(s);
      SelectAscending(q, s[1..]);
      AscendingConcat([s[0]], s[1..]);
      assert [s[0]] + s[1..] == s;
      forall p | p in q.Select(s[1..]) ensures Less(s[0], p) {
        SelectMembers(q, s[1..], p);
      }
      AscendingConcat(if q.Passes(s[0]) then [s[0]] else [], q.Select(s[1..]));
    }
  }

  lemma {:induction false} SelectNone(q: Query, s: seq<string>)
    requires forall p :: p in s ==> !q.Passes(p)
    ensures q.Select(s) == []
  {
    if s != [] {
      assert s == [s[0]] + s[1..];
      SelectNone(q, s[1..]);
    }
  }

  lemma FirstsConcat(a: seq<string>, b: seq<string>, n: nat)
    ensures |Firsts(a, n)| <= n
    ensures Firsts(a + b, n) == Firsts(a, n) + Firsts(b, n - |Firsts(a, n)|)
  {
  }

  /** Filling up goes piece by piece. */
  lemma FilledConcat(q: Query, ents: seq<string>, a: seq<string>, b: seq<string>)
    requires |ents| <= q.maxEntries
    ensures |q.Filled(ents, a)| <= q.maxEntries
    ensures q.Filled(ents, a + b) == q.Filled(q.Filled(ents, a), b)
  {
    SelectConcat(q, a, b);
    FirstsConcat(q.Select(a), q.Select(b), q.maxEntries - |ents|);
  }

  // ----- what pruning may leave out -----

  /** Beyond the prefix nothing passes any more. */
  lemma NothingBeyond(q: Query, d: Node, path: string, es: seq<Entry>, pending: seq<Entry>)
    requires OnTheWay(d, es, pending) && Orderly(d) && es != [] && !es[0].node.Itself? && !Due(es, pending)
    requires Less(q.prefix, path + es[0].name) && !(q.prefix <= path + es[0].name)
    ensures q.Select(Emit(d, path, es, pending)) == []
  {
    EmitAscending(d, path, es, pending);
    forall p | p in Emit(d, path, es, pending) ensures !q.Passes(p) {
      FirstIsLeast(Emit(d, path, es, pending), p);
      if q.prefix <= p {
        BetweenHasPrefix(q.prefix, path + es[0].name, p);
      }
    }
    SelectNone(q, Emit(d, path, es, pending));
  }

  ghost predicate Fruitless(q: Query, path: string, e: Entry) {
    forall p :: Yields(path, e, p) ==> !q.Passes(p)
  }

  /** Nothing of an entry before the marker and not the start of it comes after the marker. */
  lemma BeforeMarker(q: Query, path: string, e: Entry)
    requires e.node.Dir? ==> WellFormed(e.node)
    requires !Less(q.marker, path + e.name) && !(path + e.name <= q.marker)
    ensures Fruitless(q, path, e)
  {
    LessOne(q.marker, path + e.name);
    forall p | Yields(path, e, p) ensures !q.Passes(p) {
      var y := YieldsExtends(path, e, p);
      LessApart(path + e.name, q.marker, y, "");
      assert q.marker + "" == q.marker;
      LessOne(p, q.marker);
    }
  }

  /** Nothing of an entry whose path is no start of the prefix, nor the other way round, has the prefix. */
  lemma AwayFromPrefix(q: Query, path: string, e: Entry)
    requires e.node.Dir? ==> WellFormed(e.node)
    requires !(q.prefix <= path + e.name) && !(path + e.name <= q.prefix)
    ensures Fruitless(q, path, e)
  {
    forall p | Yields(path, e, p) ensures !q.Passes(p) {
      var y := YieldsExtends(path, e, p);
      if q.prefix <= p {
        StartsOfOne(q.prefix, path + e.name, p);
      }
    }
  }

  /** An entry nothing of which passes may be skipped altogether. */
  lemma Skipped(q: Query, d: Node, path: string, es: seq<Entry>, pending: seq<Entry>)
    requires OnTheWay(d, es, pending) && Orderly(d) && es != [] && Fruitless(q, path, es[0])
    ensures OnTheWay(d, es[1..], pending)
    ensures q.Select(Emit(d, path, es, pending)) == q.Select(Emit(d, path, es[1..], pending))
  {
    LookedAt(d, es, pending);
    var all, rest := Emit(d, path, es, pending), Emit(d, path, es[1..], pending);
    EmitAscending(d, path, es, pending);
    EmitAscending(d, path, es[1..], pending);
    SelectAscending(q, all);
    SelectAscending(q, rest);
    forall p ensures p in q.Select(all) <==> p in q.Select(rest) {
      SelectMembers(q, all, p);
      SelectMembers(q, rest, p);
      EmitMembers(d, path, es, pending, p);
      EmitMembers(d, path, es[1..], pending, p);
      assert es == [es[0]] + es[1..];
    }
    AscendingUnique(q.Select(all), q.Select(rest));
  }

  // ----- reading a directory page by page -----

  /** The entry named `n` if there is one, else the one after it. */
  method BisectRight(es: seq<Entry>, n: string) returns (index: nat, found: bool)
    requires Sorted(es)
    ensures index <= |es|
    ensures forall i :: 0 <= i < index ==> Less(es[i].name, n)
    ensures forall i :: index <= i < |es| ==> Less(n, es[i].name) || (i == index && found)
    ensures found ==> index < |es| && es[index].name == n
  {
    var high := |es|;
    index := 0;
    while index < high
      invariant index <= high <= |es|
      invariant forall i :: 0 <= i < index ==> Less(es[i].name, n)
      invariant forall i :: high <= i < |es| ==> Less(n, es[i].name)
    {
      var mid := (index + high) / 2;
      LessOne(es[mid].name, n);
      if es[mid].name == n {
        return mid, true;
      }
      if Less(es[mid].name, n) {
        forall i | 0 <= i < mid ensures Less(es[i].name, n) {
          LessTransitive(es[i].name, es[mid].name, n);
        }
        index := mid + 1;
      } else {
        forall i | mid < i < |es| ensures Less(n, es[i].name) {
          LessTransitive(n, es[mid].name, es[i].name);
        }
        high := mid;
      }
    }
    found := false;
  }

  /** At most `maxEntries` (if not zero) of the entries after the one named; to ask for none there are fails. */
  method ReadDir(es: seq<Entry>, maxEntries: nat, prevReturned: string)
    returns (dirEntries: seq<Entry>, moreEntries: bool, failed: bool, ghost first: nat)
    requires Sorted(es)
    ensures first <= |es| && forall i :: 0 <= i < |es| ==> (Less(prevReturned, es[i].name) <==> first <= i)
    ensures first + |dirEntries| <= |es| && dirEntries == es[first..first + |dirEntries|]
    ensures moreEntries <==> first + |dirEntries| < |es|
    ensures moreEntries ==> |dirEntries| == maxEntries > 0
    ensures |dirEntries| <= maxEntries || maxEntries == 0
    ensures failed <==> first == |es|
  {
    var dirIndex, found := BisectRight(es, prevReturned);
    if found {
      dirIndex := dirIndex + 1;
    }
    first := dirIndex;
    forall i | 0 <= i < first ensures !Less(prevReturned, es[i].name) {
      LessOne(prevReturned, es[i].name);
    }
    dirEntries := [];
    var atLeastOneEntryFound := false;
    while dirIndex < |es|
      invariant first <= dirIndex <= |es| && dirEntries == es[first..dirIndex]
      invariant maxEntries == 0 || |dirEntries| <= maxEntries
      invariant atLeastOneEntryFound <==> first < dirIndex
    {
      atLeastOneEntryFound := true;
      if maxEntries != 0 && |dirEntries| + 1 > maxEntries {
        break;
      }
      assert es[first..dirIndex + 1] == es[first..dirIndex] + [es[dirIndex]];
      dirEntries := dirEntries + [es[dirIndex]];
      dirIndex := dirIndex + 1;
    }
    moreEntries := dirIndex < |es|;
    failed := dirEntries == [] && !atLeastOneEntryFound;
  }

  // ----- the walk -----

  /** The listing comes out right if the tree is orderly, or if nothing is pruned. */
  ghost predicate Exact(q: Query, d: Node) {
    Orderly(d) || (q.marker == "" && q.prefix == "")
  }

  lemma FilledOne(q: Query, ents: seq<string>, f: string)
    requires |ents| < q.maxEntries
    ensures q.Filled(ents, [f]) == if q.Passes(f) then ents + [f] else ents
  {
    assert q.Select([f]) == if q.Passes(f) then [f] else [];
  }

  /** What the next entry adds to the listing. */
  lemma Turn(q: Query, ents: seq<string>, d: Node, path: string, es: seq<Entry>, pending: seq<Entry>)
    requires OnTheWay(d, es, pending) && es != [] && !es[0].node.Itself? && !Due(es, pending) && |ents| < q.maxEntries
    ensures var f := path + es[0].name;
            && OnTheWay(d, es[1..], Later(pending, es[0]))
            && q.Filled(ents, Emit(d, path, es, pending)) ==
               q.Filled(if q.Passes(f) then ents + [f] else ents, Emit(d, path, es[1..], Later(pending, es[0])))
  {
    LookedAt(d, es, pending);
    var f := path + es[0].name;
    FilledOne(q, ents, f);
    FilledConcat(q, ents, [f], Emit(d, path, es[1..], Later(pending, es[0])));
  }

  /** `read` entries have been read from the directory, the last named `last`; the ones in `dirEnts` are still to
      look at. */
  ghost predicate PartlyRead(es: seq<Entry>, read: nat, last: string, dirEnts: seq<Entry>) {
    && |dirEnts| <= read <= |es| && dirEnts == es[read - |dirEnts|..read]
    && last == if read == 0 then "" else es[read - 1].name
  }

  ghost function Unread(es: seq<Entry>, read: nat, dirEnts: seq<Entry>): seq<Entry>
    requires |dirEnts| <= read <= |es|
  {
    es[read - |dirEnts|..]
  }

  lemma NextUnread(es: seq<Entry>, read: nat, last: string, dirEnts: seq<Entry>)
    requires PartlyRead(es, read, last, dirEnts)
    ensures dirEnts != [] ==>
              && Unread(es, read, dirEnts) != [] && Unread(es, read, dirEnts)[0] == dirEnts[0]
              && PartlyRead(es, read, last, dirEnts[1..])
              && Unread(es, read, dirEnts[1..]) == Unread(es, read, dirEnts)[1..]
  {
  }

  /** Reading goes on where it left off. */
  lemma FirstUnread(d: Node, read: nat, last: string, first: nat)
    requires WellFormed(d) && PartlyRead(d.entries, read, last, []) && read < |d.entries|
    requires first <= |d.entries|
    requires forall i :: 0 <= i < |d.entries| ==> (Less(last, d.entries[i].name) <==> first <= i)
    ensures first == read
  {
    assert d.entries[read] in d.entries;
    assert Less(last, d.entries[read].name);
    if read > 0 {
      LessOne(last, last);
      assert !Less(last, d.entries[read - 1].name);
    }
  }

  ghost function AfterRound(es: seq<Entry>): seq<Entry> {
    if es == [] then [] else es[1..]
  }

  /** The listing has grown by paths below `d` that pass. */
  ghost predicate Grown(q: Query, d: Node, path: string, before: seq<string>, after: seq<string>) {
    before <= after && forall p :: p in after ==> p in before || (IsPath(d, path, p) && q.Passes(p))
  }

  lemma GrownByOne(q: Query, d: Node, path: string, e: Entry, ents: seq<string>)
    requires d.Dir? && e in d.entries && !e.node.Itself? && q.Passes(path + e.name)
    ensures Grown(q, d, path, ents, ents + [path + e.name])
  {
    assert Yields(path, e, path + e.name);
    IsPathIff(d, path, path + e.name);
  }

  lemma GrownInside(q: Query, d: Node, path: string, e: Entry, start: seq<string>, before: seq<string>,
                    after: seq<string>)
    requires d.Dir? && e in d.entries && e.node.Dir?
    requires Grown(q, d, path, start, before) && Grown(q, e.node, path + e.name + "/", before, after)
    ensures Grown(q, d, path, start, after)
  {
    forall p | p in after && p !in before ensures IsPath(d, path, p) {
      assert Yields(path, e, p);
      IsPathIff(d, path, p);
    }
  }

  class ContainerWalk {
    const query: Query
    var containerEnts: seq<string>

    constructor (query: Query)
      ensures this.query == query && containerEnts == []
    {
      this.query, containerEnts := query, [];
    }

    ghost function Filled(rest: seq<string>): seq<string>
      requires |containerEnts| <= query.maxEntries
      reads this
    {
      query.Filled(containerEnts, rest)
    }

    /** Deals with one entry: lists it if it passes, and notes a directory for later. */
    method HandleEntry(dirName: string, ghost d: Node, ghost es: seq<Entry>, recursiveDescents: seq<Entry>,
                       dirEnt: Entry)
      returns (beyond: bool, descents: seq<Entry>)
      requires OnTheWay(d, es, recursiveDescents) && es != [] && dirEnt == es[0] && !dirEnt.node.Itself?
      requires !Due(es, recursiveDescents)
      requires |containerEnts| < query.maxEntries
      modifies `containerEnts
      ensures |containerEnts| <= query.maxEntries && OnTheWay(d, es[1..], descents)
      ensures Grown(query, d, dirName, old(containerEnts), containerEnts)
      ensures Exact(query, d) ==>
                old(Filled(Emit(d, dirName, es, recursiveDescents))) ==
                if beyond then containerEnts else Filled(Emit(d, dirName, es[1..], descents))
    {
      var fileName := dirName + dirEnt.name;
      beyond, descents := false, recursiveDescents;
      LookedAt(d, es, recursiveDescents);
      if Less(query.prefix, fileName) && !(query.prefix <= fileName) {
        if Orderly(d) {
          NothingBeyond(query, d, dirName, es, recursiveDescents);
        }
        return true, descents;
      }
      assert dirEnt in es && dirEnt in d.entries;
      if !Less(query.marker, fileName) && !(fileName <= query.marker) {
        BeforeMarker(query, dirName, dirEnt);
        if Orderly(d) {
          Skipped(query, d, dirName, es, recursiveDescents);
        }
        return;
      }
      if dirEnt.node.Dir? && !(query.prefix <= fileName) && !(fileName <= query.prefix) {
        AwayFromPrefix(query, dirName, dirEnt);
        if Orderly(d) {
          Skipped(query, d, dirName, es, recursiveDescents);
        }
        return;
      }
      Turn(query, containerEnts, d, dirName, es, recursiveDescents);
      if Less(query.marker, fileName) && query.prefix <= fileName {
        GrownByOne(query, d, dirName, dirEnt, containerEnts);
        containerEnts := containerEnts + [fileName];
      }
      if dirEnt.node.Dir? {
        descents := recursiveDescents + [dirEnt];
      }
    }

    /** Descends into the directories that are due. */
    method Descend(dirName: string, d: Node, ghost es: seq<Entry>, dirEnts: seq<Entry>, recursiveDescents: seq<Entry>)
      returns (full: bool, descents: seq<Entry>)
      requires OnTheWay(d, es, recursiveDescents) && (es == [] || !es[0].node.Itself?)
      requires (dirEnts == [] <==> es == []) && (dirEnts != [] ==> dirEnts[0] == es[0])
      requires |containerEnts| < query.maxEntries
      modifies `containerEnts
      ensures |containerEnts| <= query.maxEntries && (!full ==> |containerEnts| < query.maxEntries)
      ensures Grown(query, d, dirName, old(containerEnts), containerEnts)
      ensures OnTheWay(d, es, descents) && |descents| <= |recursiveDescents| && (!full ==> !Due(es, descents))
      ensures Exact(query, d) ==>
                old(Filled(Emit(d, dirName, es, recursiveDescents))) ==
                if full then containerEnts else Filled(Emit(d, dirName, es, descents))
      decreases d, 0
    {
      descents := recursiveDescents;
      ghost var goal := Filled(Emit(d, dirName, es, recursiveDescents));
      while descents != [] && (dirEnts == [] || Less(descents[0].name + "/", dirEnts[0].name))
        invariant OnTheWay(d, es, descents) && |descents| <= |recursiveDescents|
        invariant |containerEnts| < query.maxEntries && Grown(query, d, dirName, old(containerEnts), containerEnts)
        invariant Exact(query, d) ==> goal == Filled(Emit(d, dirName, es, descents))
        decreases |descents|
      {
        Descended(d, es, descents);
        FilledConcat(query, containerEnts, EmitDir(descents[0].node, dirName + descents[0].name + "/"),
                     Emit(d, dirName, es, descents[1..]));
        ghost var before := containerEnts;
        RecursiveReaddirPlus(dirName + descents[0].name + "/", descents[0].node);
        GrownInside(query, d, dirName, descents[0], old(containerEnts), before, containerEnts);
        if |containerEnts| >= query.maxEntries {
          return true, descents;
        }
        descents := descents[1..];
      }
      full := false;
    }

    method RecursiveReaddirPlus(dirName: string, d: Node)
      requires WellFormed(d) && |containerEnts| <= query.maxEntries
      modifies `containerEnts
      ensures |containerEnts| <= query.maxEntries && Grown(query, d, dirName, old(containerEnts), containerEnts)
      ensures Exact(query, d) ==> containerEnts == old(Filled(EmitDir(d, dirName)))
      decreases d, 3
    {
      var dirEnts: seq<Entry> := [];
      var recursiveDescents: seq<Entry> := [];
      var areMoreEntries := true;
      var lastBasename := "";
      ghost var read: nat := 0;
      ghost var goal := Filled(EmitDir(d, dirName));
      while (areMoreEntries || dirEnts != [] || recursiveDescents != []) && |containerEnts| < query.maxEntries
        invariant |containerEnts| <= query.maxEntries && Grown(query, d, dirName, old(containerEnts), containerEnts)
        invariant PartlyRead(d.entries, read, lastBasename, dirEnts) && (areMoreEntries <==> read < |d.entries|)
        invariant OnTheWay(d, Unread(d.entries, read, dirEnts), recursiveDescents)
        invariant Exact(query, d) ==>
                  goal == Filled(Emit(d, dirName, Unread(d.entries, read, dirEnts), recursiveDescents))
        decreases |Unread(d.entries, read, dirEnts)|, |recursiveDescents|
      {
        var finished: bool;
        finished, read, lastBasename, dirEnts, areMoreEntries, recursiveDescents :=
          Round(dirName, d, read, lastBasename, dirEnts, areMoreEntries, recursiveDescents);
        if finished {
          return;
        }
      }
    }

    /** One round of it: reads on if need be, and goes on from there. */
    method Round(dirName: string, d: Node, ghost read: nat, lastBasename: string, dirEnts: seq<Entry>, more: bool,
                 recursiveDescents: seq<Entry>)
      returns (finished: bool, ghost read': nat, lastBasename': string, dirEnts': seq<Entry>, areMoreEntries: bool,
               descents: seq<Entry>)
      requires WellFormed(d) && |containerEnts| < query.maxEntries
      requires PartlyRead(d.entries, read, lastBasename, dirEnts) && (more <==> read < |d.entries|)
      requires OnTheWay(d, Unread(d.entries, read, dirEnts), recursiveDescents)
      requires more || dirEnts != [] || recursiveDescents != []
      modifies `containerEnts
      ensures |containerEnts| <= query.maxEntries && Grown(query, d, dirName, old(containerEnts), containerEnts)
      ensures PartlyRead(d.entries, read', lastBasename', dirEnts') || finished
      ensures !finished ==>
                && (areMoreEntries <==> read' < |d.entries|)
                && OnTheWay(d, Unread(d.entries, read', dirEnts'), descents)
                && (|Unread(d.entries, read', dirEnts')| < |Unread(d.entries, read, dirEnts)| ||
                    (|Unread(d.entries, read', dirEnts')| == |Unread(d.entries, read, dirEnts)| &&
                     |descents| < |recursiveDescents|))
      ensures Exact(query, d) ==>
                old(Filled(Emit(d, dirName, Unread(d.entries, read, dirEnts), recursiveDescents))) ==
                if finished then containerEnts
                else Filled(Emit(d, dirName, Unread(d.entries, read', dirEnts'), descents))
      decreases d, 2
    {
      read', lastBasename', dirEnts', areMoreEntries := Refill(d, read, lastBasename, dirEnts, more);
      NextUnread(d.entries, read', lastBasename', dirEnts');
      finished, dirEnts', descents :=
        Advance(dirName, d, Unread(d.entries, read', dirEnts'), dirEnts', recursiveDescents);
    }

    /** One round: descends into the directories that are due and deals with one entry. */
    method Advance(dirName: string, d: Node, ghost es: seq<Entry>, dirEnts: seq<Entry>, recursiveDescents: seq<Entry>)
      returns (finished: bool, dirEnts': seq<Entry>, descents: seq<Entry>)
      requires OnTheWay(d, es, recursiveDescents) && (dirEnts == [] <==> es == [])
      requires dirEnts != [] ==> dirEnts[0] == es[0]
      requires |containerEnts| < query.maxEntries
      modifies `containerEnts
      ensures |containerEnts| <= query.maxEntries && Grown(query, d, dirName, old(containerEnts), containerEnts)
      ensures !finished ==> dirEnts' == if dirEnts == [] then [] else dirEnts[1..]
      ensures !finished ==> OnTheWay(d, AfterRound(es), descents) && (es == [] ==> descents == [])
      ensures Exact(query, d) ==>
                old(Filled(Emit(d, dirName, es, recursiveDescents))) ==
                if finished then containerEnts else Filled(Emit(d, dirName, AfterRound(es), descents))
      decreases d, 1
    {
      if dirEnts != [] && IsDot(dirEnts[0]) {
        LookedAt(d, es, recursiveDescents);
        assert es[0] in es;
        return false, dirEnts[1..], recursiveDescents;
      }
      assert es != [] ==> es[0] in es;
      finished, descents := Descend(dirName, d, es, dirEnts, recursiveDescents);
      dirEnts' := dirEnts;
      if !finished && dirEnts != [] {
        finished, descents := HandleEntry(dirName, d, es, descents, dirEnts[0]);
        dirEnts' := dirEnts[1..];
      }
    }

    /** When the entries read have all been looked at and there are more, reads the next page:
        that does not fail, and it brings at least one entry. */
    method Refill(d: Node, ghost read: nat, lastBasename: string, dirEnts: seq<Entry>, more: bool)
      returns (ghost read': nat, lastBasename': string, dirEnts': seq<Entry>, areMoreEntries: bool)
      requires WellFormed(d) && PartlyRead(d.entries, read, lastBasename, dirEnts) && (more <==> read < |d.entries|)
      requires |containerEnts| < query.maxEntries
      ensures PartlyRead(d.entries, read', lastBasename', dirEnts') && (areMoreEntries <==> read' < |d.entries|)
      ensures Unread(d.entries, read', dirEnts') == Unread(d.entries, read, dirEnts)
      ensures dirEnts' == [] ==> Unread(d.entries, read', dirEnts') == []
    {
      if !more || dirEnts != [] {
        return read, lastBasename, dirEnts, more;
      }
      var failed: bool;
      ghost var first: nat;
      dirEnts', areMoreEntries, failed, first := ReadDir(d.entries, query.maxEntries - |containerEnts|, lastBasename);
      FirstUnread(d, read, lastBasename, first);
      assert !failed;
      read' := first + |dirEnts'|;
      lastBasename' := dirEnts'[|dirEnts'| - 1].name;
    }
  }

  // ----- the whole listing -----

  /** The first `maxEntries`, in ascending order, of the container's paths that pass. */
  ghost predicate IsListing(q: Query, container: Node, ents: seq<string>) {
    && |ents| <= q.maxEntries && Ascending(ents)
    && (forall p :: p in ents ==> IsPath(container, "", p) && q.Passes(p))
    && (forall p :: IsPath(container, "", p) && q.Passes(p) && p !in ents ==>
          |ents| == q.maxEntries && forall r :: r in ents ==> Less(r, p))
  }

  /** There is but one such listing. */
  lemma ListingUnique(q: Query, container: Node, a: seq<string>, b: seq<string>)
    requires IsListing(q, container, a) && IsListing(q, container, b)
    ensures a == b
  {
    NoneMissing(q, container, a, b);
    NoneMissing(q, container, b, a);
    AscendingUnique(a, b);
  }

  lemma NoneMissing(q: Query, container: Node, a: seq<string>, b: seq<string>)
    requires IsListing(q, container, a) && IsListing(q, container, b)
    ensures forall p :: p in a ==> p in b
  {
    forall p | p in a ensures p in b {
      if p !in b {
        forall r | r in b ensures r in a {
          LessOne(r, p);
        }
        AscendingSize(a);
        AscendingSize(b);
        var inA, inB := set x | x in a, set x | x in b;
        assert inB + {p} <= inA;
        SubsetSize(inB + {p}, inA);
      }
    }
  }

  lemma SubsetSize(a: set<string>, b: set<string>)
    requires a <= b
    ensures |a| <= |b|
  {
    assert b == a + (b - a);
  }

  lemma {:induction false} AscendingSize(s: seq<string>)
    requires Ascending(s)
    ensures |set x | x in s| == |s|
  {
    if s != [] {
      NotAgain(s);
      AscendingSize(s[1..]);
      assert s == [s[0]] + s[1..];
      assert (set x | x in s) == {s[0]} + set x | x in s[1..];
    }
  }

  lemma FilledIsListing(q: Query, container: Node)
    requires WellFormed(container) && Ascending(EmitDir(container, ""))
    ensures IsListing(q, container, q.Filled([], EmitDir(container, "")))
  {
    var all := EmitDir(container, "");
    var passing := q.Select(all);
    var ents := q.Filled([], all);
    SelectAscending(q, all);
    assert [] + passing == passing;
    assert ents == Firsts(passing, q.maxEntries);
    FirstsAscending(passing, q.maxEntries);
    forall p ensures p in passing <==> IsPath(container, "", p) && q.Passes(p) {
      SelectMembers(q, all, p);
      EmitDirMembers(container, "", p);
    }
  }

  lemma FirstsAscending(s: seq<string>, n: nat)
    requires Ascending(s)
    ensures Ascending(Firsts(s, n)) && (forall p :: p in Firsts(s, n) ==> p in s)
    ensures forall p :: p in s && p !in Firsts(s, n) ==>
              |Firsts(s, n)| == n && forall r :: r in Firsts(s, n) ==> Less(r, p)
  {
    if |s| > n {
      assert s == s[..n] + s[n..];
      AscendingConcat(s[..n], s[n..]);
    }
  }

  lemma {:induction false} EverythingPasses(q: Query, s: seq<string>)
    requires q.marker == "" && q.prefix == "" && forall p :: p in s ==> p != ""
    ensures q.Select(s) == s
  {
    if s != [] {
      assert s == [s[0]] + s[1..] && s[0] in s;
      assert forall p :: p in s[1..] ==> p in s;
      EverythingPasses(q, s[1..]);
    }
  }

  lemma FullListingIff(q: Query, container: Node)
    requires WellFormed(container) && q.marker == "" && q.prefix == "" && |EmitDir(container, "")| <= q.maxEntries
    ensures IsListing(q, container, q.Filled([], EmitDir(container, ""))) <==> Orderly(container)
  {
    var all := EmitDir(container, "");
    AscendingIffOrderly(container, "");
    forall p | p in all ensures p != "" {
      EmitDirMembers(container, "", p);
      PathExtends(container, "", p);
    }
    EverythingPasses(q, all);
    assert q.Filled([], all) == all;
    if Orderly(container) {
      FilledIsListing(q, container);
    }
  }

  /** On an orderly container the listing is the first `maxEntries`, in ascending order, of the paths after the
      marker that start with the prefix; a listing of everything is that on no other container. */
  method MiddlewareGetContainer(container: Node, query: Query) returns (containerEnts: seq<string>)
    requires WellFormed(container)
    ensures |containerEnts| <= query.maxEntries
    ensures forall p :: p in containerEnts ==> IsPath(container, "", p) && query.Passes(p)
    ensures Exact(query, container) ==> containerEnts == query.Filled([], EmitDir(container, ""))
    ensures Orderly(container) ==> IsListing(query, container, containerEnts)
    ensures query.marker == "" && query.prefix == "" && |EmitDir(container, "")| <= query.maxEntries ==>
              (IsListing(query, container, containerEnts) <==> Orderly(container))
  {
    var walk := new ContainerWalk(query);
    walk.RecursiveReaddirPlus("", container);
    containerEnts := walk.containerEnts;
    AscendingIffOrderly(container, "");
    if Orderly(container) {
      FilledIsListing(query, container);
    }
    if query.marker == "" && query.prefix == "" && |EmitDir(container, "")| <= query.maxEntries {
      FullListingIff(query, container);
    }
  }

  /** Directories "a" and "a-b" with a file in each. */
  function Siblings(): Node {
    Dir([Entry(".", Itself), Entry("a", OneFile("x")), Entry("a-b", OneFile("y"))])
  }

  function OneFile(name: string): Node {
    Dir([Entry(".", Itself), Entry(name, File)])
  }

  lemma OneFileWellFormed(name: string)
    requires name == "x" || name == "y"
    ensures WellFormed(OneFile(name))
  {
    assert Sorted(OneFile(name).entries);
  }

  /** The walk does not emit the paths of these in ascending order: "a/x" comes before "a-b/y". */
  lemma FifoOutOfOrder()
    ensures WellFormed(Siblings()) && !Ascending(EmitDir(Siblings(), ""))
  {
    OneFileWellFormed("x");
    OneFileWellFormed("y");
    var d := Siblings();
    assert Less("a"[1..], "a-b"[1..]);
    assert Sorted(d.entries);
    assert d.entries[1] in d.entries && d.entries[2] in d.entries;
    assert Clash(d.entries[1], d.entries[2]) by {
      assert OneFile("x").entries[1] in OneFile("x").entries && OneFile("y").entries[1] in OneFile("y").entries;
      assert Less("a-b"[1..], "a/"[1..]);
      assert "a" + "/" == "a/";
    }
    AscendingIffOrderly(d, "");
  }

  // ----- a client that pages through a container -----

  /** The paths of the container after the marker. */
  ghost function Ahead(container: Node, marker: string): set<string>
    requires container.Dir?
  {
    set p | p in EmitDir(container, "") && Less(marker, p)
  }

  /** What is selected after the marker is the page and what is selected after its last path. */
  lemma NextPage(q: Query, next: Query, all: seq<string>, page: seq<string>)
    requires Ascending(all) && page == Firsts(q.Select(all), q.maxEntries) && page != []
    requires next.prefix == q.prefix && next.marker == page[|page| - 1]
    ensures q.Select(all) == page + next.Select(all)
  {
    SelectAscending(q, all);
    SelectAscending(next, all);
    FirstsAscending(q.Select(all), q.maxEntries);
    forall p ensures p in q.Select(all) <==> p in page + next.Select(all) {
      SelectMembers(q, all, p);
      SelectMembers(next, all, p);
      PageOrMore(q, next, all, page, p);
    }
    forall x, y | x in page && y in next.Select(all) ensures Less(x, y) {
      SelectMembers(next, all, y);
      LastIsGreatest(page, x);
      if x != next.marker {
        LessTransitive(x, next.marker, y);
      }
    }
    AscendingConcat(page, next.Select(all));
    AscendingUnique(q.Select(all), page + next.Select(all));
  }

  lemma LastIsGreatest(s: seq<string>, x: string)
    requires Ascending(s) && x in s
    ensures x == s[|s| - 1] || Less(x, s[|s| - 1])
  {
    var i :| 0 <= i < |s| && s[i] == x;
  }

  lemma PageOrMore(q: Query, next: Query, all: seq<string>, page: seq<string>, p: string)
    requires Ascending(q.Select(all)) && page == Firsts(q.Select(all), q.maxEntries) && page != []
    requires next.prefix == q.prefix && next.marker == page[|page| - 1]
    ensures p in all && q.Passes(p) <==> p in page || (p in all && next.Passes(p))
  {
    SelectMembers(q, all, p);
    SelectMembers(q, all, next.marker);
    FirstsAscending(q.Select(all), q.maxEntries);
    assert next.marker in page;
    if next.Passes(p) {
      LessTransitive(q.marker, next.marker, p);
    }
  }

  /** One page, as a client sees it. */
  method AskPage(container: Node, query: Query) returns (page: seq<string>)
    requires WellFormed(container)
    ensures forall p :: p in page ==> IsPath(container, "", p) && query.Passes(p)
    ensures Exact(query, container) ==> page == Firsts(query.Select(EmitDir(container, "")), query.maxEntries)
  {
    page := MiddlewareGetContainer(container, query);
    assert query.Filled([], EmitDir(container, "")) == Firsts(query.Select(EmitDir(container, "")), query.maxEntries);
  }

  /** How far a client has got: what it has, and what it will be given after the marker, are all there is. */
  ghost predicate GotSoFar(container: Node, pageSize: nat, prefix: string, ents: seq<string>, marker: string,
                           more: bool)
    requires WellFormed(container)
  {
    && (forall p :: p in ents ==> IsPath(container, "", p) && prefix <= p)
    && (Orderly(container) ==>
          Query(pageSize, "", prefix).Select(EmitDir(container, "")) ==
          ents + if more then Query(pageSize, marker, prefix).Select(EmitDir(container, "")) else [])
  }

  lemma PageAdded(all: seq<string>, pageSize: nat, prefix: string, ents: seq<string>, marker: string, page: seq<string>)
    requires Ascending(all) && page != [] && page == Firsts(Query(pageSize, marker, prefix).Select(all), pageSize)
    ensures ents + Query(pageSize, marker, prefix).Select(all) ==
            ents + page + Query(pageSize, page[|page| - 1], prefix).Select(all)
  {
    var next := Query(pageSize, page[|page| - 1], prefix);
    NextPage(Query(pageSize, marker, prefix), next, all, page);
    assert ents + (page + next.Select(all)) == ents + page + next.Select(all);
  }

  lemma GotAPage(container: Node, pageSize: nat, prefix: string, ents: seq<string>, marker: string, page: seq<string>)
    requires WellFormed(container) && GotSoFar(container, pageSize, prefix, ents, marker, true) && page != []
    requires forall p :: p in page ==> IsPath(container, "", p) && prefix <= p
    requires Orderly(container) ==>
               page == Firsts(Query(pageSize, marker, prefix).Select(EmitDir(container, "")), pageSize)
    ensures GotSoFar(container, pageSize, prefix, ents + page, page[|page| - 1], true)
  {
    if Orderly(container) {
      EmitDirAscending(container, "");
      PageAdded(EmitDir(container, ""), pageSize, prefix, ents, marker, page);
    }
  }

  /** Asking for page after page, each after the last path of the one before, ends; on an
      orderly container the pages are together the paths with the prefix, each once, in ascending order. */
  method ListByPages(container: Node, pageSize: nat, prefix: string) returns (ents: seq<string>)
    requires WellFormed(container) && pageSize > 0
    ensures forall p :: p in ents ==> IsPath(container, "", p) && prefix <= p
    ensures Orderly(container) ==> ents == Query(pageSize, "", prefix).Select(EmitDir(container, ""))
  {
    var marker := "";
    ents := [];
    var more := true;
    while more
      invariant GotSoFar(container, pageSize, prefix, ents, marker, more)
      decreases more, Ahead(container, marker)
    {
      var page := AskPage(container, Query(pageSize, marker, prefix));
      if page == [] {
        more := false;
      } else {
        GotAPage(container, pageSize, prefix, ents, marker, page);
        AheadShrinks(container, marker, page[|page| - 1]);
        ents := ents + page;
        marker := page[|page| - 1];
      }
    }
  }

  lemma AheadShrinks(container: Node, marker: string, last: string)
    requires WellFormed(container) && IsPath(container, "", last) && Less(marker, last)
    ensures Ahead(container, last) < Ahead(container, marker)
  {
    EmitDirMembers(container, "", last);
    LessOne(last, last);
    assert last in Ahead(container, marker) && last !in Ahead(container, last);
    forall p | p in Ahead(container, last) ensures p in Ahead(container, marker) {
      LessTransitive(marker, last, p);
    }
  }

  lemma OneFileEmits(name: string, path: string)
    ensures EmitDir(OneFile(name), path) == [path + name]
  {
    var d := OneFile(name);
    assert d.entries[1..] == [Entry(name, File)] && [Entry(name, File)][1..] == [];
    assert Emit(d, path, [], []) == [];
    assert Emit(d, path, [Entry(name, File)], []) == [path + name] + [];
  }

  lemma EmitNext(d: Node, path: string, es: seq<Entry>, pending: seq<Entry>)
    requires d.Dir? && (forall e :: e in es || e in pending ==> e in d.entries)
    requires forall e :: e in pending ==> e.node.Dir?
    requires es == [] || !es[0].node.Itself?
    ensures Due(es, pending) ==>
              Emit(d, path, es, pending) ==
              EmitDir(pending[0].node, path + pending[0].name + "/") + Emit(d, path, es, pending[1..])
    ensures !Due(es, pending) && es != [] ==>
              Emit(d, path, es, pending) == [path + es[0].name] + Emit(d, path, es[1..], Later(pending, es[0]))
    ensures !Due(es, pending) && es == [] ==> Emit(d, path, es, pending) == []
  {
  }

  /** Two directories, the second between the first and its contents. */
  lemma PairEmits(d: Node, dot: Entry, a: Entry, b: Entry)
    requires d == Dir([dot, a, b]) && dot.node.Itself? && a.node.Dir? && b.node.Dir? && !Less(a.name + "/", b.name)
    ensures EmitDir(d, "") == [a.name, b.name] + (EmitDir(a.node, a.name + "/") + EmitDir(b.node, b.name + "/"))
  {
    assert a == d.entries[1] && b == d.entries[2];
    assert "" + a.name == a.name && "" + b.name == b.name;
    assert [b][1..] == [] && [a, b][1..] == [b] && d.entries[1..] == [a, b];
    EmitNext(d, "", [], []);
    EmitNext(d, "", [], [b]);
    EmitNext(d, "", [], [a, b]);
    EmitNext(d, "", [b], [a]);
    assert Later([a], b) == [a, b] && Later([], a) == [a];
    EmitNext(d, "", [a, b], []);
  }

  lemma SiblingsEmit()
    ensures EmitDir(Siblings(), "") == ["a", "a-b", "a/x", "a-b/y"]
  {
    assert !Less("a/", "a-b") by {
      assert "a/"[1..] == "/" && "a-b"[1..] == "-b";
    }
    assert "a" + "/" == "a/" && "a-b" + "/" == "a-b/";
    PairEmits(Siblings(), Entry(".", Itself), Entry("a", OneFile("x")), Entry("a-b", OneFile("y")));
    OneFileEmits("x", "a/");
    OneFileEmits("y", "a-b/");
    assert "a/" + "x" == "a/x" && "a-b/" + "y" == "a-b/y";
  }

  lemma FirstThree(all: seq<string>)
    requires |all| == 4 && forall p :: p in all ==> p != ""
    ensures Firsts(Query(3, "", "").Select(all), 3) == [all[0], all[1], all[2]]
  {
    EverythingPasses(Query(3, "", ""), all);
  }

  lemma LostPath(container: Node, all: seq<string>)
    requires WellFormed(container) && EmitDir(container, "") == all && all == ["a", "a-b", "a/x", "a-b/y"]
    ensures IsPath(container, "", "a-b/y") && !Less("a/x", "a-b/y")
  {
    assert all[3] == "a-b/y";
    EmitDirMembers(container, "", "a-b/y");
    assert "a/x"[1..] == "/x" && "a-b/y"[1..] == "-b/y";
  }

  /** A client that takes three paths and goes on after the third. */
  method TwoPages(container: Node) returns (first: seq<string>, second: seq<string>)
    requires WellFormed(container) && |EmitDir(container, "")| == 4 && "" !in EmitDir(container, "")
    ensures first == EmitDir(container, "")[..3]
    ensures forall p :: p in second ==> Less(first[2], p)
  {
    FirstThree(EmitDir(container, ""));
    first := AskPage(container, Query(3, "", ""));
    second := AskPage(container, Query(3, first[2], ""));
  }

  /** On a container such as the siblings it never sees "a-b/y". */
  method PagesLoseAPath(container: Node) returns (first: seq<string>, second: seq<string>)
    requires WellFormed(container) && EmitDir(container, "") == ["a", "a-b", "a/x", "a-b/y"]
    ensures first == ["a", "a-b", "a/x"] && IsPath(container, "", "a-b/y") && "a-b/y" !in first && "a-b/y" !in second
  {
    ghost var all := EmitDir(container, "");
    LostPath(container, all);
    first, second := TwoPages(container);
    assert all[..3] == ["a", "a-b", "a/x"];
  }
}
