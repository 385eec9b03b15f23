/** The extent map of a file inode, as a value.

A file is a sorted sequence of extents, each saying that `length` bytes of the
file, starting at `fileOffset`, are to be found in log segment `segment`,
starting at `segmentOffset`. Bytes no extent covers are holes.
*/
module Extents {
  import opened Common

  /** Where one byte of a file lives. */
  datatype Location = Location(segment: nat, offset: nat)

  datatype Extent = Extent(fileOffset: nat, length: nat, segment: nat, segmentOffset: nat) {

    function End(): nat {
      fileOffset + length
    }

    predicate Covers(p: nat) {
      fileOffset <= p < End()
    }

    function LocationOf(p: nat): Location
      requires fileOffset <= p
    {
      Location(segment, segmentOffset + (p - fileOffset))
    }
  }

  /** Sorted by file offset and disjoint. */
  ghost predicate Ordered(es: seq<Extent>) {
    forall i, j :: 0 <= i < j < |es| ==> es[i].End() <= es[j].fileOffset
  }

  /** Sorted, disjoint and with a key of its own for each: what the map always is, empty extents or not. */
  ghost predicate Keyed(es: seq<Extent>) {
    Ordered(es) && forall i, j :: 0 <= i < j < |es| ==> es[i].fileOffset < es[j].fileOffset
  }

  ghost predicate AllPositive(es: seq<Extent>) {
    forall i :: 0 <= i < |es| ==> es[i].length > 0
  }

  ghost predicate WellFormed(es: seq<Extent>) {
    Ordered(es) && AllPositive(es)
  }

  lemma WellFormedKeyed(es: seq<Extent>)
    requires WellFormed(es)
    ensures Keyed(es)
  {
    forall i, j | 0 <= i < j < |es| ensures es[i].fileOffset < es[j].fileOffset {
      assert es[i].End() <= es[j].fileOffset;
    }
  }

  ghost predicate EndsBy(es: seq<Extent>, limit: nat) {
    forall i :: 0 <= i < |es| ==> es[i].End() <= limit
  }

  ghost predicate StartsFrom(es: seq<Extent>, limit: nat) {
    forall i :: 0 <= i < |es| ==> limit <= es[i].fileOffset
  }

  /** The location of byte `p` of the file: the meaning of an extent map. */
  function Lookup(es: seq<Extent>, p: nat): Option<Location> {
    if es == [] then None
    else if es[0].Covers(p) then Some(es[0].LocationOf(p))
    else Lookup(es[1..], p)
  }

  /** How many bytes of the file live in segment `s`. */
  function LiveBytes(es: seq<Extent>, s: nat): nat {
    if es == [] then 0
    else (if es[0].segment == s then es[0].length else 0) + LiveBytes(es[1..], s)
  }

  lemma {:induction false} LookupConcat(a: seq<Extent>, b: seq<Extent>, p: nat)
    ensures Lookup(a + b, p) == if Lookup(a, p).Some? then Lookup(a, p) else Lookup(b, p)
  {
    if a == [] {
      assert a + b == b;
    } else {
      assert (a + b)[1..] == a[1..] + b;
      LookupConcat(a[1..], b, p);
    }
  }

  lemma {:induction false} LiveBytesConcat(a: seq<Extent>, b: seq<Extent>, s: nat)
    ensures LiveBytes(a + b, s) == LiveBytes(a, s) + LiveBytes(b, s)
  {
    if a == [] {
      assert a + b == b;
    } else {
      assert (a + b)[1..] == a[1..] + b;
      LiveBytesConcat(a[1..], b, s);
    }
  }

  lemma {:induction false} LookupOutside(es: seq<Extent>, p: nat)
    requires forall i :: 0 <= i < |es| ==> !es[i].Covers(p)
    ensures Lookup(es, p) == None
  {
    if es != [] {
      LookupOutside(es[1..], p);
    }
  }

  /** A located byte is located by some extent that covers it. */
  lemma {:induction false} LookupWitness(es: seq<Extent>, p: nat) returns (i: nat)
    requires Lookup(es, p).Some?
    ensures i < |es| && es[i].Covers(p) && Lookup(es, p).value == es[i].LocationOf(p)
  {
    if es[0].Covers(p) {
      i := 0;
    } else {
      var j := LookupWitness(es[1..], p);
      i := j + 1;
    }
  }

  /** In an ordered map the covering extent is unique, so it decides. */
  lemma LookupAt(es: seq<Extent>, i: nat, p: nat)
    requires Ordered(es) && i < |es| && es[i].Covers(p)
    ensures Lookup(es, p) == Some(es[i].LocationOf(p))
  {
    assert es == es[..i] + ([es[i]] + es[i + 1..]);
    LookupConcat(es[..i], [es[i]] + es[i + 1..], p);
    LookupOutside(es[..i], p);
  }

  lemma {:induction false} LiveBytesAt(es: seq<Extent>, i: nat)
    requires i < |es|
    ensures es[i].length <= LiveBytes(es, es[i].segment)
  {
    assert es == es[..i] + ([es[i]] + es[i + 1..]);
    LiveBytesConcat(es[..i], [es[i]] + es[i + 1..], es[i].segment);
  }

  /** A segment counted zero has no extent left in a well-formed map. */
  lemma {:induction false} NoLiveBytesNoExtent(es: seq<Extent>, s: nat)
    requires AllPositive(es)
    ensures LiveBytes(es, s) == 0 <==> forall i :: 0 <= i < |es| ==> es[i].segment != s
  {
    if es != [] {
      NoLiveBytesNoExtent(es[1..], s);
      if LiveBytes(es, s) == 0 {
        forall i | 0 <= i < |es| ensures es[i].segment != s {
          if i > 0 { assert es[i] == es[1..][i - 1]; }
        }
      } else if es[0].segment != s {
        var i :| 0 <= i < |es[1..]| && es[1..][i].segment == s;
        assert es[i + 1].segment == s;
      }
    }
  }

  /** Cutting one extent in two changes neither what the map means nor what it counts. */
  lemma SplitKeepsMeaning(a: seq<Extent>, e: Extent, b: seq<Extent>, cut: nat)
    requires 0 < cut < e.length
    ensures var l := e.(length := cut);
            var r := Extent(e.fileOffset + cut, e.length - cut, e.segment, e.segmentOffset + cut);
            && (forall p :: Lookup(a + [l, r] + b, p) == Lookup(a + [e] + b, p))
            && (forall s :: LiveBytes(a + [l, r] + b, s) == LiveBytes(a + [e] + b, s))
  {
    var l := e.(length := cut);
    var r := Extent(e.fileOffset + cut, e.length - cut, e.segment, e.segmentOffset + cut);
    forall p ensures Lookup(a + [l, r] + b, p) == Lookup(a + [e] + b, p) {
      Lookup3(a, [l, r], b, p);
      Lookup3(a, [e], b, p);
      assert [l, r] == [l] + [r];
      LookupConcat([l], [r], p);
    }
    forall s ensures LiveBytes(a + [l, r] + b, s) == LiveBytes(a + [e] + b, s) {
      LiveBytes3(a, [l, r], b, s);
      LiveBytes3(a, [e], b, s);
      assert [l, r] == [l] + [r];
      LiveBytesConcat([l], [r], s);
    }
  }

  lemma Lookup3(a: seq<Extent>, m: seq<Extent>, b: seq<Extent>, p: nat)
    ensures Lookup(a + m + b, p) ==
            if Lookup(a, p).Some? then Lookup(a, p)
            else if Lookup(m, p).Some? then Lookup(m, p)
            else Lookup(b, p)
  {
    LookupConcat(a + m, b, p);
    LookupConcat(a, m, p);
  }

  lemma LiveBytes3(a: seq<Extent>, m: seq<Extent>, b: seq<Extent>, s: nat)
    ensures LiveBytes(a + m + b, s) == LiveBytes(a, s) + LiveBytes(m, s) + LiveBytes(b, s)
  {
    LiveBytesConcat(a + m, b, s);
    LiveBytesConcat(a, m, s);
  }

  /** The sorted map's BisectLeft: the index of the matching key, else of its
      predecessor, which is -1 when every key is larger. */
  method BisectLeft(es: seq<Extent>, key: nat) returns (index: int, found: bool)
    requires Keyed(es)
    ensures -1 <= index < |es|
    ensures forall i :: 0 <= i <= index ==> es[i].fileOffset <= key
    ensures forall i :: index < i < |es| ==> es[i].fileOffset > key
    ensures found <==> exists i :: 0 <= i < |es| && es[i].fileOffset == key
    ensures found ==> index >= 0 && es[index].fileOffset == key
  {
    index := -1;
    while index + 1 < |es| && es[index + 1].fileOffset <= key
      invariant -1 <= index < |es|
      invariant forall i :: 0 <= i <= index ==> es[i].fileOffset <= key
    {
      index := index + 1;
    }
    found := index >= 0 && es[index].fileOffset == key;
  }
}
