/** The mutable part of a file inode that Write, Wrote and SetSize update: its
extent map, its per-segment byte counts and its size. Offsets are natural
numbers; callers keep every offset below 2^64, so no sum formed here wraps.
*/
module FileExtentMap {
  import opened Common
  import opened Extents

  /** The counts are exactly the live bytes of the extents. */
  ghost predicate Counts(counts: map<nat, nat>, es: seq<Extent>) {
    forall s :: Recorded(counts, s) == LiveBytes(es, s)
  }

  /** What a write of [start, start + length) from (segment, offset) makes of a map's meaning. */
  function Overlay(es: seq<Extent>, start: nat, length: nat, segment: nat, offset: nat, p: nat): Option<Location> {
    if start <= p < start + length then Some(Location(segment, offset + (p - start))) else Lookup(es, p)
  }

  /** The write continues, in the file and in the segment, the byte just before it. */
  predicate Continues(es: seq<Extent>, start: nat, segment: nat, offset: nat) {
    start > 0 && offset > 0 && Lookup(es, start - 1) == Some(Location(segment, offset - 1))
  }

  ghost predicate StartsAt(es: seq<Extent>, start: nat) {
    exists i :: 0 <= i < |es| && es[i].fileOffset == start
  }

  /** An extent starts at the byte or the byte is located: the same, in a map without empty extents. */
  ghost predicate Taken(es: seq<Extent>, p: nat) {
    StartsAt(es, p) || Lookup(es, p).Some?
  }

  lemma TakenIffLocated(es: seq<Extent>, p: nat)
    requires WellFormed(es)
    ensures Taken(es, p) <==> Lookup(es, p).Some?
  {
    if i :| 0 <= i < |es| && es[i].fileOffset == p {
      LookupAt(es, i, p);
    }
  }

  ghost predicate StartsBefore(es: seq<Extent>, limit: nat) {
    forall i :: 0 <= i < |es| ==> es[i].fileOffset < limit
  }

  /** The segment of every extent has a counter, be it zero. */
  ghost predicate Accounted(counts: map<nat, nat>, es: seq<Extent>) {
    forall i :: 0 <= i < |es| ==> es[i].segment in counts
  }

  /** Some extent that starts in [from, to) has no counter for its segment: to remove it is to panic. */
  ghost predicate Missing(counts: map<nat, nat>, es: seq<Extent>, from: nat, to: nat) {
    exists i :: 0 <= i < |es| && from <= es[i].fileOffset < to && es[i].segment !in counts
  }

  /** The same of the extents from `index` on that start before `limit`. */
  ghost predicate MissingBefore(counts: map<nat, nat>, es: seq<Extent>, index: nat, limit: nat) {
    exists i :: index <= i < |es| && es[i].fileOffset < limit && es[i].segment !in counts
  }

  /** Only empty extents lack a counter. */
  lemma MissingIsEmpty(counts: map<nat, nat>, es: seq<Extent>, i: nat)
    requires Counts(counts, es) && i < |es| && es[i].segment !in counts
    ensures es[i].length == 0
  {
    LiveBytesAt(es, i);
    assert Recorded(counts, es[i].segment) == LiveBytes(es, es[i].segment);
  }

  lemma PositiveAccounted(counts: map<nat, nat>, es: seq<Extent>)
    requires Counts(counts, es) && AllPositive(es)
    ensures Accounted(counts, es) && forall from, to :: !Missing(counts, es, from, to)
  {
    forall i | 0 <= i < |es| ensures es[i].segment in counts {
      if es[i].segment !in counts {
        MissingIsEmpty(counts, es, i);
      }
    }
  }

  lemma EndsByIffNothingBeyond(es: seq<Extent>, limit: nat)
    requires WellFormed(es)
    ensures EndsBy(es, limit) <==> forall p :: limit <= p ==> Lookup(es, p) == None
  {
    if EndsBy(es, limit) {
      forall p | limit <= p ensures Lookup(es, p) == None {
        LookupOutside(es, p);
      }
    } else {
      var i :| 0 <= i < |es| && es[i].End() > limit;
      LookupAt(es, i, es[i].End() - 1);
    }
  }

  /** Replacing the middle of a map by one that counts the same. */
  lemma CountsDelete(counts: map<nat, nat>, a: seq<Extent>, e: Extent, b: seq<Extent>, keep: seq<Extent>, gone: nat)
    requires Counts(counts, a + [e] + b)
    requires gone <= e.length
    requires forall s :: LiveBytes(keep, s) == if s == e.segment then e.length - gone else 0
    ensures gone > 0 ==> e.segment in counts
    ensures gone <= Recorded(counts, e.segment)
    ensures Counts(counts[e.segment := Recorded(counts, e.segment) - gone], a + keep + b)
  {
    LiveBytes3(a, [e], b, e.segment);
    var counts' := counts[e.segment := Recorded(counts, e.segment) - gone];
    forall s ensures Recorded(counts', s) == LiveBytes(a + keep + b, s) {
      LiveBytes3(a, [e], b, s);
      LiveBytes3(a, keep, b, s);
    }
  }

  lemma CountsAdd(counts: map<nat, nat>, a: seq<Extent>, was: seq<Extent>, now: seq<Extent>, b: seq<Extent>,
                  segment: nat, length: nat)
    requires Counts(counts, a + was + b)
    requires forall s :: LiveBytes(now, s) == LiveBytes(was, s) + if s == segment then length else 0
    ensures Counts(counts[segment := Recorded(counts, segment) + length], a + now + b)
  {
    var counts' := counts[segment := Recorded(counts, segment) + length];
    forall s ensures Recorded(counts', s) == LiveBytes(a + now + b, s) {
      LiveBytes3(a, was, b, s);
      LiveBytes3(a, now, b, s);
    }
  }

  /** `es'` means what `es` does and has no extent across `at`, its first `index` extents ending by it. */
  ghost predicate CutAt(es: seq<Extent>, es': seq<Extent>, index: nat, at: nat) {
    && Keyed(es') && (AllPositive(es) ==> AllPositive(es'))
    && (forall p: nat :: Lookup(es', p) == Lookup(es, p))
    && index <= |es'|
    && EndsBy(es'[..index], at) && StartsBefore(es'[..index], at)
    && StartsFrom(es'[index..], at)
    && (StartsAt(es', at) <==> Taken(es, at))
  }

  /** Extent `i` split at `at`, its left part keeping its place. */
  function SplitAt(es: seq<Extent>, i: nat, at: nat): seq<Extent>
    requires i < |es| && es[i].fileOffset < at < es[i].End()
  {
    var splitOut := es[i].End() - at;
    var left := es[i].(length := es[i].length - splitOut);
    var right := Extent(at, splitOut, es[i].segment, es[i].segmentOffset + left.length);
    es[..i] + [left, right] + es[i + 1..]
  }

  lemma SplitForm(es: seq<Extent>, i: nat, at: nat)
    requires i < |es| && es[i].fileOffset < at < es[i].End()
    ensures es == es[..i] + [es[i]] + es[i + 1..]
    ensures var e, cut := es[i], at - es[i].fileOffset;
            SplitAt(es, i, at) ==
            es[..i]
            + [e.(length := cut), Extent(e.fileOffset + cut, e.length - cut, e.segment, e.segmentOffset + cut)]
            + es[i + 1..]
  {
  }

  lemma SplitLive(es: seq<Extent>, i: nat, at: nat, s: nat)
    requires i < |es| && es[i].fileOffset < at < es[i].End()
    ensures LiveBytes(SplitAt(es, i, at), s) == LiveBytes(es, s)
  {
    SplitForm(es, i, at);
    var e, cut := es[i], at - es[i].fileOffset;
    var l, r := e.(length := cut), Extent(e.fileOffset + cut, e.length - cut, e.segment, e.segmentOffset + cut);
    LiveBytes3(es[..i], [l, r], es[i + 1..], s);
    LiveBytes3(es[..i], [e], es[i + 1..], s);
    assert [l, r] == [l] + [r];
    LiveBytesConcat([l], [r], s);
  }

  lemma SplitLookup(es: seq<Extent>, i: nat, at: nat, p: nat)
    requires i < |es| && es[i].fileOffset < at < es[i].End()
    ensures Lookup(SplitAt(es, i, at), p) == Lookup(es, p)
  {
    SplitForm(es, i, at);
    SplitKeepsMeaning(es[..i], es[i], es[i + 1..], at - es[i].fileOffset);
  }

  lemma SplitCounts(es: seq<Extent>, i: nat, at: nat, counts: map<nat, nat>)
    requires Counts(counts, es) && i < |es| && es[i].fileOffset < at < es[i].End()
    ensures Counts(counts, SplitAt(es, i, at)) && forall p: nat :: Lookup(SplitAt(es, i, at), p) == Lookup(es, p)
  {
    forall s ensures Recorded(counts, s) == LiveBytes(SplitAt(es, i, at), s) {
      SplitLive(es, i, at, s);
    }
    forall p: nat ensures Lookup(SplitAt(es, i, at), p) == Lookup(es, p) {
      SplitLookup(es, i, at, p);
    }
  }

  /** Where the extents are after a split, and what became of the one split. */
  lemma SplitElements(es: seq<Extent>, i: nat, at: nat, k: nat)
    requires i < |es| && es[i].fileOffset < at < es[i].End() && k < |SplitAt(es, i, at)|
    ensures |SplitAt(es, i, at)| == |es| + 1
    ensures var e := SplitAt(es, i, at)[k];
            if k < i then e == es[k]
            else if k == i then e.fileOffset == es[i].fileOffset && e.End() == at
            else if k == i + 1 then e.fileOffset == at && e.End() == es[i].End()
            else e == es[k - 1]
  {
  }

  lemma SplitKeyed(es: seq<Extent>, i: nat, at: nat)
    requires Keyed(es) && i < |es| && es[i].fileOffset < at < es[i].End()
    ensures Keyed(SplitAt(es, i, at))
  {
    var es' := SplitAt(es, i, at);
    forall j, k | 0 <= j < k < |es'|
      ensures es'[j].End() <= es'[k].fileOffset && es'[j].fileOffset < es'[k].fileOffset
    {
      SplitElements(es, i, at, j);
      SplitElements(es, i, at, k);
    }
  }

  lemma SplitSides(es: seq<Extent>, i: nat, at: nat)
    requires Keyed(es) && i < |es| && es[i].fileOffset < at < es[i].End()
    ensures var es' := SplitAt(es, i, at);
            && (AllPositive(es) ==> AllPositive(es'))
            && EndsBy(es'[..i + 1], at) && StartsBefore(es'[..i + 1], at) && StartsFrom(es'[i + 1..], at)
  {
    var es' := SplitAt(es, i, at);
    forall k | 0 <= k < |es'|
      ensures if k <= i then es'[k].End() <= at && es'[k].fileOffset < at else at <= es'[k].fileOffset
      ensures AllPositive(es) ==> es'[k].length > 0
    {
      SplitElements(es, i, at, k);
    }
  }

  lemma SplitCuts(es: seq<Extent>, i: nat, at: nat, counts: map<nat, nat>)
    requires Keyed(es) && Counts(counts, es)
    requires i < |es| && es[i].fileOffset < at < es[i].End()
    ensures CutAt(es, SplitAt(es, i, at), i + 1, at) && Counts(counts, SplitAt(es, i, at))
  {
    SplitCounts(es, i, at, counts);
    SplitKeyed(es, i, at);
    SplitSides(es, i, at);
    LookupAt(es, i, at);
    assert SplitAt(es, i, at)[i + 1].fileOffset == at;
  }

  lemma SplitAccounted(es: seq<Extent>, i: nat, at: nat, counts: map<nat, nat>)
    requires Counts(counts, es) && i < |es| && es[i].fileOffset < at < es[i].End()
    ensures Accounted(counts, es) ==> Accounted(counts, SplitAt(es, i, at))
    ensures es[i].segment in counts
  {
    if es[i].segment !in counts {
      MissingIsEmpty(counts, es, i);
    }
  }

  lemma SplitMissing(es: seq<Extent>, i: nat, at: nat, counts: map<nat, nat>, to: nat)
    requires i < |es| && es[i].fileOffset < at < es[i].End() && es[i].segment in counts
    ensures Missing(counts, SplitAt(es, i, at), at, to) <==> Missing(counts, es, at, to)
  {
    var es' := SplitAt(es, i, at);
    assert es'[i] == es[i].(length := at - es[i].fileOffset) && es'[i + 1].segment == es[i].segment;
    if k :| 0 <= k < |es'| && at <= es'[k].fileOffset < to && es'[k].segment !in counts {
      assert k != i && k != i + 1;
      assert es'[k] == es[if k < i then k else k - 1];
    }
    if j :| 0 <= j < |es| && at <= es[j].fileOffset < to && es[j].segment !in counts {
      assert j != i;
      assert es'[if j < i then j else j + 1] == es[j];
    }
  }

  /** From `index` on, `es'` means what `es` does for every byte from `limit` on; before `index` they agree. */
  ghost predicate KeepsFrom(es: seq<Extent>, es': seq<Extent>, index: nat, limit: nat) {
    && index <= |es| && index <= |es'|
    && es'[..index] == es[..index]
    && Keyed(es') && (AllPositive(es) ==> AllPositive(es'))
    && forall p: nat :: limit <= p ==> Lookup(es'[index..], p) == Lookup(es[index..], p)
  }

  /** Extent `i` cut off up to `limit`. */
  function TrimFront(e: Extent, limit: nat): Extent
    requires e.fileOffset <= limit <= e.End()
  {
    var overlap := limit - e.fileOffset;
    Extent(e.fileOffset + overlap, e.length - overlap, e.segment, e.segmentOffset + overlap)
  }

  lemma DropCounts(es: seq<Extent>, index: nat, counts: map<nat, nat>)
    requires Counts(counts, es) && index < |es| && es[index].segment in counts
    ensures var e := es[index];
            && e.length <= counts[e.segment]
            && Counts(counts[e.segment := counts[e.segment] - e.length], es[..index] + es[index + 1..])
  {
    var a, e, b := es[..index], es[index], es[index + 1..];
    assert es == a + [e] + b && a + b == a + [] + b;
    CountsDelete(counts, a, e, b, [], e.length);
  }

  lemma DropStep(es: seq<Extent>, index: nat, limit: nat)
    requires Keyed(es) && index < |es| && es[index].End() <= limit
    ensures KeepsFrom(es, es[..index] + es[index + 1..], index, limit)
  {
    var a, e, b := es[..index], es[index], es[index + 1..];
    assert es[index..] == [e] + b && (a + b)[index..] == b;
  }

  lemma TrimKeeps(es: seq<Extent>, index: nat, limit: nat)
    requires Keyed(es) && index < |es| && es[index].fileOffset < limit < es[index].End()
    ensures KeepsFrom(es, es[index := TrimFront(es[index], limit)], index, limit)
  {
    var a, e, b := es[..index], es[index], es[index + 1..];
    var r := TrimFront(e, limit);
    assert es == a + [e] + b && es[index := r] == a + [r] + b;
    assert es[index..] == [e] + b && (a + [r] + b)[index..] == [r] + b;
    forall p: nat | limit <= p ensures Lookup([r] + b, p) == Lookup([e] + b, p) {
      LookupConcat([r], b, p);
      LookupConcat([e], b, p);
    }
  }

  lemma TrimStep(es: seq<Extent>, index: nat, limit: nat, counts: map<nat, nat>)
    requires Keyed(es) && Counts(counts, es)
    requires index < |es| && es[index].fileOffset < limit < es[index].End()
    ensures var e := es[index];
            var overlap := limit - e.fileOffset;
            && e.segment in counts && overlap <= counts[e.segment]
            && Counts(counts[e.segment := counts[e.segment] - overlap], es[index := TrimFront(e, limit)])
  {
    var a, e, b := es[..index], es[index], es[index + 1..];
    var r := TrimFront(e, limit);
    assert es == a + [e] + b && es[index := r] == a + [r] + b;
    CountsDelete(counts, a, e, b, [r], limit - e.fileOffset);
  }

  /** Cutting at the start and pruning to the end clears exactly the bytes in between. */
  lemma Cleared(es: seq<Extent>, cut: seq<Extent>, es': seq<Extent>, index: nat, start: nat, length: nat)
    requires CutAt(es, cut, index, start)
    requires KeepsFrom(cut, es', index, start + length) && StartsFrom(es'[index..], start + length)
    ensures EndsBy(es'[..index], start)
    ensures forall p: nat :: Lookup(es', p) == if start <= p < start + length then None else Lookup(es, p)
  {
    forall p: nat ensures Lookup(es', p) == if start <= p < start + length then None else Lookup(es, p) {
      assert es' == es'[..index] + es'[index..] && cut == cut[..index] + cut[index..];
      LookupConcat(es'[..index], es'[index..], p);
      LookupConcat(cut[..index], cut[index..], p);
      if p < start + length {
        LookupOutside(es'[index..], p);
      }
      if start <= p {
        LookupOutside(es'[..index], p);
      } else {
        LookupOutside(cut[index..], p);
      }
    }
  }

  /** Once cleared, an extent still starts at the start of the write only if the write is empty and the place was
      taken. */
  lemma FoundIffTaken(es: seq<Extent>, cut: seq<Extent>, es': seq<Extent>, index: nat, start: nat, length: nat)
    requires CutAt(es, cut, index, start)
    requires KeepsFrom(cut, es', index, start + length) && StartsFrom(es'[index..], start + length)
    requires length == 0 ==> es' == cut
    ensures StartsAt(es', start) <==> length == 0 && Taken(es, start)
  {
    assert forall i :: 0 <= i < index ==> es'[i] == es'[..index][i];
    assert forall i :: index <= i < |es'| ==> es'[i] == es'[index..][i - index];
  }

  lemma InsertPosition(es: seq<Extent>, index: nat, e: Extent, prevIndex: int)
    requires Gap(es, index, e)
    requires -1 <= prevIndex < |es|
    requires forall i :: 0 <= i <= prevIndex ==> es[i].fileOffset < e.fileOffset
    requires forall i :: prevIndex < i < |es| ==> es[i].fileOffset > e.fileOffset
    ensures prevIndex + 1 == index
  {
    if index > 0 {
      assert es[..index][index - 1].End() <= e.fileOffset;
      assert es[index - 1].fileOffset < e.fileOffset;
    }
    if index < |es| {
      assert es[index..][0] == es[index];
    }
  }

  /** The map `es` with the bytes of a write placed at `index`: merged into the
      extent before it when they continue it, in a new extent otherwise. */
  function Place(es: seq<Extent>, index: nat, e: Extent): seq<Extent>
    requires index <= |es|
  {
    if index > 0 && Abuts(es[index - 1], e)
    then es[index - 1 := es[index - 1].(length := es[index - 1].length + e.length)]
    else es[..index] + [e] + es[index..]
  }

  predicate Abuts(prev: Extent, e: Extent) {
    && prev.segment == e.segment
    && prev.End() == e.fileOffset
    && prev.segmentOffset + prev.length == e.segmentOffset
  }

  ghost predicate Gap(es: seq<Extent>, index: nat, e: Extent) {
    && Keyed(es) && index <= |es|
    && EndsBy(es[..index], e.fileOffset) && StartsBefore(es[..index], e.fileOffset)
    && StartsFrom(es[index..], e.End())
  }

  /** The extents around position `index`: those before the one just before it, that one, those after. */
  lemma Around(es: seq<Extent>, index: nat, e: Extent)
    requires 0 < index <= |es| && Abuts(es[index - 1], e)
    ensures var prev := es[index - 1];
            && es == es[..index - 1] + [prev] + es[index..]
            && Place(es, index, e) == es[..index - 1] + [prev.(length := prev.length + e.length)] + es[index..]
  {
  }

  lemma GrownMeaning(a: seq<Extent>, prev: Extent, b: seq<Extent>, e: Extent, p: nat)
    requires Abuts(prev, e) && EndsBy(a, prev.fileOffset) && StartsFrom(b, e.End())
    ensures Lookup(a + [prev.(length := prev.length + e.length)] + b, p) ==
            if e.Covers(p) then Some(e.LocationOf(p)) else Lookup(a + [prev] + b, p)
  {
    Lookup3(a, [prev.(length := prev.length + e.length)], b, p);
    Lookup3(a, [prev], b, p);
    if e.Covers(p) {
      LookupOutside(a, p);
    }
  }

  lemma PutMeaning(a: seq<Extent>, b: seq<Extent>, e: Extent, p: nat)
    requires EndsBy(a, e.fileOffset) && StartsFrom(b, e.End())
    ensures Lookup(a + [e] + b, p) == if e.Covers(p) then Some(e.LocationOf(p)) else Lookup(a + b, p)
  {
    Lookup3(a, [e], b, p);
    LookupConcat(a, b, p);
    if e.Covers(p) {
      LookupOutside(a, p);
    }
  }

  lemma PlaceMeaning(es: seq<Extent>, index: nat, e: Extent, p: nat)
    requires Gap(es, index, e)
    ensures Lookup(Place(es, index, e), p) == if e.Covers(p) then Some(e.LocationOf(p)) else Lookup(es, p)
  {
    if index > 0 && Abuts(es[index - 1], e) {
      Around(es, index, e);
      GrownMeaning(es[..index - 1], es[index - 1], es[index..], e, p);
    } else {
      assert es == es[..index] + es[index..];
      PutMeaning(es[..index], es[index..], e, p);
    }
  }

  lemma PlaceCounts(es: seq<Extent>, index: nat, e: Extent, counts: map<nat, nat>)
    requires index <= |es| && Counts(counts, es)
    ensures Counts(counts[e.segment := Recorded(counts, e.segment) + e.length], Place(es, index, e))
  {
    if index > 0 && Abuts(es[index - 1], e) {
      Around(es, index, e);
      var prev := es[index - 1];
      CountsAdd(counts, es[..index - 1], [prev], [prev.(length := prev.length + e.length)], es[index..],
                e.segment, e.length);
    } else {
      assert es == es[..index] + [] + es[index..];
      CountsAdd(counts, es[..index], [], [e], es[index..], e.segment, e.length);
    }
  }

  /** In a gap, what comes before ends by the write and what comes after starts from its end. */
  lemma GapSides(es: seq<Extent>, index: nat, e: Extent, i: nat)
    requires Gap(es, index, e) && i < |es|
    ensures if i < index then es[i].End() <= e.fileOffset && es[i].fileOffset < e.fileOffset
            else e.End() <= es[i].fileOffset
  {
    if i < index { assert es[i] == es[..index][i]; } else { assert es[i] == es[index..][i - index]; }
  }

  /** Where the extents are after a placement. */
  lemma PlaceElements(es: seq<Extent>, index: nat, e: Extent, k: nat)
    requires index <= |es| && k < |Place(es, index, e)|
    ensures var x := Place(es, index, e)[k];
            if index > 0 && Abuts(es[index - 1], e) then
              && |Place(es, index, e)| == |es|
              && x == if k == index - 1 then es[k].(length := es[k].length + e.length) else es[k]
            else
              |Place(es, index, e)| == |es| + 1 && x == if k < index then es[k] else if k == index then e else es[k - 1]
  {
  }

  lemma PlaceKeyed(es: seq<Extent>, index: nat, e: Extent)
    requires Gap(es, index, e) && forall i :: 0 <= i < |es| ==> es[i].fileOffset != e.fileOffset
    ensures Keyed(Place(es, index, e))
  {
    var es' := Place(es, index, e);
    forall j, k | 0 <= j < k < |es'|
      ensures es'[j].End() <= es'[k].fileOffset && es'[j].fileOffset < es'[k].fileOffset
    {
      PlacePair(es, index, e, j, k);
    }
  }

  lemma PlacePair(es: seq<Extent>, index: nat, e: Extent, j: nat, k: nat)
    requires Gap(es, index, e) && (forall i :: 0 <= i < |es| ==> es[i].fileOffset != e.fileOffset)
    requires j < k < |Place(es, index, e)|
    ensures var es' := Place(es, index, e); es'[j].End() <= es'[k].fileOffset && es'[j].fileOffset < es'[k].fileOffset
  {
    PlaceElements(es, index, e, j);
    PlaceElements(es, index, e, k);
    var merged := index > 0 && Abuts(es[index - 1], e);
    GapSides(es, index, e, if merged || j < index then j else if j == index then k - 1 else j - 1);
    GapSides(es, index, e, if merged || k < index then k else if k == index then j else k - 1);
  }

  /** No extent is empty but, perhaps, `e`. */
  ghost predicate OnlyEmptyIs(es: seq<Extent>, e: Extent) {
    forall i :: 0 <= i < |es| && es[i].length == 0 ==> es[i] == e
  }

  /** The map stays free of empty extents unless an empty one is put in it; an extent starts with the write unless it
      was merged. */
  lemma PlaceShape(es: seq<Extent>, index: nat, e: Extent)
    requires index <= |es| && forall i :: 0 <= i < |es| ==> es[i].fileOffset != e.fileOffset
    ensures var merged := index > 0 && Abuts(es[index - 1], e);
            var es' := Place(es, index, e);
            && (AllPositive(es) ==> (AllPositive(es') <==> e.length > 0 || merged))
            && (AllPositive(es) ==> OnlyEmptyIs(es', e))
            && (StartsAt(es', e.fileOffset) <==> !merged)
  {
    var es' := Place(es, index, e);
    forall k | 0 <= k < |es'| && es'[k].length == 0 && AllPositive(es) ensures es'[k] == e {
      PlaceElements(es, index, e, k);
    }
    if !(index > 0 && Abuts(es[index - 1], e)) {
      assert es'[index] == e;
    }
  }

  lemma PlaceAccounted(es: seq<Extent>, index: nat, e: Extent, counts: map<nat, nat>)
    requires index <= |es|
    ensures Accounted(counts, es) ==>
              Accounted(counts[e.segment := Recorded(counts, e.segment) + e.length], Place(es, index, e))
  {
  }

  /** Merging happens exactly when the byte before the write is the one before it in the segment. */
  lemma AbutsIffContinues(es: seq<Extent>, index: nat, e: Extent)
    requires Gap(es, index, e)
    ensures (index > 0 && Abuts(es[index - 1], e)) <==> Continues(es, e.fileOffset, e.segment, e.segmentOffset)
  {
    forall i | 0 <= i < |es|
      ensures if i < index then es[i].End() <= e.fileOffset && es[i].fileOffset < e.fileOffset
              else e.End() <= es[i].fileOffset
    {
      GapSides(es, index, e, i);
    }
    if index > 0 && Abuts(es[index - 1], e) {
      LookupAt(es, index - 1, e.fileOffset - 1);
    }
    if Continues(es, e.fileOffset, e.segment, e.segmentOffset) {
      var i := LookupWitness(es, e.fileOffset - 1);
      assert es[i].End() == e.fileOffset;
      assert i == index - 1;
    }
  }

  /** The map `es` is `was` with [start, start + length) cleared: from `index` on its extents are beyond that, and
      before it none reaches beyond the start; one starts at the start only if nothing was to clear and the place was
      taken. */
  ghost predicate ClearedFor(was: seq<Extent>, es: seq<Extent>, index: nat, start: nat, length: nat) {
    && Gap(es, index, Extent(start, length, 0, 0)) && (AllPositive(was) ==> AllPositive(es))
    && (StartsAt(es, start) <==> length == 0 && Taken(was, start))
    && forall p: nat :: Lookup(es, p) == if start <= p < start + length then None else Lookup(was, p)
  }

  lemma CutAndPruned(es: seq<Extent>, cut: seq<Extent>, es': seq<Extent>, index: nat, start: nat, length: nat)
    requires CutAt(es, cut, index, start)
    requires KeepsFrom(cut, es', index, start + length) && StartsFrom(es'[index..], start + length)
    requires length == 0 ==> es' == cut
    ensures ClearedFor(es, es', index, start, length)
  {
    Cleared(es, cut, es', index, start, length);
    FoundIffTaken(es, cut, es', index, start, length);
  }

  /** A map and its counters after write `e`, as against the map `was` before it and the cleared map `es`. */
  ghost predicate WriteDone(was: seq<Extent>, es: seq<Extent>, counts: map<nat, nat>, es': seq<Extent>,
                            counts': map<nat, nat>, e: Extent) {
    && (forall p: nat :: Lookup(es', p) == Overlay(was, e.fileOffset, e.length, e.segment, e.segmentOffset, p))
    && Keyed(es') && Counts(counts', es') && counts'.Keys == counts.Keys + {e.segment}
    && (AllPositive(es) ==>
          (AllPositive(es') <==> e.length > 0 || Continues(was, e.fileOffset, e.segment, e.segmentOffset)))
    && (AllPositive(es) ==> OnlyEmptyIs(es', e))
    && (StartsAt(es', e.fileOffset) <==> !Continues(was, e.fileOffset, e.segment, e.segmentOffset))
    && (Accounted(counts, es) ==> Accounted(counts', es'))
  }

  /** Map `es` is `was` without the bytes of write `e`. */
  ghost predicate ClearOf(was: seq<Extent>, es: seq<Extent>, e: Extent) {
    forall p: nat :: Lookup(es, p) == if e.Covers(p) then None else Lookup(was, p)
  }

  /** Putting the bytes of a write into their gap completes the overlay. */
  lemma Placed(was: seq<Extent>, es: seq<Extent>, index: nat, e: Extent, counts: map<nat, nat>)
    requires Gap(es, index, e) && Counts(counts, es)
    requires ClearOf(was, es, e) && !StartsAt(es, e.fileOffset)
    ensures WriteDone(was, es, counts, Place(es, index, e),
                      counts[e.segment := Recorded(counts, e.segment) + e.length], e)
  {
    PlaceCounts(es, index, e, counts);
    PlaceKeyed(es, index, e);
    PlaceShape(es, index, e);
    PlaceAccounted(es, index, e, counts);
    AbutsIffContinues(es, index, e);
    PlacedOverlays(was, es, index, e);
  }

  lemma PlacedOverlays(was: seq<Extent>, es: seq<Extent>, index: nat, e: Extent)
    requires Gap(es, index, e) && ClearOf(was, es, e)
    ensures forall p: nat ::
              Lookup(Place(es, index, e), p) == Overlay(was, e.fileOffset, e.length, e.segment, e.segmentOffset, p)
  {
    forall p: nat
      ensures Lookup(Place(es, index, e), p) == Overlay(was, e.fileOffset, e.length, e.segment, e.segmentOffset, p)
    {
      PlaceMeaning(es, index, e, p);
    }
  }

  /** `es'` agrees with `es` below `size`, and its first `index` extents are those below it. */
  ghost predicate AgreesBelow(es: seq<Extent>, es': seq<Extent>, index: nat, size: nat) {
    && Keyed(es') && (AllPositive(es) ==> AllPositive(es')) && index <= |es'|
    && EndsBy(es'[..index], size)
    && StartsFrom(es'[index..], size)
    && forall p: nat :: p < size ==> Lookup(es', p) == Lookup(es, p)
  }

  lemma TrimBackCounts(es: seq<Extent>, i: nat, size: nat, counts: map<nat, nat>)
    requires Counts(counts, es) && i < |es| && es[i].fileOffset < size < es[i].End()
    ensures var e := es[i];
            var trim := e.length - (size - e.fileOffset);
            && e.segment in counts && trim <= counts[e.segment]
            && Counts(counts[e.segment := counts[e.segment] - trim], es[i := e.(length := e.length - trim)])
  {
    var a, e, b := es[..i], es[i], es[i + 1..];
    var trim := e.length - (size - e.fileOffset);
    var e' := e.(length := e.length - trim);
    assert es == a + [e] + b && es[i := e'] == a + [e'] + b;
    CountsDelete(counts, a, e, b, [e'], trim);
  }

  lemma TrimBack(es: seq<Extent>, i: nat, size: nat)
    requires Keyed(es) && i < |es| && es[i].fileOffset < size < es[i].End()
    ensures AgreesBelow(es, es[i := es[i].(length := size - es[i].fileOffset)], i + 1, size)
  {
    var a, e, b := es[..i], es[i], es[i + 1..];
    var e' := e.(length := size - e.fileOffset);
    assert es == a + [e] + b && es[i := e'] == a + [e'] + b;
    forall p: nat | p < size ensures Lookup(a + [e'] + b, p) == Lookup(a + [e] + b, p) {
      Lookup3(a, [e'], b, p);
      Lookup3(a, [e], b, p);
    }
  }

  lemma Truncated(es: seq<Extent>, es': seq<Extent>, index: nat, size: nat)
    requires AgreesBelow(es, es', index, size)
    ensures forall p: nat :: Lookup(es'[..index], p) == if p < size then Lookup(es, p) else None
  {
    forall p: nat ensures Lookup(es'[..index], p) == if p < size then Lookup(es, p) else None {
      assert es' == es'[..index] + es'[index..];
      LookupConcat(es'[..index], es'[index..], p);
      if p < size {
        LookupOutside(es'[index..], p);
      } else {
        LookupOutside(es'[..index], p);
      }
    }
  }

  class ExtentMap {
    var extents: seq<Extent>
    var logSegmentMap: map<nat, nat>
    var size: nat

    /** What every operation keeps. */
    ghost predicate Valid()
      reads this
    {
      && WellFormed(extents)
      && Counts(logSegmentMap, extents)
      && EndsBy(extents, size)
    }

    constructor ()
      ensures Valid() && size == 0 && extents == [] && logSegmentMap == map[]
    {
      extents, logSegmentMap, size := [], map[], 0;
    }

    method IncrementLogSegmentMap(segment: nat, amount: nat)
      modifies this`logSegmentMap
      ensures logSegmentMap == old(logSegmentMap)[segment := Recorded(old(logSegmentMap), segment) + amount]
    {
      if segment in logSegmentMap {
        logSegmentMap := logSegmentMap[segment := logSegmentMap[segment] + amount];
      } else {
        logSegmentMap := logSegmentMap[segment := amount];
      }
    }

    /** Panics for a segment without a counter, and for one counting less. */
    method DecrementLogSegmentMap(segment: nat, amount: nat) returns (panicked: bool)
      modifies this`logSegmentMap
      ensures panicked <==> segment !in old(logSegmentMap) || amount > old(logSegmentMap)[segment]
      ensures logSegmentMap == if panicked then old(logSegmentMap)
                               else old(logSegmentMap)[segment := old(logSegmentMap)[segment] - amount]
    {
      if segment !in logSegmentMap || amount > logSegmentMap[segment] {
        return true;
      }
      logSegmentMap := logSegmentMap[segment := logSegmentMap[segment] - amount];
      return false;
    }

    /** Splits the extent before `fileOffset` when it reaches beyond it, so
        that no extent straddles `fileOffset`; nothing changes in meaning. */
    method SplitBefore(fileOffset: nat, ghost to: nat) returns (index: nat)
      requires Keyed(extents) && Counts(logSegmentMap, extents)
      modifies this`extents
      ensures CutAt(old(extents), extents, index, fileOffset)
      ensures Counts(logSegmentMap, extents)
      ensures Accounted(logSegmentMap, old(extents)) ==> Accounted(logSegmentMap, extents)
      ensures Missing(logSegmentMap, extents, fileOffset, to) <==> Missing(logSegmentMap, old(extents), fileOffset, to)
    {
      var i, found := BisectLeft(extents, fileOffset);
      if found {
        FoundCuts(extents, i, fileOffset);
        return i;
      }
      if 0 <= i && extents[i].End() > fileOffset {
        SplitCuts(extents, i, fileOffset, logSegmentMap);
        SplitAccounted(extents, i, fileOffset, logSegmentMap);
        SplitMissing(extents, i, fileOffset, logSegmentMap, to);
        extents := SplitAt(extents, i, fileOffset);
      } else {
        NothingToCut(extents, i + 1, fileOffset);
      }
      return i + 1;
    }

    /** Deletes one extent; panics exactly when its segment has no counter. */
    method DropAt(index: nat) returns (panicked: bool)
      requires Counts(logSegmentMap, extents) && index < |extents|
      modifies this`extents, this`logSegmentMap
      ensures panicked <==> old(extents)[index].segment !in old(logSegmentMap)
      ensures panicked ==> extents == old(extents) && logSegmentMap == old(logSegmentMap)
      ensures !panicked ==> extents == old(extents)[..index] + old(extents)[index + 1..]
      ensures Counts(logSegmentMap, extents) && logSegmentMap.Keys == old(logSegmentMap.Keys)
    {
      var extent := extents[index];
      if extent.segment in logSegmentMap {
        DropCounts(extents, index, logSegmentMap);
      }
      panicked := DecrementLogSegmentMap(extent.segment, extent.length);
      if !panicked {
        extents := extents[..index] + extents[index + 1..];
      }
    }

    /** Trims one extent from the front; its segment always has a counter. */
    method TrimAt(index: nat, limit: nat)
      requires Keyed(extents) && Counts(logSegmentMap, extents)
      requires index < |extents| && extents[index].fileOffset < limit < extents[index].End()
      modifies this`extents, this`logSegmentMap
      ensures extents == old(extents)[index := TrimFront(old(extents)[index], limit)]
      ensures KeepsFrom(old(extents), extents, index, limit) && StartsFrom(extents[index..], limit)
      ensures old(extents)[index].segment in old(logSegmentMap)
      ensures Counts(logSegmentMap, extents) && logSegmentMap.Keys == old(logSegmentMap.Keys)
    {
      var left := extents[index];
      TrimStep(extents, index, limit, logSegmentMap);
      TrimKeeps(extents, index, limit);
      TrimmedFirst(extents, index, limit);
      extents := extents[index := TrimFront(left, limit)];
      var panicked := DecrementLogSegmentMap(left.segment, limit - left.fileOffset);
      assert !panicked;
    }

    /** One extent of the loop of `Prune`. */
    method PruneOne(ghost es: seq<Extent>, ghost counts: map<nat, nat>, index: nat, ghost k: nat, limit: nat)
      returns (panicked: bool)
      requires Pruning(es, counts, extents, logSegmentMap, index, k, limit)
      requires index < |extents| && extents[index].fileOffset < limit && extents[index].End() <= limit
      modifies this`extents, this`logSegmentMap
      ensures panicked ==> MissingBefore(counts, es, index, limit)
      ensures !panicked ==> Pruning(es, counts, extents, logSegmentMap, index, k + 1, limit)
      ensures !panicked ==> |extents| == |old(extents)| - 1
    {
      PrunedNext(es, extents, index, k, limit);
      panicked := DropAt(index);
    }

    /** The last one of it, which reaches beyond `limit`. */
    method TrimLast(ghost es: seq<Extent>, ghost counts: map<nat, nat>, index: nat, ghost k: nat, limit: nat)
      requires Pruning(es, counts, extents, logSegmentMap, index, k, limit)
      requires index < |extents| && extents[index].fileOffset < limit < extents[index].End()
      modifies this`extents, this`logSegmentMap
      ensures Pruned(es, counts, extents, logSegmentMap, index, limit) && !MissingBefore(counts, es, index, limit)
    {
      ghost var es' := extents;
      TrimAt(index, limit);
      PruneTrimmed(es, counts, es', extents, logSegmentMap, index, k, limit);
    }

    /** Deletes the extents from `index` on that start before `limit`, trimming the last one;
        panics exactly when one of them has no counter. */
    method Prune(index: nat, limit: nat) returns (panicked: bool)
      requires Keyed(extents) && Counts(logSegmentMap, extents) && index <= |extents|
      modifies this`extents, this`logSegmentMap
      ensures panicked <==> MissingBefore(old(logSegmentMap), old(extents), index, limit)
      ensures !panicked ==> Pruned(old(extents), old(logSegmentMap), extents, logSegmentMap, index, limit)
      ensures index == |old(extents)| || limit <= old(extents)[index].fileOffset ==> extents == old(extents)
    {
      ghost var k, es, counts := index, extents, logSegmentMap;
      PruneBegins(es, counts, index, limit);
      while index < |extents| && extents[index].fileOffset < limit
        invariant Pruning(es, counts, extents, logSegmentMap, index, k, limit)
        decreases |extents|
      {
        if limit >= extents[index].End() {
          panicked := PruneOne(es, counts, index, k, limit);
          if panicked {
            return;
          }
          k := k + 1;
        } else {
          TrimLast(es, counts, index, k, limit);
          return false;
        }
      }
      PruneOver(es, counts, extents, logSegmentMap, index, k, limit);
      return false;
    }

    /** Clears [fileOffset, fileOffset + length): it then holds only holes, or, when empty, is not straddled. */
    method ClearRange(fileOffset: nat, length: nat) returns (panicked: bool, ghost index: nat)
      requires Keyed(extents) && Counts(logSegmentMap, extents)
      modifies this`extents, this`logSegmentMap
      ensures panicked <==> Missing(old(logSegmentMap), old(extents), fileOffset, fileOffset + length)
      ensures !panicked ==> Counts(logSegmentMap, extents) && logSegmentMap.Keys == old(logSegmentMap.Keys)
      ensures !panicked && Accounted(old(logSegmentMap), old(extents)) ==> Accounted(logSegmentMap, extents)
      ensures !panicked ==> ClearedFor(old(extents), extents, index, fileOffset, length)
    {
      var i := SplitBefore(fileOffset, fileOffset + length);
      index := i;
      panicked := PruneRange(old(extents), i, fileOffset, length);
    }

    /** The same once nothing straddles `fileOffset`. */
    method PruneRange(ghost was: seq<Extent>, index: nat, fileOffset: nat, length: nat) returns (panicked: bool)
      requires CutAt(was, extents, index, fileOffset) && Counts(logSegmentMap, extents)
      modifies this`extents, this`logSegmentMap
      ensures panicked <==> Missing(old(logSegmentMap), old(extents), fileOffset, fileOffset + length)
      ensures !panicked ==> Counts(logSegmentMap, extents) && logSegmentMap.Keys == old(logSegmentMap.Keys)
      ensures !panicked && Accounted(old(logSegmentMap), old(extents)) ==> Accounted(logSegmentMap, extents)
      ensures !panicked ==> ClearedFor(was, extents, index, fileOffset, length)
    {
      ghost var cut, counts := extents, logSegmentMap;
      MissingFrom(counts, cut, index, fileOffset, fileOffset + length);
      NothingWithin(cut, index, fileOffset);
      panicked := Prune(index, fileOffset + length);
      if !panicked {
        CutAndPruned(was, cut, extents, index, fileOffset, length);
      }
    }

    /** Puts the bytes of a write into the gap left for them. */
    method PlaceExtent(prevIndex: int, fileOffset: nat, length: nat, segment: nat, segmentOffset: nat)
      requires -1 <= prevIndex < |extents|
      modifies this`extents
      ensures extents == Place(old(extents), prevIndex + 1, Extent(fileOffset, length, segment, segmentOffset))
    {
      if 0 <= prevIndex && extents[prevIndex].segment == segment && extents[prevIndex].End() == fileOffset
         && extents[prevIndex].segmentOffset + extents[prevIndex].length == segmentOffset {
        var prev := extents[prevIndex];
        extents := extents[prevIndex := prev.(length := prev.length + length)];
      } else {
        var newExtent := Extent(fileOffset, length, segment, segmentOffset);
        extents := extents[..prevIndex + 1] + [newExtent] + extents[prevIndex + 1..];
      }
    }

    /** Puts the bytes of write `e` where no extent starts, and counts them. */
    method PlaceCounted(prevIndex: int, e: Extent, ghost index: nat, ghost was: seq<Extent>)
      requires -1 <= prevIndex < |extents| && index == prevIndex + 1
      requires Gap(extents, index, e) && Counts(logSegmentMap, extents) && !StartsAt(extents, e.fileOffset)
      requires ClearOf(was, extents, e)
      modifies this`extents, this`logSegmentMap
      ensures WriteDone(was, old(extents), old(logSegmentMap), extents, logSegmentMap, e)
    {
      Placed(was, extents, index, e, logSegmentMap);
      PlaceExtent(prevIndex, e.fileOffset, e.length, e.segment, e.segmentOffset);
      IncrementLogSegmentMap(e.segment, e.length);
    }

    /** The second half of a write: its bytes go into the gap, in which no extent starts with them. */
    method PlaceWrite(fileOffset: nat, length: nat, segment: nat, segmentOffset: nat, ghost index: nat,
                      ghost was: seq<Extent>)
      returns (panicked: bool)
      requires Gap(extents, index, Extent(fileOffset, length, segment, segmentOffset)) && Counts(logSegmentMap, extents)
      requires ClearOf(was, extents, Extent(fileOffset, length, segment, segmentOffset))
      modifies this`extents, this`logSegmentMap
      ensures panicked <==> StartsAt(old(extents), fileOffset)
      ensures !panicked ==>
                WriteDone(was, old(extents), old(logSegmentMap), extents, logSegmentMap,
                          Extent(fileOffset, length, segment, segmentOffset))
    {
      var prevIndex, found := BisectLeft(extents, fileOffset);
      if found {
        return true;
      }
      var e := Extent(fileOffset, length, segment, segmentOffset);
      InsertPosition(extents, index, e, prevIndex);
      PlaceCounted(prevIndex, e, index, was);
      return false;
    }

    /** Makes [fileOffset, fileOffset + length) of the file the bytes of
        `segment` from `segmentOffset` on, and changes no other byte's place.
        It panics exactly for an empty write onto a place that is taken, and for another over
        an extent without a counter, which is an empty one. An empty write elsewhere leaves an
        empty extent unless it continues one. */
    method RecordWrite(fileOffset: nat, length: nat, segment: nat, segmentOffset: nat) returns (panicked: bool)
      requires Keyed(extents) && Counts(logSegmentMap, extents)
      modifies this`extents, this`logSegmentMap
      ensures panicked <==>
              if length == 0 then Taken(old(extents), fileOffset)
              else Missing(old(logSegmentMap), old(extents), fileOffset, fileOffset + length)
      ensures !panicked ==> forall p: nat ::
                Lookup(extents, p) == Overlay(old(extents), fileOffset, length, segment, segmentOffset, p)
      ensures !panicked ==> Keyed(extents) && Counts(logSegmentMap, extents)
      ensures !panicked && AllPositive(old(extents)) ==>
                (AllPositive(extents) <==> length > 0 || Continues(old(extents), fileOffset, segment, segmentOffset))
      ensures !panicked && AllPositive(old(extents)) ==>
                OnlyEmptyIs(extents, Extent(fileOffset, length, segment, segmentOffset))
      ensures !panicked ==> logSegmentMap.Keys == old(logSegmentMap.Keys) + {segment}
      ensures !panicked ==>
                (StartsAt(extents, fileOffset) <==> !Continues(old(extents), fileOffset, segment, segmentOffset))
      ensures !panicked && Accounted(old(logSegmentMap), old(extents)) ==> Accounted(logSegmentMap, extents)
    {
      ghost var index;
      panicked, index := ClearRange(fileOffset, length);
      if !panicked {
        assert Gap(extents, index, Extent(fileOffset, length, segment, segmentOffset));
        panicked := PlaceWrite(fileOffset, length, segment, segmentOffset, index, old(extents));
      }
    }

    /** Trims one extent from the end; its segment always has a counter. */
    method TrimEnd(i: nat, newSize: nat)
      requires Keyed(extents) && Counts(logSegmentMap, extents)
      requires i < |extents| && extents[i].fileOffset < newSize < extents[i].End()
      modifies this`extents, this`logSegmentMap
      ensures extents == old(extents)[i := old(extents)[i].(length := newSize - old(extents)[i].fileOffset)]
      ensures AgreesBelow(old(extents), extents, i + 1, newSize)
      ensures Counts(logSegmentMap, extents) && logSegmentMap.Keys == old(logSegmentMap.Keys)
    {
      var extent := extents[i];
      var trimSize := extent.length - (newSize - extent.fileOffset);
      TrimBackCounts(extents, i, newSize, logSegmentMap);
      TrimBack(extents, i, newSize);
      extents := extents[i := extent.(length := extent.length - trimSize)];
      var panicked := DecrementLogSegmentMap(extent.segment, trimSize);
      assert !panicked;
    }

    /** Trims the extent that reaches beyond the new size. */
    method TrimTo(newSize: nat) returns (index: nat)
      requires Keyed(extents) && Counts(logSegmentMap, extents)
      modifies this`extents, this`logSegmentMap
      ensures AgreesBelow(old(extents), extents, index, newSize)
      ensures Counts(logSegmentMap, extents) && logSegmentMap.Keys == old(logSegmentMap.Keys)
      ensures |extents| == |old(extents)| && extents[index..] == old(extents)[index..]
      ensures forall i :: 0 <= i < |extents| ==> extents[i].segment == old(extents)[i].segment
      ensures forall i :: 0 <= i < index ==> old(extents)[i].fileOffset < newSize
    {
      var i, found := BisectLeft(extents, newSize);
      if found {
        AllBelow(extents, i, newSize);
        return i;
      }
      if 0 <= i && extents[i].End() > newSize {
        TrimEnd(i, newSize);
      } else {
        AllBelow(extents, i + 1, newSize);
      }
      return i + 1;
    }

    /** Cuts the file off at, or extends it with a hole to, `newSize`; panics exactly
        when an extent that starts from there on, an empty one, has no counter. */
    method SetSizeInMemory(newSize: nat) returns (panicked: bool)
      requires Keyed(extents) && Counts(logSegmentMap, extents)
      modifies this`extents, this`logSegmentMap, this`size
      ensures panicked <==>
              exists i :: && 0 <= i < |old(extents)| && newSize <= old(extents)[i].fileOffset
                          && old(extents)[i].segment !in old(logSegmentMap)
      ensures !panicked ==> Keyed(extents) && Counts(logSegmentMap, extents)
      ensures !panicked ==> EndsBy(extents, newSize) && size == newSize
      ensures !panicked ==> logSegmentMap.Keys == old(logSegmentMap.Keys)
      ensures !panicked ==> (AllPositive(old(extents)) ==> AllPositive(extents))
      ensures !panicked && Accounted(old(logSegmentMap), old(extents)) ==> Accounted(logSegmentMap, extents)
      ensures !panicked ==> forall p: nat :: Lookup(extents, p) == if p < newSize then Lookup(old(extents), p) else None
    {
      var index := TrimTo(newSize);
      ghost var trimmed := extents;
      Truncated(old(extents), trimmed, index, newSize);
      panicked := DropFrom(index);
      if !panicked {
        size := newSize;
      }
    }

    /** A write that is not empty, on a map without empty extents, reaches no panic and leaves such a map. */
    method RecordBytes(fileOffset: nat, length: nat, segment: nat, segmentOffset: nat)
      requires WellFormed(extents) && Counts(logSegmentMap, extents) && length > 0
      modifies this`extents, this`logSegmentMap
      ensures forall p: nat ::
                Lookup(extents, p) == Overlay(old(extents), fileOffset, length, segment, segmentOffset, p)
      ensures WellFormed(extents) && Counts(logSegmentMap, extents)
      ensures logSegmentMap.Keys == old(logSegmentMap.Keys) + {segment}
    {
      WellFormedKeyed(extents);
      PositiveAccounted(logSegmentMap, extents);
      var panicked := RecordWrite(fileOffset, length, segment, segmentOffset);
      assert !panicked;
    }

    /** So does a change of size. */
    method CutTo(newSize: nat)
      requires WellFormed(extents) && Counts(logSegmentMap, extents)
      modifies this`extents, this`logSegmentMap, this`size
      ensures Valid() && size == newSize && logSegmentMap.Keys == old(logSegmentMap.Keys)
      ensures forall p: nat :: Lookup(extents, p) == if p < newSize then Lookup(old(extents), p) else None
    {
      WellFormedKeyed(extents);
      PositiveAccounted(logSegmentMap, extents);
      var panicked := SetSizeInMemory(newSize);
      assert !panicked;
    }

    /** The part of a flush that takes the segments counted empty off the counts. */
    method CollectEmptied() returns (emptied: set<nat>)
      requires Counts(logSegmentMap, extents)
      modifies this`logSegmentMap
      ensures emptied == Emptied(old(logSegmentMap)) && logSegmentMap == old(logSegmentMap) - emptied
      ensures Counts(logSegmentMap, extents)
    {
      emptied := {};
      var unseen := logSegmentMap.Keys;
      while unseen != {}
        invariant unseen <= logSegmentMap.Keys
        invariant emptied == set s | s in logSegmentMap.Keys - unseen && logSegmentMap[s] == 0
        decreases unseen
      {
        var s :| s in unseen;
        if logSegmentMap[s] == 0 {
          emptied := emptied + {s};
        }
        unseen := unseen - {s};
      }
      logSegmentMap := logSegmentMap - emptied;
    }

    /** Deletes the extents from `index` on; panics exactly when one of them has no counter. */
    method DropFrom(index: nat) returns (panicked: bool)
      requires Keyed(extents) && Counts(logSegmentMap, extents) && index <= |extents|
      modifies this`extents, this`logSegmentMap
      ensures panicked <==> exists i :: index <= i < |old(extents)| && old(extents)[i].segment !in old(logSegmentMap)
      ensures !panicked ==> extents == old(extents)[..index] && Keyed(extents)
      ensures !panicked ==> Counts(logSegmentMap, extents) && logSegmentMap.Keys == old(logSegmentMap.Keys)
    {
      ghost var k := index;
      while index < |extents|
        invariant index <= k <= |old(extents)| && extents == old(extents)[..index] + old(extents)[k..]
        invariant Counts(logSegmentMap, extents) && logSegmentMap.Keys == old(logSegmentMap.Keys)
        invariant forall i :: index <= i < k ==> old(extents)[i].segment in old(logSegmentMap)
        decreases |extents|
      {
        assert extents[index] == old(extents)[k];
        panicked := DropAt(index);
        if panicked {
          return;
        }
        k := k + 1;
      }
      return false;
    }
  }

  lemma FoundCuts(es: seq<Extent>, i: nat, at: nat)
    requires Keyed(es) && i < |es| && es[i].fileOffset == at
    ensures CutAt(es, es, i, at)
  {
  }

  lemma NothingToCut(es: seq<Extent>, index: nat, at: nat)
    requires Keyed(es) && index <= |es| && (index > 0 ==> es[index - 1].End() <= at && es[index - 1].fileOffset < at)
    requires forall i :: index <= i < |es| ==> at < es[i].fileOffset
    ensures CutAt(es, es, index, at)
  {
    LookupOutside(es, at);
  }

  lemma TrimmedFirst(es: seq<Extent>, index: nat, limit: nat)
    requires Keyed(es) && index < |es| && es[index].fileOffset < limit < es[index].End()
    ensures StartsFrom(es[index := TrimFront(es[index], limit)][index..], limit)
  {
  }

  lemma StartsFromHead(es: seq<Extent>, index: nat, limit: nat)
    requires Keyed(es) && index <= |es| && (index < |es| ==> limit <= es[index].fileOffset)
    ensures StartsFrom(es[index..], limit)
  {
  }

  /** Extents `index` to `k` have been deleted, and what is left means the same from `limit` on. */
  ghost predicate PrunedTo(es: seq<Extent>, es': seq<Extent>, index: nat, k: nat, limit: nat) {
    && index <= k <= |es| && es' == es[..index] + es[k..]
    && Keyed(es) && KeepsFrom(es, es', index, limit)
    && forall i :: index <= i < k ==> es[i].fileOffset < limit
  }

  lemma PrunedNext(es: seq<Extent>, es': seq<Extent>, index: nat, k: nat, limit: nat)
    requires PrunedTo(es, es', index, k, limit) && index < |es'| && es'[index].fileOffset < limit
    ensures k < |es| && es'[index] == es[k]
    ensures es[k].End() <= limit ==> PrunedTo(es, es'[..index] + es'[index + 1..], index, k + 1, limit)
    ensures limit <= es[k].End() ==> forall i :: k < i < |es| ==> limit <= es[i].fileOffset
  {
    if es[k].End() <= limit {
      DropStep(es', index, limit);
      assert es'[..index] + es'[index + 1..] == es[..index] + es[k + 1..];
    }
  }

  lemma KeepsFromAgain(es: seq<Extent>, es': seq<Extent>, es'': seq<Extent>, index: nat, limit: nat)
    requires KeepsFrom(es, es', index, limit) && KeepsFrom(es', es'', index, limit)
    ensures KeepsFrom(es, es'', index, limit)
  {
  }

  lemma PrunedEnd(es: seq<Extent>, es': seq<Extent>, index: nat, k: nat, limit: nat)
    requires PrunedTo(es, es', index, k, limit) && (index < |es'| ==> limit <= es'[index].fileOffset)
    ensures StartsFrom(es'[index..], limit) && forall i :: k <= i < |es| ==> limit <= es[i].fileOffset
  {
    assert k < |es| ==> es'[index] == es[k];
    StartsFromHead(es', index, limit);
    assert es'[index..] == es[k..];
    assert forall i :: k <= i < |es| ==> es[i] == es[k..][i - k];
  }

  /** Pruning map `es` from `index` on has come to extent `k`, none of those before lacking its counter. */
  ghost predicate Pruning(es: seq<Extent>, counts: map<nat, nat>, es': seq<Extent>, counts': map<nat, nat>,
                          index: nat, k: nat, limit: nat) {
    && PrunedTo(es, es', index, k, limit) && Counts(counts', es') && counts'.Keys == counts.Keys
    && forall i :: index <= i < k ==> es[i].segment in counts
  }

  /** Pruning is over: nothing from `index` on starts before `limit`, and from there on every byte is where it was. */
  ghost predicate Pruned(es: seq<Extent>, counts: map<nat, nat>, es': seq<Extent>, counts': map<nat, nat>, index: nat,
                         limit: nat) {
    && KeepsFrom(es, es', index, limit) && StartsFrom(es'[index..], limit)
    && Counts(counts', es') && counts'.Keys == counts.Keys
    && (Accounted(counts, es) ==> Accounted(counts, es'))
  }

  lemma PruneBegins(es: seq<Extent>, counts: map<nat, nat>, index: nat, limit: nat)
    requires Keyed(es) && Counts(counts, es) && index <= |es|
    ensures Pruning(es, counts, es, counts, index, index, limit)
  {
  }

  lemma PruneOver(es: seq<Extent>, counts: map<nat, nat>, es': seq<Extent>, counts': map<nat, nat>, index: nat, k: nat,
                  limit: nat)
    requires Pruning(es, counts, es', counts', index, k, limit) && (index < |es'| ==> limit <= es'[index].fileOffset)
    ensures Pruned(es, counts, es', counts', index, limit) && !MissingBefore(counts, es, index, limit)
  {
    PrunedEnd(es, es', index, k, limit);
    NoneMissing(es, counts, index, k, limit);
  }

  lemma PruneTrimmed(es: seq<Extent>, counts: map<nat, nat>, es': seq<Extent>, es'': seq<Extent>,
                     counts'': map<nat, nat>,
                     index: nat, k: nat, limit: nat)
    requires PrunedTo(es, es', index, k, limit) && forall i :: index <= i < k ==> es[i].segment in counts
    requires index < |es'| && es'[index].fileOffset < limit < es'[index].End() && es'[index].segment in counts
    requires es'' == es'[index := TrimFront(es'[index], limit)] && Counts(counts'', es'')
    requires counts''.Keys == counts.Keys
    requires KeepsFrom(es', es'', index, limit) && StartsFrom(es''[index..], limit)
    ensures Pruned(es, counts, es'', counts'', index, limit) && !MissingBefore(counts, es, index, limit)
  {
    PrunedNext(es, es', index, k, limit);
    KeepsFromAgain(es, es', es'', index, limit);
    NoneMissing(es, counts, index, k + 1, limit);
  }

  lemma NothingWithin(es: seq<Extent>, index: nat, from: nat)
    requires index <= |es| && StartsFrom(es[index..], from)
    ensures index == |es| || from <= es[index].fileOffset
  {
    assert index < |es| ==> es[index..][0] == es[index];
  }

  lemma NoneMissing(es: seq<Extent>, counts: map<nat, nat>, index: nat, k: nat, limit: nat)
    requires index <= k <= |es| && (forall i :: index <= i < k ==> es[i].segment in counts)
    requires forall i :: k <= i < |es| ==> limit <= es[i].fileOffset
    ensures !MissingBefore(counts, es, index, limit)
  {
  }

  lemma MissingFrom(counts: map<nat, nat>, es: seq<Extent>, index: nat, from: nat, to: nat)
    requires index <= |es| && StartsBefore(es[..index], from) && StartsFrom(es[index..], from)
    ensures Missing(counts, es, from, to) <==> MissingBefore(counts, es, index, to)
  {
    assert forall i :: 0 <= i < index ==> es[i] == es[..index][i];
    assert forall i :: index <= i < |es| ==> es[i] == es[index..][i - index];
  }

  lemma AllBelow(es: seq<Extent>, index: nat, size: nat)
    requires Keyed(es) && index <= |es| && (index > 0 ==> es[index - 1].End() <= size)
    requires forall i :: index <= i < |es| ==> size <= es[i].fileOffset
    ensures AgreesBelow(es, es, index, size)
  {
  }
}
