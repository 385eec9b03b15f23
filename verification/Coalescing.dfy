/** Coalesce: one file built from the log segments of several, byte for byte their concatenation. */
module Coalescing {
  import opened Common
  import opened Extents
  import opened FileExtentMap
  import opened ReadPlans
  import opened ReadCaches
  import opened FileBytes
  import SegmentGc

  /** What is stolen from one element: its extents and its size. */
  datatype Part = Part(extents: seq<Extent>, size: nat)

  ghost predicate PartOk(p: Part) {
    WellFormed(p.extents) && NonzeroSegments(p.extents) && EndsBy(p.extents, p.size)
  }

  function TotalSize(parts: seq<Part>): nat {
    if parts == [] then 0 else TotalSize(parts[..|parts| - 1]) + parts[|parts| - 1].size
  }

  /** Where byte `p` of the concatenation of the parts lives. */
  function Joined(parts: seq<Part>, p: nat): Option<Location> {
    if parts == [] then None
    else
      var base := TotalSize(parts[..|parts| - 1]);
      var last := parts[|parts| - 1];
      if p < base then Joined(parts[..|parts| - 1], p)
      else if p < base + last.size then Lookup(last.extents, p - base)
      else None
  }

  /** The bytes of the parts, one after the other. */
  function JoinedBytes(parts: seq<Part>, contents: Contents): seq<Byte> {
    if parts == [] then []
    else
      var last := parts[|parts| - 1];
      JoinedBytes(parts[..|parts| - 1], contents) + FileContent(last.extents, last.size, contents)
  }

  /** The live bytes of the parts in one segment, together. */
  function JoinedLive(parts: seq<Part>, s: nat): nat {
    if parts == [] then 0 else JoinedLive(parts[..|parts| - 1], s) + LiveBytes(parts[|parts| - 1].extents, s)
  }

  /** A map that locates every byte as the concatenation does holds the concatenated bytes. */
  lemma {:induction false} JoinedContent(es: seq<Extent>, parts: seq<Part>, contents: Contents)
    requires forall p: nat :: p < TotalSize(parts) ==> Lookup(es, p) == Joined(parts, p)
    ensures FileContent(es, TotalSize(parts), contents) == JoinedBytes(parts, contents)
  {
    if parts != [] {
      var init, last := parts[..|parts| - 1], parts[|parts| - 1];
      var base := TotalSize(init);
      JoinedContent(es, init, contents);
      var l, r := FileContent(es, base + last.size, contents), JoinedBytes(parts, contents);
      assert r == FileContent(es, base, contents) + FileContent(last.extents, last.size, contents);
      forall i: nat | i < base + last.size ensures l[i] == r[i] {
        assert Lookup(es, i) == Joined(parts, i);
        if i >= base {
          assert r[i] == FileContent(last.extents, last.size, contents)[i - base];
        }
      }
    }
  }

  // ----- live bytes are a matter of meaning -----

  /** How many bytes of [0, limit) the map locates in segment `s`. */
  function LocatedIn(es: seq<Extent>, s: nat, limit: nat): nat {
    if limit == 0 then 0
    else LocatedIn(es, s, limit - 1) + (if InSegment(Lookup(es, limit - 1), s) then 1 else 0)
  }

  predicate InSegment(source: Option<Location>, s: nat) {
    source.Some? && source.value.segment == s
  }

  lemma {:induction false} LocatedInSame(a: seq<Extent>, b: seq<Extent>, s: nat, limit: nat)
    requires forall p: nat :: p < limit ==> Lookup(a, p) == Lookup(b, p)
    ensures LocatedIn(a, s, limit) == LocatedIn(b, s, limit)
  {
    if limit > 0 {
      LocatedInSame(a, b, s, limit - 1);
    }
  }

  /** Over a stretch located where another map locates a stretch, the counts grow alike. */
  lemma {:induction false} LocatedInShifted(a: seq<Extent>, base: nat, b: seq<Extent>, s: nat, n: nat)
    requires forall p: nat :: base <= p < base + n ==> Lookup(a, p) == Lookup(b, p - base)
    ensures LocatedIn(a, s, base + n) == LocatedIn(a, s, base) + LocatedIn(b, s, n)
  {
    if n > 0 {
      LocatedInShifted(a, base, b, s, n - 1);
      assert Lookup(a, base + n - 1) == Lookup(b, n - 1);
    }
  }

  lemma {:induction false} LocatedInNothing(es: seq<Extent>, s: nat, lo: nat, hi: nat)
    requires lo <= hi && forall p: nat :: lo <= p < hi ==> Lookup(es, p) == None
    ensures LocatedIn(es, s, hi) == LocatedIn(es, s, lo)
  {
    if lo < hi {
      LocatedInNothing(es, s, lo, hi - 1);
    }
  }

  lemma {:induction false} LocatedInExtent(es: seq<Extent>, i: nat, s: nat, n: nat)
    requires Ordered(es) && i < |es| && n <= es[i].length
    ensures var e := es[i];
            LocatedIn(es, s, e.fileOffset + n) == LocatedIn(es, s, e.fileOffset) + if e.segment == s then n else 0
  {
    if n > 0 {
      LocatedInExtent(es, i, s, n - 1);
      LookupAt(es, i, es[i].fileOffset + n - 1);
    }
  }

  /** The count of a segment is the number of bytes the map locates in it. */
  lemma {:induction false} LiveBytesAreLocated(es: seq<Extent>, s: nat, limit: nat)
    requires WellFormed(es) && EndsBy(es, limit)
    ensures LiveBytes(es, s) == LocatedIn(es, s, limit)
  {
    if es == [] {
      LocatedInNothing(es, s, 0, limit);
    } else {
      var n := |es| - 1;
      var init, e := es[..n], es[n];
      LiveBytesAreLocated(init, s, e.fileOffset);
      assert es == init + [e];
      LiveBytesConcat(init, [e], s);
      forall p: nat | p < e.fileOffset ensures Lookup(es, p) == Lookup(init, p) {
        LookupConcat(init, [e], p);
      }
      LocatedInSame(es, init, s, e.fileOffset);
      LocatedInExtent(es, n, s, e.length);
      EndsByIffNothingBeyond(es, e.End());
      LocatedInNothing(es, s, e.End(), limit);
    }
  }

  /** The concatenation counts each segment as often as its parts do together. */
  lemma {:induction false} JoinedCounts(es: seq<Extent>, parts: seq<Part>, s: nat)
    requires forall i :: 0 <= i < |parts| ==> PartOk(parts[i])
    requires forall p: nat :: p < TotalSize(parts) ==> Lookup(es, p) == Joined(parts, p)
    ensures LocatedIn(es, s, TotalSize(parts)) == JoinedLive(parts, s)
  {
    if parts != [] {
      var init, last := parts[..|parts| - 1], parts[|parts| - 1];
      var base := TotalSize(init);
      JoinedCounts(es, init, s);
      LocatedInShifted(es, base, last.extents, s, last.size);
      LiveBytesAreLocated(last.extents, s, last.size);
    }
  }

  // ----- stealing the segments -----

  /** The combination locates what was stolen up to `end` as `sources` says from `base` on, and nothing beyond. */
  ghost predicate StolenUpTo(was: seq<Extent>, es: seq<Extent>, base: nat, sources: seq<Option<Location>>) {
    && WellFormed(es)
    && forall p: nat :: Lookup(es, p) ==
         if p < base then Lookup(was, p)
         else if p < base + |sources| then sources[p - base]
         else None
  }

  /** A step that is not a hole extends what was stolen by its own sources. */
  lemma StolenStep(was: seq<Extent>, es: seq<Extent>, es': seq<Extent>, base: nat, sources: seq<Option<Location>>,
                   step: ReadPlanStep)
    requires StolenUpTo(was, es, base, sources) && WellFormed(es')
    requires if step.segment == 0 then es' == es
             else forall p: nat ::
                    Lookup(es', p) == Overlay(es, base + |sources|, step.length, step.segment, step.offset, p)
    ensures StolenUpTo(was, es', base, sources + StepSources(step))
  {
  }

  /** Every segment counted has a byte of the file in it. */
  ghost predicate KeysLocated(es: seq<Extent>, counts: map<nat, nat>) {
    forall s :: s in counts ==> exists p: nat :: LocatedAt(es, p, s)
  }

  ghost predicate LocatedAt(es: seq<Extent>, p: nat, s: nat) {
    Lookup(es, p).Some? && Lookup(es, p).value.segment == s
  }

  lemma KeysStolen(es: seq<Extent>, es': seq<Extent>, counts: map<nat, nat>, counts': map<nat, nat>, at: nat,
                   step: ReadPlanStep)
    requires KeysLocated(es, counts) && counts'.Keys == counts.Keys + {step.segment} && step.length > 0
    requires forall p: nat :: at <= p ==> Lookup(es, p) == None
    requires forall p: nat :: Lookup(es', p) == Overlay(es, at, step.length, step.segment, step.offset, p)
    ensures KeysLocated(es', counts')
  {
    forall s | s in counts' ensures exists p: nat :: LocatedAt(es', p, s) {
      if s == step.segment {
        assert LocatedAt(es', at, s);
      } else {
        var p: nat :| LocatedAt(es, p, s);
        assert LocatedAt(es', p, s);
      }
    }
  }

  /** So no counter is zero. */
  lemma LocatedCountsPositive(es: seq<Extent>, counts: map<nat, nat>)
    requires WellFormed(es) && Counts(counts, es) && KeysLocated(es, counts)
    ensures forall s :: s in counts ==> counts[s] > 0
  {
    forall s | s in counts ensures counts[s] > 0 {
      var p: nat :| LocatedAt(es, p, s);
      var i := LookupWitness(es, p);
      LiveBytesAt(es, i);
    }
  }

  /** Points the combination, from `base` on, at what the plan of one element reads. */
  method StealPlan(combination: ExtentMap, plan: seq<ReadPlanStep>, base: nat)
    requires WellFormed(combination.extents) && Counts(combination.logSegmentMap, combination.extents)
    requires forall i :: 0 <= i < |plan| ==> plan[i].length > 0
    requires forall p: nat :: base <= p ==> Lookup(combination.extents, p) == None
    requires KeysLocated(combination.extents, combination.logSegmentMap)
    modifies combination`extents, combination`logSegmentMap
    ensures StolenUpTo(old(combination.extents), combination.extents, base, PlanSources(plan))
    ensures Counts(combination.logSegmentMap, combination.extents)
    ensures KeysLocated(combination.extents, combination.logSegmentMap)
  {
    var fileOffset := 0;
    for k := 0 to |plan|
      invariant fileOffset == |PlanSources(plan[..k])|
      invariant StolenUpTo(old(combination.extents), combination.extents, base, PlanSources(plan[..k]))
      invariant Counts(combination.logSegmentMap, combination.extents)
      invariant KeysLocated(combination.extents, combination.logSegmentMap)
    {
      var step := plan[k];
      ghost var es, counts := combination.extents, combination.logSegmentMap;
      if step.segment != 0 {
        combination.RecordBytes(base + fileOffset, step.length, step.segment, step.offset);
        KeysStolen(es, combination.extents, counts, combination.logSegmentMap, base + fileOffset, step);
      }
      StolenStep(old(combination.extents), es, combination.extents, base, PlanSources(plan[..k]), step);
      AppendStep(plan[..k], step);
      assert plan[..k + 1] == plan[..k] + [step];
      fileOffset := fileOffset + step.length;
    }
    assert plan[..|plan|] == plan;
  }

  ghost function PartsOf(elements: seq<ExtentMap>): seq<Part>
    reads elements
  {
    seq(|elements|, i requires 0 <= i < |elements| reads elements =>
      Part(elements[i].extents, elements[i].size))
  }

  ghost predicate Stealable(e: ExtentMap)
    reads e
  {
    e.Valid() && NonzeroSegments(e.extents) && e.size < TwoTo64
  }

  lemma JoinedNext(parts: seq<Part>, k: nat, was: seq<Extent>, es: seq<Extent>)
    requires k < |parts|
    requires forall p: nat :: Lookup(was, p) == Joined(parts[..k], p)
    requires StolenUpTo(was, es, TotalSize(parts[..k]), FileSources(parts[k].extents, 0, parts[k].size))
    ensures forall p: nat :: Lookup(es, p) == Joined(parts[..k + 1], p)
    ensures TotalSize(parts[..k + 1]) == TotalSize(parts[..k]) + parts[k].size
  {
    assert parts[..k + 1][..k] == parts[..k];
  }

  lemma {:induction false} JoinedBeyond(parts: seq<Part>, p: nat)
    requires TotalSize(parts) <= p
    ensures Joined(parts, p) == None
  {
  }

  /** Builds the combination out of the read plans of the elements. */
  method Combine(elements: seq<ExtentMap>) returns (combination: ExtentMap)
    requires forall i :: 0 <= i < |elements| ==> Stealable(elements[i])
    ensures fresh(combination) && combination.Valid()
    ensures forall s :: s in combination.logSegmentMap ==> combination.logSegmentMap[s] > 0
    ensures combination.size == TotalSize(PartsOf(elements))
    ensures forall p: nat :: Lookup(combination.extents, p) == Joined(PartsOf(elements), p)
  {
    combination := new ExtentMap();
    ghost var parts := PartsOf(elements);
    var sum := 0;
    for k := 0 to |elements|
      invariant fresh(combination) && parts == PartsOf(elements)
      invariant WellFormed(combination.extents) && Counts(combination.logSegmentMap, combination.extents)
      invariant KeysLocated(combination.extents, combination.logSegmentMap)
      invariant sum == TotalSize(parts[..k])
      invariant forall p: nat :: Lookup(combination.extents, p) == Joined(parts[..k], p)
    {
      var element := elements[k];
      WellFormedKeyed(element.extents);
      NoneBehindHole(element.extents, 0, element.size);
      var _, plan, _ := GetReadPlan(element, Some(0), Some(element.size));
      ghost var was := combination.extents;
      forall p: nat | sum <= p ensures Lookup(was, p) == None {
        JoinedBeyond(parts[..k], p);
      }
      StealPlan(combination, plan, sum);
      JoinedNext(parts, k, was, combination.extents);
      sum := sum + element.size;
    }
    assert parts[..|elements|] == parts;
    combination.size := sum;
    forall p: nat | sum <= p ensures Lookup(combination.extents, p) == None {
      JoinedBeyond(parts, p);
    }
    EndsByIffNothingBeyond(combination.extents, sum);
    LocatedCountsPositive(combination.extents, combination.logSegmentMap);
  }

  /** No element is named twice and none has another link. */
  predicate Acceptable(elements: seq<ExtentMap>, linkCounts: seq<nat>)
    requires |elements| == |linkCounts|
  {
    && (forall i, j :: 0 <= i < j < |elements| ==> elements[i] != elements[j])
    && (forall i :: 0 <= i < |elements| ==> linkCounts[i] <= 1)
  }

  method Validate(elements: seq<ExtentMap>, linkCounts: seq<nat>) returns (ok: bool)
    requires |elements| == |linkCounts|
    ensures ok <==> Acceptable(elements, linkCounts)
  {
    var seen: set<ExtentMap> := {};
    for k := 0 to |elements|
      invariant seen == set i | 0 <= i < k :: elements[i]
      invariant forall i, j :: 0 <= i < j < k ==> elements[i] != elements[j]
    {
      if elements[k] in seen {
        return false;
      }
      seen := seen + {elements[k]};
    }
    for k := 0 to |elements|
      invariant forall i :: 0 <= i < k ==> linkCounts[i] <= 1
    {
      if linkCounts[k] > 1 {
        return false;
      }
    }
    return true;
  }

  /** Coalesce: the combination holds the elements' bytes one after the other,
      holes included, and counts every segment as they did together; the
      elements are left counting nothing, so destroying them deletes no segment. */
  method Coalesce(elements: seq<ExtentMap>, linkCounts: seq<nat>) returns (result: Option<ExtentMap>)
    requires |elements| == |linkCounts|
    requires forall i :: 0 <= i < |elements| ==> Stealable(elements[i])
    modifies elements
    ensures result.Some? <==> Acceptable(elements, linkCounts)
    ensures result.None? ==> forall i :: 0 <= i < |elements| ==> unchanged(elements[i])
    ensures result.Some? ==>
              && fresh(result.value) && result.value.Valid()
              && result.value.size == TotalSize(old(PartsOf(elements)))
              && (forall contents ::
                    FileContent(result.value.extents, result.value.size, contents) ==
                    JoinedBytes(old(PartsOf(elements)), contents))
              && (forall s :: Recorded(result.value.logSegmentMap, s) == JoinedLive(old(PartsOf(elements)), s))
              && (forall s :: s in result.value.logSegmentMap ==> result.value.logSegmentMap[s] > 0)
              && (forall i :: 0 <= i < |elements| ==>
                   && elements[i].size == 0 && elements[i].logSegmentMap == map[]
                   && elements[i].extents == old(elements[i].extents))
  {
    var ok := Validate(elements, linkCounts);
    if !ok {
      return None;
    }
    var combination := Combine(elements);
    ghost var parts, es := PartsOf(elements), combination.extents;
    forall contents ensures FileContent(es, TotalSize(parts), contents) == JoinedBytes(parts, contents) {
      JoinedContent(es, parts, contents);
    }
    forall s ensures LiveBytes(es, s) == JoinedLive(parts, s) {
      JoinedCounts(es, parts, s);
      LiveBytesAreLocated(es, s, TotalSize(parts));
    }
    ClearAll(elements);
    return Some(combination);
  }

  /** Leaves the elements empty and counting nothing. */
  method ClearAll(elements: seq<ExtentMap>)
    modifies elements`size, elements`logSegmentMap
    ensures forall i :: 0 <= i < |elements| ==> elements[i].size == 0 && elements[i].logSegmentMap == map[]
  {
    for k := 0 to |elements|
      invariant forall i :: 0 <= i < k ==> elements[i].size == 0 && elements[i].logSegmentMap == map[]
    {
      elements[k].size := 0;
      elements[k].logSegmentMap := map[];
    }
  }

  // ----- what the volume makes of it -----

  lemma {:induction false} JoinedLiveIff(parts: seq<Part>, s: nat)
    ensures JoinedLive(parts, s) > 0 <==> exists k :: 0 <= k < |parts| && LiveBytes(parts[k].extents, s) > 0
  {
    if parts != [] {
      var init := parts[..|parts| - 1];
      JoinedLiveIff(init, s);
      if k :| 0 <= k < |init| && LiveBytes(init[k].extents, s) > 0 {
        assert LiveBytes(parts[k].extents, s) > 0;
      }
      if k :| 0 <= k < |parts| && LiveBytes(parts[k].extents, s) > 0 {
        assert k < |init| ==> LiveBytes(init[k].extents, s) > 0;
      }
    }
  }

  /** A clean element counts exactly what is live in it. */
  ghost predicate CountsItsPart(v: SegmentGc.Volume, element: nat, part: Part) {
    && element in v.inodes && !v.inodes[element].dirty
    && Counts(v.inodes[element].counts, part.extents) && Emptied(v.inodes[element].counts) == {}
  }

  lemma CountedIffLive(v: SegmentGc.Volume, element: nat, part: Part, s: nat)
    requires CountsItsPart(v, element, part)
    ensures s in v.inodes[element].counts <==> LiveBytes(part.extents, s) > 0
  {
    assert Recorded(v.inodes[element].counts, s) == LiveBytes(part.extents, s);
    assert s !in Emptied(v.inodes[element].counts);
  }

  /** The counters a coalesce leaves its combination with are the ones with which the
      volume may hand the elements' segments over: it counts what they count, and nothing empty. */
  lemma CoalescedCountsFit(v: SegmentGc.Volume, elements: seq<nat>, combination: nat, parts: seq<Part>,
                           counts: map<nat, nat>)
    requires |parts| == |elements| && combination in v.inodes && combination !in elements
    requires v.inodes[combination].counts == map[]
    requires forall k :: 0 <= k < |elements| ==> CountsItsPart(v, elements[k], parts[k])
    requires forall s :: Recorded(counts, s) == JoinedLive(parts, s)
    requires forall s :: s in counts ==> counts[s] > 0
    ensures SegmentGc.CoalesceReady(v, Members(elements), combination, counts) && Emptied(counts) == {}
  {
    assert Emptied(counts) == {};
    assert forall k :: 0 <= k < |elements| ==> CountsItsPart(v, elements[k], parts[k]) && elements[k] in v.inodes;
    forall s ensures s in counts <==> s in SegmentGc.CountedIn(v, Members(elements)) {
      CountedIffSome(v, elements, parts, s);
      JoinedLiveIff(parts, s);
      assert s in counts <==> Recorded(counts, s) > 0;
    }
  }

  lemma CountedIffSome(v: SegmentGc.Volume, elements: seq<nat>, parts: seq<Part>, s: nat)
    requires |parts| == |elements| && Members(elements) <= v.inodes.Keys
    requires forall k :: 0 <= k < |elements| ==> CountsItsPart(v, elements[k], parts[k])
    ensures s in SegmentGc.CountedIn(v, Members(elements)) <==>
            exists k :: 0 <= k < |parts| && LiveBytes(parts[k].extents, s) > 0
  {
    if k :| 0 <= k < |parts| && LiveBytes(parts[k].extents, s) > 0 {
      CountedIffLive(v, elements[k], parts[k], s);
      assert elements[k] in Members(elements);
    }
    if s in SegmentGc.CountedIn(v, Members(elements)) {
      var i :| i in Members(elements) && s in v.inodes[i].counts.Keys;
      var k :| 0 <= k < |elements| && elements[k] == i;
      CountedIffLive(v, i, parts[k], s);
    }
  }
}
