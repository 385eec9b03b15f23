/** What a file holds, as plain bytes, and what a read plan fetches. */
module FileBytes {
  import opened Common
  import opened Extents
  import opened FileExtentMap
  import opened ReadPlans
  import opened ReadCaches

  type Contents = map<nat, seq<Byte>>

  // ----- the abstract file: a sparse array of bytes -----

  /** The last write wins; what lies between the old end and the write reads as zero. */
  function Written(file: seq<Byte>, offset: nat, buf: seq<Byte>): seq<Byte> {
    var end := if offset + |buf| > |file| then offset + |buf| else |file|;
    seq(end, i requires 0 <= i < end =>
      if offset <= i < offset + |buf| then buf[i - offset] else if i < |file| then file[i] else 0)
  }

  /** Cut off at, or padded with zeros to, `size`. */
  function Resized(file: seq<Byte>, size: nat): seq<Byte> {
    seq(size, i requires 0 <= i < size => if i < |file| then file[i] else 0)
  }

  /** The requested bytes that the file has. */
  function ReadBack(file: seq<Byte>, offset: nat, length: nat): seq<Byte> {
    if offset >= |file| then []
    else if offset + length <= |file| then file[offset..offset + length]
    else file[offset..]
  }

  // ----- the concrete file: extents into log segments -----

  function ByteFrom(contents: Contents, source: Option<Location>): Byte {
    if source.Some? && source.value.segment in contents && source.value.offset < |contents[source.value.segment]|
    then contents[source.value.segment][source.value.offset]
    else 0
  }

  function FileContent(es: seq<Extent>, size: nat, contents: Contents): seq<Byte> {
    seq(size, i requires 0 <= i < size => ByteFrom(contents, Lookup(es, i)))
  }

  function SourceBytes(contents: Contents, sources: seq<Option<Location>>): seq<Byte> {
    seq(|sources|, i requires 0 <= i < |sources| => ByteFrom(contents, sources[i]))
  }

  /** The bytes a plan denotes. */
  function PlanBytes(contents: Contents, plan: seq<ReadPlanStep>): seq<Byte> {
    SourceBytes(contents, PlanSources(plan))
  }

  function StepBytes(contents: Contents, step: ReadPlanStep): seq<Byte> {
    SourceBytes(contents, StepSources(step))
  }

  lemma PlanBytesAppend(contents: Contents, plan: seq<ReadPlanStep>, step: ReadPlanStep)
    ensures PlanBytes(contents, plan + [step]) == PlanBytes(contents, plan) + StepBytes(contents, step)
  {
    AppendStep(plan, step);
  }

  lemma StepBytesAre(contents: Contents, step: ReadPlanStep)
    ensures step.segment == 0 ==> StepBytes(contents, step) == seq(step.length, _ => 0)
    ensures step.segment != 0 && step.segment in contents && step.offset + step.length <= |contents[step.segment]| ==>
            StepBytes(contents, step) == contents[step.segment][step.offset..step.offset + step.length]
  {
  }

  /** A plan for part of the file reads that part. */
  lemma PlanReadsBack(es: seq<Extent>, size: nat, contents: Contents, plan: seq<ReadPlanStep>, from: nat, to: nat)
    requires Sourced(es, plan, from, to) && to <= size
    ensures PlanBytes(contents, plan) == FileContent(es, size, contents)[from..to]
  {
    var l, r := PlanBytes(contents, plan), FileContent(es, size, contents)[from..to];
    forall i | 0 <= i < to - from ensures l[i] == r[i] {
      assert PlanSources(plan)[i] == FileSources(es, from, to)[i] == Lookup(es, from + i);
    }
  }

  /** Every extent lies within its segment. */
  ghost predicate Within(es: seq<Extent>, contents: Contents) {
    forall i :: 0 <= i < |es| ==>
      && es[i].segment in contents
      && es[i].segmentOffset + es[i].length <= |contents[es[i].segment]|
  }

  /** Growing segments leaves what extents read unchanged. */
  lemma GrowthKeepsContent(es: seq<Extent>, size: nat, contents: Contents, contents': Contents)
    requires Within(es, contents)
    requires forall s :: s in contents ==> s in contents' && contents[s] <= contents'[s]
    ensures Within(es, contents')
    ensures FileContent(es, size, contents') == FileContent(es, size, contents)
  {
    forall p: nat | p < size ensures ByteFrom(contents', Lookup(es, p)) == ByteFrom(contents, Lookup(es, p)) {
      if Lookup(es, p).Some? {
        var i := LookupWitness(es, p);
        assert es[i].segment in contents;
      }
    }
  }

  /** Overlaying a location map with where `buf` was put writes `buf` into the file. */
  lemma OverlayWrites(was: seq<Extent>, es: seq<Extent>, size: nat, offset: nat, buf: seq<Byte>, segment: nat,
                      segmentOffset: nat, contents: Contents)
    requires forall p: nat :: Lookup(es, p) == Overlay(was, offset, |buf|, segment, segmentOffset, p)
    requires forall p: nat :: size <= p ==> Lookup(was, p) == None
    requires segment in contents && segmentOffset + |buf| <= |contents[segment]|
    requires contents[segment][segmentOffset..segmentOffset + |buf|] == buf
    ensures var size' := if offset + |buf| > size then offset + |buf| else size;
            FileContent(es, size', contents) == Written(FileContent(was, size, contents), offset, buf)
  {
    var size' := if offset + |buf| > size then offset + |buf| else size;
    var l, r := FileContent(es, size', contents), Written(FileContent(was, size, contents), offset, buf);
    forall p: nat | p < size' ensures l[p] == r[p] {
      if offset <= p < offset + |buf| {
        assert buf[p - offset] == contents[segment][segmentOffset..segmentOffset + |buf|][p - offset];
      }
    }
  }

  lemma TruncationResizes(was: seq<Extent>, es: seq<Extent>, size: nat, size': nat, contents: Contents)
    requires forall p: nat :: Lookup(es, p) == if p < size' then Lookup(was, p) else None
    requires forall p: nat :: size <= p ==> Lookup(was, p) == None
    ensures FileContent(es, size', contents) == Resized(FileContent(was, size, contents), size')
  {
  }

  /** Extents stay within their segments, and in the segments allowed to them, when a map is overlaid or cut. */
  lemma WithinFromLookup(was: seq<Extent>, es: seq<Extent>, contents: Contents, start: nat, length: nat, segment: nat,
                         offset: nat)
    requires Within(was, contents) && WellFormed(es)
    requires length > 0 ==> segment in contents && offset + length <= |contents[segment]|
    requires forall p: nat :: Lookup(es, p).Some? ==>
      || Lookup(es, p) == Lookup(was, p)
      || (start <= p < start + length && Lookup(es, p).value == Location(segment, offset + (p - start)))
    ensures Within(es, contents)
    ensures forall i :: 0 <= i < |es| ==>
              (length > 0 && es[i].segment == segment) || exists j :: 0 <= j < |was| && was[j].segment == es[i].segment
  {
    forall i | 0 <= i < |es|
      ensures es[i].segment in contents && es[i].segmentOffset + es[i].length <= |contents[es[i].segment]|
      ensures (length > 0 && es[i].segment == segment) || exists j :: 0 <= j < |was| && was[j].segment == es[i].segment
    {
      var p := es[i].End() - 1;
      LookupAt(es, i, p);
      if Lookup(es, p) == Lookup(was, p) {
        var j := LookupWitness(was, p);
        assert was[j].segment == es[i].segment;
      }
    }
  }
}
