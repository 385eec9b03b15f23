/** Read plans: the list of segment ranges and zero fills that make up a byte range of a file. */
module ReadPlans {
  import opened Common
  import opened Extents
  import opened FileExtentMap

  const TwoTo64: nat := 0x1_0000_0000_0000_0000

  /** A step with segment number 0 calls for zero fill. */
  datatype ReadPlanStep = ReadPlanStep(segment: nat, offset: nat, length: nat)

  // ----- the requested range -----

  function Wrap(n: int): nat {
    n % TwoTo64
  }

  /** The range the code computes, in 64-bit arithmetic: an offset and a byte
      count, or None for a request that gives neither offset nor length. */
  function PlanRange(size: nat, requestedOffset: Option<nat>, requestedLength: Option<nat>): Option<(nat, nat)> {
    if requestedOffset.None? && requestedLength.None? then None
    else
      var offset := if requestedOffset.None? then Wrap(size - requestedLength.value) else requestedOffset.value;
      var bytes := if requestedLength.None? then Wrap(size - requestedOffset.value) else requestedLength.value;
      var clamped :=
        if Wrap(offset + bytes) > size then (if size > offset then size - offset else 0) else bytes;
      Some((offset, clamped))
  }

  /** The range the request means: the requested bytes that the file has. A
      lone length asks for the last bytes, a lone offset for everything from it on. */
  function MeantRange(size: nat, requestedOffset: Option<nat>, requestedLength: Option<nat>): Option<(nat, nat)> {
    match (requestedOffset, requestedLength)
    case (None, None) => None
    case (None, Some(n)) => var count := if n <= size then n else size; Some((size - count, count))
    case (Some(o), None) => Some((o, if o <= size then size - o else 0))
    case (Some(o), Some(n)) => Some((o, if o >= size then 0 else if o + n <= size then n else size - o))
  }

  /** The requests for which the two agree: a caller can check this beforehand. */
  predicate Answerable(size: nat, requestedOffset: Option<nat>, requestedLength: Option<nat>) {
    match (requestedOffset, requestedLength)
    case (None, None) => true
    case (None, Some(n)) => n <= size
    case (Some(o), None) => o <= size
    case (Some(o), Some(n)) => o + n < TwoTo64 || o + n - TwoTo64 > size
  }

  lemma WrapDifference(a: nat, b: nat)
    requires a < TwoTo64 && b < TwoTo64
    ensures Wrap(a - b) == if b <= a then a - b else TwoTo64 + a - b
    ensures Wrap(Wrap(a - b) + b) == a
  {
  }

  lemma PlanRangeIsMeantRangeIff(size: nat, requestedOffset: Option<nat>, requestedLength: Option<nat>)
    requires size < TwoTo64
    requires requestedOffset.Some? ==> requestedOffset.value < TwoTo64
    requires requestedLength.Some? ==> requestedLength.value < TwoTo64
    ensures
      PlanRange(size, requestedOffset, requestedLength) == MeantRange(size, requestedOffset, requestedLength)
      <==> Answerable(size, requestedOffset, requestedLength)
  {
    match (requestedOffset, requestedLength)
    case (None, None) =>
    case (None, Some(n)) =>
      WrapDifference(size, n);
    case (Some(o), None) =>
      WrapDifference(size, o);
    case (Some(o), Some(n)) =>
      assert Wrap(o + n) == if o + n < TwoTo64 then o + n else o + n - TwoTo64;
  }

  /** For the others the code computes a range that runs past the last 64-bit offset, and cuts off none of it. */
  lemma WrappedRange(size: nat, requestedOffset: Option<nat>, requestedLength: Option<nat>)
    requires size < TwoTo64 && !Answerable(size, requestedOffset, requestedLength)
    requires requestedOffset.Some? ==> requestedOffset.value < TwoTo64
    requires requestedLength.Some? ==> requestedLength.value < TwoTo64
    ensures PlanRange(size, requestedOffset, requestedLength).Some?
    ensures var (offset, bytes) := PlanRange(size, requestedOffset, requestedLength).value;
            && (requestedOffset.Some? ==> offset == requestedOffset.value)
            && (requestedLength.Some? ==> bytes == requestedLength.value)
            && offset < TwoTo64 <= offset + bytes <= TwoTo64 + size
            && (requestedOffset.None? || requestedLength.None? ==> size < offset && offset + bytes == TwoTo64 + size)
  {
    if requestedOffset.None? {
      WrapDifference(size, requestedLength.value);
    } else if requestedLength.None? {
      WrapDifference(size, requestedOffset.value);
    } else {
      assert Wrap(requestedOffset.value + requestedLength.value)
          == requestedOffset.value + requestedLength.value - TwoTo64;
    }
  }

  /** The last 20 bytes of a file of 10: the plan is for 20 bytes from far beyond its end. */
  lemma LongSuffixIsMisplaced()
    ensures PlanRange(10, None, Some(20)) == Some((TwoTo64 - 10, 20)) && MeantRange(10, None, Some(20)) == Some((0, 10))
  {
    WrapDifference(10, 20);
  }

  // ----- what a plan denotes -----

  function StepSources(step: ReadPlanStep): seq<Option<Location>> {
    seq(step.length, i requires 0 <= i =>
          if step.segment == 0 then None else Some(Location(step.segment, step.offset + i)))
  }

  /** Byte by byte, where the plan takes its data from; None is a zero byte. */
  function PlanSources(plan: seq<ReadPlanStep>): seq<Option<Location>> {
    if plan == [] then [] else PlanSources(plan[..|plan| - 1]) + StepSources(plan[|plan| - 1])
  }

  /** Byte by byte, where the file's own map takes [from, to) from. */
  function FileSources(es: seq<Extent>, from: nat, to: nat): seq<Option<Location>>
    requires from <= to
  {
    seq(to - from, i requires 0 <= i => Lookup(es, from + i))
  }

  ghost predicate NonzeroSegments(es: seq<Extent>) {
    forall i :: 0 <= i < |es| ==> es[i].segment != 0
  }

  lemma AppendStep(plan: seq<ReadPlanStep>, step: ReadPlanStep)
    ensures PlanSources(plan + [step]) == PlanSources(plan) + StepSources(step)
  {
    assert (plan + [step])[..|plan|] == plan;
  }

  /** Extending a plan for [from, mid) by a step for [mid, to). */
  lemma Extends(es: seq<Extent>, plan: seq<ReadPlanStep>, step: ReadPlanStep, from: nat, mid: nat, to: nat)
    requires from <= mid <= to && step.length == to - mid
    requires PlanSources(plan) == FileSources(es, from, mid)
    requires forall p: nat :: mid <= p < to ==>
      Lookup(es, p) == if step.segment == 0 then None else Some(Location(step.segment, step.offset + (p - mid)))
    ensures PlanSources(plan + [step]) == FileSources(es, from, to)
  {
    AppendStep(plan, step);
    var l, r := PlanSources(plan) + StepSources(step), FileSources(es, from, to);
    assert |l| == |r|;
    forall i | 0 <= i < |l| ensures l[i] == r[i] {
      if i >= mid - from {
        assert l[i] == StepSources(step)[i - (mid - from)];
      }
    }
  }

  /** Between the end of one extent and the start of the next lies a hole. */
  lemma HoleBetween(es: seq<Extent>, index: nat, lo: nat, hi: nat)
    requires Ordered(es) && index <= |es|
    requires EndsBy(es[..index], lo)
    requires index < |es| ==> hi <= es[index].fileOffset
    ensures forall p: nat :: lo <= p < hi ==> Lookup(es, p) == None
  {
    forall p: nat | lo <= p < hi ensures Lookup(es, p) == None {
      forall i | 0 <= i < |es| ensures !es[i].Covers(p) {
        if i < index { assert es[i] == es[..index][i]; }
      }
      LookupOutside(es, p);
    }
  }

  lemma InsideExtent(es: seq<Extent>, index: nat, lo: nat, hi: nat)
    requires Ordered(es) && index < |es| && es[index].fileOffset <= lo <= hi <= es[index].End()
    ensures forall p: nat :: lo <= p < hi ==>
      Lookup(es, p) ==
      Some(Location(es[index].segment, es[index].segmentOffset + (lo - es[index].fileOffset) + (p - lo)))
  {
    forall p: nat | lo <= p < hi
      ensures Lookup(es, p) ==
              Some(Location(es[index].segment, es[index].segmentOffset + (lo - es[index].fileOffset) + (p - lo)))
    {
      LookupAt(es, index, p);
    }
  }

  /** Every step reads something. */
  ghost predicate PositiveSteps(plan: seq<ReadPlanStep>) {
    forall i :: 0 <= i < |plan| ==> plan[i].length > 0
  }

  /** The steps of `plan`, in order, name the source of every byte of [from, to), and a zero fill names no offset. */
  ghost predicate Sourced(es: seq<Extent>, plan: seq<ReadPlanStep>, from: nat, to: nat) {
    && from <= to && PlanSources(plan) == FileSources(es, from, to)
    && forall i :: 0 <= i < |plan| && plan[i].segment == 0 ==> plan[i].offset == 0
  }

  /** They do, and none is empty. */
  ghost predicate Plans(es: seq<Extent>, plan: seq<ReadPlanStep>, from: nat, to: nat) {
    Sourced(es, plan, from, to) && PositiveSteps(plan)
  }

  lemma HoleStep(es: seq<Extent>, plan: seq<ReadPlanStep>, index: nat, from: nat, lo: nat, hi: nat)
    requires Ordered(es) && index <= |es| && EndsBy(es[..index], lo)
    requires index < |es| ==> hi <= es[index].fileOffset
    requires Sourced(es, plan, from, lo) && lo < hi
    ensures Sourced(es, plan + [ReadPlanStep(0, 0, hi - lo)], from, hi)
  {
    HoleBetween(es, index, lo, hi);
    Extends(es, plan, ReadPlanStep(0, 0, hi - lo), from, lo, hi);
  }

  lemma ExtentStep(es: seq<Extent>, plan: seq<ReadPlanStep>, index: nat, from: nat, lo: nat, hi: nat)
    requires Ordered(es) && index < |es| && es[index].fileOffset <= lo <= hi <= es[index].End()
    requires es[index].segment != 0
    requires Sourced(es, plan, from, lo)
    ensures var skipSize := lo - es[index].fileOffset;
            Sourced(es, plan + [ReadPlanStep(es[index].segment, es[index].segmentOffset + skipSize, hi - lo)], from, hi)
  {
    InsideExtent(es, index, lo, hi);
    var step := ReadPlanStep(es[index].segment, es[index].segmentOffset + (lo - es[index].fileOffset), hi - lo);
    Extends(es, plan, step, from, lo, hi);
  }

  // ----- empty extents -----

  /** Extent `i` is empty and lies inside (from, to), right behind a byte of a hole. */
  ghost predicate EmptyBehindHole(es: seq<Extent>, i: nat, from: nat, to: nat) {
    i < |es| && es[i].length == 0 && from < es[i].fileOffset < to && Lookup(es, es[i].fileOffset - 1) == None
  }

  /** Among the extents before `index` there is one. */
  ghost predicate SomeBehindHole(es: seq<Extent>, index: nat, from: nat, to: nat) {
    exists i: nat :: i < index && EmptyBehindHole(es, i, from, to)
  }

  /** The plan so far ends with the last extent looked at, unless it has not got anywhere. */
  ghost predicate AtExtentEnd(es: seq<Extent>, index: nat, from: nat, at: nat) {
    index <= |es| && (at == from || (index > 0 && at == es[index - 1].End()))
  }

  /** The loop passes over an extent that does not reach beyond the plan so far: it lies behind no hole. */
  lemma PassedOver(es: seq<Extent>, index: nat, from: nat, at: nat, to: nat)
    requires Keyed(es) && index < |es| && AtExtentEnd(es, index, from, at) && es[index].End() <= at
    ensures !EmptyBehindHole(es, index, from, to)
    ensures AtExtentEnd(es, index + 1, from, at)
  {
    if es[index].fileOffset > from {
      var p := es[index].fileOffset - 1;
      assert es[index - 1].fileOffset <= p < es[index - 1].End();
      LookupAt(es, index - 1, p);
    }
  }

  /** An empty extent that does reach beyond the plan so far lies behind a hole. */
  lemma Reached(es: seq<Extent>, index: nat, from: nat, at: nat, to: nat)
    requires Ordered(es) && index < |es| && EndsBy(es[..index], at) && from <= at < es[index].End()
    requires es[index].fileOffset < to
    ensures EmptyBehindHole(es, index, from, to) <==> es[index].length == 0
  {
    if es[index].length == 0 {
      HoleBetween(es, index, at, es[index].fileOffset);
    }
  }

  lemma OneMoreLooked(es: seq<Extent>, index: nat, from: nat, to: nat)
    ensures SomeBehindHole(es, index + 1, from, to) <==>
              SomeBehindHole(es, index, from, to) || EmptyBehindHole(es, index, from, to)
  {
  }

  /** Beyond the extents looked at there is none either. */
  lemma NoneLeft(es: seq<Extent>, index: nat, from: nat, to: nat)
    requires Keyed(es) && index <= |es| && (index < |es| ==> to <= es[index].fileOffset)
    ensures SomeBehindHole(es, |es|, from, to) <==> SomeBehindHole(es, index, from, to)
  {
  }

  ghost function TotalLength(plan: seq<ReadPlanStep>): nat {
    if plan == [] then 0 else TotalLength(plan[..|plan| - 1]) + plan[|plan| - 1].length
  }

  /** A plan for n bytes has steps whose lengths add up to n. */
  lemma {:induction false} SourcesLength(plan: seq<ReadPlanStep>)
    ensures |PlanSources(plan)| == TotalLength(plan)
  {
    if plan != [] {
      SourcesLength(plan[..|plan| - 1]);
    }
  }

  /** The steps for the extent at `index`, which [curOffset, terminal) reaches: a zero fill up to it if need be, then
      its own bytes. */
  method PlanExtent(es: seq<Extent>, index: nat, plan: seq<ReadPlanStep>, ghost offset: nat, curOffset: nat,
                    terminal: nat)
    returns (plan': seq<ReadPlanStep>, curOffset': nat)
    requires Keyed(es) && NonzeroSegments(es)
    requires index < |es| && EndsBy(es[..index], curOffset)
    requires curOffset < terminal && es[index].fileOffset < terminal && curOffset < es[index].End()
    requires Sourced(es, plan, offset, curOffset)
    ensures curOffset' == if terminal <= es[index].End() then terminal else es[index].End()
    ensures Sourced(es, plan', offset, curOffset')
    ensures PositiveSteps(plan') <==> PositiveSteps(plan) && es[index].length > 0
  {
    plan', curOffset' := plan, curOffset;
    var cur := es[index];
    if curOffset < cur.fileOffset {
      HoleStep(es, plan, index, offset, curOffset, cur.fileOffset);
      plan' := plan + [ReadPlanStep(0, 0, cur.fileOffset - curOffset)];
      curOffset' := cur.fileOffset;
    }
    assert PositiveSteps(plan') <==> PositiveSteps(plan);
    ghost var before := plan';
    var skipSize := curOffset' - cur.fileOffset;
    if terminal <= cur.End() {
      ExtentStep(es, plan', index, offset, curOffset', terminal);
      plan' := plan' + [ReadPlanStep(cur.segment, cur.segmentOffset + skipSize, terminal - curOffset')];
      curOffset' := terminal;
    } else {
      ExtentStep(es, plan', index, offset, curOffset', cur.End());
      plan' := plan' + [ReadPlanStep(cur.segment, cur.segmentOffset + skipSize, cur.length - skipSize)];
      curOffset' := curOffset' + (cur.length - skipSize);
    }
    PositiveAnd(before, plan'[|before|]);
  }

  lemma PositiveAnd(plan: seq<ReadPlanStep>, step: ReadPlanStep)
    ensures PositiveSteps(plan + [step]) <==> PositiveSteps(plan) && step.length > 0
  {
    assert (plan + [step])[|plan|] == step;
    assert forall i :: 0 <= i < |plan| ==> (plan + [step])[i] == plan[i];
  }

  /** `plan` covers [offset, at) of the range up to `terminal`, the extents before `index` having been looked at. */
  ghost predicate PlannedTo(es: seq<Extent>, plan: seq<ReadPlanStep>, index: nat, offset: nat, at: nat, terminal: nat) {
    && index <= |es| && at <= terminal && Sourced(es, plan, offset, at)
    && (at < terminal ==> EndsBy(es[..index], at) && AtExtentEnd(es, index, offset, at))
    && (at == terminal && index < |es| ==> terminal <= es[index].fileOffset)
    && (PositiveSteps(plan) <==> !SomeBehindHole(es, index, offset, terminal))
  }

  /** One extent of the loop of `BuildPlan`. */
  method PlanNext(es: seq<Extent>, index: nat, plan: seq<ReadPlanStep>, ghost offset: nat, curOffset: nat,
                  terminal: nat)
    returns (plan': seq<ReadPlanStep>, curOffset': nat)
    requires Keyed(es) && NonzeroSegments(es) && PlannedTo(es, plan, index, offset, curOffset, terminal)
    requires curOffset < terminal && index < |es| && es[index].fileOffset < terminal
    ensures PlannedTo(es, plan', index + 1, offset, curOffset', terminal)
  {
    OneMoreLooked(es, index, offset, terminal);
    assert es[..index + 1] == es[..index] + [es[index]];
    if es[index].End() > curOffset {
      Reached(es, index, offset, curOffset, terminal);
      plan', curOffset' := PlanExtent(es, index, plan, offset, curOffset, terminal);
    } else {
      PassedOver(es, index, offset, curOffset, terminal);
      plan', curOffset' := plan, curOffset;
    }
  }

  /** A step of the plan is empty exactly when an empty extent lies behind a hole inside the range. */
  method BuildPlan(es: seq<Extent>, offset: nat, terminal: nat) returns (plan: seq<ReadPlanStep>)
    requires Keyed(es) && NonzeroSegments(es)
    requires offset < terminal
    ensures Sourced(es, plan, offset, terminal)
    ensures PositiveSteps(plan) <==> !SomeBehindHole(es, |es|, offset, terminal)
  {
    plan := [];
    var curOffset: nat := offset;
    var curExtentIndex, _ := BisectLeft(es, offset);
    if 0 > curExtentIndex {
      curExtentIndex := curExtentIndex + 1;
    }
    while curOffset < terminal && curExtentIndex < |es| && es[curExtentIndex].fileOffset < terminal
      invariant 0 <= curExtentIndex && PlannedTo(es, plan, curExtentIndex, offset, curOffset, terminal)
      decreases |es| - curExtentIndex
    {
      plan, curOffset := PlanNext(es, curExtentIndex, plan, offset, curOffset, terminal);
      curExtentIndex := curExtentIndex + 1;
    }
    NoneLeft(es, curExtentIndex, offset, terminal);
    if curOffset < terminal {
      HoleStep(es, plan, curExtentIndex, offset, curOffset, terminal);
      PositiveAnd(plan, ReadPlanStep(0, 0, terminal - curOffset));
      plan := plan + [ReadPlanStep(0, 0, terminal - curOffset)];
    }
  }

  /** A map without empty extents has no empty step in any plan. */
  lemma NoneBehindHole(es: seq<Extent>, from: nat, to: nat)
    requires AllPositive(es)
    ensures !SomeBehindHole(es, |es|, from, to)
  {
  }

  /** The plan of a request that can be answered: it covers exactly the bytes meant, and says how many. */
  method GetReadPlan(inode: ExtentMap, requestedOffset: Option<nat>, requestedLength: Option<nat>)
    returns (ok: bool, plan: seq<ReadPlanStep>, readPlanBytes: nat)
    requires Keyed(inode.extents) && NonzeroSegments(inode.extents) && inode.size < TwoTo64
    requires requestedOffset.Some? ==> requestedOffset.value < TwoTo64
    requires requestedLength.Some? ==> requestedLength.value < TwoTo64
    requires Answerable(inode.size, requestedOffset, requestedLength)
    ensures ok <==> requestedOffset.Some? || requestedLength.Some?
    ensures ok ==> var (start, count) := MeantRange(inode.size, requestedOffset, requestedLength).value;
                   && readPlanBytes == count == TotalLength(plan)
                   && Sourced(inode.extents, plan, start, start + count)
                   && (PositiveSteps(plan) <==> !SomeBehindHole(inode.extents, |inode.extents|, start, start + count))
  {
    plan, readPlanBytes := [], 0;
    if requestedOffset.None? && requestedLength.None? {
      return false, plan, readPlanBytes;
    }
    PlanRangeIsMeantRangeIff(inode.size, requestedOffset, requestedLength);
    var (offset, bytes) := PlanRange(inode.size, requestedOffset, requestedLength).value;
    readPlanBytes := bytes;
    if bytes != 0 {
      plan := BuildPlan(inode.extents, offset, offset + bytes);
    }
    SourcesLength(plan);
    ok := true;
  }
}
