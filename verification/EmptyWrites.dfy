/** What empty ranges do to a file's extent map over whole runs. An empty Write is refused
before it gets to the map, but an empty Wrote leaves an empty extent, and the flush that
ends it drops the counter of a segment in which such an extent is all there is: the
extent is stranded, and removing it panics.
*/
module EmptyWrites {
  import opened Common
  import opened Extents
  import opened FileExtentMap

  /** What is done to the map. */
  datatype MapStep =
    | Record(fileOffset: nat, length: nat, segment: nat, segmentOffset: nat)
    | Cut(size: nat)
    | Collect

  /** What a client asks for. */
  datatype Operation =
    | Write(fileOffset: nat, length: nat, segment: nat, segmentOffset: nat)
    | Wrote(fileOffset: nat, length: nat, segment: nat, segmentOffset: nat, patchOnly: bool)
    | SetSize(size: nat)
    | FlushNow

  /** What that comes to: an empty Write to nothing, and all but a Write end with a flush. */
  function Steps(op: Operation): seq<MapStep> {
    match op
    case Write(fileOffset, length, segment, segmentOffset) =>
      if length == 0 then [] else [Record(fileOffset, length, segment, segmentOffset)]
    case Wrote(fileOffset, length, segment, segmentOffset, patchOnly) =>
      if patchOnly then [Collect, Record(fileOffset, length, segment, segmentOffset), Collect]
      else if fileOffset != 0 || segmentOffset != 0 then [Collect]
      else [Collect, Record(fileOffset, length, segment, segmentOffset), Cut(length), Collect]
    case SetSize(size) => [Cut(size), Collect]
    case FlushNow => [Collect]
  }

  function AllSteps(ops: seq<Operation>): seq<MapStep> {
    if ops == [] then [] else Steps(ops[0]) + AllSteps(ops[1..])
  }

  /** A write may find its place taken, and a decrement its counter missing. */
  datatype Outcome = Done | PlaceTaken | CounterMissing

  /** An empty extent in a segment in which the file has no byte. */
  ghost predicate Strandable(es: seq<Extent>) {
    exists i :: 0 <= i < |es| && es[i].length == 0 && LiveBytes(es, es[i].segment) == 0
  }

  /** A flush leaves every extent its counter exactly when no empty extent is all there is in its segment. */
  lemma FlushAccountedIff(es: seq<Extent>, counts: map<nat, nat>)
    requires Counts(counts, es) && Accounted(counts, es)
    ensures Accounted(counts - Emptied(counts), es) <==> !Strandable(es)
  {
    forall i | 0 <= i < |es| ensures es[i].segment in counts - Emptied(counts) <==> LiveBytes(es, es[i].segment) > 0 {
      assert Recorded(counts, es[i].segment) == LiveBytes(es, es[i].segment);
    }
    forall i | 0 <= i < |es| ensures es[i].length <= LiveBytes(es, es[i].segment) {
      LiveBytesAt(es, i);
    }
  }

  /** One step; `strands` says that it is a flush that leaves an extent without a counter. */
  method Step(m: ExtentMap, op: MapStep) returns (outcome: Outcome, ghost strands: bool)
    requires Keyed(m.extents) && Counts(m.logSegmentMap, m.extents)
    modifies m
    ensures outcome == Done ==> Keyed(m.extents) && Counts(m.logSegmentMap, m.extents)
    ensures outcome == PlaceTaken <==> op.Record? && op.length == 0 && Taken(old(m.extents), op.fileOffset)
    ensures outcome == CounterMissing ==> !Accounted(old(m.logSegmentMap), old(m.extents))
    ensures strands <==> op.Collect? && Strandable(old(m.extents))
    ensures outcome == Done && Accounted(old(m.logSegmentMap), old(m.extents)) ==>
              (Accounted(m.logSegmentMap, m.extents) <==> !strands)
    ensures outcome == Done && AllPositive(old(m.extents)) && !(op.Record? && op.length == 0) ==> AllPositive(m.extents)
  {
    strands := op.Collect? && Strandable(m.extents);
    match op
    case Record(fileOffset, length, segment, segmentOffset) =>
      var panicked := m.RecordWrite(fileOffset, length, segment, segmentOffset);
      outcome := if !panicked then Done else if length == 0 then PlaceTaken else CounterMissing;
    case Cut(size) =>
      var panicked := m.SetSizeInMemory(size);
      outcome := if panicked then CounterMissing else Done;
    case Collect =>
      if Accounted(m.logSegmentMap, m.extents) {
        FlushAccountedIff(m.extents, m.logSegmentMap);
      }
      var _ := m.CollectEmptied();
      outcome := Done;
  }

  /** Over every run of steps from an empty map the panic for a missing counter is out of reach as long as no flush
      strands an extent; none does where nothing empty is recorded, nor, of course, where nothing is flushed. */
  method RunSteps(steps: seq<MapStep>) returns (outcome: Outcome, ghost stranded: bool)
    ensures outcome == CounterMissing ==> stranded
    ensures NothingEmpty(steps) ==> !stranded && outcome == Done
    ensures (forall k :: 0 <= k < |steps| ==> !steps[k].Collect?) ==> !stranded && outcome != CounterMissing
  {
    var m := new ExtentMap();
    outcome, stranded := Done, false;
    for k := 0 to |steps|
      invariant outcome == Done && Keyed(m.extents) && Counts(m.logSegmentMap, m.extents) && fresh(m)
      invariant !stranded ==> Accounted(m.logSegmentMap, m.extents)
      invariant NothingEmpty(steps) ==> AllPositive(m.extents) && !stranded
      invariant (forall k :: 0 <= k < |steps| ==> !steps[k].Collect?) ==> !stranded
    {
      ghost var strands;
      outcome, strands := Step(m, steps[k]);
      stranded := stranded || strands;
      if outcome != Done {
        return;
      }
    }
  }

  ghost predicate NothingEmpty(steps: seq<MapStep>) {
    forall k :: 0 <= k < |steps| ==> !(steps[k].Record? && steps[k].length == 0)
  }

  lemma {:induction false} NoEmptyWrote(ops: seq<Operation>)
    requires forall k :: 0 <= k < |ops| ==> !(ops[k].Wrote? && ops[k].length == 0)
    ensures NothingEmpty(AllSteps(ops))
  {
    if ops != [] {
      NoEmptyWrote(ops[1..]);
      assert NothingEmpty(Steps(ops[0]));
    }
  }

  /** Over every run of operations on a new file a missing counter is met only after a flush has
      stranded an extent; where no Wrote is empty, empty Writes or not, neither happens. */
  method Run(ops: seq<Operation>) returns (outcome: Outcome, ghost stranded: bool)
    ensures outcome == CounterMissing ==> stranded
    ensures (forall k :: 0 <= k < |ops| ==> !(ops[k].Wrote? && ops[k].length == 0)) ==> !stranded && outcome == Done
  {
    if forall k :: 0 <= k < |ops| ==> !(ops[k].Wrote? && ops[k].length == 0) {
      NoEmptyWrote(ops);
    }
    outcome, stranded := RunSteps(AllSteps(ops));
  }

  predicate LocatedIn(es: seq<Extent>, p: nat, s: nat) {
    Lookup(es, p).Some? && Lookup(es, p).value.segment == s
  }

  /** A segment has live bytes exactly when a byte is located in it. */
  lemma LiveIffLocated(es: seq<Extent>, s: nat)
    requires Ordered(es)
    ensures LiveBytes(es, s) > 0 <==> exists p: nat :: LocatedIn(es, p, s)
  {
    if p: nat :| LocatedIn(es, p, s) {
      var i := LookupWitness(es, p);
      LiveBytesAt(es, i);
    }
    if LiveBytes(es, s) > 0 {
      var i := LiveExtent(es, s);
      LookupAt(es, i, es[i].fileOffset);
      assert LocatedIn(es, es[i].fileOffset, s);
    }
  }

  lemma {:induction false} LiveExtent(es: seq<Extent>, s: nat) returns (i: nat)
    requires LiveBytes(es, s) > 0
    ensures i < |es| && es[i].segment == s && es[i].length > 0
  {
    if es[0].segment == s && es[0].length > 0 {
      i := 0;
    } else {
      var j := LiveExtent(es[1..], s);
      i := j + 1;
    }
  }

  /** Where nothing but `e` is empty, a flush strands an extent exactly if `e` is there and its segment has no byte. */
  lemma StrandableIff(was: seq<Extent>, es: seq<Extent>, e: Extent)
    requires Ordered(was) && Ordered(es) && e.length == 0 && OnlyEmptyIs(es, e)
    requires forall p: nat :: Lookup(es, p) == Lookup(was, p)
    ensures Strandable(es) <==> !AllPositive(es) && LiveBytes(was, e.segment) == 0
  {
    assert LiveBytes(was, e.segment) > 0 <==> LiveBytes(es, e.segment) > 0 by {
      LiveIffLocated(was, e.segment);
      LiveIffLocated(es, e.segment);
      if p: nat :| LocatedIn(was, p, e.segment) {
        assert LocatedIn(es, p, e.segment);
      }
      if p: nat :| LocatedIn(es, p, e.segment) {
        assert LocatedIn(was, p, e.segment);
      }
    }
    if !AllPositive(es) {
      var i :| 0 <= i < |es| && es[i].length == 0;
      assert es[i] == e;
    }
  }

  /** An empty patch of a file without empty extents: it panics exactly onto a place that is taken, and else its
      flush strands an extent exactly if it does not go on where the byte before it is and its segment has no byte. */
  method EmptyPatch(m: ExtentMap, fileOffset: nat, segment: nat, segmentOffset: nat) returns (panicked: bool)
    requires WellFormed(m.extents) && Counts(m.logSegmentMap, m.extents)
    modifies m
    ensures panicked <==> Taken(old(m.extents), fileOffset)
    ensures !panicked ==> Keyed(m.extents) && Counts(m.logSegmentMap, m.extents)
    ensures !panicked ==>
              (Accounted(m.logSegmentMap, m.extents) <==>
               Continues(old(m.extents), fileOffset, segment, segmentOffset) || LiveBytes(old(m.extents), segment) > 0)
  {
    WellFormedKeyed(m.extents);
    ghost var was := m.extents;
    var _ := m.CollectEmptied();
    PositiveAccounted(m.logSegmentMap, m.extents);
    panicked := m.RecordWrite(fileOffset, 0, segment, segmentOffset);
    if !panicked {
      StrandableIff(was, m.extents, Extent(fileOffset, 0, segment, segmentOffset));
      FlushAccountedIff(m.extents, m.logSegmentMap);
      var _ := m.CollectEmptied();
    }
  }

  /** A client puts five bytes as one object and nothing as another, and makes a file of both: truncating that
      panics. */
  method StrandedByFlush() returns (panicked: bool)
    ensures panicked
  {
    var m := new ExtentMap();
    m.RecordBytes(0, 5, 7, 0);
    ghost var was := m.extents;
    assert Lookup(was, 5) == None && Lookup(was, 4) == Some(Location(7, 4));
    TakenIffLocated(was, 5);
    LiveIffLocated(was, 8);
    panicked := EmptyPatch(m, 5, 8, 0);
    panicked := m.SetSizeInMemory(0);
  }
}
