/** Running a read plan: zero fill, segments still in flight, and closed objects through the read cache. */
module Reading {
  import opened Common
  import opened Extents
  import opened ReadPlans
  import opened ReadCaches
  import opened FileBytes
  import opened FileInodes

  /** The store or the stream has what the step asks for. */
  ghost predicate Served(inode: FileInode, store: ObjectStore, step: ReadPlanStep)
    reads inode, store
  {
    && step.length > 0
    && (step.segment != 0 ==>
         if step.segment in inode.inFlight then step.offset + step.length <= |inode.inFlight[step.segment]|
         else step.segment in store.objects && step.offset + step.length <= |store.objects[step.segment]|)
  }

  /** The cache is in shape, holds the most recent lines, and every line is right. */
  ghost predicate CacheOk(cache: ReadCache, store: ObjectStore)
    reads cache, cache.order, store
  {
    store.Valid() && cache.Valid() && cache.HoldsMostRecent() && CacheTrue(cache, store)
  }

  /** What may happen between two steps of a read: a stream ends, a stream that has ended is forgotten, a segment
      given up is deleted. */
  datatype Tick = StreamEnds(segment: nat) | StreamForgotten(segment: nat) | ObjectDeleted(segment: nat)

  /** The streams still read back, and the objects there are. */
  datatype Backdrop = Backdrop(inFlight: Contents, objects: Contents)

  function BackdropOf(inode: FileInode, store: ObjectStore): Backdrop
    reads inode, store
  {
    Backdrop(inode.inFlight, store.objects)
  }

  /** What comes of one of these, if it can happen. */
  function AfterTick(b: Backdrop, openLogSegment: Option<nat>, doomed: set<nat>, tick: Tick): Backdrop {
    match tick
    case StreamEnds(s) =>
      if s in b.inFlight && openLogSegment != Some(s) then b.(objects := b.objects[s := b.inFlight[s]]) else b
    case StreamForgotten(s) =>
      if s in b.inFlight && s in b.objects then b.(inFlight := b.inFlight - {s}) else b
    case ObjectDeleted(s) =>
      if s in doomed then b.(objects := b.objects - {s}) else b
  }

  function AfterTicks(b: Backdrop, openLogSegment: Option<nat>, doomed: set<nat>, ticks: seq<Tick>): Backdrop {
    if ticks == [] then b
    else AfterTick(AfterTicks(b, openLogSegment, doomed, ticks[..|ticks| - 1]), openLogSegment, doomed,
                   ticks[|ticks| - 1])
  }

  method Happen(inode: FileInode, store: ObjectStore, tick: Tick)
    requires inode.Valid(store)
    modifies inode`inFlight, store`objects, store`closed
    ensures inode.Valid(store) && old(store.closed) <= store.closed
    ensures BackdropOf(inode, store)
         == AfterTick(old(BackdropOf(inode, store)), inode.openLogSegment, store.doomed, tick)
  {
    match tick
    case StreamEnds(segment) =>
      if segment in inode.inFlight && inode.openLogSegment != Some(segment) {
        inode.CloseInFlight(segment, store);
      }
    case StreamForgotten(segment) =>
      if segment in inode.inFlight && segment in store.objects {
        inode.ForgetInFlight(segment, store);
      }
    case ObjectDeleted(segment) =>
      if segment in store.doomed {
        inode.DeleteDoomed(segment, store);
      }
  }

  /** Some of that happens, as far as it can. */
  method Meanwhile(inode: FileInode, store: ObjectStore, ticks: seq<Tick>)
    requires inode.Valid(store)
    modifies inode`inFlight, store`objects, store`closed
    ensures inode.Valid(store) && old(store.closed) <= store.closed
    ensures BackdropOf(inode, store)
         == AfterTicks(old(BackdropOf(inode, store)), inode.openLogSegment, store.doomed, ticks)
  {
    for k := 0 to |ticks|
      invariant inode.Valid(store) && old(store.closed) <= store.closed
      invariant BackdropOf(inode, store)
             == AfterTicks(old(BackdropOf(inode, store)), inode.openLogSegment, store.doomed, ticks[..k])
    {
      assert ticks[..k + 1][..k] == ticks[..k];
      Happen(inode, store, ticks[k]);
    }
    assert ticks[..|ticks|] == ticks;
  }

  function TicksAt(meanwhile: seq<seq<Tick>>, k: nat): seq<Tick> {
    if k < |meanwhile| then meanwhile[k] else []
  }

  /** One cache line, from the cache or, on a miss, from its object. */
  method FetchLine(segment: nat, tag: nat, store: ObjectStore, cache: ReadCache) returns (ok: bool, line: seq<Byte>)
    requires CacheOk(cache, store)
    modifies cache, cache.Elements()
    ensures CacheOk(cache, store)
    ensures fresh(cache.Elements() - old(cache.Elements()))
    ensures ok ==> segment in store.contents && line == Line(store.contents[segment], tag, cache.lineSize)
    ensures segment in store.objects && tag * cache.lineSize < |store.objects[segment]| ==> ok
  {
    var key := CacheKey(segment, tag);
    if key in cache.readCache {
      var hit := cache.Hit(key);
      return true, hit.line;
    }
    ok, line := store.ObjectGet(segment, tag * cache.lineSize, cache.lineSize);
    if ok {
      var _ := cache.Miss(key, line);
    }
  }

  /** `buf` is [from, to) of a segment, which has that many bytes if any were asked for. */
  ghost predicate IsSlice(contents: Contents, segment: nat, from: nat, to: nat, buf: seq<Byte>)
    requires from <= to
  {
    if from == to then buf == []
    else segment in contents && to <= |contents[segment]| && buf == contents[segment][from..to]
  }

  lemma SlicesJoin(contents: Contents, segment: nat, from: nat, mid: nat, to: nat, a: seq<Byte>, b: seq<Byte>)
    requires from <= mid <= to
    requires IsSlice(contents, segment, from, mid, a) && IsSlice(contents, segment, mid, to, b)
    ensures IsSlice(contents, segment, from, to, a + b)
  {
  }

  /** The bytes [offset, offset + length) of a closed segment, line by line. */
  method ReadLines(segment: nat, offset: nat, length: nat, store: ObjectStore, cache: ReadCache)
    returns (ok: bool, buf: seq<Byte>)
    requires CacheOk(cache, store)
    modifies cache, cache.Elements()
    ensures CacheOk(cache, store) && fresh(cache.Elements() - old(cache.Elements()))
    ensures ok ==> IsSlice(store.contents, segment, offset, offset + length, buf)
    ensures segment in store.objects && offset + length <= |store.objects[segment]| ==> ok
  {
    buf := [];
    var chunkOffset: nat, remaining: nat := offset, length;
    while 0 < remaining
      invariant chunkOffset + remaining == offset + length && offset <= chunkOffset
      invariant CacheOk(cache, store) && fresh(cache.Elements() - old(cache.Elements()))
      invariant IsSlice(store.contents, segment, offset, chunkOffset, buf)
    {
      var piece;
      ok, piece := ReadPiece(segment, chunkOffset, remaining, store, cache);
      if !ok {
        return;
      }
      SlicesJoin(store.contents, segment, offset, chunkOffset, chunkOffset + |piece|, buf, piece);
      buf := buf + piece;
      chunkOffset, remaining := chunkOffset + |piece|, remaining - |piece|;
    }
    ok := true;
  }

  /** As much of [offset, offset + length) as lies in one line. */
  method ReadPiece(segment: nat, offset: nat, length: nat, store: ObjectStore, cache: ReadCache)
    returns (ok: bool, piece: seq<Byte>)
    requires CacheOk(cache, store) && length > 0
    modifies cache, cache.Elements()
    ensures CacheOk(cache, store) && fresh(cache.Elements() - old(cache.Elements()))
    ensures ok ==> 0 < |piece| <= length && IsSlice(store.contents, segment, offset, offset + |piece|, piece)
    ensures ok && offset % cache.lineSize + length <= cache.lineSize ==> |piece| == length
    ensures segment in store.objects && offset + length <= |store.objects[segment]| ==> ok
  {
    var tag := offset / cache.lineSize;
    assert segment in store.objects && offset + length <= |store.objects[segment]| ==>
        tag * cache.lineSize < |store.objects[segment]| by {
      var _ := LinePosition(offset, cache.lineSize);
    }
    var line;
    ok, line := FetchLine(segment, tag, store, cache);
    if !ok {
      return false, [];
    }
    ok, piece := TakePiece(store.contents[segment], line, offset, length, cache.lineSize);
  }

  /** The piece of the line, if the line has it. */
  method TakePiece(ghost content: seq<Byte>, line: seq<Byte>, offset: nat, length: nat, lineSize: nat)
    returns (ok: bool, piece: seq<Byte>)
    requires lineSize > 0 && length > 0 && line == Line(content, offset / lineSize, lineSize)
    ensures ok ==> |piece| == HitLength(offset, length, lineSize) && offset + |piece| <= |content|
    ensures ok ==> piece == content[offset..offset + |piece|]
    ensures offset + length <= |content| ==> ok
  {
    var hitOffset, hitLength := offset % lineSize, HitLength(offset, length, lineSize);
    PieceInLine(content, offset, length, lineSize);
    if hitOffset + hitLength > |line| {
      return false, [];
    }
    return true, line[hitOffset..hitOffset + hitLength];
  }

  /** How much of [offset, offset + length) lies in the line of its first byte. */
  function HitLength(offset: nat, length: nat, lineSize: nat): (n: nat)
    requires lineSize > 0
    ensures length > 0 ==> 0 < n <= length
    ensures offset % lineSize + length <= lineSize ==> n == length
  {
    if offset % lineSize + length > lineSize then lineSize - offset % lineSize else length
  }

  /** That piece of the line is the piece of the content, and the line has it if the content does. */
  lemma PieceInLine(content: seq<Byte>, offset: nat, length: nat, lineSize: nat)
    requires lineSize > 0 && length > 0
    ensures var tag, hit, n := offset / lineSize, offset % lineSize, HitLength(offset, length, lineSize);
            && (hit + n <= |Line(content, tag, lineSize)| ==>
                 offset + n <= |content| && Line(content, tag, lineSize)[hit..hit + n] == content[offset..offset + n])
            && (offset + length <= |content| ==>
                 tag * lineSize < |content| && hit + n <= |Line(content, tag, lineSize)|)
  {
    var start := LinePosition(offset, lineSize);
    var hit, n := offset % lineSize, HitLength(offset, length, lineSize);
    if hit + n <= |LineFrom(content, start, lineSize)| {
      LineFromPiece(content, start, hit, n, lineSize);
    }
    if offset + length <= |content| {
      LineFromReaches(content, start, hit, n, lineSize);
    }
  }

  /** Reads back a segment that is still streamed out. */
  method InFlightRead(inode: FileInode, segment: nat, offset: nat, length: nat) returns (ok: bool, buf: seq<Byte>)
    requires segment in inode.inFlight
    ensures ok <==> offset + length <= |inode.inFlight[segment]|
    ensures ok ==> buf == inode.inFlight[segment][offset..offset + length]
  {
    if offset + length > |inode.inFlight[segment]| {
      return false, [];
    }
    return true, inode.inFlight[segment][offset..offset + length];
  }

  /** One step of the general loop. */
  method RunStep(inode: FileInode, step: ReadPlanStep, store: ObjectStore, cache: ReadCache)
    returns (ok: bool, piece: seq<Byte>)
    requires inode.Streams(store) && CacheOk(cache, store)
    modifies cache, cache.Elements()
    ensures CacheOk(cache, store) && fresh(cache.Elements() - old(cache.Elements()))
    ensures ok ==> piece == StepBytes(store.contents, step)
    ensures Served(inode, store, step) ==> ok
  {
    StepBytesAre(store.contents, step);
    if step.segment == 0 {
      ok, piece := true, seq(step.length, _ => 0);
    } else if step.segment in inode.inFlight {
      ok, piece := InFlightRead(inode, step.segment, step.offset, step.length);
    } else {
      ok, piece := ReadLines(step.segment, step.offset, step.length, store, cache);
    }
  }

  /** A piece of a single cache line. */
  method LoneLine(segment: nat, offset: nat, length: nat, store: ObjectStore, cache: ReadCache)
    returns (ok: bool, buf: seq<Byte>)
    requires CacheOk(cache, store) && offset % cache.lineSize + length <= cache.lineSize
    modifies cache, cache.Elements()
    ensures CacheOk(cache, store) && fresh(cache.Elements() - old(cache.Elements()))
    ensures ok ==> IsSlice(store.contents, segment, offset, offset + length, buf)
    ensures segment in store.objects && 0 < length && offset + length <= |store.objects[segment]| ==> ok
  {
    if length > 0 {
      ok, buf := ReadPiece(segment, offset, length, store, cache);
    } else {
      var line;
      ok, line := FetchLine(segment, offset / cache.lineSize, store, cache);
      ok, buf := ok && offset % cache.lineSize <= |line|, [];
    }
  }

  /** A step that needs no copying: zero fill, a piece of a stream, or a piece of a single cache line. */
  predicate NeedsNoCopy(step: ReadPlanStep, inFlight: set<nat>, lineSize: nat)
    requires lineSize > 0
  {
    step.segment == 0 || step.segment in inFlight || step.offset % lineSize + step.length <= lineSize
  }

  method LoneStep(inode: FileInode, step: ReadPlanStep, store: ObjectStore, cache: ReadCache)
    returns (ok: bool, buf: seq<Byte>)
    requires inode.Streams(store) && CacheOk(cache, store) && NeedsNoCopy(step, inode.inFlight.Keys, cache.lineSize)
    modifies cache, cache.Elements()
    ensures CacheOk(cache, store) && fresh(cache.Elements() - old(cache.Elements()))
    ensures ok ==> buf == StepBytes(store.contents, step)
    ensures Served(inode, store, step) ==> ok
  {
    StepBytesAre(store.contents, step);
    if step.segment == 0 {
      ok, buf := true, seq(step.length, _ => 0);
    } else if step.segment in inode.inFlight {
      ok, buf := InFlightRead(inode, step.segment, step.offset, step.length);
    } else {
      ok, buf := LoneLine(step.segment, step.offset, step.length, store, cache);
    }
  }

  /** Runs a plan: whichever way each step is served, and whatever happens between them, the
      bytes are those the plan denotes; a plan of part of the file is run to its end. */
  method DoReadPlan(inode: FileInode, plan: seq<ReadPlanStep>, store: ObjectStore, cache: ReadCache,
                    meanwhile: seq<seq<Tick>>, ghost from: nat, ghost to: nat)
    returns (ok: bool, buf: seq<Byte>)
    requires inode.Valid(store) && CacheOk(cache, store)
    modifies cache, cache.Elements(), inode`inFlight, store`objects, store`closed
    ensures inode.Valid(store) && CacheOk(cache, store) && fresh(cache.Elements() - old(cache.Elements()))
    ensures old(store.closed) <= store.closed
    ensures ok ==> buf == PlanBytes(store.contents, plan)
    ensures Plans(inode.extentMap.extents, plan, from, to) ==> ok
  {
    if 1 == |plan| && NeedsNoCopy(plan[0], inode.inFlight.Keys, cache.lineSize) {
      PlanBytesAppend(store.contents, [], plan[0]);
      assert [] + [plan[0]] == plan && PlanBytes(store.contents, []) == [];
      if Plans(inode.extentMap.extents, plan, from, to) {
        PlanServed(inode, store, plan, from, to);
      }
      ok, buf := LoneStep(inode, plan[0], store, cache);
    } else {
      ok, buf := RunSteps(inode, plan, store, cache, meanwhile, from, to);
    }
  }

  lemma PlanBytesUpTo(contents: Contents, plan: seq<ReadPlanStep>, k: nat)
    requires k < |plan|
    ensures PlanBytes(contents, plan[..k + 1]) == PlanBytes(contents, plan[..k]) + StepBytes(contents, plan[k])
  {
    PlanBytesAppend(contents, plan[..k], plan[k]);
    assert plan[..k + 1] == plan[..k] + [plan[k]];
  }

  /** One step, after whatever happened before it. */
  method NextStep(inode: FileInode, plan: seq<ReadPlanStep>, k: nat, store: ObjectStore, cache: ReadCache,
                  ticks: seq<Tick>, ghost from: nat, ghost to: nat)
    returns (ok: bool, piece: seq<Byte>)
    requires inode.Valid(store) && CacheOk(cache, store) && k < |plan|
    modifies cache, cache.Elements(), inode`inFlight, store`objects, store`closed
    ensures inode.Valid(store) && CacheOk(cache, store) && fresh(cache.Elements() - old(cache.Elements()))
    ensures old(store.closed) <= store.closed
    ensures ok ==> PlanBytes(store.contents, plan[..k + 1]) == PlanBytes(store.contents, plan[..k]) + piece
    ensures Plans(inode.extentMap.extents, plan, from, to) ==> ok
  {
    PlanBytesUpTo(store.contents, plan, k);
    Meanwhile(inode, store, ticks);
    if Plans(inode.extentMap.extents, plan, from, to) {
      PlanServed(inode, store, plan, from, to);
    }
    ok, piece := RunStep(inode, plan[k], store, cache);
  }

  /** The general loop: the steps one after the other. */
  method RunSteps(inode: FileInode, plan: seq<ReadPlanStep>, store: ObjectStore, cache: ReadCache,
                  meanwhile: seq<seq<Tick>>, ghost from: nat, ghost to: nat)
    returns (ok: bool, buf: seq<Byte>)
    requires inode.Valid(store) && CacheOk(cache, store)
    modifies cache, cache.Elements(), inode`inFlight, store`objects, store`closed
    ensures inode.Valid(store) && CacheOk(cache, store) && fresh(cache.Elements() - old(cache.Elements()))
    ensures old(store.closed) <= store.closed
    ensures ok ==> buf == PlanBytes(store.contents, plan)
    ensures Plans(inode.extentMap.extents, plan, from, to) ==> ok
  {
    buf := [];
    for k := 0 to |plan|
      invariant inode.Valid(store) && CacheOk(cache, store) && fresh(cache.Elements() - old(cache.Elements()))
      invariant old(store.closed) <= store.closed
      invariant buf == PlanBytes(store.contents, plan[..k])
    {
      var piece;
      ok, piece := NextStep(inode, plan, k, store, cache, TicksAt(meanwhile, k), from, to);
      if !ok {
        return;
      }
      buf := buf + piece;
    }
    assert plan[..|plan|] == plan;
    ok := true;
  }

  /** In a valid inode every step of a plan for part of the file can be served. */
  lemma PlanServed(inode: FileInode, store: ObjectStore, plan: seq<ReadPlanStep>, from: nat, to: nat)
    requires inode.Valid(store) && Plans(inode.extentMap.extents, plan, from, to)
    ensures forall i :: 0 <= i < |plan| ==> Served(inode, store, plan[i])
  {
    forall i | 0 <= i < |plan| ensures Served(inode, store, plan[i]) {
      if plan[i].segment != 0 {
        var es := inode.extentMap.extents;
        var last := plan[i].offset + plan[i].length - 1;
        var k := StepInPlan(plan, i);
        assert PlanSources(plan)[k] == Some(Location(plan[i].segment, last));
        assert FileSources(es, from, to)[k] == Lookup(es, from + k);
        var j := LookupWitness(es, from + k);
        assert es[j].segment == plan[i].segment;
      }
    }
  }

  /** The last byte of each step is somewhere in the plan. */
  lemma {:induction false} StepInPlan(plan: seq<ReadPlanStep>, i: nat) returns (k: nat)
    requires i < |plan| && plan[i].length > 0 && plan[i].segment != 0
    ensures k < |PlanSources(plan)|
    ensures PlanSources(plan)[k] == Some(Location(plan[i].segment, plan[i].offset + plan[i].length - 1))
  {
    var n := |plan| - 1;
    var init := PlanSources(plan[..n]);
    assert PlanSources(plan) == init + StepSources(plan[n]);
    if i == n {
      k := |init| + plan[n].length - 1;
      assert StepSources(plan[n])[plan[n].length - 1] == PlanSources(plan)[k];
    } else {
      k := StepInPlan(plan[..n], i);
    }
  }

  /** A plan for the bytes meant by a request can be run, and denotes what the abstract file has of them. */
  lemma PlanAnswers(inode: FileInode, store: ObjectStore, plan: seq<ReadPlanStep>, offset: nat, length: nat, bytes: nat)
    requires inode.Valid(store) && Plans(inode.extentMap.extents, plan, offset, offset + bytes)
    requires MeantRange(inode.extentMap.size, Some(offset), Some(length)) == Some((offset, bytes))
    ensures forall i :: 0 <= i < |plan| ==> Served(inode, store, plan[i])
    ensures PlanBytes(store.contents, plan) == ReadBack(inode.Bytes(store), offset, length)
  {
    PlanServed(inode, store, plan, offset, offset + bytes);
    if bytes > 0 {
      PlanReadsBack(inode.extentMap.extents, inode.extentMap.size, store.contents, plan, offset, offset + bytes);
    }
  }

  /** Read: the requested bytes that the abstract file has. */
  method Read(inode: FileInode, offset: nat, length: nat, store: ObjectStore, cache: ReadCache,
              meanwhile: seq<seq<Tick>>)
    returns (ok: bool, buf: seq<Byte>)
    requires inode.Valid(store) && CacheOk(cache, store)
    requires offset < TwoTo64 && length < TwoTo64 && Answerable(inode.extentMap.size, Some(offset), Some(length))
    modifies cache, cache.Elements(), inode`inFlight, store`objects, store`closed
    ensures inode.Valid(store) && CacheOk(cache, store) && fresh(cache.Elements() - old(cache.Elements()))
    ensures old(store.closed) <= store.closed && inode.Bytes(store) == old(inode.Bytes(store))
    ensures ok && buf == ReadBack(inode.Bytes(store), offset, length)
  {
    WellFormedKeyed(inode.extentMap.extents);
    var _, plan, bytes := GetReadPlan(inode.extentMap, Some(offset), Some(length));
    NoneBehindHole(inode.extentMap.extents, offset, offset + bytes);
    PlanAnswers(inode, store, plan, offset, length, bytes);
    ok, buf := DoReadPlan(inode, plan, store, cache, meanwhile, offset, offset + bytes);
  }
}
