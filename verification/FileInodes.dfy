/** A file inode over its object store: writes go to an open log segment that is
streamed out in the background, reads run a plan over segments still in flight
and, through the read cache, over closed objects.
*/
module FileInodes {
  import opened Common
  import opened Extents
  import opened FileExtentMap
  import opened ReadPlans
  import opened ReadCaches
  import opened FileBytes

  /** The objects of a volume. `contents` remembers every segment ever begun,
      open, closed or deleted; a closed one never changes again. */
  class ObjectStore {
    var objects: Contents
    var doomed: set<nat>
    ghost var contents: Contents
    ghost var closed: set<nat>

    ghost predicate Valid()
      reads this
    {
      && 0 !in contents
      && objects.Keys <= closed <= contents.Keys
      && doomed <= contents.Keys
      && forall s :: s in objects ==> objects[s] == contents[s]
    }

    constructor ()
      ensures Valid() && contents == map[] && doomed == {}
    {
      objects, doomed, contents, closed := map[], {}, map[], {};
    }

    /** Reads up to `length` bytes of an object; fails when there is no such object or range. */
    method ObjectGet(segment: nat, offset: nat, length: nat) returns (ok: bool, buf: seq<Byte>)
      ensures ok <==> segment in objects && offset < |objects[segment]|
      ensures ok ==> buf == if offset + length <= |objects[segment]| then objects[segment][offset..offset + length]
                            else objects[segment][offset..]
    {
      if segment !in objects || offset >= |objects[segment]| {
        return false, [];
      }
      var whole := objects[segment];
      return true, if offset + length <= |whole| then whole[offset..offset + length] else whole[offset..];
    }
  }

  // ----- cache lines -----

  function LineFrom(content: seq<Byte>, start: nat, size: nat): seq<Byte> {
    if start >= |content| then []
    else if start + size <= |content| then content[start..start + size]
    else content[start..]
  }

  function Line(content: seq<Byte>, tag: nat, size: nat): seq<Byte> {
    LineFrom(content, tag * size, size)
  }

  /** Every cached line is its line of the closed segment it is keyed by. */
  ghost predicate CacheTrue(cache: ReadCache, store: ObjectStore)
    reads cache`readCache, store`closed, store`contents
  {
    forall k :: k in cache.readCache ==>
      && k.segment in store.closed && k.segment in store.contents
      && cache.readCache[k].line == Line(store.contents[k.segment], k.tag, cache.lineSize)
  }

  lemma SliceOfSlice(s: seq<Byte>, lo: nat, hi: nat, a: nat, b: nat)
    requires lo <= hi <= |s| && a <= b <= hi - lo
    ensures s[lo..hi][a..b] == s[lo + a..lo + b]
  {
    forall i | 0 <= i < b - a ensures s[lo..hi][a..b][i] == s[lo + a..lo + b][i] {
      assert s[lo..hi][a..b][i] == s[lo..hi][a + i] == s[lo + a + i];
    }
  }

  /** A piece of a line is the piece of the content at the same place. */
  lemma LineFromPiece(content: seq<Byte>, start: nat, hit: nat, length: nat, size: nat)
    requires length > 0 && hit + length <= |LineFrom(content, start, size)|
    ensures start + hit + length <= |content|
    ensures LineFrom(content, start, size)[hit..hit + length] == content[start + hit..start + hit + length]
  {
    var line := LineFrom(content, start, size);
    assert line == content[start..start + |line|];
    SliceOfSlice(content, start, start + |line|, hit, hit + length);
  }

  lemma LinePosition(offset: nat, size: nat) returns (start: nat)
    requires size > 0
    ensures start == (offset / size) * size && offset == start + offset % size && offset % size < size
  {
    start := (offset / size) * size;
  }

  /** A line reaches to its own end or to the end of the content. */
  lemma LineFromReaches(content: seq<Byte>, start: nat, hit: nat, length: nat, size: nat)
    requires length > 0 && hit + length <= size && start + hit + length <= |content|
    ensures start < |content| && hit + length <= |LineFrom(content, start, size)|
  {
  }

  /** Every segment of `es` is one of `was`, or `segment` itself. */
  ghost predicate SegmentsFrom(es: seq<Extent>, was: seq<Extent>, segment: Option<nat>) {
    forall i :: 0 <= i < |es| ==>
      segment == Some(es[i].segment) || exists j :: 0 <= j < |was| && was[j].segment == es[i].segment
  }

  /** Recording where `buf` was put writes it into the abstract file and keeps the extents in order. */
  lemma WriteEffect(was: seq<Extent>, es: seq<Extent>, size: nat, offset: nat, buf: seq<Byte>,
                    segment: nat, segmentOffset: nat, contents: Contents)
    requires WellFormed(was) && EndsBy(was, size) && Within(was, contents)
    requires WellFormed(es) && buf != []
    requires forall p: nat :: Lookup(es, p) == Overlay(was, offset, |buf|, segment, segmentOffset, p)
    requires segment in contents && segmentOffset + |buf| <= |contents[segment]|
    requires contents[segment][segmentOffset..segmentOffset + |buf|] == buf
    ensures var size' := if offset + |buf| > size then offset + |buf| else size;
            && EndsBy(es, size')
            && FileContent(es, size', contents) == Written(FileContent(was, size, contents), offset, buf)
    ensures Within(es, contents) && SegmentsFrom(es, was, Some(segment))
  {
    var size' := if offset + |buf| > size then offset + |buf| else size;
    EndsByIffNothingBeyond(was, size);
    EndsByIffNothingBeyond(es, size');
    OverlayWrites(was, es, size, offset, buf, segment, segmentOffset, contents);
    WithinFromLookup(was, es, contents, offset, |buf|, segment, segmentOffset);
  }

  lemma CutEffect(was: seq<Extent>, es: seq<Extent>, size: nat, size': nat, contents: Contents)
    requires WellFormed(was) && EndsBy(was, size) && Within(was, contents)
    requires WellFormed(es)
    requires forall p: nat :: Lookup(es, p) == if p < size' then Lookup(was, p) else None
    ensures FileContent(es, size', contents) == Resized(FileContent(was, size, contents), size')
    ensures Within(es, contents) && SegmentsFrom(es, was, None)
  {
    EndsByIffNothingBeyond(was, size);
    TruncationResizes(was, es, size, size', contents);
    WithinFromLookup(was, es, contents, 0, 0, 0, 0);
  }

  /** A segment that counts nothing has no extent. */
  lemma EmptiedUnused(es: seq<Extent>, counts: map<nat, nat>)
    requires WellFormed(es) && Counts(counts, es)
    ensures forall i :: 0 <= i < |es| ==> es[i].segment in counts && counts[es[i].segment] > 0
  {
    forall i | 0 <= i < |es| ensures es[i].segment in counts && counts[es[i].segment] > 0 {
      LiveBytesAt(es, i);
    }
  }

  class FileInode {
    const extentMap: ExtentMap
    const maxFlushSize: nat
    var dirty: bool
    var openLogSegment: Option<nat>
    var inFlight: Contents

    /** The data every extent points at is in flight or in its object, and, `lost` segments aside, not about to be
        deleted. */
    ghost predicate Backed(store: ObjectStore, lost: set<nat>)
      reads `inFlight, extentMap`extents, store
    {
      && Within(extentMap.extents, store.contents)
      && (forall i :: 0 <= i < |extentMap.extents| ==>
           var s := extentMap.extents[i].segment;
           (s in inFlight || s in store.objects) && s !in store.doomed - lost)
    }

    ghost predicate Streams(store: ObjectStore)
      reads `inFlight, `openLogSegment, store
    {
      && (forall s :: s in inFlight ==> s in store.contents && inFlight[s] == store.contents[s] && s !in store.doomed)
      && (openLogSegment.Some? ==> openLogSegment.value in inFlight && openLogSegment.value !in store.closed)
    }

    /** An emptied segment is only ever collected by flushing a dirty inode. */
    ghost predicate EmptiedOnlyIfDirty()
      reads `dirty, extentMap`logSegmentMap
    {
      forall s :: s in extentMap.logSegmentMap && extentMap.logSegmentMap[s] == 0 ==> dirty
    }

    /** Valid, but that extents may point at the `lost` segments though these are about to be deleted. */
    ghost predicate ValidBut(store: ObjectStore, lost: set<nat>)
      reads this, extentMap, store
    {
      && extentMap.Valid() && NonzeroSegments(extentMap.extents) && extentMap.size < TwoTo64
      && store.Valid()
      && Backed(store, lost) && Streams(store) && EmptiedOnlyIfDirty()
      && extentMap.logSegmentMap.Keys <= store.contents.Keys
    }

    ghost predicate Valid(store: ObjectStore)
      reads this, extentMap, store
    {
      ValidBut(store, {})
    }

    /** The abstract file. */
    ghost function Bytes(store: ObjectStore): seq<Byte>
      reads extentMap`extents, extentMap`size, store`contents
    {
      FileContent(extentMap.extents, extentMap.size, store.contents)
    }

    constructor (maxFlushSize: nat, store: ObjectStore)
      requires store.Valid()
      ensures Valid(store) && Bytes(store) == [] && fresh(extentMap)
      ensures inFlight == map[] && openLogSegment == None
    {
      this.maxFlushSize := maxFlushSize;
      extentMap := new ExtentMap();
      dirty, openLogSegment, inFlight := true, None, map[];
    }

    /** Begins a log segment numbered `nonce`. */
    method OpenSegment(nonce: nat, store: ObjectStore)
      requires Valid(store) && nonce != 0 && nonce !in store.contents
      modifies this`openLogSegment, this`inFlight, store`contents
      ensures Valid(store) && Bytes(store) == old(Bytes(store))
      ensures openLogSegment == Some(nonce)
      ensures store.contents == old(store.contents)[nonce := []]
    {
      openLogSegment := Some(nonce);
      inFlight := inFlight[nonce := []];
      store.contents := store.contents[nonce := []];
      GrowthKeepsContent(extentMap.extents, extentMap.size, old(store.contents), store.contents);
    }

    /** Streams `buf` to the open segment. */
    method Append(buf: seq<Byte>, store: ObjectStore)
      requires Valid(store) && openLogSegment.Some?
      modifies this`inFlight, store`contents
      ensures Valid(store) && Bytes(store) == old(Bytes(store))
      ensures var segment := openLogSegment.value;
              store.contents == old(store.contents)[segment := old(store.contents)[segment] + buf]
    {
      var segment := openLogSegment.value;
      inFlight := inFlight[segment := inFlight[segment] + buf];
      store.contents := store.contents[segment := store.contents[segment] + buf];
      GrowthKeepsContent(extentMap.extents, extentMap.size, old(store.contents), store.contents);
    }

    /** Streams `buf` to the open log segment, beginning one, numbered
        `nonce`, if none is open, and giving it up to the background flusher once it is long enough. */
    method SendChunk(buf: seq<Byte>, nonce: nat, store: ObjectStore) returns (segment: nat, segmentOffset: nat)
      requires Valid(store) && nonce != 0 && nonce !in store.contents
      modifies this`openLogSegment, this`inFlight, store`contents
      ensures Valid(store) && Bytes(store) == old(Bytes(store))
      ensures segment != 0 && segment in inFlight && segment !in store.closed
      ensures segmentOffset + |buf| == |store.contents[segment]|
      ensures store.contents[segment][segmentOffset..] == buf
      ensures forall s :: s in old(store.contents) && s != segment ==>
                s in store.contents && store.contents[s] == old(store.contents)[s]
      ensures store.contents.Keys <= old(store.contents.Keys) + {nonce}
      ensures old(openLogSegment).Some? ==>
                segment == old(openLogSegment).value && segmentOffset == |old(store.contents)[segment]|
      ensures old(openLogSegment).None? ==> segment == nonce && segmentOffset == 0
      ensures old(openLogSegment).Some? ==> store.contents.Keys == old(store.contents.Keys)
                                            && store.contents[segment][..segmentOffset] == old(store.contents)[segment]
      ensures openLogSegment == if segmentOffset + |buf| >= maxFlushSize then None else Some(segment)
    {
      if openLogSegment.None? {
        OpenSegment(nonce, store);
      }
      segment := openLogSegment.value;
      segmentOffset := |inFlight[segment]|;
      Append(buf, store);
      if segmentOffset + |buf| >= maxFlushSize {
        openLogSegment := None;
      }
    }

    /** How much of the open segment has been streamed. */
    ghost function Streamed(store: ObjectStore): nat
      requires Valid(store)
      reads this, extentMap, store
    {
      if openLogSegment.Some? then |store.contents[openLogSegment.value]| else 0
    }

    /** Points [offset, offset + |buf|) of the file at the bytes of `segment` that are `buf`. */
    method Record(offset: nat, length: nat, segment: nat, segmentOffset: nat, ghost buf: seq<Byte>, store: ObjectStore,
                  ghost lost: set<nat> := {})
      requires ValidBut(store, lost) && dirty && |buf| == length > 0 && offset + length < TwoTo64
      requires segment != 0 && (segment in inFlight || segment in store.objects) && segment !in store.doomed - lost
      requires segment in store.contents && segmentOffset + length <= |store.contents[segment]|
      requires store.contents[segment][segmentOffset..segmentOffset + length] == buf
      modifies extentMap
      ensures ValidBut(store, lost) && extentMap.logSegmentMap.Keys == old(extentMap.logSegmentMap.Keys) + {segment}
      ensures Bytes(store) == Written(old(Bytes(store)), offset, buf)
      ensures Lookup(extentMap.extents, offset) == Some(Location(segment, segmentOffset))
    {
      ghost var was, size := extentMap.extents, extentMap.size;
      extentMap.RecordBytes(offset, length, segment, segmentOffset);
      WriteEffect(was, extentMap.extents, size, offset, buf, segment, segmentOffset, store.contents);
      if offset + length > extentMap.size {
        extentMap.size := offset + length;
      }
    }

    /** Write: the abstract file with `buf` written over it; there is an error exactly if it is empty. */
    method Write(offset: nat, buf: seq<Byte>, nonce: nat, store: ObjectStore) returns (ok: bool)
      requires Valid(store) && offset + |buf| < TwoTo64
      requires nonce != 0 && nonce !in store.contents
      modifies this, extentMap, store`contents
      ensures Valid(store) && dirty && (ok <==> buf != [])
      ensures old(extentMap.logSegmentMap.Keys) <= extentMap.logSegmentMap.Keys
      ensures var segment := if old(openLogSegment).Some? then old(openLogSegment).value else nonce;
              if !ok then openLogSegment == Some(segment)
              else Lookup(extentMap.extents, offset) == Some(Location(segment, old(Streamed(store)))) &&
                   segment !in store.closed
      ensures Bytes(store) == if ok then Written(old(Bytes(store)), offset, buf) else old(Bytes(store))
      ensures store.contents.Keys <= old(store.contents.Keys) + {nonce}
      ensures forall s :: s in store.closed ==> s in store.contents && store.contents[s] == old(store.contents)[s]
    {
      dirty, ok := true, buf != [];
      if !ok {
        if openLogSegment.None? {
          OpenSegment(nonce, store);
        }
        return;
      }
      var segment, segmentOffset := SendChunk(buf, nonce, store);
      assert store.contents[segment][segmentOffset..segmentOffset + |buf|] == buf;
      Record(offset, |buf|, segment, segmentOffset, buf, store);
    }

    /** The in-memory part of SetSize. */
    method Resize(size: nat, store: ObjectStore, ghost lost: set<nat> := {})
      requires ValidBut(store, lost) && size < TwoTo64
      modifies this`dirty, extentMap
      ensures ValidBut(store, lost) && dirty
      ensures Bytes(store) == Resized(old(Bytes(store)), size)
      ensures forall p: nat :: p < size ==> Lookup(extentMap.extents, p) == old(Lookup(extentMap.extents, p))
    {
      dirty := true;
      ghost var was, oldSize := extentMap.extents, extentMap.size;
      extentMap.CutTo(size);
      CutEffect(was, extentMap.extents, oldSize, size, store.contents);
    }

    /** The background flusher ends the stream of a segment no longer open: its object now exists. */
    method CloseInFlight(segment: nat, store: ObjectStore, ghost lost: set<nat> := {})
      requires ValidBut(store, lost) && segment in inFlight && openLogSegment != Some(segment)
      modifies store`objects, store`closed
      ensures ValidBut(store, lost) && Bytes(store) == old(Bytes(store))
      ensures store.objects == old(store.objects)[segment := inFlight[segment]]
      ensures store.closed == old(store.closed) + {segment}
    {
      store.objects := store.objects[segment := inFlight[segment]];
      store.closed := store.closed + {segment};
    }

    /** Afterwards it forgets the stream. */
    method ForgetInFlight(segment: nat, store: ObjectStore, ghost lost: set<nat> := {})
      requires ValidBut(store, lost) && segment in inFlight && segment in store.objects
      modifies this`inFlight
      ensures ValidBut(store, lost) && Bytes(store) == old(Bytes(store))
      ensures inFlight == old(inFlight) - {segment}
    {
      assert openLogSegment != Some(segment);
      inFlight := inFlight - {segment};
    }

    /** Gives up the open segment and waits for all streams to end. */
    method DataFlush(store: ObjectStore, ghost lost: set<nat> := {})
      requires ValidBut(store, lost)
      modifies this`openLogSegment, this`inFlight, store`objects, store`closed
      ensures ValidBut(store, lost) && Bytes(store) == old(Bytes(store))
      ensures openLogSegment == None && inFlight == map[]
      ensures old(store.closed) <= store.closed
      ensures forall s :: s in old(store.objects) ==> s in store.objects && store.objects[s] == old(store.objects)[s]
    {
      openLogSegment := None;
      while inFlight != map[]
        invariant ValidBut(store, lost) && Bytes(store) == old(Bytes(store)) && openLogSegment == None
        invariant old(store.closed) <= store.closed
        invariant forall s :: s in old(store.objects) ==>
                  s in store.objects && store.objects[s] == old(store.objects)[s]
        decreases |inFlight|
      {
        var segment :| segment in inFlight;
        CloseInFlight(segment, store, lost);
        ForgetInFlight(segment, store, lost);
      }
    }

    /** Flush of one inode: its data reaches the store, and its emptied
        segments, which no extent uses any more, are scheduled for deletion. */
    method Flush(store: ObjectStore, ghost lost: set<nat> := {}) returns (emptied: set<nat>)
      requires ValidBut(store, lost)
      modifies this, extentMap`logSegmentMap, store`objects, store`closed, store`doomed
      ensures ValidBut(store, lost) && Bytes(store) == old(Bytes(store))
      ensures !dirty && openLogSegment == None && inFlight == map[]
      ensures emptied == set s | s in old(extentMap.logSegmentMap) && old(extentMap.logSegmentMap)[s] == 0
      ensures store.doomed == old(store.doomed) + emptied
      ensures !old(dirty) ==> emptied == {}
      ensures old(store.closed) <= store.closed
      ensures forall s :: s in old(store.objects) ==> s in store.objects && store.objects[s] == old(store.objects)[s]
    {
      DataFlush(store, lost);
      EmptiedUnused(extentMap.extents, extentMap.logSegmentMap);
      emptied := extentMap.CollectEmptied();
      dirty := false;
      store.doomed := store.doomed + emptied;
    }

    /** A scheduled deletion happens: no byte of the file is lost. */
    method DeleteDoomed(segment: nat, store: ObjectStore)
      requires Valid(store) && segment in store.doomed
      modifies store`objects
      ensures Valid(store) && Bytes(store) == old(Bytes(store))
      ensures store.objects == old(store.objects) - {segment}
    {
      store.objects := store.objects - {segment};
    }

    /** The middleware puts a whole object under a number provisioned for it. */
    method ObjectPut(nonce: nat, content: seq<Byte>, store: ObjectStore)
      requires Valid(store) && nonce != 0 && nonce !in store.contents
      modifies store`objects, store`closed, store`contents
      ensures Valid(store) && Bytes(store) == old(Bytes(store))
      ensures store.objects == old(store.objects)[nonce := content]
      ensures store.contents == old(store.contents)[nonce := content]
      ensures store.closed == old(store.closed) + {nonce}
    {
      store.objects := store.objects[nonce := content];
      store.contents := store.contents[nonce := content];
      store.closed := store.closed + {nonce};
      GrowthKeepsContent(extentMap.extents, extentMap.size, old(store.contents), store.contents);
    }

    method SetSize(size: nat, store: ObjectStore)
      requires Valid(store) && size < TwoTo64
      modifies this, extentMap, store`objects, store`closed, store`doomed
      ensures Valid(store) && Bytes(store) == Resized(old(Bytes(store)), size)
      ensures !dirty && openLogSegment == None && inFlight == map[]
      ensures old(store.closed) <= store.closed && old(store.doomed) <= store.doomed
    {
      Resize(size, store);
      var _ := Flush(store);
    }

    /** Makes a range of an object part, or all, of the file. */
    method Adopt(fileOffset: nat, segment: nat, objectOffset: nat, length: nat, patchOnly: bool, store: ObjectStore,
                 ghost lost: set<nat>)
      requires ValidBut(store, lost) && length > 0 && fileOffset + length < TwoTo64
      requires segment != 0 && segment in store.objects && objectOffset + length <= |store.objects[segment]|
      requires segment !in store.doomed - lost && (patchOnly || (fileOffset == 0 && objectOffset == 0))
      modifies this`dirty, extentMap
      ensures ValidBut(store, lost) && Lookup(extentMap.extents, fileOffset) == Some(Location(segment, objectOffset))
      ensures Bytes(store) ==
              var put := store.objects[segment][objectOffset..objectOffset + length];
              if patchOnly then Written(old(Bytes(store)), fileOffset, put) else put
    {
      dirty := true;
      Record(fileOffset, length, segment, objectOffset, store.objects[segment][objectOffset..objectOffset + length],
             store, lost);
      if !patchOnly {
        Resize(length, store, lost);
      }
    }

    /** The object is not on its way out: neither about to be deleted nor one the file has emptied and not flushed. */
    predicate Survives(segment: nat, store: ObjectStore)
      reads store`doomed, extentMap`logSegmentMap
    {
      segment !in store.doomed && (segment in extentMap.logSegmentMap ==> extentMap.logSegmentMap[segment] > 0)
    }

    method AdoptAndFlush(fileOffset: nat, segment: nat, objectOffset: nat, length: nat, patchOnly: bool,
                         store: ObjectStore, ghost lost: set<nat>)
      requires ValidBut(store, lost) && length > 0 && fileOffset + length < TwoTo64
      requires segment != 0 && segment in store.objects && objectOffset + length <= |store.objects[segment]|
      requires segment !in store.doomed - lost && (patchOnly || (fileOffset == 0 && objectOffset == 0))
      modifies this, extentMap, store`objects, store`closed, store`doomed
      ensures ValidBut(store, lost) && Lookup(extentMap.extents, fileOffset) == Some(Location(segment, objectOffset))
      ensures !dirty && openLogSegment == None && inFlight == map[]
      ensures segment in store.objects && old(store.closed) <= store.closed
      ensures old(store.doomed) <= store.doomed
      ensures Bytes(store) ==
              var put := old(store.objects)[segment][objectOffset..objectOffset + length];
              if patchOnly then Written(old(Bytes(store)), fileOffset, put) else put
    {
      Adopt(fileOffset, segment, objectOffset, length, patchOnly, store, lost);
      var _ := Flush(store, lost);
    }

    /** Flushes the file if it is dirty, which dooms an object it has emptied. */
    method FlushIfDirty(segment: nat, store: ObjectStore)
      requires Valid(store) && segment in store.objects
      modifies this, extentMap`logSegmentMap, store`objects, store`closed, store`doomed
      ensures Valid(store) && Bytes(store) == old(Bytes(store)) && old(store.closed) <= store.closed
      ensures segment in store.objects && store.objects[segment] == old(store.objects[segment])
      ensures segment in store.doomed <==> !old(Survives(segment, store))
    {
      if dirty {
        var _ := Flush(store);
      }
    }

    /** What the file is pointed at is valid exactly if it is not about to be deleted. */
    lemma ValidIffNotDoomed(p: nat, segment: nat, segmentOffset: nat, store: ObjectStore)
      requires ValidBut(store, {segment}) && Lookup(extentMap.extents, p) == Some(Location(segment, segmentOffset))
      ensures Valid(store) <==> segment !in store.doomed
      ensures segment in extentMap.logSegmentMap && extentMap.logSegmentMap[segment] > 0
    {
      var i := LookupWitness(extentMap.extents, p);
      LiveBytesAt(extentMap.extents, i);
      assert Recorded(extentMap.logSegmentMap, segment) == LiveBytes(extentMap.extents, segment);
    }

    /** Wrote for an object that survives. */
    method WroteKept(fileOffset: nat, segment: nat, objectOffset: nat, length: nat, patchOnly: bool, store: ObjectStore)
      returns (ok: bool)
      requires Valid(store) && length > 0 && fileOffset + length < TwoTo64 && Survives(segment, store)
      requires segment != 0 && segment in store.objects && objectOffset + length <= |store.objects[segment]|
      modifies this, extentMap, store`objects, store`closed, store`doomed
      ensures Valid(store) && old(store.closed) <= store.closed
      ensures ok <==> patchOnly || (fileOffset == 0 && objectOffset == 0)
      ensures Bytes(store) == if !ok then old(Bytes(store)) else
                              var put := old(store.objects)[segment][objectOffset..objectOffset + length];
                              if patchOnly then Written(old(Bytes(store)), fileOffset, put) else put
    {
      ok := Wrote(fileOffset, segment, objectOffset, length, patchOnly, store);
    }

    /** Wrote: an object put by the middleware becomes, or is patched into, the file; but
        its bytes are there to stay exactly if the object survives the flush it begins with. */
    method Wrote(fileOffset: nat, segment: nat, objectOffset: nat, length: nat, patchOnly: bool, store: ObjectStore)
      returns (ok: bool)
      requires Valid(store) && length > 0 && fileOffset + length < TwoTo64
      requires segment != 0 && segment in store.objects && objectOffset + length <= |store.objects[segment]|
      modifies this, extentMap, store`objects, store`closed, store`doomed
      ensures ok <==> patchOnly || (fileOffset == 0 && objectOffset == 0)
      ensures old(store.closed) <= store.closed && segment in store.objects
      ensures !ok ==> Valid(store) && Bytes(store) == old(Bytes(store))
      ensures ok ==> ValidBut(store, {segment}) && !dirty && openLogSegment == None && inFlight == map[]
      ensures ok ==> (Valid(store) <==> old(Survives(segment, store)))
      ensures ok ==> Lookup(extentMap.extents, fileOffset) == Some(Location(segment, objectOffset))
      ensures ok ==> Bytes(store) ==
                     var put := old(store.objects)[segment][objectOffset..objectOffset + length];
                     if patchOnly then Written(old(Bytes(store)), fileOffset, put) else put
    {
      FlushIfDirty(segment, store);
      if !patchOnly && (fileOffset != 0 || objectOffset != 0) {
        return false;
      }
      ghost var lost := if segment in store.doomed then {segment} else {};
      AdoptAndFlush(fileOffset, segment, objectOffset, length, patchOnly, store, lost);
      ValidIffNotDoomed(fileOffset, segment, objectOffset, store);
      return true;
    }
  }
}
