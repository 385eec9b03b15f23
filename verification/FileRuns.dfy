/** Whole runs of one file: its operations and the background steps, in any order. */
module FileRuns {
  import opened Common
  import opened Extents
  import opened FileExtentMap
  import opened ReadPlans
  import opened ReadCaches
  import opened FileBytes
  import opened FileInodes
  import opened Reading

  /** What a client asks for, and what happens in the background. After PutThenWrote the client may refer
      to the object it put again, and does so by its number and by what it remembers to have put. */
  datatype Event =
    | WriteAt(offset: nat, buf: seq<Byte>)
    | ReadAt(offset: nat, length: nat, meanwhile: seq<seq<Tick>>)
    | SetSizeTo(size: nat)
    | PutThenWrote(fileOffset: nat, put: seq<Byte>, objectOffset: nat, length: nat, patchOnly: bool)
    | WroteAgain(segment: nat, fileOffset: nat, put: seq<Byte>, objectOffset: nat, length: nat, patchOnly: bool)
    | FlushNow
    | Ticks(ticks: seq<Tick>)

  predicate InBounds(e: Event) {
    match e
    case WriteAt(offset, buf) => offset + |buf| < TwoTo64
    case ReadAt(offset, length, _) => offset + length < TwoTo64
    case SetSizeTo(size) => size < TwoTo64
    case PutThenWrote(fileOffset, put, objectOffset, length, _) =>
      length > 0 && objectOffset + length <= |put| && fileOffset + length < TwoTo64
    case WroteAgain(_, fileOffset, put, objectOffset, length, _) =>
      length > 0 && objectOffset + length <= |put| && fileOffset + length < TwoTo64
    case _ => true
  }

  /** The reference: a plain array of bytes, to which background steps do nothing. */
  function Apply(file: seq<Byte>, e: Event): seq<Byte> {
    match e
    case WriteAt(offset, buf) => if buf == [] then file else Written(file, offset, buf)
    case SetSizeTo(size) => Resized(file, size)
    case PutThenWrote(fileOffset, put, objectOffset, length, patchOnly) =>
      if objectOffset + length > |put| then file
      else if patchOnly then Written(file, fileOffset, put[objectOffset..objectOffset + length])
      else if fileOffset == 0 && objectOffset == 0 then put[..length]
      else file
    case _ => file
  }

  /** What an event comes to: an object referred to again is as good as put anew if it is `taken`, else nothing
      happens. */
  function Effect(e: Event, taken: bool): Event {
    match e
    case WroteAgain(_, fileOffset, put, objectOffset, length, patchOnly) =>
      if taken then PutThenWrote(fileOffset, put, objectOffset, length, patchOnly) else FlushNow
    case _ => e
  }

  function Effects(run: seq<Event>, taken: seq<bool>): seq<Event>
    requires |run| == |taken|
  {
    seq(|run|, k requires 0 <= k < |run| => Effect(run[k], taken[k]))
  }

  /** The object is still there as it was put, and it is not on its way out: not one the file has emptied. */
  predicate Usable(inode: FileInode, store: ObjectStore, segment: nat, put: seq<Byte>)
    reads store, inode.extentMap
  {
    segment != 0 && segment in store.objects && store.objects[segment] == put && inode.Survives(segment, store)
  }

  function Answer(file: seq<Byte>, e: Event): seq<seq<Byte>> {
    match e
    case ReadAt(offset, length, _) => [ReadBack(file, offset, length)]
    case _ => []
  }

  function FileAfter(file: seq<Byte>, run: seq<Event>): seq<Byte> {
    if run == [] then file else Apply(FileAfter(file, run[..|run| - 1]), run[|run| - 1])
  }

  function AnswersOf(file: seq<Byte>, run: seq<Event>): seq<seq<Byte>> {
    if run == [] then []
    else AnswersOf(file, run[..|run| - 1]) + Answer(FileAfter(file, run[..|run| - 1]), run[|run| - 1])
  }

  /** Every number below `next` may be in use, none from `next` on is. */
  ghost predicate NoncesBelow(store: ObjectStore, next: nat)
    reads store
  {
    0 < next && forall s :: s in store.contents ==> s < next
  }

  /** A step of the background, if it is enabled. */
  method Background(inode: FileInode, store: ObjectStore, e: Event)
    requires inode.Valid(store)
    modifies inode, inode.extentMap`logSegmentMap, store`objects, store`closed, store`doomed
    ensures inode.Valid(store) && inode.Bytes(store) == old(inode.Bytes(store))
    ensures old(store.closed) <= store.closed
    ensures e.FlushNow? ==> !inode.dirty && inode.openLogSegment == None && inode.inFlight == map[]
    ensures e.Ticks? ==>
              var after := old(AfterTicks(BackdropOf(inode, store), inode.openLogSegment, store.doomed, e.ticks));
              BackdropOf(inode, store) == after
  {
    match e
    case FlushNow =>
      var _ := inode.Flush(store);
    case Ticks(ticks) =>
      Meanwhile(inode, store, ticks);
    case _ =>
  }

  method PutStep(inode: FileInode, store: ObjectStore, put: seq<Byte>, next: nat)
    requires inode.Valid(store) && NoncesBelow(store, next)
    modifies store
    ensures inode.Valid(store) && inode.Bytes(store) == old(inode.Bytes(store)) && NoncesBelow(store, next + 1)
    ensures next in store.objects && store.objects[next] == put && inode.Survives(next, store)
    ensures old(store.closed) <= store.closed
    ensures forall s :: s in old(store.contents) ==> s in store.contents && store.contents[s] == old(store.contents)[s]
  {
    inode.ObjectPut(next, put, store);
  }

  lemma AppliedPut(file: seq<Byte>, e: Event, ok: bool, after: seq<Byte>)
    requires e.PutThenWrote? && InBounds(e) && (ok <==> e.patchOnly || (e.fileOffset == 0 && e.objectOffset == 0))
    requires after == if !ok then file else
                      var put := e.put[e.objectOffset..e.objectOffset + e.length];
                      if e.patchOnly then Written(file, e.fileOffset, put) else put
    ensures after == Apply(file, e)
  {
    assert e.put[0..e.length] == e.put[..e.length];
  }

  /** A usable object becomes part, or all, of the file. */
  method TakeObject(inode: FileInode, store: ObjectStore, segment: nat, e: Event)
    requires inode.Valid(store) && e.PutThenWrote? && InBounds(e) && Usable(inode, store, segment, e.put)
    modifies inode, inode.extentMap, store`objects, store`closed, store`doomed
    ensures inode.Valid(store) && old(store.closed) <= store.closed
    ensures inode.Bytes(store) == Apply(old(inode.Bytes(store)), e)
  {
    ghost var file := inode.Bytes(store);
    var ok := inode.WroteKept(e.fileOffset, segment, e.objectOffset, e.length, e.patchOnly, store);
    AppliedPut(file, e, ok, inode.Bytes(store));
  }

  method WroteStep(inode: FileInode, store: ObjectStore, e: Event, next: nat)
    requires inode.Valid(store) && e.PutThenWrote? && InBounds(e) && NoncesBelow(store, next)
    modifies inode, inode.extentMap, store
    ensures inode.Valid(store) && NoncesBelow(store, next + 1)
    ensures inode.Bytes(store) == Apply(old(inode.Bytes(store)), e)
    ensures old(store.closed) <= store.closed
    ensures forall s :: s in old(store.contents) ==> s in store.contents && store.contents[s] == old(store.contents)[s]
  {
    PutStep(inode, store, e.put, next);
    TakeObject(inode, store, next, e);
  }

  method WroteAgainStep(inode: FileInode, store: ObjectStore, e: Event) returns (taken: bool)
    requires inode.Valid(store) && e.WroteAgain? && InBounds(e)
    modifies inode, inode.extentMap, store`objects, store`closed, store`doomed
    ensures inode.Valid(store) && old(store.closed) <= store.closed
    ensures taken <==> old(Usable(inode, store, e.segment, e.put))
    ensures inode.Bytes(store) == Apply(old(inode.Bytes(store)), Effect(e, taken))
  {
    taken := Usable(inode, store, e.segment, e.put);
    if taken {
      TakeObject(inode, store, e.segment, Effect(e, true));
    }
  }

  /** Objects put by the client, and the background. */
  method OtherStep(inode: FileInode, store: ObjectStore, e: Event, next: nat) returns (next': nat, taken: bool)
    requires inode.Valid(store) && InBounds(e) && NoncesBelow(store, next)
    requires !e.WriteAt? && !e.ReadAt? && !e.SetSizeTo?
    modifies inode, inode.extentMap, store
    ensures inode.Valid(store) && NoncesBelow(store, next') && old(store.closed) <= store.closed
    ensures forall s :: s in old(store.contents) ==> s in store.contents && store.contents[s] == old(store.contents)[s]
    ensures taken <==> !e.WroteAgain? || old(Usable(inode, store, e.segment, e.put))
    ensures inode.Bytes(store) == Apply(old(inode.Bytes(store)), Effect(e, taken))
  {
    next', taken := next, true;
    if e.PutThenWrote? {
      WroteStep(inode, store, e, next);
      next' := next + 1;
    } else if e.WroteAgain? {
      taken := WroteAgainStep(inode, store, e);
    } else {
      Background(inode, store, e);
    }
  }

  method Step(inode: FileInode, store: ObjectStore, cache: ReadCache, e: Event, next: nat)
    returns (next': nat, taken: bool, answer: seq<seq<Byte>>)
    requires inode.Valid(store) && CacheOk(cache, store) && InBounds(e) && NoncesBelow(store, next)
    modifies inode, inode.extentMap, store, cache, cache.Elements()
    ensures inode.Valid(store) && CacheOk(cache, store) && NoncesBelow(store, next')
    ensures fresh(cache.Elements() - old(cache.Elements()))
    ensures taken <==> !e.WroteAgain? || old(Usable(inode, store, e.segment, e.put))
    ensures inode.Bytes(store) == Apply(old(inode.Bytes(store)), Effect(e, taken))
    ensures answer == Answer(old(inode.Bytes(store)), Effect(e, taken))
  {
    next', taken, answer := next, true, [];
    match e
    case WriteAt(offset, buf) =>
      var _ := inode.Write(offset, buf, next, store);
      next' := next + 1;
    case ReadAt(offset, length, meanwhile) =>
      var _, buf := Read(inode, offset, length, store, cache, meanwhile);
      answer := [buf];
    case SetSizeTo(size) =>
      inode.SetSize(size, store);
    case _ =>
      next', taken := OtherStep(inode, store, e, next);
  }

  lemma EffectsNext(run: seq<Event>, taken: seq<bool>, e: Event, t: bool)
    requires |run| == |taken|
    ensures Effects(run + [e], taken + [t]) == Effects(run, taken) + [Effect(e, t)]
  {
  }

  lemma OneMore(file: seq<Byte>, run: seq<Event>, e: Event)
    ensures FileAfter(file, run + [e]) == Apply(FileAfter(file, run), e)
    ensures AnswersOf(file, run + [e]) == AnswersOf(file, run) + Answer(FileAfter(file, run), e)
  {
    assert (run + [e])[..|run|] == run;
  }

  /** After `k` events the file is `bytes` and the reads have been answered by `answers`, as the plain array has it. */
  ghost predicate SoFar(file: seq<Byte>, run: seq<Event>, k: nat, taken: seq<bool>, bytes: seq<Byte>,
                        answers: seq<seq<Byte>>) {
    && |taken| == k <= |run| && (forall i :: 0 <= i < k && !run[i].WroteAgain? ==> taken[i])
    && bytes == FileAfter(file, Effects(run[..k], taken)) && answers == AnswersOf(file, Effects(run[..k], taken))
  }

  lemma SoFarNext(file: seq<Byte>, run: seq<Event>, k: nat, taken: seq<bool>, bytes: seq<Byte>, answers: seq<seq<Byte>>,
                  t: bool)
    requires SoFar(file, run, k, taken, bytes, answers) && k < |run| && (run[k].WroteAgain? || t)
    ensures var effect := Effect(run[k], t);
            SoFar(file, run, k + 1, taken + [t], Apply(bytes, effect), answers + Answer(bytes, effect))
  {
    assert run[..k + 1] == run[..k] + [run[k]];
    EffectsNext(run[..k], taken, run[k], t);
    OneMore(file, Effects(run[..k], taken), Effect(run[k], t));
  }

  lemma SoFarEnd(file: seq<Byte>, run: seq<Event>, taken: seq<bool>, bytes: seq<Byte>, answers: seq<seq<Byte>>)
    requires SoFar(file, run, |run|, taken, bytes, answers)
    ensures bytes == FileAfter(file, Effects(run, taken)) && answers == AnswersOf(file, Effects(run, taken))
  {
    assert run[..|run|] == run;
  }

  /** In every run each read returns what the plain array would, and so does the file at the end. */
  method Run(inode: FileInode, store: ObjectStore, cache: ReadCache, run: seq<Event>, next: nat)
    returns (taken: seq<bool>, answers: seq<seq<Byte>>)
    requires inode.Valid(store) && CacheOk(cache, store) && NoncesBelow(store, next)
    requires forall i :: 0 <= i < |run| ==> InBounds(run[i])
    modifies inode, inode.extentMap, store, cache, cache.Elements()
    ensures inode.Valid(store) && CacheOk(cache, store)
    ensures |taken| == |run| && forall k :: 0 <= k < |run| && !run[k].WroteAgain? ==> taken[k]
    ensures inode.Bytes(store) == FileAfter(old(inode.Bytes(store)), Effects(run, taken))
    ensures answers == AnswersOf(old(inode.Bytes(store)), Effects(run, taken))
  {
    taken, answers := [], [];
    ghost var file := inode.Bytes(store);
    var nonce := next;
    assert SoFar(file, run, 0, taken, file, answers);
    for k := 0 to |run|
      invariant inode.Valid(store) && CacheOk(cache, store) && NoncesBelow(store, nonce)
      invariant fresh(cache.Elements() - old(cache.Elements()))
      invariant SoFar(file, run, k, taken, inode.Bytes(store), answers)
    {
      var t, answer;
      ghost var bytes := inode.Bytes(store);
      nonce, t, answer := Step(inode, store, cache, run[k], nonce);
      SoFarNext(file, run, k, taken, bytes, answers, t);
      answers, taken := answers + answer, taken + [t];
    }
    SoFarEnd(file, run, taken, inode.Bytes(store), answers);
  }

  /** A file of one byte in a stream that has not ended counts no byte of an object. */
  lemma OverwrittenIsEmptied(inode: FileInode, store: ObjectStore, segment: nat)
    requires inode.Valid(store) && inode.extentMap.size == 1 && segment in store.closed
    requires segment in inode.extentMap.logSegmentMap
    requires Lookup(inode.extentMap.extents, 0).Some?
    requires Lookup(inode.extentMap.extents, 0).value.segment !in store.closed
    ensures !inode.Survives(segment, store)
  {
    var es := inode.extentMap.extents;
    forall i | 0 <= i < |es| ensures es[i].segment != segment {
      LookupAt(es, i, 0);
    }
    NoLiveBytesNoExtent(es, segment);
    assert Recorded(inode.extentMap.logSegmentMap, segment) == LiveBytes(es, segment);
  }

  /** An object is put and made a file of one byte. */
  method MakeFromObject(a: Byte) returns (inode: FileInode, store: ObjectStore)
    ensures inode.Valid(store) && inode.Bytes(store) == [a] && 1 in inode.extentMap.logSegmentMap
    ensures 1 in store.objects && store.objects[1] == [a] && 2 !in store.contents
    ensures fresh(inode) && fresh(inode.extentMap) && fresh(store)
  {
    store := new ObjectStore();
    inode := new FileInode(100, store);
    inode.ObjectPut(1, [a], store);
    var _ := inode.Wrote(0, 1, 0, 1, false, store);
    inode.ValidIffNotDoomed(0, 1, 0, store);
  }

  /** Its byte is overwritten. */
  method OverwriteObject(inode: FileInode, store: ObjectStore, b: Byte)
    requires inode.Valid(store) && |inode.Bytes(store)| == 1
    requires 1 in inode.extentMap.logSegmentMap && 1 in store.objects && 2 !in store.contents
    modifies inode, inode.extentMap, store`contents
    ensures inode.Valid(store) && inode.Bytes(store) == [b] && !inode.Survives(1, store)
    ensures store.contents[1] == old(store.contents[1])
  {
    var _ := inode.Write(0, [b], 2, store);
    assert |inode.Bytes(store)| == inode.extentMap.size;
    OverwrittenIsEmptied(inode, store, 1);
  }

  /** Put to use again before the file is flushed, the object is recorded, and its deletion takes the byte with it. */
  method EmptiedObjectLost(a: Byte, b: Byte) returns (inode: FileInode, store: ObjectStore)
    ensures inode.Bytes(store) == [a] && Lookup(inode.extentMap.extents, 0) == Some(Location(1, 0))
    ensures 1 !in store.objects && 1 !in inode.inFlight
  {
    inode, store := MakeFromObject(a);
    OverwriteObject(inode, store, b);
    var _ := inode.Wrote(0, 1, 0, 1, false, store);
    inode.ValidIffNotDoomed(0, 1, 0, store);
    assert 1 in store.doomed;
    store.objects := store.objects - {1};
  }
}
