# ProxyFS in Dafny

ProxyFS keeps POSIX files as log segments in an object store. This project models
the five parts of it in which most can go wrong, and proves what they are for.

| part | modules |
|---|---|
| files: extent map, read plan, read cache, write-out, coalescing | `Extents`, `FileExtentMap`, `EmptyWrites`, `ReadPlans`, `ReadCaches`, `FileBytes`, `FileInodes`, `Reading`, `FileRuns`, `Coalescing` |
| the local lock manager | `LocalLocks`, `LockRuns` |
| headhunter: nonces, checkpoint layout, delayed deletion of segments | `Nonces`, `CheckpointLayout`, `SegmentGc`, `SegmentHistories`, `LockedFlushes`, `StaleFlushes`, `InodeVolumes` |
| directories, link counts and the volume check | `Directories`, `DirectoryRuns`, `NameTables`, `DirVolumes`, `TreeWalks` |
| container listings | `PathOrder`, `Listing`, `ContainerListings` |

`Common` holds what they share. Code that updates structures in place is a class
or a method here too; a specification on values stands beside it, and the laws
are proved about that. The unseen B+Tree is a sorted sequence or a map,
the object store a map from segment numbers to bytes, and each section that
runs under a mutex is one step of a state machine. Operations on one inode overlap in that machine as
they may in the code, where a move flushes files it has not locked.

The main results:

- **Files.** Through every run of writes, truncations, segment roll-overs, flushes,
  background closings and deletions, these also between the steps of a read, `Read` returns what a
  plain byte array would (`FileRuns.Run`). `recordWrite` overlays exactly its range; exactly when it
  panics is stated, and so is what empty ranges lead to over whole runs (`EmptyWrites.Run`).
  The read cache holds exactly the most recently used lines.
- **Locks.** In every state of every run a lock has one exclusive holder, or shared holders, or none;
  grants follow arrivals; a lock is in the map exactly while somebody holds it or waits for it
  (`LockRuns.LocksExclude`). A try is turned away exactly if it conflicts with what is held
  (`LocalLocks.BusyIffConflicts`), and whoever is reported as a holder has asked since the lock came into the map
  (`LockRuns.ReportedHasAsked`). Exactly when a caller that has left is taken for a holder, of whichever kind, is
  stated over the state before it left (`LocalLocks.WronglyReportedIff`).
- **Nonces, checkpoints.** No nonce is issued twice if and only if the reservation step is positive, as long
  as no failed post of a header is applied too late. A checkpoint deletes exactly the objects the trees have
  stopped using (`CheckpointLayout.CheckpointVolume.PutCheckpoint`).
- **Segments.** Flushes, destroys and coalesces overlap step by step, with each other, with checkpoints and
  with crashes. A step keeps the volume in order if and only if it is orderly: records are put while they are
  current (`SegmentGc.StepInvIff`). In orderly runs no record, current or checkpointed, ever names a
  deleted segment (`SegmentGc.RunsAreSafe`). What inodes count, which objects there are and where each record
  comes from can be told from the events alone, and a crash brings back the last completed
  checkpoint (`SegmentHistories`). Runs in which operations lock their inodes are orderly
  (`LockedFlushes.LockedRunsOrderly`). A move does not, and segments are lost (`StaleFlushes`).
- **Directories.** Every link count is the number of entries naming its inode, through every run of
  the file system's operations; these come to changes of a table of names, from which the volume
  follows, link counts and all (`DirVolumes.DirVolume.Run`, `NameTables.TableSaysAll`). A file goes with its last
  name, except when another is moved over that (`NameTables.AlwaysNamedIff`). The volume check counts each entry of
  a tree once and finds nothing to correct there.
- **Listings.** The walk emits the paths of a container in ascending order if and only if the tree
  is orderly, and then paging, marker and prefix lose nothing, nor does a client that asks for page after page.

Where the code does not do what one would expect of it, the model follows the code, and
the exact condition is proved, with an input at which it fails beside it:

| exact condition | failing input |
|---|---|
| `FileExtentMap.ExtentMap.RecordWrite`, `FileExtentMap.ExtentMap.SetSizeInMemory`, `EmptyWrites.FlushAccountedIff`, `EmptyWrites.EmptyPatch` | `EmptyWrites.StrandedByFlush` |
| `FileInodes.FileInode.Wrote` | `FileRuns.EmptiedObjectLost` |
| `ReadPlans.PlanRangeIsMeantRangeIff`, `ReadPlans.WrappedRange` | `ReadPlans.LongSuffixIsMisplaced` |
| `Directories.LinkedCountedIff` | `DirectoryRuns.SecondLinkMiscounts` |
| `Directories.UnlinkedCountedIff` | `DirectoryRuns.UnlinkMiscounts` |
| `Directories.MovedCountedIff` | `DirectoryRuns.MoveByDotMiscounts` |
| `NameTables.AllNamedIff`, `NameTables.AlwaysNamedIff` | `NameTables.RenameLeavesFile` |
| `CheckpointLayout.CheckpointVolume.PutCheckpoint` | `CheckpointLayout.TrailerObjectStays` |
| `Nonces.NoncesNeverRepeatIff`, `Nonces.StepSafeIff` | `Nonces.ReservingNothingRepeats`, `Nonces.LatePostRepeats` |
| `SegmentGc.StepInvIff`, `SegmentGc.RecordsPutInvIff` | `StaleFlushes.TruncationOverlapped`, `StaleFlushes.DestroyOverlapped`, `StaleFlushes.TruncationMarkedClean` |
| `LocalLocks.WronglyReportedIff` | `LocalLocks.FormerWriterReported`, reached by `LocalLocks.TwoWritersReached` |
| `Listing.AscendingIffOrderly` | `ContainerListings.FifoOutOfOrder`, `ContainerListings.PagesLoseAPath` |

Two comments in the source
disagree with its code: the one on the first nonce (headhunter/config.go:17 says that 0 and
1 are skipped, `Nonces.FirstNonceIsRootInode` shows that 1 is issued), and the one on the
listing order (fs/api_internal.go:1363-1366 relies on the names' order, which
pending directories do not keep in general: `ContainerListings.FifoOutOfOrder`).

`dafny verify dfyconfig.toml` checks the project.

## Model

| member | source | states |
|---|---|---|
| `Extents.BisectLeft` | inode/file.go:267-271 | the index of the extent that starts at the offset, else of the last one before it, which may be -1 |
| `Extents.SplitKeepsMeaning` | inode/file.go:422-449 | cutting an extent in two moves no byte and changes no segment's live bytes |
| `Extents.NoLiveBytesNoExtent` | inode/inode.go:378-387 | a segment has no live bytes exactly when no extent of positive length lies in it |
| `FileExtentMap.EndsByIffNothingBeyond` | inode/file.go:70-93 | all extents end by a size exactly when no byte from there on is located |
| `FileExtentMap.Cleared` | inode/file.go:403-508 | splitting and pruning leave no byte of the written range located and every other byte where it was |
| `FileExtentMap.PlaceMeaning` | inode/file.go:520-568 | placing the new extent, merged with its neighbour or not, locates exactly its own bytes anew |
| `FileExtentMap.PlaceCounts` | inode/file.go:537-569 | the counters remain the live bytes of every segment when it is placed |
| `FileExtentMap.FoundIffTaken` | inode/file.go:511-518 | after pruning an extent still starts at the offset, the panic, exactly for an empty write onto a place that was taken |
| `FileExtentMap.TakenIffLocated` | inode/file.go:511-518 | on a map of positive lengths a place is taken exactly when its byte is located |
| `FileExtentMap.MissingIsEmpty` | inode/file.go:383-396 | only an empty extent can lack a counter for its segment |
| `FileExtentMap.ExtentMap.IncrementLogSegmentMap` | inode/file.go:373-381 | one segment's counter goes up, from zero if there was none |
| `FileExtentMap.ExtentMap.DecrementLogSegmentMap` | inode/file.go:383-396 | one segment's counter goes down; panics exactly for a segment without a counter and for one that counts less |
| `FileExtentMap.ExtentMap.SplitBefore` | inode/file.go:405-453 | afterwards no extent straddles the start of the write, no byte having moved |
| `FileExtentMap.ExtentMap.Prune` | inode/file.go:454-508 | everything below the end of the write is gone from the tail, the rest and its meaning kept, counters exact; panics exactly when an extent to be deleted has no counter |
| `FileExtentMap.ExtentMap.RecordWrite` | inode/file.go:400-572 | on every map, empty extents or not, exactly the written range gets new sources, the map stays sorted and disjoint, counters stay exact; when it panics, when lengths stay positive and when an extent starts at the offset, each by an if-and-only-if |
| `FileExtentMap.ExtentMap.RecordBytes` | inode/file.go:400-572 | a write that is not empty, on a map of positive lengths, reaches no panic and leaves such a map |
| `FileExtentMap.ExtentMap.SetSizeInMemory` | inode/file.go:95-160 | below the new size every byte keeps its source, from it on nothing is located; counters exact, extents within the size; panics exactly when an extent from there on has no counter |
| `FileExtentMap.ExtentMap.CollectEmptied` | inode/inode.go:378-387 | exactly the segments with no live byte leave the map, the counters of the others stay exact |
| `EmptyWrites.FlushAccountedIff` | inode/inode.go:378-387 | a flush leaves every extent its counter exactly when no empty extent is all there is in its segment |
| `EmptyWrites.Step` | inode/file.go:400-572 | what each step does to maps with empty extents, and when it panics |
| `EmptyWrites.RunSteps` | inode/file.go:383-396 | over every run of steps a missing counter is met only after a flush has stranded an extent; where nothing empty is recorded, or nothing is flushed, never |
| `EmptyWrites.Run` | inode/file.go:574-722 | so over every run of operations, of which all but a write flush at once; where no Wrote is empty, empty writes or not, nothing is stranded and nothing panics |
| `EmptyWrites.EmptyPatch` | inode/file.go:618-695 | an empty patch panics exactly onto a place that is taken, and else strands its extent exactly if it does not go on where the byte before it is and its segment has no byte of the file |
| `EmptyWrites.StrandedByFlush` | fs/api_internal.go:1907-1917 | a file made of an object of five bytes and an empty one panics when it is truncated |
| `ReadPlans.PlanRangeIsMeantRangeIff` | inode/file.go:222-254 | the 64-bit range computed is the range requested exactly when the offset, the length or their sum does not wrap below the size |
| `ReadPlans.WrappedRange` | inode/file.go:231-254 | what is computed for the other requests: a range that runs past the last 64-bit offset, none of it cut off |
| `ReadPlans.LongSuffixIsMisplaced` | inode/file.go:231-236 | the last 20 bytes of a file of 10 are planned as 20 bytes far beyond its end |
| `ReadPlans.BuildPlan` | inode/file.go:256-371 | byte by byte the plan's sources are the map's, empty extents or not, holes as zero fill; a step is empty exactly when an empty extent lies behind a hole inside the range |
| `ReadPlans.GetReadPlan` | inode/file.go:222-371 | the plan covers exactly the bytes requested that the file has, the lengths of its steps add up to the byte count returned, only a request for nothing fails, and when a step is empty |
| `ReadPlans.SourcesLength` | inode/api.go:86-94 | a plan denotes as many bytes as its steps' lengths add up to |
| `ReadCaches.AccessKeepsMostRecent` | inode/file_flusher.go:93-156 | a hit or miss on the cache holding the most recent keys of a history leaves the most recent keys of the longer history |
| `ReadCaches.ReadCache.Unchain` | inode/file_flusher.go:223-231 | an element leaves the list, every next and prev link still mirrored |
| `ReadCaches.ReadCache.Chain` | inode/file_flusher.go:272-279 | an element becomes the most recently used, links mirrored |
| `ReadCaches.ReadCache.Hit` | inode/file_flusher.go:220-239 | the element found is in front, the list is a permutation, and the cache still holds the most recent keys |
| `ReadCaches.ReadCache.PurgeLRU` | inode/file_flusher.go:258-270 | the least recently used line, and no other, leaves list and map |
| `ReadCaches.ReadCache.Miss` | inode/file_flusher.go:251-281 | the new line is in front, at most one other is purged, the line count is never exceeded, and the cache holds the most recent keys |
| `FileBytes.PlanReadsBack` | inode/file.go:222-371 | the bytes a plan denotes are that slice of the file's content |
| `FileBytes.OverlayWrites` | inode/file.go:583-603 | overlaying a range whose bytes are at the end of a segment is writing them into the file |
| `FileBytes.TruncationResizes` | inode/file.go:95-160 | cutting the map is cutting the file; growing it adds zeros, also where bytes were cut off before |
| `FileBytes.GrowthKeepsContent` | inode/file_flusher.go:302-363 | appending to segments changes no file's content |
| `FileInodes.FileInode.OpenSegment` | inode/file_flusher.go:311-339 | a new stream begins under a fresh number and no file's bytes change |
| `FileInodes.FileInode.SendChunk` | inode/file_flusher.go:302-363 | the buffer is at the end of the segment that was open, or of a new one if none was; other segments are as they were, and the segment is left open exactly below the flush size |
| `FileInodes.FileInode.Record` | inode/file.go:589-603 | the recorded bytes are written into the file; the inode stays valid |
| `FileInodes.FileInode.Write` | inode/file.go:574-616 | the file is the old one with the buffer written at the offset, which now lies at the end of what was streamed to the open segment; an empty buffer is an error and changes no byte |
| `FileInodes.FileInode.SetSize` | inode/file.go:697-722 | the file is the old one cut or zero-filled to the size, and is flushed |
| `FileInodes.FileInode.Wrote` | inode/file.go:618-695 | an object put by the client is patched in, or replaces the file; a replacement not starting at 0 is refused and changes nothing; the bytes are there to stay exactly if the object was neither doomed nor emptied by the file and not flushed |
| `FileInodes.FileInode.CloseInFlight` | inode/file_flusher.go:387-413 | the closed stream is an object with the bytes streamed, the file as before |
| `FileInodes.FileInode.DataFlush` | inode/file_flusher.go:365-385 | no stream is left, every object stays, the file as before |
| `FileInodes.FileInode.Flush` | inode/inode.go:370-454 | the inode is clean, its emptied segments are given up for deletion, the file as before |
| `FileInodes.FileInode.DeleteDoomed` | inode/file.go:992-1004 | deleting a segment given up changes no byte of the file |
| `Reading.FetchLine` | inode/file_flusher.go:220-281 | a line, cached or fetched, is that line of the closed segment; every cached line stays so |
| `Reading.ReadLines` | inode/file_flusher.go:205-292 | the bytes assembled line by line are the range asked for |
| `Reading.LoneStep` | inode/file_flusher.go:48-172 | the fast path for one step returns the bytes the step denotes, as the general loop does |
| `Reading.Meanwhile` | inode/file_flusher.go:387-413 | streams that end, are forgotten or are deleted between two steps of a read leave the file as it is; exactly those that can do |
| `Reading.RunSteps` | inode/file_flusher.go:174-299 | the general loop returns the bytes the plan denotes, whatever happens between its steps, and a plan of the file is run to its end |
| `Reading.DoReadPlan` | inode/file_flusher.go:24-300 | zero fill, stream, hit or miss, and whatever happens between the steps: the bytes are those the plan denotes, and the cache stays right |
| `Reading.PlanServed` | inode/file.go:222-371 | every step of a plan of a valid file can be served by a stream or an object that is there |
| `Reading.Read` | inode/file.go:162-191 | the read succeeds and returns the bytes the file has of the range |
| `FileRuns.Background` | inode/file_flusher.go:365-413 | a flush leaves no stream and a clean inode, a tick what it can, and neither changes the file |
| `FileRuns.Step` | inode/file.go:162-722 | one operation or background step does to the file what it does to a byte array, and answers as that would |
| `FileRuns.WroteAgainStep` | inode/file.go:618-695 | an object put before, still there and not on its way out, is taken as if put anew |
| `FileRuns.Run` | inode/file.go:162-722 | so does every run, whatever the order of the steps |
| `FileRuns.EmptiedObjectLost` | inode/file.go:618-695 | an object overwritten and put to use again before a flush is recorded and deleted |
| `Coalescing.Validate` | inode/file.go:789-815 | elements are accepted exactly when they are distinct files with at most one link each |
| `Coalescing.StealPlan` | inode/file.go:839-851 | recording a plan's steps behind what is there extends the map by the plan's sources, holes included |
| `Coalescing.Combine` | inode/file.go:827-855 | the combination locates each byte where the elements in sequence have it |
| `Coalescing.LiveBytesAreLocated` | inode/file.go:373-396 | a segment's live bytes are the number of the file's bytes located in it |
| `Coalescing.JoinedCounts` | inode/file.go:827-855 | the combination has as many bytes in a segment as the elements together |
| `Coalescing.Coalesce` | inode/file.go:777-941 | the content is the concatenation of the elements' contents, each segment's counter is the sum of theirs, and afterwards they count nothing, their extents as they were |
| `Coalescing.CoalescedCountsFit` | inode/file.go:827-941 | the counters the combination is left with are those with which the volume may hand the elements' segments over |
| `LocalLocks.GrantableIff` | dlm/llm.go:200-213 | the guards by which a queued request is granted say that it is compatible with what is held |
| `LocalLocks.ProcessGrantsPrefix` | dlm/llm.go:177-215 | what is granted is the longest prefix of the queue that is compatible with what is held; the rest stays in order |
| `LocalLocks.ProcessSettles` | dlm/llm.go:177-215 | afterwards the head of the queue cannot be granted, and counters, state and list fit what is held |
| `LocalLocks.ProcessKeeps` | dlm/llm.go:177-215 | requests only move from the queue to the holders, in order |
| `LocalLocks.ReleaseCoherent` | dlm/llm.go:298-306 | after a release owners, state and list still fit what is held |
| `LocalLocks.ShiftedOutKeeps` | dlm/llm.go:113-123 | the owner list left behind by the removal has every other entry |
| `LocalLocks.StillListedIff` | dlm/llm.go:113-123 | the caller removed is still in the list exactly when it was the last entry or had another one |
| `LocalLocks.MutualExclusion` | dlm/llm.go:166-215 | one exclusive holder, or shared ones only, or none; stale exactly when there is no owner |
| `LocalLocks.HoldersReported` | dlm/llm.go:137-164 | every actual holder is reported as one |
| `LocalLocks.ReportedWasGranted` | dlm/llm.go:137-164 | whoever is reported was granted the lock since its track was made, and somebody holds it the way asked about |
| `LocalLocks.HeldAfterUnlock` | dlm/llm.go:298-309 | who holds the lock after an unlock, in terms of who held it and who was queued before |
| `LocalLocks.ReportedAfterUnlockIff` | dlm/llm.go:113-164 | when a caller is reported as a holder, a reader or a writer, after its unlock, in terms of the state before it |
| `LocalLocks.WronglyReportedIff` | dlm/llm.go:113-164 | when it is reported as such and does not hold the lock that way, in terms of the state before |
| `LocalLocks.TwoWritersReached` | dlm/llm.go:217-271 | two writers asking one after the other bring about the state in which that happens |
| `LocalLocks.FormerWriterReported` | dlm/llm.go:113-164 | a writer that has gone can be reported as the writer that came after it |
| `LocalLocks.FreeLockHasNoQueue` | dlm/llm.go:177-215 | a stale lock has nobody queued |
| `LocalLocks.BusyIffConflicts` | dlm/llm.go:238-246 | on a settled lock the busy check says that the request is not compatible with what is held |
| `LocalLocks.HeldAfterAsk` | dlm/llm.go:247-270 | a request past the check is held, last, if nobody is queued and it is compatible with what is held, else queued last; nothing else changes |
| `LocalLocks.TryGoesOnIffNobodyQueued` | dlm/llm.go:238-261 | a try past the busy check goes on at once exactly when nobody is queued; a try for writing always does |
| `LocalLocks.GrantsFollowArrivals` | dlm/llm.go:177-261 | of two requests the one queued first is granted first |
| `LocalLocks.LockTrack.ProcessLocalQ` | dlm/llm.go:177-215 | the loop grants what its specification grants |
| `LocalLocks.LockTrack.GrantAndSignal` | dlm/llm.go:166-172 | the request is an owner, in the list, and signaled |
| `LocalLocks.LockTrack.QueueRequest` | dlm/llm.go:249-270 | the request is queued last and goes on at once exactly if granted |
| `LocalLocks.LockTrack.RemoveFromListOfOwners` | dlm/llm.go:113-123 | entries after the caller's first one shift down, the list keeping its length; no panic while the caller holds the lock |
| `LocalLocks.LockTrack.Unlock` | dlm/llm.go:298-311 | one owner fewer, then the queue is processed |
| `LocalLocks.LockManager.CommonLock` | dlm/llm.go:217-271 | busy exactly for a try that is not compatible with what is held, and then nothing changes; otherwise the request is held or queued on the one track the map has; every track stays settled |
| `LocalLocks.LockManager.GoOn` | dlm/llm.go:259-270 | a signaled caller goes on, one waiter fewer |
| `LocalLocks.LockManager.Unlock` | dlm/llm.go:274-315 | the map drops the lock exactly when nobody holds it or waits for it any more |
| `LocalLocks.LockManager.IsLockHeld` | dlm/llm.go:137-164 | true for every actual holder of the kind asked about, and for nobody who was not granted the lock since it came into the map, nor when nobody holds it that way |
| `LockRuns.StepOrderly` | dlm/llm.go:217-315 | a request, a wake-up or an unlock leaves every lock in the map settled and used |
| `LockRuns.LocksExclude` | dlm/llm.go:166-315 | in every state of every run: one writer, or readers, or nobody; counters that fit; every holder reported; nobody queued who could be granted; grants in the order of arrivals |
| `LockRuns.AskedIsThere` | dlm/llm.go:249-270 | a request made is held or queued on the lock's one track, not both |
| `LockRuns.ReportedHasAsked` | dlm/llm.go:137-271 | in every state of every run whoever is reported as a holder has made a request that was granted since the lock came into the map |
| `LockRuns.StrangersNotReported` | dlm/llm.go:137-164 | a caller that has made none is not reported |
| `Nonces.StepSafeIff` | headhunter/api_internal.go:1023-1076 | a fetch, a checkpoint, a failed post, a crash or a restart keeps all issued nonces below the next one and within the recorded reservation; a failed post applied later does exactly if it covers what the volume counts on |
| `Nonces.RunSafe` | headhunter/api_internal.go:1023-1076 | so does every run in which late posts do |
| `Nonces.NoncesNeverRepeatIff` | headhunter/api_internal.go:1023-1076 | in every such run all nonces differ exactly if the reservation step is positive, and then none is 0 |
| `Nonces.LifeIsConsecutive` | headhunter/api_internal.go:1023-1076 | from a restart to the next shutdown nonces are consecutive, whatever posts fail, and a further range is reserved only when the last one is used up |
| `Nonces.ReservingNothingRepeats` | headhunter/api_internal.go:1023-1076 | a run that repeats a nonce when the step is 0 |
| `Nonces.LatePostRepeats` | headhunter/api_internal.go:1060-1065 | for every other step a run that does when a failed post is applied after a later one |
| `Nonces.FirstNonceIsRootInode` | headhunter/api_internal.go:58-68 | the first nonce of a new volume is the root directory's inode number |
| `Nonces.HeadhunterVolume.GetCheckpoint` | headhunter/api_internal.go:458 | a restart goes on from the recorded reservation |
| `Nonces.HeadhunterVolume.FetchNonceWhileLocked` | headhunter/api_internal.go:1023-1076 | succeeds exactly if a nonce is reserved or the header post is done; what it returns is the next one, new and not 0; memory and header change only when a range is used up |
| `Nonces.HeadhunterVolume.PostCheckpointHeader` | headhunter/api_internal.go:596-612 | a checkpoint records the reservation kept in memory; if the post fails the volume stops |
| `CheckpointLayout.UnusedIffHoldsNone` | headhunter/api_internal.go:616-656 | the three trees use no byte of an object exactly when none has a live node in it |
| `CheckpointLayout.CheckpointVolume.PutNode` | headhunter/api_internal.go:841-896 | the node is live, behind what was put into the object being streamed, which ends once it is long enough; its tree's layout stays exact |
| `CheckpointLayout.CheckpointVolume.DiscardNode` | headhunter/api_internal.go:898-946 | discarding a live node never errs, and its tree's layout stays exact |
| `CheckpointLayout.CheckpointVolume.PutTrailer` | headhunter/api_internal.go:565-591 | the object with the trailer is the one being streamed, which holds live nodes, or a new one in no layout |
| `CheckpointLayout.CheckpointVolume.CombinedLayout` | headhunter/api_internal.go:616-642 | the sum of the three layouts is the bytes live nodes take up in each object |
| `CheckpointLayout.CheckpointVolume.CollectEmpty` | headhunter/api_internal.go:616-656 | exactly the objects without a live node of any tree leave the layouts and are deleted |
| `CheckpointLayout.CheckpointVolume.PruneTrees` | headhunter/api_internal.go:511-522 | no discard errs, and exactly the nodes discarded go |
| `CheckpointLayout.CheckpointVolume.PutCheckpoint` | headhunter/api_internal.go:464-659 | live are the old nodes and the new ones without the discarded; deleted are exactly the objects with an entry in a layout and no live node of any tree, so that those left hold live nodes or were begun for a trailer only; the last is exactly when the last node filled its object |
| `CheckpointLayout.TrailerObjectStays` | headhunter/api_internal.go:565-656 | an object begun for a trailer only is not deleted by the checkpoint that makes it useless, nor later: no layout has it |
| `SegmentGc.GatheredInv` | inode/inode.go:370-428 | storing an inode's data, dropping its empty counts and converting its record leaves the volume in order, whatever flush is at work on it besides |
| `SegmentGc.RecordsPutInvIff` | inode/inode.go:431-440 | putting the records a flush has converted does exactly when they are current: what they name is stored, not given up and named by no other, and no inode is marked clean that has changed since |
| `SegmentGc.EndedInv` | inode/inode.go:441-454 | a flush that has no record to put has dropped nothing, so nothing is deleted without a checkpoint to wait for |
| `SegmentGc.LoadedInvIff` | inode/inode.go:204-221 | bringing a record into memory leaves the volume in order exactly when its inode is not being destroyed |
| `SegmentGc.LeftInv` | inode/inode.go:769-771 | a destroyed inode's leaving the cache while its record is still there does |
| `SegmentGc.RecordDeletedInvIff` | inode/inode.go:777 | deleting its record, which gives up all it counted, does exactly when no other record names any of that |
| `SegmentGc.CheckpointTakenInv` | headhunter/api_internal.go:743-777 | so does a checkpoint |
| `SegmentGc.ReapedInv` | inode/file.go:992-1004 | so does deleting a segment after the checkpoint it waited for |
| `SegmentGc.CrashedInv` | headhunter/api_internal.go:1007-1021 | so does a crash, which forgets all flushes and deletions not done and goes back to the checkpointed records |
| `SegmentGc.StolenInv` | inode/file.go:827-930 | so does making the elements' segments the combination's in memory |
| `SegmentGc.StepInvIff` | headhunter/api_internal.go:1131-1167 | every step keeps the volume in order exactly when it is orderly |
| `SegmentGc.RunsAreSafe` | inode/inode.go:347-458 | in every orderly run, flushes, destroys, coalesces, checkpoints and crashes overlapping, no record, current or of the last checkpoint, names a segment whose object is gone |
| `SegmentGc.OrderlyIffInOrder` | inode/inode.go:347-458 | a run is orderly exactly when all its states are in order |
| `SegmentGc.DeletionFollowsCheckpoint` | inode/file.go:992-1004 | between scheduling a deletion, when no record names the segment any more, and doing it there is a checkpoint |
| `SegmentGc.CoalescedElementsHoldNothing` | inode/file.go:924-941 | once a coalesce has put its records each segment of the combination is named and counted by it alone, and destroying an element deletes none |
| `SegmentHistories.CrashRestores` | headhunter/api_internal.go:389-460 | in every run a crash brings back the records as they were when the last checkpoint before it completed; objects and numbers used stay |
| `SegmentHistories.CrashLosesAll` | headhunter/api_internal.go:389-460 | without a checkpoint before it no record is left |
| `SegmentHistories.CountsAreHistory` | inode/inode.go:347-428 | in every state of every run what an inode counts of a segment, if anything, follows from the events alone |
| `SegmentHistories.MemoryIsHistory` | inode/inode.go:204-221 | which inodes are in memory follows from the events alone |
| `SegmentHistories.ObjectsAreHistory` | inode/file_flusher.go:387-413 | so does which objects there are: stored by a close or a gather and not deleted since |
| `SegmentHistories.CheckpointsAreCounted` | headhunter/api_internal.go:743-777 | the count a deletion waits for is that of the checkpoints completed |
| `SegmentHistories.WaitingIsHistory` | inode/file.go:992-1004 | in orderly runs what waits, and for which checkpoint, follows from what was scheduled since the last crash |
| `SegmentHistories.RecordsWereCounted` | inode/inode.go:404-428 | every record, current, checkpointed or about to be put, names exactly the segments of which its inode counted a byte when some flush came to it |
| `SegmentHistories.PutIsConverted` | inode/inode.go:404-440 | a flush undisturbed between its turn at a dirty inode and its put puts exactly what the inode counted at that turn |
| `SegmentHistories.LastCountDecides` | inode/file.go:373-396 | a segment whose last count before the turn of its inode is positive is in the record that is put, one counted zero is not |
| `SegmentHistories.EmptiedIsGivenUp` | inode/inode.go:378-454 | a segment of which a flush finds no byte counted is dropped from its inode's counts and given up when the flush puts its records, whatever happens meanwhile |
| `LockedFlushes.LockedStep` | fs/api_internal.go:2447-2471 | a step on inodes no other operation is at work on is orderly, and flushes find their inodes as they have converted them |
| `LockedFlushes.LockedRunsOrderly` | inode/inode.go:347-458 | so every run in which operations have their inodes to themselves from start to end is orderly and safe |
| `StaleFlushes.GivenUpIsLost` | inode/inode.go:431-440 | once a record that names a segment on its way out is put, a checkpoint and the deletion leave the checkpoint naming an object that is gone |
| `StaleFlushes.MarkedCleanIsLost` | inode/inode.go:437-454 | an inode truncated since its record was converted is marked clean by the put, and its next flush deletes at once what the record names |
| `StaleFlushes.SharedIsLost` | inode/inode.go:777-810 | destroying an inode deletes what another record names |
| `StaleFlushes.TruncationOverlapped` | inode/dir.go:376-395 | a run, orderly up to there, in which a move's flush puts a record after a truncation has given its segment up |
| `StaleFlushes.DestroyOverlapped` | inode/dir.go:405-480 | one in which it brings the record of a destroyed file back |
| `StaleFlushes.TruncationMarkedClean` | inode/dir.go:376-395 | one in which it marks a truncated file clean |
| `InodeVolumes.FlushAlone` | inode/inode.go:347-458 | a flush that has its inodes to itself, whatever else goes on, drops exactly their empty counts, and leaves them clean with records of exactly what is left |
| `InodeVolumes.DestroyAlone` | inode/inode.go:748-820 | a destroy that has its inode to itself leaves neither inode nor record |
| `InodeVolumes.InodeVolume.Meanwhile` | inode/inode.go:347-458 | what other operations do between two steps is a part of the run, exactly the steps that can be done when reached, and none of ours |
| `InodeVolumes.InodeVolume.GatherOne` | inode/inode.go:370-428 | one inode of a flush is one step of the run |
| `InodeVolumes.InodeVolume.GatherRecords` | inode/inode.go:370-428 | the loop gathers each inode of the list once in its turn, whatever others do between |
| `InodeVolumes.InodeVolume.PutInodeRecs` | inode/inode.go:430-444 | what was converted is put if it is anything, else what was dropped goes at once |
| `InodeVolumes.InodeVolume.FlushInodes` | inode/inode.go:347-458 | whatever others do between its steps, on its inodes too, those are its steps in order and what it has dropped waits for a checkpoint after the put; undisturbed, its inodes are flushed |
| `InodeVolumes.InodeVolume.DeleteLogSegmentsAsync` | inode/inode.go:446-454 | each segment waits for the next checkpoint, none else is touched |
| `InodeVolumes.InodeVolume.Destroy` | inode/inode.go:748-820 | whatever others do between its steps, a flush of the inode included, all it counted waits for a checkpoint after the record's deletion; undisturbed, inode and record are gone |
| `InodeVolumes.InodeVolume.SafeIfOrderly` | inode/inode.go:347-458 | as long as all that happened was orderly, each segment a record names has its object |
| `Directories.LinkedCountedIff` | inode/dir.go:99-129 | a link keeps link counts right exactly when the target is no directory that has a parent already |
| `Directories.UnlinkedCountedIff` | inode/dir.go:184-223 | an unlink does exactly when a directory's ".." leads to where it is unlinked from |
| `Directories.MovedCountedIff` | inode/dir.go:278-484 | a move does exactly when a directory moved between directories has ".." leading to the first; also onto another link of the same file |
| `DirectoryRuns.NewVolumeInv` | inode/dir.go:15-84 | a new volume's counts are right and its root names itself twice |
| `DirectoryRuns.WithDirInv` | inode/dir.go:46-60 | a new directory, naming itself once, has link count 1 |
| `DirectoryRuns.LinkedDirInv` | inode/dir.go:99-129 | linking a directory nothing names yet keeps counts and tree |
| `DirectoryRuns.UnlinkedDirInv` | inode/dir.go:184-223 | unlinking a directory by its name keeps counts and tree; the panic for a missing ".." is out of reach |
| `DirectoryRuns.MovedInv` | inode/dir.go:278-484 | a move by ordinary names keeps counts and tree and cannot panic |
| `DirectoryRuns.DestroyedInv` | inode/inode.go:748-820 | destroying an inode that names and is named by itself only keeps counts and tree |
| `DirectoryRuns.SecondLinkMiscounts` | inode/dir.go:99-129 | a second link to a directory of the root miscounts |
| `DirectoryRuns.UnlinkMiscounts` | inode/dir.go:184-223 | so does unlinking it by its own "." |
| `DirectoryRuns.MoveByDotMiscounts` | inode/dir.go:278-484 | so does moving it by its own "." |
| `NameTables.TableSaysAll` | inode/dir.go:46-129 | volumes in order with the same table of ordinary names are the same: "." and "..", kinds and link counts follow from it |
| `NameTables.IsFreeIff` | inode/dir.go:133-160 | a name can be taken exactly if the table has a directory without it; "." and ".." never can |
| `NameTables.HasEmptyDirIff` | fs/api_internal.go:2524-2533 | a directory has two entries exactly if the table has no name in it |
| `NameTables.AllNamedIff` | inode/dir.go:454-461 | an operation leaves every file with a name exactly unless it moves an entry over the last name of another file |
| `NameTables.AlwaysNamedIff` | inode/dir.go:454-461 | so through every run on a new volume |
| `NameTables.FileLeftBehind` | inode/dir.go:454-461 | the file moved over is left behind with link count 0, named by nothing |
| `NameTables.RenameLeavesFile` | inode/dir.go:454-461 | two files created and the one renamed to the other: the other is still there |
| `DirVolumes.DirVolume.Link` | inode/dir.go:133-182 | when it is refused, and what it makes of the volume and of the counts |
| `DirVolumes.DirVolume.Unlink` | inode/dir.go:225-276 | when it is refused, when it panics, and what it makes of the volume and of the counts |
| `DirVolumes.DirVolume.Move` | inode/dir.go:278-484 | when it is refused, and what it makes of the volume and of the counts |
| `DirVolumes.DirVolume.Create` | fs/api_internal.go:265-303 | succeeds exactly for a free name of a directory, else changes nothing; makes a file under the next number with link count 1, and its name is the only change to names and kinds |
| `DirVolumes.DirVolume.Mkdir` | fs/api_internal.go:2027-2075 | succeeds exactly for a free name of a directory, else changes nothing; makes a directory under the next number with link count 2, and its name, "." and ".." are the only changes to names and kinds |
| `DirVolumes.DirVolume.LinkFile` | fs/api_internal.go:814-900 | succeeds exactly for a free name and a file; directories are refused; the name is the only change to names and kinds |
| `DirVolumes.DirVolume.UnlinkFile` | fs/api_internal.go:2817-2880 | removes exactly a file's name, and the file exactly if that was its last; directories are refused |
| `DirVolumes.DirVolume.Rmdir` | fs/api_internal.go:2473-2541 | removes a directory, its name and its own two entries, and nothing else, exactly if it has no others |
| `DirVolumes.DirVolume.Rename` | fs/api_internal.go:2110-2240 | succeeds exactly if the move is possible, else changes nothing; the entry, and the ".." of a directory, are the only changes to names and kinds |
| `DirVolumes.DirVolume.Perform` | fs/api_internal.go:2473-2541 | each operation does to the volume what it does to a table of names, and is refused exactly when that has no place for it |
| `DirVolumes.DirVolume.Run` | fs/api_internal.go:2473-2541 | through every run the volume is that of the table of names, and each link count is the number of entries naming the inode, "." and ".." included |
| `TreeWalks.SiblingsApart` | fs/treewalk.go:99-111 | two entries of a directory lead to parts of the tree with no directory in common: none is walked twice |
| `TreeWalks.TreeWalk.CountEntry` | fs/treewalk.go:92-97 | an entry not counted before is counted once |
| `TreeWalks.TreeWalk.ValidateDirInode` | fs/treewalk.go:69-126 | ends, and counts every entry at or below the directory exactly once |
| `TreeWalks.TreeWalk.CorrectLinkCounts` | fs/treewalk.go:33-55 | exactly the link counts that differ from their tallies are set, and counted |
| `TreeWalks.TreeWalk.ValidateVolume` | fs/treewalk.go:16-67 | tallies are exact, nothing but wrong link counts changes, and another walk would find none |
| `TreeWalks.CorrectedCounts` | fs/treewalk.go:33-64 | after the corrections a walk finds no link count to correct |
| `TreeWalks.AllReached` | fs/treewalk.go:28-31 | on a tree whose directories all have ".." the walk from the root comes to every directory |
| `TreeWalks.NothingToCorrect` | fs/treewalk.go:28-64 | on a volume as the directory operations leave it, if a tree, the first walk finds none to correct |
| `TreeWalks.BuildVolume` | fs/treewalk.go:28-64 | so whatever operations a volume is built by, and its names are those of the table |
| `PathOrder.BetweenHasPrefix` | fs/api_internal.go:1419-1424 | what lies between the prefix and a path that starts with it starts with it |
| `PathOrder.BelowSlashExtends` | fs/api_internal.go:1485-1502 | a name comes between "a" and "a/" only by extending "a" with a byte below the slash |
| `Listing.EmitMembers` | fs/api_internal.go:1357-1522 | the walk emits every path below a directory and nothing else |
| `Listing.EmitAscending` | fs/api_internal.go:1363-1401 | on an orderly tree it emits them in ascending order |
| `Listing.AscendingIffOrderly` | fs/api_internal.go:1391-1401 | it does so on no other tree |
| `Listing.PlainSiblingsOrderly` | fs/api_internal.go:1485-1502 | a tree without sibling directories where one name extends the other by a byte below the slash is orderly |
| `ContainerListings.NothingBeyond` | fs/api_internal.go:1419-1424 | returning at the first path beyond the prefix loses nothing |
| `ContainerListings.BeforeMarker` | fs/api_internal.go:1426-1449 | skipping an entry before the marker that is not the start of it loses nothing |
| `ContainerListings.AwayFromPrefix` | fs/api_internal.go:1481-1483 | skipping a directory away from the prefix loses nothing |
| `ContainerListings.Skipped` | fs/api_internal.go:1447-1449 | an entry nothing of which passes may be left out of the walk altogether |
| `ContainerListings.ReadDir` | inode/dir.go:531-657 | returns the page after the name given, whether there is more, and fails exactly when nothing is left |
| `ContainerListings.ContainerWalk.HandleEntry` | fs/api_internal.go:1410-1519 | one entry, listed, noted for later or pruned, leaves the rest of the listing as it should be |
| `ContainerListings.ContainerWalk.Descend` | fs/api_internal.go:1390-1401 | descending into the directories that are due leaves the rest of the listing as it should be |
| `ContainerListings.ContainerWalk.Refill` | fs/api_internal.go:1368-1382 | paging reads on where it left off, never fails and never comes back empty |
| `ContainerListings.ContainerWalk.RecursiveReaddirPlus` | fs/api_internal.go:1356-1522 | the listing grows by as many of the directory's passing paths, in the order emitted, as there is room for |
| `ContainerListings.MiddlewareGetContainer` | fs/api_internal.go:1339-1531 | on an orderly container the first maxEntries, ascending, of the paths after the marker with the prefix; a full listing is that on no other container; on any, only such paths |
| `ContainerListings.ListingUnique` | fs/api_internal.go:1339-1531 | there is but one such listing |
| `ContainerListings.FifoOutOfOrder` | fs/api_internal.go:1391-1401 | directories "a" and "a-b" with a file each are walked out of order |
| `ContainerListings.NextPage` | fs/api_internal.go:1426-1449 | what is to be listed after a marker is a page and what is to be listed after its last path |
| `ContainerListings.ListByPages` | fs/api_internal.go:1426-1449 | asking for page after page ends, and on an orderly container gives every path with the prefix once, in ascending order |
| `ContainerListings.SiblingsEmit` | fs/api_internal.go:1391-1401 | the order in which the walk emits "a", "a-b" and a file in each |
| `ContainerListings.PagesLoseAPath` | fs/api_internal.go:1426-1449 | there a client that goes on after "a/x" never sees "a-b/y" |

## Left out

- I/O errors, other than failed header posts; timestamps, permissions, streams, statistics and error texts.
- B+Trees, node formats, JSON, the object store's protocol: sorted sequences, maps and byte strings stand for them.
- 64-bit wrap-around, except in the range of a read request: offsets, sizes and nonces are taken to stay below 2^64.
- ReadPlans.GetReadPlan: for requests that do not wrap; `PlanRangeIsMeantRangeIff` says which those are, `WrappedRange` what range is computed for the others.
- FileInodes.FileInode.Write: refuses an empty buffer; that the refusal also breaks the stream of the open segment is not modelled.
- FileInodes.FileInode.Wrote: takes a range that is not empty of an object that is there; empty ones are in `EmptyWrites`.
- FileRuns.Run: one file at a time, its operations one after the other; that segments are not shared between files, and what a flush by a move does that overlaps another operation on the file, is in `SegmentGc` and `StaleFlushes`. A step of a read is not interrupted, only what is between two of them. An object on its way out is not taken; `EmptiedObjectLost` shows what comes of it.
- Coalescing.Coalesce: the entries of the containing directory are not changed here, nor are the types of inodes looked at; that elements were flushed before is a precondition.
- LocalLocks.LockManager.Unlock: for a caller that holds the lock; the panic for one that does not is not modelled.
- ReadCaches.ReadCache.Miss: one hit or miss is one step with a fixed number of lines; two concurrent misses of one key, and the resizing of the cache, are not modelled.
- CheckpointLayout.CheckpointVolume.DiscardNode: a node put in a checkpoint is not discarded in the same one.
- SegmentGc.RunsAreSafe: records are the sets of segments they name; what else a crash, or a record put too late, may leave inconsistent or lose is not modelled.
- SegmentGc.GatheredInv: the turn of one inode in a flush, from its data flush to the conversion of its record, is one step.
- InodeVolumes.InodeVolume.FlushInodes: an inode that has left memory before its turn is passed over, while the code goes on with the copy it points to; a record converted before and put after is modelled. A crash ends the operation, so none comes between its steps.
- DirVolumes.DirVolume.Run: directories are removed, and entries renamed, by names other than "." and ".."; what the others lead to is in `UnlinkMiscounts` and `MoveByDotMiscounts`; that moves make no cycle is not claimed, for the code does not see to it.
- TreeWalks.TreeWalk.ValidateVolume: directories form a tree, which `rank` witnesses; stopping the walk midway and the validation of single inodes are left out.
- ContainerListings.MiddlewareGetContainer: the tree does not change meanwhile; of an entry only its path is listed; the buffer size limit of a directory read, never used here, is left out; on a tree that is not orderly, completeness is not claimed when a marker or a prefix prunes it.
- Flock ranges, RPC, HTTP, FUSE, configuration and the in-flight timers.
- `validateFileExtents`, put-object obstacles, symbolic links other than as files.
