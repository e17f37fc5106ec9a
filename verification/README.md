# A verified model of the Master of Files

The system answers queries over versioned files. **Storage** keeps each `File:Tag` as a list of
blocks that are hard links onto numbered physical blocks, shared between tags by snapshots and by
content deduplication. A **Worker** reads and writes those files through a page cache. **Master**
hands queries to workers, ages their priorities and preempts them. This project models the four
parts in Dafny and proves what each promises, over whole runs and all interleavings.

How the parts are laid out:

- **Block store.** `Disk.dfy` gives every Storage operation as a function from the old disk to the
  new one; `BlockStore.dfy` performs the same operations step by step in a class (bitmap array, block
  files, directories of links, hash index) and proves each method equal to its function.
  `DiskInvariant.dfy`, `StorageSteps.dfy`, `FlushSteps.dfy` and `StorageRuns.dfy` hold the invariant
  and the theorems over runs; `LinkRuns.dfy` keeps the link invariant over all runs of operations that
  return, whatever they share or delete, as long as no COMMIT leaves a move unsaved.
  `StorageLaws.dfy` says of each operation, in terms of the fields of the disk before and after, whom
  it refuses and what it changes. The invariant is kept by an operation *exactly* when a guard that can
  be checked beforehand holds; `GuardsAreExact.dfy` proves that where the guards of TAG and DELETE do
  not hold some later run changes what READ answers (`StoredBlocks.dfy` builds such runs), and
  `StorageLimits.dfy` gives concrete ones, from a fresh format.
- **Locks.** `LockOrder.dfy` is a state machine of any number of Storage threads and their mutexes.
- **Page cache.** `Cache.dfy` gives each step of the internal memory on values; `InternalMemory.dfy`
  performs it on a frame arena, entry objects, page tables, an LRU list and clock bits.
  `CacheInvariant.dfy`, `CacheViews.dfy` and `CacheFiles.dfy` prove page-table consistency and that the
  cache cannot be told from plain byte sequences (`FlatFile.dfy`, `Paging.dfy`). `LruExact.dfy` proves
  LRU exact, `ClockLaws.dfy` which frame CLOCK-M replaces, what is left of its bits and that the page
  just used is spared. `RefusedWrites.dfy` proves exactly which writes stay. `FlushPackets.dfy` says which
  packets a flush may send, `WorkerOverStorage.dfy` that such a packet is a FLUSH of the block store,
  and `WorkerRuns.dfy` has the worker with its block store, pages coming in by READ and going out by
  FLUSH, and proves that over whole runs the two are plain files.
- **Scheduler.** `Scheduler.dfy` has the list operations of Master; `SchedulerRuns.dfy` the state
  machine of all its threads, one step per mutex region or semaphore operation.
- **Interpreter and packets.** `Interpreter.dfy`, `ScriptLaws.dfy` (which lines are instructions, which
  end a query, where a dispatch stops) and `Packet.dfy`.

Numbers and conventions taken from the code: allocation is first-fit from block 1; the "only one
link" test compares `st_nlink` with 1 although a live logical block also has its physical name, so
every write copies; `initial_file:BASE` is recognised ignoring case; integers in packets are 32-bit
two's complement, least significant byte first; the clock scans the classes (R,M) in the order
(0,0), (0,1), (1,0), (1,1).

Where the code departs from what its comments and names promise, the model follows the code and the
difference is stated as a theorem:

- COMMIT clears the bit of a replaced block without looking at its link count
  (`storage/src/operaciones.c:1304-1317`). This is harmless in runs that keep to the guards
  (`StorageSteps.ReplacedBlockIsDropped`) and harmful exactly after a TAG of a source with a block that
  is not an index value (`GuardsAreExact.SnapshotIsolatedIff`, `StorageLimits.EarlySnapshotIsOverwritten`).
- The hash index is never purged, so deleting a COMMITED tag can change another tag's contents at its
  COMMIT: which DELETEs do is `GuardsAreExact.DeleteHarmlessIff`, which COMMITs suffer it
  `StorageRuns.CommitKeepsContentIff` (an example is `StorageLimits.StaleIndexCorruptsCommit`).
- When the index names a block whose file is gone, COMMIT's new link fails, the old one is put back
  and the flag to save BLOCKS is cleared, also for the moves made before
  (`storage/src/operaciones.c:1289-1298`). If no later move sets it again BLOCKS keeps its old value
  although links have moved: exactly then COMMIT breaks the link invariant
  (`StorageSteps.CommitKeepsLinkInvIff`, an example is `StorageLimits.FailedMoveIsUnsaved`), and
  exactly that is excluded in `LinkRuns.LinksAgreeInEveryRun`.
- A FLUSH that returns false has already relinked the pages before the failing one
  (`StorageLimits.RejectedFlushIsVisible`, `FlushSteps.FlushKeepsRunInvIff`).
- A TAG of a tag onto itself locks one mutex twice and waits for itself for ever
  (`LockOrder.TagOntoItselfWaitsForItself`, `LockOrder.SelfWaitNeverEnds`).
- A page of a tag whose FLUSH Storage refuses loses its bytes when it is replaced in the cache, since
  the answer is read and ignored; an explicit FLUSH before marks it clean all the same
  (`CacheViews.EvictKeepsViewsIff`, `CacheFiles.RefusedWriteIsLost`, `CacheFiles.RefusedFlushIsLost`).
  So what is written to a tag is sure to be read back exactly when the tag accepts FLUSH
  (`RefusedWrites.WritesStayIff`).

## Model

| member | source | states |
|---|---|---|
| StorageRuns.StepKeepsRunInvIff | storage/src/operaciones.c:228-2076 | for every operation on any disk in the invariant, the disk afterwards is in the invariant if and only if the operation was admissible: TAG from a source whose blocks are all indexed, FLUSH that fits or changes nothing, DELETE whose blocks stay pinned elsewhere; the other four always |
| StorageRuns.OrdinaryRunIsAdmissible | storage/src/operaciones.c:228-2076 | runs of CREATE, TRUNCATE, WRITE, fitting FLUSH, COMMIT, TAG from COMMITED sources and DELETE of uncommitted tags are admissible throughout |
| StorageRuns.RunKeepsRunInv | storage/src/storage.c:254-301 | every admissible run keeps the invariant, from any disk that has it |
| StorageRuns.AllocatorNeverHandsOutLiveBlock | storage/src/operaciones.c:934-963 | after any admissible run from a fresh format, every linked block but 0 has its bit set and the first-fit search finds a block no tag links and no index entry names |
| DiskInvariant.FormatHasRunInv | storage/src/storage.c:153-301 | a fresh format, for any geometry, satisfies the whole invariant although initial_file:BASE has size 0 and one block |
| DiskInvariant.RefsArePositions | storage/src/operaciones.c:270-402 | under the link invariant the hard links onto a block are exactly the positions of BLOCKS lists that hold its number |
| DiskInvariant.NLinkCountsPositions | storage/src/operaciones.c:344-347 | under the link invariant st_nlink of a block is one, its physical name, plus the number of BLOCKS positions that hold it |
| DiskInvariant.LiveBlockHasTwoNames | storage/src/operaciones.c:919-934 | a live logical block has at least two names, so the one-link test of WRITE never succeeds |
| DiskInvariant.LastName | storage/src/operaciones.c:344-350 | st_nlink is 1 exactly when no BLOCKS list mentions the block |
| StorageSteps.TruncateFreesPrecisely | storage/src/operaciones.c:279-389 | TRUNCATE keeps the common prefix, links new positions to block 0, clears exactly the bits of the blocks whose last logical link it removed, and never block 0's |
| StorageSteps.DeleteFreesPrecisely | storage/src/operaciones.c:1995-2040 | DELETE clears the bits of, and removes, exactly the blocks whose last logical link it removed, never block 0, also when a block repeats in BLOCKS |
| StorageSteps.WriteKeepsRunInv | storage/src/operaciones.c:791-1104 | WRITE keeps the invariant whatever its page, data and outcome |
| StorageSteps.TagKeepsRunInvIff | storage/src/operaciones.c:408-621 | TAG keeps the invariant if and only if it is refused or every block of the source but 0 is an index value |
| StorageSteps.DeleteKeepsRunInvIff | storage/src/operaciones.c:1925-2076 | DELETE keeps the invariant if and only if it is refused, or its target is uncommitted, or every block of its target is also linked by another tag that TRUNCATE, WRITE, FLUSH and COMMIT leave alone |
| StorageSteps.CommitKeepsRunInv | storage/src/operaciones.c:1138-1565 | COMMIT, with its unconditional bit clearing, always keeps the invariant |
| StorageSteps.ReplacedBlockIsDropped | storage/src/operaciones.c:1217-1351 | a block COMMIT exchanges for another is afterwards linked by nobody and not indexed, unless it is block 0 |
| StorageSteps.CommitCanonicalises | storage/src/operaciones.c:1217-1351 | after COMMIT every block of the tag is an index value with the digest its old block had |
| FlushSteps.FlushSucceedsIff | storage/src/operaciones.c:1606-1858 | FLUSH returns true exactly when the tag may be changed, all its pages are in range and there are as many free blocks as pages |
| FlushSteps.FlushKeepsRunInvIff | storage/src/operaciones.c:1840-1858 | FLUSH keeps the invariant if and only if it is refused outright, or succeeds, or has no page in range, or finds no free block |
| FlushSteps.FlushPagesKeepInv | storage/src/operaciones.c:1618-1838 | page by page, FLUSH only uses blocks that were free, counts them exactly, and would leave the invariant if BLOCKS were saved at that point |
| FlushSteps.FlushDelivers | storage/src/operaciones.c:1618-1911 | whatever a FLUSH answers, each position holds the last page taken for it (those in range, as long as there are free blocks) and the others what they held |
| StorageRuns.SnapshotIsolation | storage/src/operaciones.c:545-618 | after TAG A to B, B shows what A showed at that moment, however an admissible run goes on that never names B |
| StorageRuns.StepKeepsOtherViews | storage/src/operaciones.c:934-1070 | no admissible operation on another tag changes a tag's size, state, BLOCKS or bytes |
| StorageRuns.CommittedForever | storage/src/operaciones.c:820-824 | short of deleting it, no admissible run changes the size, BLOCKS or bytes of a COMMITED tag |
| StorageRuns.CommitKeepsContentIff | storage/src/operaciones.c:1217-1351 | on any disk in the link invariant without collisions, COMMIT keeps what READ answers of the tag if and only if every digest of its own blocks that the index binds to an existing block is still the digest of that block; a digest bound to a block without a file changes nothing |
| StorageRuns.CommitPreservesContent | storage/src/operaciones.c:1138-1384 | on any disk in the link invariant whose index is honest and where no two different blocks share a digest, COMMIT changes no byte read from the tag and leaves the index honest, and a second COMMIT changes nothing |
| StorageSteps.CommitKeepsLinkInvIff | storage/src/operaciones.c:1260-1363 | on any disk in the link invariant, COMMIT keeps it if and only if it is refused, or relinks no position, or the last position whose digest is bound to another block is bound to one that has its file (otherwise the flag to save BLOCKS has been cleared) |
| StorageSteps.OneBlockSaves | storage/src/operaciones.c:1289-1363 | on any disk, COMMIT of a tag of one block never leaves a move unsaved, so the link invariant can only be lost by two blocks or more |
| StorageSteps.CommitClearsBitIff | storage/src/operaciones.c:1257-1330 | COMMIT clears the bit of exactly those blocks of BLOCKS whose digest is bound, beforehand or by an earlier entry, to another block that has its file |
| StorageSteps.CommitFreesBlockZeroIff | storage/src/operaciones.c:1299-1317 | block 0, always linked by initial_file:BASE, loses its bit exactly when it is in BLOCKS and its digest is bound to another block that has its file |
| LinkRuns.StepKeepsLinkInvIff | storage/src/operaciones.c:228-2076 | any operation on any disk in the link invariant that returns true or leaves no trace keeps it, if and only if it is not a COMMIT that relinks a position and leaves BLOCKS unsaved |
| LinkRuns.StepKeepsKeptIff | storage/src/operaciones.c:228-2076 | such an operation also keeps every block the index names pinned, if and only if it is not a DELETE that unpins one |
| LinkRuns.LinksAgreeInEveryRun | storage/src/operaciones.c:270-402 | in every state reached from a fresh format by operations that return true or leave no trace, TAG of any source and DELETE of any tag included, where no COMMIT leaves a move unsaved, BLOCKS has ceil(TAMANIO / block size) entries, logical link i points at BLOCKS[i], every linked block has its file, and st_nlink is one plus the positions that hold the block |
| LinkRuns.TidyRunsSaveMoves | storage/src/operaciones.c:1925-1990 | a run whose DELETEs are only of tags that are not COMMITED never leaves a move unsaved, and keeps every block the index names pinned, so the link invariant holds throughout whatever is tagged |
| GuardsAreExact.SnapshotIsolatedIff | storage/src/operaciones.c:545-618 | with a block free, after TAG A to B every ordinary run that does not name B leaves READ of B as it was if and only if every block of A but 0 is an index value; and so for every linked block having its bit set |
| GuardsAreExact.SnapshotBlockIsFreed | storage/src/operaciones.c:1304-1317 | after a TAG of a source with a block that is not an index value, some run of CREATE, TRUNCATE, WRITE and COMMIT that never names B clears the bit of a block B links |
| GuardsAreExact.SnapshotIsRewritten | storage/src/operaciones.c:934-963 | after such a TAG some run that never names B hands a block of B out and changes what READ answers of B |
| GuardsAreExact.DeleteHarmlessIff | storage/src/operaciones.c:1995-2040 | with a block free and no collisions, after DELETE no COMMIT in any ordinary run changes what READ answers, if and only if the target was uncommitted or other tags that do not change link all its blocks; the harm comes from a COMMIT that links to the freed block after it has been given other bytes |
| StorageRuns.CommittedBlocksAreShared | storage/src/operaciones.c:1257-1330 | equal blocks of COMMITED tags (but initial_file:BASE) are one physical block |
| StorageRuns.WriteThenRead | storage/src/operaciones.c:934-1096 | after a WRITE that answers true, READ of that position answers exactly one block, byte j being byte j of the data or 0 past its end; every other position answers as before, and one block fewer is free |
| Disk.Pad | storage/src/operaciones.c:1089-1095 | the data, and after it zero bytes up to the block size |
| Disk.ProtectedIsSpelling | storage/src/operaciones.c:247 | the guard meets exactly the names that write initial_file:BASE with each letter in lower or upper case |
| StorageLaws.TruncateAnswers | storage/src/operaciones.c:240-279 | TRUNCATE answers true exactly when the tag exists, is not COMMITED and is no such spelling; else it leaves no trace |
| StorageLaws.TruncateLaw | storage/src/operaciones.c:279-402 | it records the size asked for, gives exactly the blocks that size needs, the old ones first and then links to block 0, and clears exactly the bits of old blocks to which no link is left |
| StorageLaws.GrownReadsZeroChars | storage/src/operaciones.c:355-379 | in every admissible run from a fresh format, READ of a position TRUNCATE has added answers one block of '0' characters |
| StorageLaws.TagLaw | storage/src/operaciones.c:408-621 | TAG answers true exactly when its source exists, is no spelling of initial_file:BASE and the target is not taken; the copy has the source's size, BLOCKS and links, is not COMMITED, and nothing else changes |
| StorageLaws.ReadLaw | storage/src/operaciones.c:633-781 | READ answers exactly on positions that both BLOCKS and TAMANIO reach, with one block's worth of the bytes of the block listed there |
| StorageLaws.WriteAnswers | storage/src/operaciones.c:791-963 | WRITE answers true exactly when the tag exists, is not COMMITED and is no spelling of initial_file:BASE, has that position, and a block from 1 on is free |
| StorageLaws.WriteLaw | storage/src/operaciones.c:934-1096 | the position is then linked to the lowest free block, which holds the data and zero bytes after it; nothing else changes |
| StorageLaws.OneNameIsOverwritten | storage/src/operaciones.c:919-933 | only a position whose link leads to a block with one name is written in place, the data and its zero bytes replacing the front of the file |
| StorageLaws.FlushRefused | storage/src/operaciones.c:1592-1615 | FLUSH of a tag that does not exist, is COMMITED or is a spelling of initial_file:BASE answers false and leaves no trace |
| StorageLaws.FlushAnswers | storage/src/operaciones.c:1606-1858 | any other FLUSH answers true exactly when the tag has every position named and as many blocks from 1 on are free as there are pages |
| StorageLaws.FlushedPagesRead | storage/src/operaciones.c:1618-1911 | after it READ gives at each position the data of the last page taken for it, and elsewhere what it gave before; when the answer is true all pages were taken |
| StorageLaws.CommitAnswers | storage/src/operaciones.c:1481-1565 | COMMIT answers true exactly when the tag exists and is no spelling of initial_file:BASE, changes nothing on one already COMMITED, and else marks it and changes no other tag, no size and no block file |
| StorageLaws.CommitIndexLaw | storage/src/operaciones.c:1250-1351 | the index keeps its entries, binds every digest of the tag (of one block's worth of bytes), and a new one to the first position that has it |
| StorageLaws.CommitLinksLaw | storage/src/operaciones.c:1257-1300 | each position ends linked to the block its digest is bound to, if that has its file, and else where it was |
| StorageLaws.CommitBitsLaw | storage/src/operaciones.c:1299-1330 | the bits cleared are exactly those of blocks some position was linked away from |
| StorageLaws.CommitSavesLaw | storage/src/operaciones.c:1289-1363 | BLOCKS is saved as the links are exactly when the last position whose digest is bound to another block is bound to one with its file; else it keeps its old value |
| StorageLaws.DeleteAnswers | storage/src/operaciones.c:1925-1990 | DELETE answers true exactly when the tag exists and is no spelling of initial_file:BASE; else it leaves no trace |
| StorageLaws.DeleteLaw | storage/src/operaciones.c:1995-2076 | it removes the tag and, with their bits, exactly the blocks of its BLOCKS that nobody links any more; no other block, tag or index entry changes |
| StorageLaws.FormatLaw | storage/src/storage.c:153-301 | a fresh format takes block 0 alone, fills it with '0' characters and all others with zero bytes, and has one tag, initial_file:BASE, COMMITED, of size 0, with block 0 |
| BlockStore.Store.CreateFile | storage/src/operaciones.c:63-132 | answers true exactly when both names are non-empty and the tag does not exist, and then adds it with no bytes, no blocks and no links, not COMMITED |
| StorageRuns.FlushThenRead | storage/src/operaciones.c:1575-1915 | FLUSH then READ gives each position its last page, the old bytes elsewhere |
| StorageRuns.ReadMatchesView | storage/src/operaciones.c:633-781 | READ through the link answers the viewed bytes exactly on the positions the tag has |
| StorageLimits.EarlySnapshotIsOverwritten | storage/src/operaciones.c:1304-1317 | a run from a fresh format in which a snapshot of an uncommitted tag ends up showing the byte of an unrelated tag |
| StorageLimits.StaleIndexCorruptsCommit | storage/src/operaciones.c:1995-2040 | a run in which DELETE of a COMMITED tag makes a later COMMIT of another tag replace its byte, without a collision |
| StorageLimits.RejectedFlushIsVisible | storage/src/operaciones.c:1840-1858 | a FLUSH that returns false whose first page READ already shows, through a block BLOCKS does not name |
| StorageLimits.CommitCanFreeBlockZero | storage/src/operaciones.c:1304-1317 | COMMIT can clear the bit of block 0 while initial_file:BASE links it |
| StorageLimits.FailedMoveIsUnsaved | storage/src/operaciones.c:1289-1363 | a run in which every operation returns true and COMMIT relinks the first block of a tag, cannot relink the second and saves no BLOCKS, so that BLOCKS names block 0 where the link leads to block 1 |
| BlockStore.Store.constructor | storage/src/storage.c:153-301 | the formatting loops leave exactly the format disk |
| BlockStore.Store.FreeBlock | storage/src/operaciones.c:29-53 | clears the bit of one block, if it is in range and set |
| BlockStore.Store.Allocate | storage/src/operaciones.c:934-963 | sets and answers the first clear bit from 1 on, or changes nothing and answers -1 |
| StorageSteps.CreateLinks | storage/src/operaciones.c:63-132 | CREATE keeps the link invariant and the links of every tag, the new one having none |
| BlockStore.Store.TruncateFile | storage/src/operaciones.c:228-402 | link by link, with a bit freed at each last unlink, the loops leave the disk of the closed form, in the link invariant; true exactly when the tag exists, is not COMMITED and is no spelling of initial_file:BASE |
| BlockStore.Store.TagFile | storage/src/operaciones.c:408-621 | copying metadata and links one at a time leaves the disk of TagFrom; true exactly when the source exists and is no spelling of initial_file:BASE and the target is not taken |
| BlockStore.Store.ReadBlock | storage/src/operaciones.c:633-781 | answers what Read says |
| BlockStore.Store.WriteBlock | storage/src/operaciones.c:791-1104 | allocate, copy, relink, save, overwrite and pad with zero bytes amounts to Write; true exactly when the tag exists, is not COMMITED, is no spelling of initial_file:BASE, has the position, and a block from 1 on is free |
| BlockStore.Store.FlushFile | storage/src/operaciones.c:1575-1915 | reserving and relinking all pages, then saving BLOCKS and writing the bytes, amounts to the page-by-page Flush, failures included; a tag that is missing, COMMITED or a spelling of initial_file:BASE is refused without a trace |
| BlockStore.Store.CommitTag | storage/src/operaciones.c:1138-1565 | the deduplication loop, with its unlink, link, restored link and flag, and the state change amount to learning every digest first, moving every link that can be moved and saving BLOCKS if the last move succeeded; the link invariant is kept exactly when no move is left unsaved; true exactly when the tag exists and is no spelling of initial_file:BASE |
| BlockStore.Store.DeleteTag | storage/src/operaciones.c:1925-2076 | unlinking everything and then releasing block by block amounts to Delete; true exactly when the tag exists and is no spelling of initial_file:BASE |
| BlockStore.Store.Execute | storage/src/operaciones.c:228-2076 | any operation leaves the disk and answer of its function; on one that returns the link invariant is kept exactly when it is not a COMMIT that leaves a move unsaved, and from the run invariant that is kept exactly when the operation was admissible |
| BlockStore.DedupClosedForm | storage/src/operaciones.c:1217-1363 | after i turns the deduplication loop has the index, BLOCKS, links, bits and flag of the closed form, failed links included |
| LockOrder.OperationsAreOrdered | storage/src/operaciones.c:422-456 | on every path through every operation (TAG with distinct names) locks are taken in strcmp order of file names, then hash index, then bitmap, the dictionary lock alone |
| LockOrder.StrLessIsFirstDifference | storage/src/operaciones.c:439-452 | the order of file locks is decided where the names first differ: the one that has ended, or has the smaller character there, comes first |
| LockOrder.PathTakes | storage/src/operaciones.c:1158-1383 | how often each path takes each lock while holding which others: the dictionary alone, the tag's mutex once, under it the bitmap as often as blocks change hands, for COMMIT the hash index and the bitmap also under that, for TAG the second mutex under the first |
| LockOrder.LockNameIsOneKey | storage/src/operaciones.c:2087 | tags whose file names have no '>' share a mutex only when they are the same |
| LockOrder.OneHolder | storage/src/operaciones.c:2086-2107 | in every reachable state, TAGs having two distinct locks, a lock has one holder at most |
| LockOrder.NoDeadlock | storage/src/operaciones.c:2086-2107 | no reachable state of any number of threads, TAGs having two distinct locks, has a circle of waiting threads |
| LockOrder.AlwaysProgress | storage/src/operaciones.c:1158-1383 | while some thread has work left, some thread can move, TAGs having two distinct locks |
| LockOrder.DeadlockFreeIff | storage/src/operaciones.c:422-456 | whatever operations are allowed, no reachable state has a circle of waiting threads if and only if no TAG is allowed whose two lock names are equal |
| LockOrder.OrderedIff | storage/src/operaciones.c:422-456 | a path takes its locks in the order if and only if it is not such a TAG |
| LockOrder.TagOntoItselfWaitsForItself | storage/src/operaciones.c:454-456 | from any reachable state with its locks free, such a TAG gets to a state where its thread waits for itself |
| LockOrder.SelfWaitNeverEnds | storage/src/operaciones.c:454-456 | a thread that waits for itself does so still after any step of any thread |
| CacheFiles.CacheIsInvisible | worker/src/memoria.c:226-390 | over any run of READ, WRITE and FLUSH on tags that accept FLUSH, under either algorithm and any number of frames, the replies are those of one plain byte sequence per tag |
| CacheFiles.FramesDoNotMatter | worker/src/memoria.c:413-440 | two fresh workers that differ in frames and algorithm give the same replies |
| CacheFiles.ReadIsSlice | worker/src/memoria.c:291-390 | READ of any offset and length answers exactly that slice, or fails when the file ends before it, and changes no byte anyone sees |
| CacheFiles.WriteIsPatch | worker/src/memoria.c:291-390 | WRITE succeeds exactly when the file reaches that far and replaces exactly the bytes of its range that the file has, and nothing of other tags |
| CacheFiles.ReadGivesBytes | worker/src/memoria.c:291-390 | READ of some bytes succeeds exactly when the file has the page of the last one, and gives as byte x of the file byte x mod page size of page x / page size as the worker sees it |
| CacheFiles.WriteSetsBytes | worker/src/memoria.c:291-390 | after a WRITE the worker sees there the byte given for it, if there is one, and else the old one |
| CacheFiles.FlushMakesDurable | worker/src/memoria.c:589-660 | after an accepted FLUSH Storage holds every page as the worker sees it |
| CacheFiles.RunKeepsConsistent | worker/src/memoria.c:226-285 | over any run, failed loads and refused flushes included, no page is in two frames, the LRU list names each resident page once and the clock's M bits equal the dirty flags |
| CacheFiles.RefusedWriteIsLost | worker/src/memoria.c:181-194 | a WRITE to a tag that refuses FLUSH succeeds in memory and is gone after the next page is brought in |
| CacheFiles.RefusedFlushIsLost | worker/src/memoria.c:620-660 | after a FLUSH of it, which Storage refuses, the page is marked clean, still shows the byte, and is gone after the next page is brought in |
| RefusedWrites.NothingWrittenStays | worker/src/memoria.c:53-223 | in every consistent memory, under either algorithm and after any history of requests, some READs of other pages make READ of any page of a tag that refuses FLUSH answer the block Storage had at first, given as many other stored pages as frames |
| RefusedWrites.PushOut | worker/src/memoria.c:114-223 | from every consistent memory READs of other pages, as many as there are frames to choose from, push a given page out, under LRU and under CLOCK-M |
| RefusedWrites.WritesStayIff | worker/src/memoria.c:181-194 | in a memory that has lost nothing, every WRITE to a tag is seen by all READs of every run that follows if and only if Storage accepts its FLUSH, given as many other stored pages as frames |
| CacheInvariant.LoadIsConsistent | worker/src/memoria.c:226-285 | a load keeps page-table consistency, brings the page in exactly when Storage has it, and leaves a free frame when it fails |
| CacheInvariant.EvictIsConsistent | worker/src/memoria.c:53-223 | replacing a page with all frames taken keeps consistency and frees the victim's frame |
| CacheViews.EvictKeepsViewsIff | worker/src/memoria.c:53-223 | in every consistent memory, replacing a page keeps what the worker sees if and only if the victim equals Storage's block, or is modified and its tag accepts FLUSH |
| CacheViews.EvictWritesBack | worker/src/memoria.c:53-223 | a clean victim costs no flush; with a modified one all dirty pages of its tag are sent, become clean and, if accepted, are Storage's blocks; only the victim leaves its frame |
| CacheViews.UseKeepsViews | worker/src/memoria.c:226-285 | bringing a page in, with any eviction and write-back, changes no byte the worker sees and succeeds exactly on the pages Storage has |
| CacheViews.WriteBackDelivers | worker/src/memoria.c:589-660 | a flush leaves no dirty page of its tag; accepted, Storage holds what the worker sees of it; refused, Storage is unchanged |
| CacheViews.PutChangesView | worker/src/memoria.c:344-362 | storing bytes in a resident page changes the view of that page there and of no other |
| Cache.LowestWithin | worker/src/memoria.c:133-175 | the frame picked is the first, going round from the pointer, of the lowest (R,M) class among those looked at |
| ClockLaws.VictimLaw | worker/src/memoria.c:133-175 | going round from the pointer, the frame replaced is the first with R and M clear; if there is none, the first with R clear; if none, the first with M clear; and else the one at the pointer |
| ClockLaws.SweepLaw | worker/src/memoria.c:133-222 | afterwards no R bit has changed if R and M of the victim were clear, those of the frames before it are clear if only M was set, and all are otherwise; the pointer is just after the victim, which has neither bit |
| ClockLaws.UseOfResident | worker/src/memoria.c:313-346 | using a resident page sets the R bit of its frame and changes no other bit, not the pointer and nothing else |
| ClockLaws.UseSetsBit | worker/src/memoria.c:344-346 | a use that ends with the page resident leaves the R bit of its frame set |
| ClockLaws.UseOfAbsent | worker/src/memoria.c:226-285 | a page brought in goes, with Storage's bytes, R set and M clear, into the lowest free frame, pointer and other R bits as they were, or when there is none into that of the page replaced |
| ClockLaws.UseKeepsOthers | worker/src/memoria.c:226-285 | every other frame keeps its page, whether or not Storage has the one asked for |
| ClockLaws.SparedByNextLoad | worker/src/memoria.c:133-175 | a page whose R bit is set stays in its frame through the next load, whatever it loads, while some other R bit is clear |
| ClockLaws.LastUsedIsSpared | worker/src/memoria.c:291-390 | after a READ or WRITE that succeeds, the page with its last byte is in a frame with R set, and is not the next one replaced while some other R bit is clear |
| LruExact.LruListIsExact | worker/src/memoria.c:18-108 | from a fresh memory, after any requests that all succeed, the LRU list and the resident set are exactly the min(frames, distinct) most recently used pages in recency order |
| LruExact.LruIsRecency | worker/src/memoria.c:29-38 | the list kept by moving to the end and dropping the head is the last n of the distinct pages by recency, for every history |
| LruExact.RecentIsByLastUse | worker/src/memoria.c:29-38 | the recency order lists each page used, once, in the order of its last use |
| LruExact.ResidentSetsAreNested | worker/src/memoria.c:53-108 | of two fresh memories, after the same requests the one with more frames has every page resident that the other has |
| LruExact.LoadsAreMisses | worker/src/memoria.c:316-321 | the loads a fresh memory makes over a run of requests that succeed are the misses of its history of page uses |
| LruExact.MoreFramesNeverMoreLoads | worker/src/memoria.c:316-321 | a memory with more frames never makes more loads on the same requests |
| LruExact.SuccessIgnoresFrames | worker/src/memoria.c:291-390 | whether all requests of a run succeed does not depend on the number of frames |
| InternalMemory.Memory.constructor | worker/src/memoria.c:413-440 | the arrays built stand for the fresh memory and are consistent; the LRU list is empty, the pointer at 0 and no R or M bit set |
| InternalMemory.Memory.FirstFreeFrame | worker/src/memoria.c:43-48 | the lowest free frame, or -1 when all are taken |
| InternalMemory.Memory.FindPage | worker/src/memoria.c:18-39 | finds the entry exactly when the page is resident and, under LRU, makes it the most recently used |
| InternalMemory.Memory.FlushModified | worker/src/memoria.c:589-660 | the loop over the page table and the packet it sends amount to the write-back, and the packet lists exactly the dirty pages of the tag, once each, with the bytes of their frames |
| InternalMemory.Memory.ApplyLru | worker/src/memoria.c:53-108 | with all frames taken frees the frame of the least recently used page, as Evict says |
| InternalMemory.Memory.ChooseVictim | worker/src/memoria.c:133-175 | the four scans always find a frame, the first of the lowest class present on entry, leave the pointer just after it and the R bits as specified |
| InternalMemory.Memory.ApplyClockM | worker/src/memoria.c:114-223 | with all frames taken amounts to Evict; with a free frame uses it and only moves the pointer |
| InternalMemory.Memory.MarkReferenced | worker/src/memoria.c:344-346 | sets the R bit of the page's frame and no other |
| InternalMemory.Memory.UsePage | worker/src/memoria.c:313-346 | finds the page or loads it, as Use says, and under CLOCK-M leaves the R bit of its frame set |
| InternalMemory.Memory.LoadPage | worker/src/memoria.c:226-285 | amounts to Load and answers the frame, or -1 exactly when Storage lacks the block |
| InternalMemory.Memory.ReadAccess | worker/src/memoria.c:291-390 | the page loop leaves the memory and answers the bytes Read says |
| InternalMemory.Memory.WriteAccess | worker/src/memoria.c:291-390 | the page loop leaves the memory and answers what Write says, failures half-way included |
| InternalMemory.Memory.Execute | worker/src/memoria.c:291-660 | any request leaves the memory and reply of Serve and keeps tables, frames, list and bits in agreement |
| FlatFile.PageBoundHolds | worker/src/memoria.c:297-312 | the pages an access has to go through end at the page of its last byte, so the second loop guard never ends it early |
| Paging.ReadFromReadsPages | worker/src/memoria.c:312-383 | over any store that serves pages, the loop reads page by page what the file holds |
| WorkerRuns.WorkerAndStoreAreFiles | worker/src/memoria.c:226-390 | a fresh worker that loads pages by READ of a block store in the run invariant and sends its dirty pages to it by FLUSH, in whatever order its page tables list them, over any run of READ, WRITE and FLUSH that leaves the store n blocks for each page it touches: its replies are those of plain byte sequences and its memory is that of the cache alone; the store has accepted every FLUSH the worker has sent, is what these FLUSHes make of the first store, and serves what the memory takes it to serve |
| WorkerRuns.FlushedFileIsInTheStore | worker/src/memoria.c:589-660 | after any such run that ends with a FLUSH of a tag, READ of the store the worker has been talking to answers exactly the blocks of the plain file |
| WorkerRuns.UseIsBacked | worker/src/memoria.c:226-285 | bringing a page in does to the memory what it does in the cache alone, leaves the store behind the memory, and has sent to it nothing, or, when a modified victim had to go, exactly the one FLUSH of the dirty pages of its tag, at most n of them, which was accepted |
| WorkerRuns.FrameOrderPacks | worker/src/memoria.c:600-640 | packets in the order of the frames are such packets: they list the dirty pages of the tag, once each |
| WorkerRuns.RunIsCache | worker/src/memoria.c:226-390 | the same over whole runs, from any worker whose store is behind its memory |
| FlushPackets.PacketDelivers | worker/src/memoria.c:600-640 | any packet that lists the dirty pages of a tag with the bytes of their frames, in any order, leaves in Storage what the write-back of the cache says |
| FlushPackets.PacketFits | worker/src/memoria.c:600-640 | such a packet that lists no page twice has no more pages than the memory has frames |
| CacheFiles.RunMirrors | worker/src/memoria.c:226-390 | after any run of READ, WRITE and FLUSH the worker sees in each tag what the plain byte sequence holds |
| WorkerOverStorage.WriteBackIsFlush | storage/src/operaciones.c:1575-1915 | any packet listing the dirty pages of a tag, flushed to the block store with room for it, leaves the store serving exactly what the cache believes it serves |
| WorkerOverStorage.FlushDelivers | storage/src/operaciones.c:1618-1911 | a fitting FLUSH changes what is served on the packet's pages only, in order, and refuses the same tags as before |
| SchedulerRuns.NoLostWakeups | master/src/master.c:1274-1300 | in every interleaving of any number of threads, queue length is semaphore value plus threads between enqueue and post plus threads between wait and pop, so a thread past sem_wait finds a query |
| SchedulerRuns.QueriesAreConserved | master/src/master.c:571-801 | in every interleaving each admitted query is in exactly one of arriving, queue, one thread's hands, running list or finished, at most once in each list, and no two running queries share a worker |
| SchedulerRuns.StepKeepsMasterInv | master/src/master.c:245-279 | every step of every thread keeps the semaphore account, conservation and the agreement of running list and serving threads |
| SchedulerRuns.ThreadsAreNeverStuck | master/src/master.c:1274-1310 | in the invariant every worker thread can take its next step, but for a wait on a zero semaphore |
| SchedulerRuns.NoOvertaking | master/src/master.c:1383-1400 | a query aged to priority 0 (any query under FIFO) at index k of the ready queue is dispatched within k + 1 dispatches, whatever else happens |
| SchedulerRuns.StepDoesNotOvertake | master/src/master.c:349-355 | one step either dispatches such a query or leaves it at its priority, one place further on for each dispatch |
| SchedulerRuns.PopTakes | master/src/master.c:1291-1299 | the step that dispatches takes the head of the queue under FIFO and otherwise the first query of the smallest priority number, and the queue loses that position and no other; of an empty queue nothing is taken |
| SchedulerRuns.StepChangesQuery | master/src/master.c:349-355 | a step lowers a query's priority, by one, only if it is the tick of its own timer while READY and above 0; only the step that makes it READY again stores a program counter, the reported one; each change of estado and worker belongs to one kind of step |
| SchedulerRuns.PriorityCountsTicks | master/src/master.c:332-373 | in every interleaving a query's priority is the one it came with less one for each tick of its timer since, and never below 0 by ticks |
| SchedulerRuns.CounterIsLastReported | master/src/master.c:773-801 | in every interleaving the program counter kept for a query is the last one its worker reported, 0 before any |
| SchedulerRuns.StepKeepsEstados | master/src/master.c:773-790 | every step keeps: READY while arriving, queued, or between queue and running list, RUNNING from there until its worker reports, EXIT at the end |
| SchedulerRuns.OnlyWaitingQueriesAge | master/src/master.c:346-355 | in every interleaving no query on the running list or finished has its priority lowered |
| Scheduler.FirstLowest | master/src/master.c:1383-1400 | the index is of the first query among those of smallest priority |
| Scheduler.Lists.TakeLowest | master/src/master.c:1383-1400 | the scan removes and answers that query |
| Scheduler.Lists.TakeNext | master/src/master.c:1291-1299 | under FIFO answers the head and leaves the rest; under PRIORIDADES answers the query at a position with no smaller priority number anywhere and none as small before it, and the queue loses exactly that position |
| Scheduler.Lists.RemoveRunning | master/src/master.c:1350-1357 | removes the first entry with that id, if any |
| Scheduler.Lists.MustPreempt | master/src/master.c:377-402 | preempts exactly when every worker is busy and some running query has a larger priority number, and then the first with the largest |
| Interpreter.PreemptionIsInvisible | worker/src/query_interpreter.c:19-88 | whatever the interrupts, the instructions decoded over all dispatches are exactly the script's in order up to END or a malformed one, each once, in at most n + 1 dispatches |
| Interpreter.DispatchDecodesStretch | worker/src/query_interpreter.c:92-244 | one dispatch decodes a stretch from its program counter and either ends the query or reports where to resume |
| Interpreter.ScriptFile.GetLine | worker/src/query_interpreter.c:164-184 | answers the next line trimmed and stands after it, or end of file |
| Interpreter.ScriptFile.NextInstruction | worker/src/query_interpreter.c:156-190 | skips blank and comment lines and answers the next instruction of the script, which is not empty, does not start with '#' and has no space at either end |
| Interpreter.ScriptFile.Fetch | worker/src/query_interpreter.c:92-244 | reopened after a preemption, skips exactly the instructions done and answers the one at the program counter, or END; never a comment, an empty line or one with a space at either end |
| ScriptLaws.BlankAndCommentLines | worker/src/query_interpreter.c:156-190 | a line of white space, followed by nothing or by '#' and anything, put in front of a script leaves its instructions as they were |
| ScriptLaws.InstructionLines | worker/src/query_interpreter.c:164-190 | a line not starting with '#', put in front with any white space around it, adds exactly that line, without the white space |
| ScriptLaws.OnlyLine | worker/src/query_interpreter.c:164-184 | the last line of a script need not end with a newline |
| ScriptLaws.InstructionsAreBare | worker/src/query_interpreter.c:156-190 | no instruction is empty, starts with '#' or has a space at either end |
| ScriptLaws.WordIs | worker/src/query_interpreter.c:248-262 | the first word of a line goes up to the first place with a blank, the end of the line, or only white space before an inline comment |
| ScriptLaws.EndLaw | worker/src/query_interpreter.c:530 | a line ends the query exactly when that word is END, in letters of either case |
| ScriptLaws.ProgramLaw | worker/src/query_interpreter.c:19-88 | what a query decodes is the script up to its first END or malformed line, and when there is none all of it and an END |
| ScriptLaws.DispatchLaw | worker/src/query_interpreter.c:19-88 | a dispatch decodes from its program counter up to the first END, malformed line, end of file, or instruction after which an interrupt is found, and reports just that |
| Interpreter.Cycle | worker/src/query_interpreter.c:19-88 | the fetch-decode-execute loop amounts to one dispatch |
| Interpreter.RunQuery | master/src/master.c:773-801 | re-sending the reported program counter until the query ends decodes the program |
| Packet.RoundTrip | utils/src/paquete.c:41-142 | receiving a serialized packet gives the code and the same items and takes exactly its bytes |
| Packet.ReceivedOnlyIfSent | utils/src/paquete.c:101-142 | a message is received only from the bytes that sending it puts on the wire |
| Packet.StreamRoundTrip | utils/src/paquete.c:101-166 | any concatenation of packets is decoded in order |
| Packet.WireHeader | utils/src/paquete.c:41-64 | on the wire come the operation code and the size of what follows, each in four bytes, least significant first |
| Packet.WireItems | utils/src/paquete.c:30-38 | then each item, right after its length in four bytes |
| Packet.CutShort | utils/src/paquete.c:101-166 | a packet cut short never yields a message: nothing received is a closed connection, a missing size or part of the body gives NULL, and a part of a number leaves the code with bytes it did not get |
| Packet.Outgoing.Add | utils/src/paquete.c:30-38 | appends length and bytes to the growing buffer |
| Packet.Outgoing.Serialize | utils/src/paquete.c:41-64 | the bytes sent are code, size and body |
| Packet.ReceivePacket | utils/src/paquete.c:101-142 | two reads, a buffer and the parse loop amount to Receive, and the loop ends |

## Left out

- Paths: names containing `/` or `:` (clashes of directory names, and of `file:tag` keys in the page tables and of lock names) and an empty tag as TAG target; the interpreter splits names at `:`.
- Failing system calls (`link`, `unlink`, `fopen`, `malloc`, `send`), except the `link` of COMMIT to a block without a file, which is modelled; logging, delays and configuration files.
- Negative sizes in TRUNCATE, negative offsets in READ and WRITE, and integer overflow near 2^31 in sizes.
- The branch of WRITE and FLUSH for a block with a single name: it is in `Disk.Write` (`StorageLaws.OneNameIsOverwritten`) and `Disk.FlushPage`, and the methods assert that it is not taken (`DiskInvariant.LiveBlockHasTwoNames`, `FlushSteps.FlushSeesTwoNames`).
- FLUSH packets with pages that are not one block long: workers send whole frames; and, for the class methods, operations on a disk on which a FLUSH has failed half-way or a COMMIT has left a move unsaved, since they require the link invariant (the functions in `Disk.dfy` do not).
- Starting Storage on an existing file system (FRESH_START=FALSE).
- MD5: an uninterpreted function; where its collisions matter the absence of collisions is a hypothesis.
- BlockStore.Store.Execute: operations run one at a time; interleavings of two operations inside Storage are covered only as far as locks go, in LockOrder.
- LockOrder.NoDeadlock: DELETE racing with another operation on the same key, where a mutex is destroyed while in use, is not modelled; a mutex is identified by its name.
- GuardsAreExact.SnapshotIsolatedIff: asks for a free block; on a full disk whether harm can follow depends on which tags can be shortened or deleted first.
- GuardsAreExact.DeleteHarmlessIff: asks for a free block too, and for no collisions.
- CacheViews.EvictKeepsViewsIff: a tag either accepts or refuses a FLUSH as a whole; a swap flush that Storage rejects half-way for lack of free blocks is not modelled in the cache, and `WorkerOverStorage.WriteBackIsFlush` asks for enough free blocks.
- RefusedWrites.WritesStayIff: asks for as many other stored pages as the memory has frames; with fewer, a modified page may never have to be replaced.
- WorkerRuns.WorkerAndStoreAreFiles: the run is asked to leave Storage one free block per frame for each page touched, which is enough for every swap flush but more than some runs need.
- Cached pages after TRUNCATE or DELETE of their tag, and several workers caching one tag: the code does not invalidate, so there is nothing to keep.
- InternalMemory.Memory.ReadAccess: READ and WRITE share one function with a flag in the code; here each has its own loop, and the memory copies are single assignments.
- Fields of page entries that nothing reads (`ultimo_acceso`, the entry's own `bit_referencia`), and a memory with no frames at all.
- SchedulerRuns.QueriesAreConserved: disconnections of query controls and workers are not modelled; the preemption request itself changes no shared state, only the later program counter update does.
- Interpreter.PreemptionIsInvisible: instructions that fail at execution (the storage error flag) and the splitting of instruction arguments are not modelled; which lines are malformed is a parameter.
- Packet.ReceivePacket: item lengths that point outside a received body, which the code reads regardless, are answered as `Undefined`.
- Sockets, thread creation, the query control process, the `main` files and the message dispatch tables: plumbing without a property of their own.
