# Proofs about the flexclone ext4 module

A Dafny model of the parts of this ext4 fork where many cases meet, with proofs of what those parts
promise. `dafny verify dfyconfig.toml` checks everything.

Six parts of the code are modelled.

1. **Extent status tree and cluster reservations** (`extents_status.c`). The red-black tree is its
   in-order sequence, and every descent looks at an arbitrary node of a shrinking window, so results
   hold for any shape of the tree. The tree stands for a partial map from blocks to status and physical
   block. Insertion (merging with either neighbour), removal (splitting, trimming, erasing), caching and
   lookup are proved to change that map on exactly the range given and nothing else, and to keep the
   tree sorted, disjoint and fully merged. `ExtentCanon.MapDeterminesExtents` shows that such a tree is a
   normal form. On bigalloc file systems the count that a removal hands back (`count_rsvd`, `get_rsvd`)
   is exactly the drop in the number of clusters that hold a delayed block without a pending
   reservation, so `reserved - R()` changes only where the code warns.
2. **Versioned copy-on-write** (`corw_sparse.c`, `file.c`). A parent's log, the four cached version maps with FIFO
   eviction, the lookup that walks versions downwards, garbage collection, crash recovery, placement of
   appended writes, and a state machine in which readers, normal writes and transactions interleave, and
   in which a write can be killed, come to an end early, or fail to copy. A transaction is its owner's
   until the owner ends it (`Transactions.InsideRun`), and a written byte is read back at its position
   (`Transactions.WriteReads`).
3. **Fast commits** (`fast_commit.c`). The byte format, the writer that packs tags into blocks with PAD
   and TAIL, the scan, the replay, and the two ends tied together: what commits write is what recovery
   replays, whatever bytes follow, and a commit that failed or was cut off by a crash at any block is not
   replayed at all. When the scan reports an error is said on the tags it walks over
   (`FcScan.OutcomeIs`, `FcRoundTrip.RecoverArea`). Also the block ranges an inode logs and their replay; `FcEndToEnd.CommitAndRecover`
   goes the whole way, from tracked blocks over the bytes on disk to the mappings after recovery.
4. **Folio lock** (`filemap.c`). The wait queue and lock bit as interleaved atomic steps of any number of
   threads: who owns the lock, what a wait returns, and how far a walk of the queue goes.
5. **Active map and friend bitmap** (`corw_sparse.c`). The per-block lock that copiers and readers share,
   with the requests it grants told from the holders (`ActiveGrants.GetExact`), and the word-wise rebuild of the bitmap that is read bit by bit.
6. **Fast forms against simple forms** (`balloc.c`, `acl.c`). The closed form for a group's free clusters
   against the bitmap it predicts and the blocks that bitmap covers, backup groups, and the ACL codec.

Properties that turned out not to hold have a concrete witness and the exact condition beside it:

- A normal write makes its version current before it is logged and writes data after it returns, so the
  newest version is not stable (`IsolationLimits.NewestVersionNotSettled`). A version is stable over every
  orderly run exactly if it is at most `Snapshots.Settled` (`Isolation.RunIsolates`,
  `IsolationLimits.SettledExact`).
- Isolation needs that no logged write ends before its data reached its last block. A killed write does
  (`IsolationLimits.KilledWriteBreaksIsolation`), and so does a normal write whose lock another thread of
  the same open file ends (`IsolationLimits.IntrusionBreaksIsolation`). A step keeps the invariant exactly
  if it ends no write so (`SnapshotSteps.StepInv`); after one that does, the next write shares a block with
  it and changes what a settled version reads (`IsolationLimits.ShortEndBreaks`).
- It also needs that no write goes to original blocks that a settled version still sees. A write whose copy
  failed does (`IsolationLimits.FailedCopyBreaksIsolation`); which ones change a settled version is
  `IsolationLimits.OverwriteExact`.
- Recovery looks only at the last record of a version (`Recovery.KeptVersionMayLackData`); which logs and
  disks leave every kept record with its data is `Recovery.KeptHaveData`.
- A request to copy is granted while a reader and another copier are inside
  (`ActiveMap.SecondCopierBreaksExclusion`). A step keeps copiers single exactly if it grants no such
  request (`ActiveMap.StepCopyOk`).
- Garbage collection finds every unneeded block exactly if no record is beyond all active versions
  (`GarbageCollection.GcExact`, `GarbageCollection.UnreachedBlockStays`); it is sound without that
  (`GarbageCollection.GcSound`).
- The block count of a write survives the 32-bit variables exactly if it fits them
  (`Placement.NrBlocksExact`, `Placement.NrBlocksWraps`).
- The closed form for free clusters is exact if and only if the inode table shares at most the border
  cluster with the base metadata (`GroupBitmap.FreeCountExact`, `GroupBitmap.OverlapMiscounted`), and
  otherwise off by the shared clusters (`GroupBitmap.OverheadExact`).
- Inserting a delayed extent by the call meant for allocated ones leaves the reservations short by exactly
  the clusters that only this extent makes delayed (`EsTree.Inode.InsertExtent`,
  `EsTree.DelayedInsertGoesShort`); they stay right if and only if each of its blocks shares its cluster
  with a delayed block beside it (`EsTree.UnreservedExact`).
- An inode's range is logged completely if and only if no lookup that is made fails or reports a run without
  blocks (`FcRanges.WriteInodeData`, `FcRanges.ZeroRunLosesBlock`). The code has a branch for the latter,
  although `ext4_map_blocks` reports at least one block of those asked for. A record is replayed completely
  if and only if nothing fails where it looks; the handlers report success either way, and a failed removal
  leaves blocks mapped that were freed (`FcRangeReplay.ReplayAdd`, `FcRangeReplay.ReplayDel`,
  `FcRangeReplay.FailedAddIsSilent`, `FcRangeReplay.FailedDelFreesMapped`).
- A DEL_RANGE of no blocks at block 0 unmaps the whole file (`FcRangeReplay.EmptyDelUnmapsAll`); no other
  record of no blocks does anything.
- After recovery the invariant behind isolation holds if and only if the parent reaches the last block of
  every kept record (`Reopened.ReopenInv`, `Reopened.KeptRecordOverhangs`).
- The size formula for ACLs gives the number of bytes written if and only if the ACL has the usual
  shape (`Acl.SizeExact`, `Acl.NamedEntryOverflows`).
- An append starts right behind the previous write if and only if that write's data reached its last
  block (`Placement.NextAppend`; a killed write is the witness above).

Conventions. Block numbers are naturals; 32-bit wrap-around and truncation are written out where the code
relies on them (`Reservations.CountRun`, `Placement.NrBlocks`). Divisions by the cluster ratio, the block
size and the group size are written by repeated subtraction and proved equal to the shifts and divisions
of the code (`Clusters.ShiftIsDivision`, `Clusters.ShiftIsProduct`, `BlockGroup.ShiftIsGroup`). CRC-32C is an arbitrary byte-step
function. What the code calls but is not modelled (`ext4_map_blocks`, buffers from jbd2, replay handlers,
data that reached the disk) is a parameter that may answer anything its interface allows. No proof
relies on automatic induction.

## Model

| member | source | states |
|---|---|---|
| `Clusters.ShiftIsDivision` | ext4-module/ext4.h:375-393 | the recursive cluster number and offset are quotient and remainder by the ratio |
| `Clusters.ShiftIsProduct` | ext4-module/ext4.h:375-393 | the first block of a cluster is its number times the ratio |
| `Clusters.SameCluster` | ext4-module/ext4.h:375-393 | a block lies between another's CMask and CFill exactly if both lie in the same cluster |
| `Extents.MergeKeepsCells` | ext4-module/extents_status.c:536-566 | two extents that can be merged say, block by block, what the merged extent says |
| `ExtentInsert.TryMergeLeft` | ext4-module/extents_status.c:569-590 | merging with the left neighbour keeps the map and the order, and leaves no new mergeable pair |
| `ExtentInsert.TryMergeRight` | ext4-module/extents_status.c:593-613 | the same for the right neighbour |
| `ExtentInsert.Descend` | ext4-module/extents_status.c:787-843 | for any tree shape the descent ends at a neighbour the new extent can be merged with, or in the gap where it fits with neither neighbour mergeable |
| `ExtentInsert.InsertInto` | ext4-module/extents_status.c:787-843 | insertion into an unknown range updates the map on exactly that range and keeps the list sorted, disjoint and fully merged |
| `ExtentCanon.MapDeterminesExtents` | ext4-module/extents_status.c:536-566 | two sorted, fully merged lists that stand for the same map have the same extents: merging gives a normal form |
| `EsTree.Inode.constructor` | ext4-module/extents_status.c:172-176 | a new inode has an empty, valid tree |
| `EsTree.Inode.Search` | ext4-module/extents_status.c:211-237 | finds the extent that holds the block or else the next one, for any tree shape |
| `EsTree.Inode.FindExtentRange` | ext4-module/extents_status.c:257-303 | the extent at or after a block if it has the status, and otherwise the first one of the status that starts within the range; with and without a useful cached node |
| `EsTree.FirstWithStatus` | ext4-module/extents_status.c:257-303 | the loop of that search skips no extent of the status that meets the range, and goes on only to extents that start within it |
| `EsTree.Inode.ScanRange` | ext4-module/extents_status.c:342-358 | true if and only if some block of the range has the status |
| `EsTree.Inode.Insert` | ext4-module/extents_status.c:787-843 | the map changes on exactly the new extent; the cached node is live |
| `EsTree.Inode.InsertExtent` | ext4-module/extents_status.c:849-955 | over any earlier contents the map is updated on exactly the range; the pending reservations left are determined cluster by cluster; reservations handed back are exactly those no longer needed, and for a delayed status short by the clusters nobody reserved |
| `EsTree.UnreservedExact` | ext4-module/extents_status.c:849-955 | there are none of these if and only if the extent is not delayed or each of its blocks shares its cluster with a delayed block beside it |
| `EsTree.DelayedInsertGoesShort` | ext4-module/extents_status.c:872-874 | one delayed block inserted into a new inode leaves the reservations one short |
| `EsTree.Inode.CacheExtent` | ext4-module/extents_status.c:962-989 | inserts if and only if nothing at all is known about the range |
| `EsTree.Inode.Lookup` | ext4-module/extents_status.c:998-1067 | answers what the map says, with the whole extent and the next known block; changes nothing but the reference bit of that extent |
| `EsTree.InsertRemoveLookup` | ext4-module/extents_status.c:849-1067 | of a mapped range, after any part was dropped, a block is found exactly if it was not dropped, at the physical block of the same rank |
| `EsTree.Inode.SetReferenced` | ext4-module/extents_status.c:998-1067 | exactly the reference bit of the extent is set, which leaves the map and all tree invariants |
| `Reservations.CountRsvd` | ext4-module/extents_status.c:1131-1201 | every cluster of a delayed range is counted once, also when its first cluster was seen before |
| `Reservations.CountRun` | ext4-module/extents_status.c:1131-1201 | complete clusters plus a tracked partial one are the clusters of the run, with the 32-bit sum allowed to wrap |
| `Release.StillHeld` | ext4-module/extents_status.c:1253-1365 | after a removal only the two end clusters can still hold delayed blocks, left of the range and right of it |
| `Release.ScanLeft` | ext4-module/extents_status.c:1253-1365 | finds a delayed block left of the range in the first cluster if and only if there is one |
| `Release.ScanRight` | ext4-module/extents_status.c:1253-1365 | the same to the right, in the last cluster |
| `Release.DropPending` | ext4-module/extents_status.c:1253-1365 | removes and counts exactly the pending reservations of a window of clusters |
| `Release.GetRsvd` | ext4-module/extents_status.c:1253-1365 | releases exactly the clusters that ran empty of delayed blocks and had no pending reservation, and drops the pending ones that ran empty |
| `Release.Balance` | ext4-module/extents_status.c:1253-1365 | that number is the drop in clusters that need a reservation, and pending reservations still stand on delayed clusters |
| `ExtentRemove.Split` | ext4-module/extents_status.c:1382-1499 | removing from the middle of an extent erases exactly the range |
| `ExtentRemove.RemoveAcross` | ext4-module/extents_status.c:1382-1499 | trimming the first, erasing the middle and trimming the last extent erases exactly the range and counts its delayed clusters |
| `ExtentRemove.RemoveFrom` | ext4-module/extents_status.c:1382-1499 | both ways to remove erase exactly the range, keep exactly the pending reservations of clusters that still hold a delayed block, and count the drop in needed reservations |
| `EsTree.Inode.Remove` | ext4-module/extents_status.c:1382-1499 | the map loses exactly the range; pending reservations stay exactly on clusters that still hold a delayed block; the reported count is the drop in clusters that need a reservation |
| `EsTree.Inode.RemoveExtent` | ext4-module/extents_status.c:1511-1555 | the same, and the reserved count minus the clusters that need a reservation is the same before and after |
| `EsTree.Inode.InsertPending` | ext4-module/extents_status.c:1960-2005 | adds the cluster of the block; returns how many reservations are new |
| `EsTree.Inode.SetPending` | ext4-module/extents_status.c:2016-2028 | making or cancelling a cluster's reservation, depending on whether it holds a delayed block, keeps pending reservations on delayed clusters; the return value is the drop in clusters that need a reservation |
| `EsTree.Inode.InsertDelayed` | ext4-module/extents_status.c:2086-2177 | the range becomes delayed, its clusters join the delayed ones, allocated end clusters get pending reservations |
| `EsTree.Inode.RevisePending` | ext4-module/extents_status.c:2197-2276 | each end cluster is pending exactly if it still holds a delayed block; the return value is the drop in clusters that need a reservation |
| `VersionLog.OneVersionDown` | ext4-module/corw_sparse.c:4927-4962 | looking at one version's map after another finds what the last record up to the version says |
| `VersionLog.LaterRecordsUnseen` | ext4-module/corw_sparse.c:4927-4962 | records of later versions change nothing a version sees |
| `VersionCache.Parent.constructor` | ext4-module/corw_sparse.c:1621-1693 | starts with no version loaded and a valid FIFO |
| `VersionCache.Parent.GetOrCreate` | ext4-module/corw_sparse.c:4776-4818 | the version is loaded with exactly the replay of the log; the loaded versions form a FIFO of at most four |
| `VersionCache.Parent.EnlistOver` | ext4-module/corw_sparse.c:4776-4818 | the fifth version takes the place of the oldest, in the ring of four |
| `VersionCache.Parent.ReplayVersion` | ext4-module/corw_sparse.c:4820-4880 | the version's map is the replay of its records in log order; no other map changes |
| `VersionCache.Parent.Lookup` | ext4-module/corw_sparse.c:4927-4962 | returns what the version sees of the whole log, whatever is cached or evicted on the way |
| `VersionCache.Parent.RecordWrite` | ext4-module/corw_sparse.c:4964-5004 | appends the record at the current or the next version, refuses a version without a slot, and keeps every cached map the replay of the log |
| `GarbageCollection.FindNextActive` | ext4-module/corw_sparse.c:5084-5092 | the smallest active version from a target on, or none |
| `GarbageCollection.ScanBlock` | ext4-module/corw_sparse.c:5094-5212 | one logged block more keeps the garbage set equal to the superseded blocks no active version reads |
| `GarbageCollection.Scan` | ext4-module/corw_sparse.c:5094-5212 | the scan finds exactly the superseded blocks that serve no active version |
| `GarbageCollection.SortActive` | ext4-module/corw_sparse.c:5094-5212 | sorts the active versions in place, as a permutation |
| `GarbageCollection.GcSound` | ext4-module/corw_sparse.c:5094-5212 | no punched block is reachable from any active version, and no block of the original file is punched |
| `GarbageCollection.GcExact` | ext4-module/corw_sparse.c:5094-5212 | punched are exactly the logged blocks no active version needs, if and only if no record is beyond all active versions |
| `GarbageCollection.UnreachedBlockStays` | ext4-module/corw_sparse.c:5094-5212 | a block of a record that is, and that is not punched |
| `GarbageCollection.Collect` | ext4-module/corw_sparse.c:5094-5212 | both, for version 0, the children's versions and the parent's, from the unsorted versions on |
| `Recovery.TruncateLog` | ext4-module/corw_sparse.c:1389-1457 | keeps exactly the records up to the committed version and no partial one |
| `Recovery.FindRollback` | ext4-module/corw_sparse.c:1459-1618 | removes whole versions, each ending in a record without data, down to a record with data |
| `Recovery.KeptVersionMayLackData` | ext4-module/corw_sparse.c:1459-1618 | a kept version can lack the data of one of its earlier records |
| `Recovery.KeptHaveData` | ext4-module/corw_sparse.c:1459-1618 | every kept record has its data if and only if no record before a version end that has data lacks its own |
| `Recovery.Recover` | ext4-module/corw_sparse.c:1459-1618 | versions up to the recovered one see what they saw; the parent's size comes out as the smaller of the old one and the last end among kept records and original file, so truncating it cuts neither |
| `Recovery.Reopen` | ext4-module/corw_sparse.c:1677-1692 | truncate, recover and collect in sequence keep every surviving version's view and punch exactly the unneeded blocks, never the last record's |
| `Recovery.ReopenAgain` | ext4-module/corw_sparse.c:1677-1692 | after further writes and another crash, whatever was punched in between, nothing of the last opening is rolled back and its versions see the same blocks |
| `Reopened.ReopenInv` | ext4-module/corw_sparse.c:1459-1618 | the state after opening meets the invariant behind isolation if and only if the parent as the crash left it reaches the last block of every kept record |
| `Reopened.KeptRecordOverhangs` | ext4-module/corw_sparse.c:1459-1618 | a record kept with only its first block on disk, and the next write given the place of the second |
| `Placement.NrBlocksExact` | ext4-module/corw_sparse.c:4607-4620 | the block count that passes through int and unsigned is the number of blocks touched if and only if that fits 32 bits |
| `Placement.NrBlocksWraps` | ext4-module/corw_sparse.c:4607-4620 | a write of 2^32 blocks counts as none |
| `Placement.NextAppend` | ext4-module/corw_sparse.c:4636-4637 | the next append starts right behind this write exactly if its data reached the last block |
| `SnapshotSteps.StepInv` | ext4-module/corw_sparse.c:4600-4681 | a step keeps versions ordered, appended ranges apart from each other and from the original file, and later writes behind them, exactly if no logged write ends in it short of its last block |
| `SnapshotSteps.EveryRun` | ext4-module/corw_sparse.c:4600-4681 | in every run logged versions are at least 2 and never decrease; ranges are apart if no write ends short |
| `Isolation.StepIsolates` | ext4-module/corw_sparse.c:4600-4681 | no step changes the map or the contents a settled version sees, unless it overwrites an original block such a version sees |
| `Isolation.RunIsolates` | ext4-module/corw_sparse.c:4600-4681 | the same over every run in which no write ends short and none overwrites such a block |
| `Isolation.EndPublishes` | ext4-module/corw_sparse.c:5458-5510 | ending a transaction publishes all its records in one step, and only its owner can end it |
| `Transactions.LockStays` | ext4-module/corw_sparse.c:5458-5564 | a held lock is given up by an end, an abort or a finished normal write of its owner, and by no other step; nobody takes it over |
| `Transactions.LockTaken` | ext4-module/corw_sparse.c:5472-5481 | a free lock goes to the file that begins a transaction or starts a write, as that kind of lock, and stays free otherwise |
| `Transactions.OthersWait` | ext4-module/corw_sparse.c:5472-5487 | while a file has the lock, beginning, ending, aborting and writing by any other change nothing |
| `Transactions.VersionRises` | ext4-module/corw_sparse.c:5489-5491 | the version is raised by one when a transaction ends and when a normal write is published, and at no other step |
| `Transactions.HoldsStep` | ext4-module/corw_sparse.c:4622-4680 | a write keeps the lock it started with until its call is over, exactly if no other thread of the same open file gives it up |
| `Transactions.InsideRun` | ext4-module/corw_sparse.c:5458-5564 | over every run in which the owner does not end or abort its transaction, lock and version stay, only the owner's writes are placed, and all that is logged is at the next version |
| `Transactions.RecordOf` | ext4-module/corw_sparse.c:4600-4667 | the record of a write covers a block exactly if a byte of the write lies in it, and sends it to the block of the same rank behind the parent |
| `Transactions.WriteReads` | ext4-module/corw_sparse.c:4600-4681 | a write on its own and the same write as a transaction leave the same parent: one version more, which reads the data at the blocks met and elsewhere what was read before, as do all earlier versions |
| `Transactions.CopyReads` | ext4-module/corw_sparse.c:4640-4657 | what was copied before a write is what the new version reads where the write brought no data, and later writes go behind it |
| `Transactions.AbortKeeps` | ext4-module/corw_sparse.c:5534-5564 | an aborted transaction frees the lock and leaves the version, and every version up to it reads what it read before |
| `Transactions.FailedCopyKeepsLock` | ext4-module/corw_sparse.c:4647-4654 | after a failed copy the data is at the original position, nothing is logged, and the lock of the write stays taken |
| `IsolationLimits.SettledExact` | ext4-module/corw_sparse.c:4659-4680 | a version is settled if and only if no orderly run changes what it sees |
| `IsolationLimits.NewestVersionNotSettled` | ext4-module/corw_sparse.c:4659-4667 | a normal write's own version is current before it is logged, and its view changes |
| `IsolationLimits.ShortEndBreaks` | ext4-module/file.c:1301-1400 | whenever a logged write ends short, the next write's range overlaps it, and a settled version reads the new data |
| `IsolationLimits.KilledWriteBreaksIsolation` | ext4-module/file.c:1311-1314 | a write killed before its first page leaves such a state |
| `IsolationLimits.IntrusionEndsShort` | ext4-module/corw_sparse.c:5458-5510 | if another thread ends a normal write's lock, the write ends short exactly if the parent does not reach its last block yet |
| `IsolationLimits.IntrusionBreaksIsolation` | ext4-module/corw_sparse.c:5458-5510 | a run in which it lets a settled version read another write's data |
| `IsolationLimits.OverwriteExact` | ext4-module/corw_sparse.c:4647-4654 | a write in place after a failed copy can change what a settled version reads exactly if it reaches a block that one sees |
| `IsolationLimits.OriginalSeen` | ext4-module/corw_sparse.c:4647-4654 | such a write within the original file always does: version 1 sees the block |
| `IsolationLimits.FailedCopyBreaksIsolation` | ext4-module/corw_sparse.c:4647-4654 | a failed copy lets the write go to the original block, which a settled version reads |
| `FolioRuns.StepInv` | filemap.c:1598-1732 | every atomic step keeps lock bit, owners, queue and unfairness counters consistent |
| `FolioRuns.EveryRun` | filemap.c:1484-1561 | in every reachable state the bit is set exactly if there is one owner, at most one thread holds the lock, and no wait repeats beyond the limit |
| `FolioRuns.NoLostHandoff` | filemap.c:1598-1732 | a waiter that leaves, also on a signal, returns with the lock exactly if it was handed over, and cannot be handed it later |
| `FolioRuns.OwnerStays` | filemap.c:1484-1732 | a thread that took the lock, or was handed it while it waits, owns it until its own release, whatever step is made |
| `FolioRuns.OwnerStaysInRun` | filemap.c:1484-1732 | the same over every run |
| `FolioResults.TryGets` | filemap.c:1598-1732 | whoever tries for the lock, on its own, as it comes to queue or after it was woken, owns it then exactly if nobody did |
| `FolioResults.ReleaseFrees` | filemap.c:1484-1561 | after a release nobody owns the lock |
| `FolioResults.WalkHandsOver` | filemap.c:1484-1561 | a walk gives the lock to an entry that asked for a handoff exactly if nobody owns it |
| `FolioResults.WaitResult` | filemap.c:1598-1732 | in every run a shared waiter returns 0 exactly if, since it began, a walk came to its entry or it found the bit clear; whoever returns -EINTR was interrupted |
| `FolioResults.KindKept` | filemap.c:1598-1732 | a wait stays shared or exclusive, as it was begun, over every step |
| `FolioResults.SignalLeaves` | filemap.c:1598-1732 | a signal gets a waiter that was not woken out of the queue, with -EINTR and without the lock |
| `FolioResults.QueueInOrder` | filemap.c:1484-1732 | a new waiter goes to the end of the queue, and no step makes two waiters change places |
| `FolioResults.AtFront` | filemap.c:1484-1561 | in every run a walk is at the front of the queue |
| `FolioResults.WalkEnds` | filemap.c:1484-1561 | every step of a walk is nearer to its end, and it ends only at an empty queue, because somebody owns the lock, or behind an exclusive waiter it woke |
| `FolioResults.MarkedIsWoken` | filemap.c:1484-1561 | an entry leaves the queue by a walk only after it was woken, and one that was given the lock is told so |
| `FolioResults.WalkPassesShared` | filemap.c:1484-1561 | a shared waiter is woken and unlinked, and the walk goes on with the entry behind it |
| `FolioResults.WalkServesExclusive` | filemap.c:1484-1561 | an exclusive waiter at the front ends the walk at once if somebody owns the lock; otherwise it is woken and unlinked, owns the lock exactly if it asked for a handoff, and the walk ends behind it |
| `ActiveMap.StepInv` | ext4-module/corw_sparse.c:2559-2682 | every step keeps the reader count exact, exclusive holders alone, and waiters on the live entry |
| `ActiveMap.EveryRun` | ext4-module/corw_sparse.c:3077-3153 | in every reachable state there are no readers beside an exclusive copier and no entry is freed under a waiter |
| `ActiveGrants.GetExact` | ext4-module/corw_sparse.c:2559-2682 | a request is granted at once, told from the holders: to read exactly if nobody copies exclusively, to copy exclusively exactly if nobody holds the block, to copy exactly if nobody copies exclusively and nobody copies or somebody reads; otherwise it waits |
| `ActiveGrants.WakeExact` | ext4-module/corw_sparse.c:2559-2682 | the same for a waiter that wakes up |
| `ActiveGrants.PutExact` | ext4-module/corw_sparse.c:3077-3153 | letting go changes nobody else's hold |
| `ActiveGrants.RemoveExact` | ext4-module/corw_sparse.c:3077-3153 | the entry is freed exactly if nobody holds the block or waits for it |
| `ActiveGrants.IdsInRun` | ext4-module/corw_sparse.c:2559-2682 | in every run the identity of an entry, and of the one a waiter waits on, was given out before and is not given out again |
| `ActiveMap.StepCopyOk` | ext4-module/corw_sparse.c:2664-2682 | a step keeps copiers single and counted exactly if it grants no second one while somebody reads; then no copier is beside an exclusive one |
| `ActiveMap.SecondCopierBreaksExclusion` | ext4-module/corw_sparse.c:2664-2682 | with one, an exclusive copier is let in beside a copier |
| `FcFormat.SumConcat` | ext4-module/fast_commit.c:705-759 | summing piece by piece is summing the whole |
| `FcScan.ScanTagStep` | ext4-module/fast_commit.c:2059-2176 | one turn of the scan goes on exactly past a tag that holds; at any other it ends with the tags counted so far, with the result that `FcScan.VerdictIs` puts in terms of the tags |
| `FcScan.VerdictIs` | ext4-module/fast_commit.c:2097-2165 | ending at a tag is an error exactly if it is a HEAD that asks for features, or is no HEAD that asks for none and no commit is complete before it |
| `FcScan.ScanBlock` | ext4-module/fast_commit.c:2059-2176 | the scan of a block extends the intact prefix tag by tag or ends where a tag does not hold |
| `FcScan.ScanAll` | ext4-module/fast_commit.c:2059-2176 | over arbitrary bytes the scan counts the tags up to the last TAIL before the first tag that does not hold, and the ADD_RANGE tags among them; it returns an error exactly if the area begins with a HEAD and that tag is a HEAD that asks for features or, with no TAIL before it, anything but a HEAD that asks for none |
| `FcScan.OutcomeIs` | ext4-module/fast_commit.c:2059-2176 | the scan fails exactly on these areas, goes to the end exactly if every tag holds, and stops before otherwise |
| `FcChecksum.TailExact` | ext4-module/fast_commit.c:2132-2149 | a TAIL behind tags that hold holds exactly if it is well formed, of this transaction, and its checksum is that of every byte of the commit before it and of its own up to the checksum, in order |
| `FcChecksum.OtherExact` | ext4-module/fast_commit.c:2097-2165 | any other tag holds exactly if it is well formed, the first is a HEAD, and a HEAD asks for no features and is of this transaction |
| `FcChecksum.CrcIsOfBytes` | ext4-module/fast_commit.c:2117-2165 | the running checksum is that of all bytes of the tags since the last TAIL |
| `FcChecksum.NoGaps` | ext4-module/fast_commit.c:2097-2099 | the tags met in a block follow each other without a byte between them |
| `FcScan.ReplayedPrefix` | ext4-module/fast_commit.c:2059-2176 | what is to be replayed is intact, ends in a TAIL, and no later TAIL ends an intact prefix |
| `FcScan.ReplayBlock` | ext4-module/fast_commit.c:2182-2272 | dispatches tags of a block in order until none are left or a handler fails |
| `FcScan.RecoverFastCommits` | ext4-module/fast_commit.c:2182-2272 | replay is atomic per commit on arbitrary blocks: tags in order, never beyond the last intact TAIL, each within bounds although not looked at again; an error and nothing dispatched exactly if the scan refuses the area, in the sense of `FcScan.ScanAll` |
| `FcTiling.WalkTiles` | ext4-module/fast_commit.c:2059-2176 | a block made of TLVs is walked TLV by TLV to its end |
| `FcTiling.IntactIs` | ext4-module/fast_commit.c:2059-2176 | the scan's judgement of the bytes is the judgement of the TLVs |
| `FcWriter.Reserve` | ext4-module/fast_commit.c:705-759 | leaves an open buffer with room for the bytes and a PAD, adds a PAD exactly if they did not fit, and succeeds exactly if the length and the buffers allow it |
| `FcWriter.AddTlv` | ext4-module/fast_commit.c:812-829 | adds exactly the TLV to the payload, if and only if there is room; the checksum covers the submitted blocks |
| `FcWriter.WriteTail` | ext4-module/fast_commit.c:769-806 | if and only if there is room, fills the block with a TAIL the scan accepts and closes the commit |
| `FcWriter.FillIsZero` | ext4-module/fast_commit.c:739-806 | padding, and what follows the fields of a TAIL, are zeros |
| `FcWriter.PerformCommit` | ext4-module/fast_commit.c:1100-1170 | a commit succeeds exactly if its tags are collected and there are room and buffers for each in turn; it then adds HEAD on the first one, its tags and a TAIL; whatever a failed one submitted is full blocks that pass the scan and hold no TAIL |
| `FcWriter.EnoughBuffers` | ext4-module/fast_commit.c:705-759 | with buffers enough, that is exactly if every tag fits a block beside a PAD |
| `FcRoundTrip.CommitsIntact` | ext4-module/fast_commit.c:2059-2176 | completed commits are intact in any area that begins with their blocks |
| `FcRoundTrip.Replayed` | ext4-module/fast_commit.c:2059-2176 | what is to be replayed of any area that begins with completed commits is all of them, byte for byte as written, and exactly those if nothing follows |
| `FcRoundTrip.PartialReplayed` | ext4-module/fast_commit.c:2059-2176 | of a commit that failed, or of which only the first blocks reached the disk, nothing is replayed: exactly the completed commits are, and the scan returns no error |
| `FcRoundTrip.CommitThenCrash` | ext4-module/fast_commit.c:1100-1170 | with a crash after any block, recovery dispatches the commit whole if it succeeded and is all there, and otherwise only the commits before |
| `FcRoundTrip.RecoverArea` | ext4-module/fast_commit.c:2059-2272 | an area that begins with completed commits gives an error exactly if the first tag that does not hold is a HEAD that asks for features; otherwise the commits are dispatched first, all of them and as written, whatever bytes follow |
| `FcRoundTrip.FastCommit.Commit` | ext4-module/fast_commit.c:1100-1170 | to what is found on disk a commit adds all its tags and a TAIL, exactly if there is room for them, or nothing |
| `FcRoundTrip.FastCommit.Recover` | ext4-module/fast_commit.c:2182-2272 | exactly what was committed is dispatched, tag by tag as written, also after a later commit failed half way |
| `FcRanges.Tracker.Track` | ext4-module/fast_commit.c:619-645 | the tracked range is the hull of all blocks reported in the transaction |
| `FcRanges.Tracker.Commit` | ext4-module/fast_commit.c:905-973 | the records give every tracked block its committed mapping, but for blocks where a lookup is made that reports none; it succeeds exactly if no lookup fails |
| `FcRanges.WriteInodeData` | ext4-module/fast_commit.c:905-973 | it succeeds exactly if no lookup it makes fails; then the records give each block of the range its mapping and touch no other, however long the reported runs, if and only if no lookup it makes reports a run without blocks, and they tile the range |
| `FcRanges.NextVisit` | ext4-module/fast_commit.c:905-973 | where the lookups are made: each is one reported run, or one record, behind the last |
| `FcRanges.ZeroRunLosesBlock` | ext4-module/fast_commit.c:936-939 | a lookup that reports no block loses the block in a commit that succeeds |
| `FcRangeReplay.ReplayAdd` | ext4-module/fast_commit.c:1747-1864 | over any earlier mapping the range ends up mapped as recorded up to the first block looked at where an operation fails, and whole exactly if there is none; freed are exactly the blocks it was moved off |
| `FcRangeReplay.ReplayDel` | ext4-module/fast_commit.c:1868-1927 | the range ends up unmapped exactly if no operation fails, and the mapping is unchanged otherwise; freed are exactly its blocks up to the first failing lookup; no blocks at block 0 means all |
| `FcRangeReplay.FailedAddIsSilent` | ext4-module/fast_commit.c:1747-1864 | a failing change leaves the range as it was |
| `FcRangeReplay.FailedDelFreesMapped` | ext4-module/fast_commit.c:1868-1927 | a failing removal leaves a freed block mapped |
| `FcRangeReplay.EmptyDelUnmapsAll` | ext4-module/fast_commit.c:1915-1917 | a record of no blocks at block 0 unmaps everything and frees nothing |
| `FcRangeReplay.ReplayRanges` | ext4-module/fast_commit.c:2182-2272 | replaying records in order gives each block what the last record covering it says; nothing is missed exactly if nothing fails where a record looks in the mapping it finds |
| `FcRangeReplay.LogAndReplay` | ext4-module/fast_commit.c:905-973 | logging then replaying over any mapping restores the committed mapping on the range only, and replaying again changes nothing, unless an operation fails or a lookup reports no block |
| `FcRanges.RecordLongest` | ext4-module/fast_commit.c:941-965 | the record for a run takes all of it, or as much as can be stored with its state |
| `FcRanges.StoredLen` | ext4-module/ext4_extents.h:199-222 | length and unwritten state are recovered from the stored length, up to the two different limits |
| `FcRanges.RoundTrip` | ext4-module/ext4_extents.h:199-259 | records survive their on-disk form, with 48-bit block numbers, and pass the scan's length check |
| `FcRanges.RangeLayout` | ext4-module/fast_commit.h:37-48 | where the fields of both records are, with the unwritten mark in the top bit of the length |
| `FcRecords.DentryRoundTrip` | ext4-module/fast_commit.c:831-855 | a created, linked or unlinked name survives its on-disk form, and passes the scan exactly if it has 1 to 255 bytes |
| `FcRecords.InodeRoundTrip` | ext4-module/fast_commit.c:861-900 | an inode survives its on-disk form, and passes the scan exactly if at least 128 bytes and at most a whole inode are logged |
| `FcRecords.LoggedInodePasses` | ext4-module/fast_commit.c:2015-2040 | what the writer logs of an inode passes exactly if its extra fields fit the inode |
| `FcRecords.LengthsExact` | ext4-module/fast_commit.c:2015-2040 | a HEAD passes exactly with the length it is written with, a TAIL from its shortest length on, padding always, and no other tag than the nine |
| `FcEndToEnd.ReplayTags` | ext4-module/fast_commit.c:2182-2272 | every inode ends up mapped as the range tags dispatched for it say, as read from the bytes on disk |
| `FcEndToEnd.ValueTwice` | ext4-module/fast_commit.c:2182-2272 | replaying a log once more changes no mapping |
| `FcEndToEnd.CommitInode` | ext4-module/fast_commit.c:1100-1170 | with buffers enough a commit succeeds exactly if no lookup fails; it makes the log hold the committed mapping of the tracked range, and for all other blocks and inodes what it held with the other tags |
| `FcEndToEnd.CommitAndRecover` | ext4-module/fast_commit.c:905-1170 | after a crash and recovery every block tracked since the last commit maps as it did at the commit, over any mapping on disk; if the commit failed, all mappings are those of the commits before |
| `FriendFile.SetWord` | ext4-module/corw_sparse.c:784-812 | OR-ing a word sets, as read bit by bit, exactly its bits among the 64 blocks around the start |
| `FriendFile.SetExtent` | ext4-module/corw_sparse.c:870-947 | an extent's blocks are set across word and page boundaries, and no other |
| `FriendFile.Rebuild` | ext4-module/corw_sparse.c:870-947 | exactly the blocks of written, unwritten or delayed extents are added |
| `FriendFile.Recovered` | ext4-module/corw_sparse.c:950-981 | for blocks of the clone the bits are exactly those of its own data; bits beyond its size stay |
| `FriendFile.Friend.Recover` | ext4-module/corw_sparse.c:950-981 | the same for the friend file in place |
| `BlockGroup.InGroup` | ext4-module/balloc.c:54-82 | a block's group is the one whose range holds it, and both ways to its cluster offset agree |
| `BlockGroup.ShiftIsGroup` | ext4-module/balloc.c:36-48 | the shift for standard group sizes is the division |
| `BaseMetadata.TestRoot` | ext4-module/balloc.c:833-844 | true if and only if the group is a positive power of the base |
| `BaseMetadata.HasSuper` | ext4-module/balloc.c:854-875 | backups are in group 0, the two named groups, or 1 and the powers of 3, 5 and 7; the shortcut for even groups is right |
| `BaseMetadata.BaseBlocksAre` | ext4-module/balloc.c:877-947 | the descriptor blocks of every group by the layout it lies in: one in the first two and the last group of those that share it, or all of them beside a superblock; base blocks are these, the superblock and reserved blocks, with both tests for meta_bg drawing the line at the same group |
| `GroupBitmap.GroupSize` | ext4-module/balloc.c:162-179 | a group's clusters fit its bitmap, and only the last group is cut short |
| `GroupBitmap.UsedExact` | ext4-module/balloc.c:88-234 | on block numbers: a cluster is in use exactly if one of its blocks is base metadata, the block bitmap, the inode bitmap or in the inode table |
| `GroupBitmap.OverheadExact` | ext4-module/balloc.c:88-160 | the overhead formula counts the clusters in use if and only if the inode table shares at most the border cluster with the base metadata; otherwise it is too large by the number of shared clusters |
| `GroupBitmap.ApartIsBorderOnly` | ext4-module/balloc.c:88-160 | every layout whose inode table keeps off the base metadata is such a layout |
| `GroupBitmap.OverlapMiscounted` | ext4-module/balloc.c:88-160 | a layout of a later group that is not, and its wrong count |
| `GroupBitmap.InitBitmap` | ext4-module/balloc.c:182-234 | a bit is set exactly for clusters in use and those past the group's end; when it fails |
| `GroupBitmap.FreeCountExact` | ext4-module/balloc.c:239-245 | the closed-form free count is the number of zero bits of that bitmap within the group, if and only if the layout is such |
| `Acl.CountOfSize` | ext4-module/acl.h:29-55 | count and size formulas are inverse, and only sizes of counts are accepted |
| `Acl.SizeExact` | ext4-module/acl.h:29-55 | the announced size is the number of bytes written if and only if there are min(4, count) short entries |
| `Acl.NamedEntryOverflows` | ext4-module/acl.h:29-55 | one named entry takes four bytes more than announced |
| `Acl.FromDisk` | ext4-module/acl.c:17-85 | returns the ACL whose on-disk form the bytes are, if there is one, and an error for all other bytes |
| `Acl.ToDisk` | ext4-module/acl.c:90-137 | fails exactly on an unknown tag; otherwise the on-disk form, of the announced size |
| `Acl.WriteRead` | ext4-module/acl.c:90-137 | a valid ACL survives writing and reading |
| `Acl.ReadWrite` | ext4-module/acl.c:17-137 | an accepted attribute is written back byte for byte |

## Left out

- The shrinker, statistics, tracing and locking of the extent status tree, the reference bit that extents start with (only the shrinker looks at it), and its behaviour when memory for a node runs out.
- The FC_REPLAY mount state, in which the extent status calls return at once.
- Rebalancing of red-black trees: results hold for every shape.
- Tree nodes as memory: extents are values of a sequence that the inode's methods reassign, so a node's address and its aliasing by the cache are a block number here; the status bits are fields, not packed into the physical block.
- Journal buffers as memory: the fast-commit writer's open buffer and submitted blocks are values its methods reassign.
- `scorw_write_see_thru_ro`: which bytes the partial first and last pages are filled with; the model has whole-block contents, and the copied block is arbitrary.
- `scorw_ioctl_see_thru_writev` and the rest of the ioctl surface of corw_sparse.c.
- Records of an aborted transaction: they stay in the log at the next version, as in the code, and become visible with the next commit; nothing is proved about when that is wanted.
- The position passed to write_end by `scorw_set_block_copied_8bytes`, which is computed after the block number was reduced; the model has the page contents only.
- `FcWriter.PerformCommit`: takes the tags of dentry updates and inodes as given; which ones a commit collects and the submission of data before it are not modelled.
- `FcRoundTrip.FastCommit.Recover`: has handlers that all report success, as the range handlers do; `FcScan.RecoverFastCommits` has the general case. That jbd2 starts no replay after a scan that returned an error is assumed.
- The link, unlink, create and inode handlers of the fast-commit replay; in `FcEndToEnd` they change no mapping, as for extent-mapped inodes whose extent header is intact, and an inode that cannot be read is skipped.
- Fairness and progress of the folio lock, PG_waiters as an optimisation, and the memory barriers; steps are sequentially consistent.
- Block numbers of fast-commit records beyond EXT_MAX_BLOCKS, at which every lookup fails; block numbers do not wrap in the model of the replay.
- `Recovery.ReopenAgain`: asks that the last record has a length, as every logged write does, and that blocks on disk stay there unless punched.
- The hash buckets of the active map: one block's entry is modelled, as blocks do not interact.
- The checksum of group descriptors is a parameter of `GroupBitmap.InitBitmap`.
- A null attribute value in `ext4_acl_from_disk`, failing allocations, and user namespaces.
- Everything else in the module (allocation, directories, journalling, extents on disk, xattrs), which is not part of this model.
