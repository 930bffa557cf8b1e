# A verified model of the F2FS exhaustive tester

The repository holds a small but complete log-structured file system, used to enumerate file-system states and to
simulate power loss. This project models its core and proves what the core is for. All constants (segments, blocks per
segment, journal length, directory slots and levels, index sizes, collector thresholds) are parameters with the side
conditions that the program's start-up check demands, so every statement is about the whole family.

## What is modelled

- **Segment log** (`Segments`, `SegmentRuns`, `GcPool`, `SegmentManager`): segments with bitmaps and owners, one current
  segment a temperature, the free queue threaded through the segment table, the bounded heap that picks victims, and the
  collector, which runs inside a block write and moves blocks under its caller. The log as a value, with four primitive
  steps, is the specification; the class updates arrays in place and keeps a ghost trace of those steps.
  `Reclaim` says what a collection brings: its victims are the best choice, and with enough garbage a write finds a
  segment.
- **Mapping** (`Mapping`, `NodeOps`): node table, node cache and index nodes. `Reads` says what a reader of the file
  system sees; "no read changes" is the meaning that collection, flushing and caching preserve.
- **Tables and checkpoints** (`JournalTable`, `Medium`, `Checkpoint`, `Layout`, `Recovery`): both tables are stored as two
  alternating copies and a journal, and a checkpoint as two packs with opening and closing versions. Every metadata
  write is one block write, so a crash is a prefix of the write log. `Recovery` joins the checkpoint protocol with the
  FIFO order of the free queue: the whole checkpointed image is readable after a crash.
- **Files** (`FileMap`, `FileChanges`, `FileSystem`): inodes and index nodes over the segment manager; writing, reading,
  creating, removing, opening and closing.
- **The whole** (`Simulator`): file system and checkpoints together. Whatever the file system does, the run stays one that
  the recovery theorem speaks of, so a power loss at any event brings back the files of the newest checkpoint, and a mount
  makes a file system of them again on which the run goes on. The program keeps one node table and one segment table; here
  the segment manager's tables are handed to the checkpoint protocol before a checkpoint, exactly the entries that its
  operations have marked dirty.
- **Checker** (`Fsck`, `FsckRepair`, `FsckRun`, `FsckDevice`): the recursive check over arbitrary, possibly corrupt volumes,
  its repair, and both over a medium: mounted before, written back after.
- **Versioned store** (`Versions`, `VersionStore`): many clones over one pool of reference-counted records.
- **Directory** (`Directory`): hashed levels of entry blocks, for any hash function.
- **Reference file system** (`TreeCode`, `RefFiles`): the canonical code of unordered trees, kept up to date in place.
- **Discard ranges** (`Discard`) and **worker queues** (`WorkQueues`). `Basics` holds arithmetic, and `Examples` programs
  from nothing that meet the failing side of a result.

The modules over mutable tables are classes whose methods follow the source's branches; each is proved against a
function or predicate of its old and new state, and the laws about those are lemmas.

## What the proofs found

- The collector frees an empty segment before asking whether it is a current one (f2fs_segment.cpp:526-531). This is safe
  if and only if no current segment is empty with the not-free mark (`ScanSafeIff`). Operations that may collect ask for
  that (`CurSafe`) and keep it. It holds in every run that never mounted (`CurLinked` is kept by every operation); after a
  mount it holds if and only if no current segment was empty (`Recover`), truncation can empty one, and
  `EmptiedSegment` is a program that writes, truncates, flushes and mounts into such a state.
- A repair needs more than an injective node table: an unvisited node that shares a block with reached data makes the
  repair invalidate that data (`DeadSharesData`). `RepairExact` gives the exact condition, and `RepairThenCheck` the same
  over the medium.
- A write that runs out of room at a block after creating its index node leaves that node in the inode above the size, if
  the block is the first of it (`FileWrite`, `ShortWrite`). Removing the file then never returns its identifier:
  `RemoveFile` loses identifiers if and only if the file has such an idle node (`ShortWriteLoses`).
- A read that meets a missing index node skips the rest of the request, even blocks that are there (`SparseRead`);
  `ReadExact` says when a request is read exactly. Files written at or below their size have no such gap.
- The check for a code that gets too long is made at every directory on the way up, and comes down to one test at the
  root (`UpdateEncode`): closing and removing a file never fail on it.
- An error while a discard command is submitted loses exactly the blocks after the refused piece; the refused piece stays
  covered although it was not issued (`SubmitDiscardCmd`).

## Model

| member | source | states |
|---|---|---|
| `Segments.StepKeeps` | application/filesystem-test/exhaustive_tester/source/f2fs_segment.cpp:261-506 | Allocating, writing, invalidating and closing all keep the segment invariant: every segment is queued exactly once, current, or holds a valid block; each count is the number of set bits and the total is their sum; slots at or past a write offset are clear; valid blocks are on the medium at the temperature of their owner |
| `Segments.FreeBound` | application/filesystem-test/exhaustive_tester/source/f2fs_segment.cpp:368-393 | Blocks in use and free segments together never exceed the main area, so the use count alone bounds the free queue |
| `Segments.InvalidateValid` | application/filesystem-test/exhaustive_tester/source/f2fs_segment.cpp:649-690 | Invalidating a block clears that block and changes the validity and owner of no other |
| `SegmentRuns.RunKeeps` | application/filesystem-test/exhaustive_tester/source/f2fs_segment.cpp:261-690 | Every state that a run of enabled steps reaches satisfies the segment invariant |
| `SegmentRuns.FifoProtects` | application/filesystem-test/exhaustive_tester/source/f2fs_segment.cpp:261-366 | Along any run that allocates at most as many segments as were free at its start, every block valid at the start is still on the medium with its old contents, whatever was invalidated or collected meanwhile |
| `SegmentManager.Manager.InitSegmentManager` | application/filesystem-test/exhaustive_tester/source/f2fs_segment.cpp:19-34 | A new segment manager satisfies the invariant, every segment is free, nothing is mapped and nothing can be read |
| `SegmentManager.Manager.FreeEnQueue` | application/filesystem-test/exhaustive_tester/source/f2fs_segment.cpp:319-339 | The threaded queue with the segment appended at its head, no link of another segment lost |
| `SegmentManager.Manager.FreeDeQueue` | application/filesystem-test/exhaustive_tester/source/f2fs_segment.cpp:341-366 | Takes exactly the first segment of the queue; the rest stays in order |
| `SegmentManager.Manager.BuildFreeLink` | application/filesystem-test/exhaustive_tester/source/f2fs_segment.cpp:368-393 | From tables off the medium the free queue, the use count and the temperatures are rebuilt so that the invariant holds, with exactly the empty segments that are not current in the queue |
| `SegmentManager.Manager.AllocSegment` | application/filesystem-test/exhaustive_tester/source/f2fs_segment.cpp:261-304 | A current segment is opened for the temperature, with a collection first exactly when no more segments are free than the reserve, and no read changes; the answer is what that sweep leaves free: refused only when every victim that the pool could hold was collected and still no more than the reserve is free; whenever enough can be reclaimed it finds a segment; the three ways to fail are told apart by how many segments were free, and with fewer unused blocks than the reserve and one segment it cannot succeed without force |
| `SegmentManager.Manager.InvalidBlock` | application/filesystem-test/exhaustive_tester/source/f2fs_segment.cpp:649-690 | The log becomes exactly the log with this block invalidated; an emptied segment that is not current joins the queue; the double-invalidation error cannot happen |
| `SegmentManager.Manager.WriteBlockToSeg` | application/filesystem-test/exhaustive_tester/source/f2fs_segment.cpp:424-506 | A write through the log, with the collector running inside it: the page's block has a new valid place, every other read is unchanged, the reverse map agrees with the forward map except at this owner, and the use count grows by one exactly when the owner had no block; it succeeds whenever there is a current segment, more free segments than the reserve, or enough to reclaim, and a refused write has swept every victim of the pool |
| `SegmentManager.Manager.WriteByGc` | application/filesystem-test/exhaustive_tester/source/f2fs_segment.cpp:424-506 | The collector's own write: it may use the last free segment and never starts another collection |
| `SegmentManager.Manager.MoveNode` | application/filesystem-test/exhaustive_tester/source/f2fs_segment.cpp:566-578 | Moving a node changes no read, leaves its old block invalid, and the cached node is what the new block holds, no longer dirty |
| `SegmentManager.Manager.MoveData` | application/filesystem-test/exhaustive_tester/source/f2fs_segment.cpp:580-608 | Moving a data block changes no read: the index node learns the new place, and the mismatch errors cannot happen |
| `SegmentManager.Manager.CollectSegment` | application/filesystem-test/exhaustive_tester/source/f2fs_segment.cpp:549-625 | All valid blocks of a victim move but the one that waits in the write cache; a victim without such a block ends up free, and free space grows by the garbage it held |
| `SegmentManager.Manager.SelectVictims` | application/filesystem-test/exhaustive_tester/source/f2fs_segment.cpp:515-534 | The pool holds the emptiest segments that are not current, as many as it has room for, fewest valid blocks first, and no segment left out is emptier than one that is kept |
| `SegmentManager.Manager.GarbageCollection` | application/filesystem-test/exhaustive_tester/source/f2fs_segment.cpp:510-642 | Every read is unchanged; the emptiest segments are collected one by one until enough are free or none is left, each turn a collection of the next victim while too few are free; the space of free segments and open current segments grows by exactly the garbage of the victims, a victim left half full because its last block waits to be written counted apart; the use count is conserved; with two free segments at the start it never runs out and ends with at most one fewer |
| `Reclaim.PoolBest` | application/filesystem-test/exhaustive_tester/source/f2fs_segment.cpp:515-534 | The victims in the pool hold at least as much garbage as any other choice of segments that the pool has room for |
| `Reclaim.Reclaimed` | application/filesystem-test/exhaustive_tester/source/f2fs_segment.cpp:510-547 | A sweep that had enough garbage to reclaim, counted with every current segment full and the cached block left behind, leaves more free segments than the reserve |
| `Reclaim.SpareReclaims` | application/filesystem-test/exhaustive_tester/source/f2fs_segment.cpp:279-289 | With a pool for all segments, unused blocks for the reserve, two segments and twice the current ones are enough to reclaim, wherever they lie |
| `SegmentManager.ScanSafeIff` | application/filesystem-test/exhaustive_tester/source/f2fs_segment.cpp:522-531 | The shortcut that frees an empty segment before asking whether it is current is harmless for every segment if and only if no current segment is empty with the not-free mark |
| `SegmentManager.Manager.Mount` | application/filesystem-test/exhaustive_tester/source/f2fs_segment.cpp:204-258 | Tables and owners loaded from a medium, the free queue rebuilt: the whole invariant holds, every read is what the tables lead to, nothing is dirty, and a collection is safe exactly when no loaded current segment is empty |
| `Examples.EmptiedSegment` | application/filesystem-test/exhaustive_tester/source/f2fs_segment.cpp:522-531 | A program from nothing reaches that state: one block is written and truncated, everything is flushed, and a mount of the tables this leaves has an empty current segment, for which the shortcut is not safe |
| `Examples.UnsafeMount` | application/filesystem-test/exhaustive_tester/source/f2fs_segment.cpp:522-531 | A loaded table whose current segment is empty: after the mount the shortcut would free it while it is current, and the invariant would break |
| `Mapping.OwnerLeadsHere` | application/filesystem-test/exhaustive_tester/source/f2fs_segment.cpp:556-598 | A valid block's recorded owner leads back to that block through the tables: the reverse map is the inverse of the forward map |
| `GcPool.RootIsMax` | application/filesystem-test/exhaustive_tester/include/f2fs_segment.h:128-226 | Nothing in the heap weighs more than its root |
| `GcPool.GcPoolHeap.Push` | application/filesystem-test/exhaustive_tester/include/f2fs_segment.h:134-138 | Nothing offered is lost: it is kept or dropped, and nothing dropped weighs less than anything kept |
| `GcPool.GcPoolHeap.LargeAdd` | application/filesystem-test/exhaustive_tester/include/f2fs_segment.h:179-193 | Sifting up restores the heap and keeps its contents |
| `GcPool.GcPoolHeap.LargeHeapify` | application/filesystem-test/exhaustive_tester/include/f2fs_segment.h:195-220 | Sifting down from the root restores the heap with the root replaced |
| `GcPool.GcPoolHeap.Sort` | application/filesystem-test/exhaustive_tester/include/f2fs_segment.h:140-152 | The sorted pool is the heap's contents in ascending order of valid blocks |
| `GcPool.GcPoolHeap.Pop` | application/filesystem-test/exhaustive_tester/include/f2fs_segment.h:154-160 | Pops give the sorted pool one by one and then nothing |
| `GcPool.Replace` | application/filesystem-test/exhaustive_tester/include/f2fs_segment.h:134-138 | Replacing the root of a full heap by something lighter keeps the lightest seen so far |
| `SegmentManager.Manager.ReadNode` | application/filesystem-test/exhaustive_tester/source/f2fs_simulator.cpp:236-272 | A node that is read into the cache is the node on the medium, and no read changes |
| `SegmentManager.Manager.WriteNode` | application/filesystem-test/exhaustive_tester/source/f2fs_simulator.cpp:1027-1033 | Flushing a node changes no read, and the table then leads to a block with the cached contents, no longer dirty; the use count grows by one exactly when the node had no block; it succeeds whenever enough can be reclaimed |
| `SegmentManager.Manager.WriteData` | application/filesystem-test/exhaustive_tester/source/f2fs_simulator.cpp:1332-1346 | Writing one block of a file changes exactly that block as readers see it, whatever a collection moved inside the write; it succeeds whenever enough can be reclaimed, and a refused one has swept every victim of the pool |
| `SegmentManager.Manager.TruncateBlock` | application/filesystem-test/exhaustive_tester/source/f2fs_simulator.cpp:1472-1483 | The block is invalidated once, its pointer cleared, and nothing else reads differently |
| `SegmentManager.Manager.ReleaseNode` | application/filesystem-test/exhaustive_tester/source/f2fs_nat.cpp:136-153 | The identifier is free again, the block of the node is invalidated once if there is one, and nothing else reads differently |
| `SegmentManager.Manager.SyncFs` | application/filesystem-test/exhaustive_tester/source/f2fs_simulator.cpp:1040-1063 | Success exactly when no round raises an error and, of the states before the first round and after each, one of the first ten has no dirty node; the flushing stops there; a round that raises an error leaves at most one free segment, and with a free segment above the reserve for every dirty node the first round is the last and it succeeds; no read changes, and a file system without dirty nodes is left as it is |
| `JournalTable.Table.Flush` | application/filesystem-test/exhaustive_tester/source/f2fs_nat.cpp:215-249 | If every entry that differs from pages and journal is dirty, then after the flush the new pages with the new journal decode to the table in memory, however many entries were dirty; the journal stays within its capacity |
| `JournalTable.Table.OutJournal` | application/filesystem-test/exhaustive_tester/source/f2fs_nat.cpp:168-195 | The old journal is moved into the cached pages and emptied, pages and journal together still mean the same, and only pages that the journal has an entry for are read |
| `JournalTable.Table.Load` | application/filesystem-test/exhaustive_tester/source/f2fs_nat.cpp:36-60 | What is loaded is what pages and journal decode to, and nothing is dirty |
| `JournalTable.Table.Set` | application/filesystem-test/exhaustive_tester/source/f2fs_nat.cpp:161-166 | A changed entry is dirty, so the dirty marks still cover every difference from the medium |
| `JournalTable.OverlayAt` | application/filesystem-test/exhaustive_tester/source/f2fs_nat.cpp:36-60 | The last journal entry for an index decides its value; without one the page does |
| `JournalTable.DecodesUnique` | application/filesystem-test/exhaustive_tester/source/f2fs_nat.cpp:36-60 | Pages and journal decode to one table only |
| `Checkpoint.CrashAtomic` | application/filesystem-test/exhaustive_tester/source/f2fs_simulator.cpp:1065-1179 | Cut the write log anywhere after the first completed checkpoint: the medium holds exactly the newest checkpoint completed by then, and the choice of pack finds it |
| `Checkpoint.Checkpointer.WriteCheckpoint` | application/filesystem-test/exhaustive_tester/source/f2fs_simulator.cpp:1065-1084 | A checkpoint of the tables in memory is completed by its last block write, and every shorter log still holds the checkpoint before it |
| `Checkpoint.Checkpointer.SaveCheckpoint` | application/filesystem-test/exhaustive_tester/source/f2fs_simulator.cpp:1148-1179 | Only the other pack is written; its closing header is the one write that makes it the newest |
| `Checkpoint.Checkpointer.FlushNat` | application/filesystem-test/exhaustive_tester/source/f2fs_nat.cpp:215-249 | Node table pages are written to the copies not in use, so the committed checkpoint stays readable at every write |
| `Checkpoint.Checkpointer.FlushSit` | application/filesystem-test/exhaustive_tester/source/f2fs_segment.cpp:92-142 | The same for the segment table |
| `Checkpoint.Checkpointer.ChoosePack` | application/filesystem-test/exhaustive_tester/source/f2fs_simulator.cpp:1086-1120 | The valid pack with the newer version, or none |
| `Checkpoint.Checkpointer.LoadCheckpoint` | application/filesystem-test/exhaustive_tester/source/f2fs_simulator.cpp:1086-1146 | Header, version bitmaps, current segments and both journals are those of the checkpoint on the medium; the error of a failed check is unreachable |
| `Checkpoint.Checkpointer.Mount` | application/filesystem-test/exhaustive_tester/source/f2fs_simulator.cpp:960-972 | Mounting brings back exactly the tables and current segments that the newest completed checkpoint recorded |
| `Checkpoint.Checkpointer.Crash` | application/filesystem-test/exhaustive_tester/source/f2fs_simulator.cpp:991-1005 | Dropping any number of the last writes and mounting gives the tables of the newest checkpoint completed in what is left |
| `Checkpoint.Checkpointer.Format` | application/filesystem-test/exhaustive_tester/source/f2fs_simulator.cpp:131-195 | A new file system has one completed checkpoint, of the tables in memory |
| `Checkpoint.Checkpointer.SyncNat` | application/filesystem-test/exhaustive_tester/source/f2fs_nat.cpp:62-82 | The table pages written in place decode to the table in memory |
| `Checkpoint.Checkpointer.SyncSit` | application/filesystem-test/exhaustive_tester/source/f2fs_segment.cpp:144-167 | The same for the segment table |
| `Medium.HoldsUnique` | application/filesystem-test/exhaustive_tester/source/f2fs_simulator.cpp:1086-1146 | The checkpoint that a medium holds, and what it means, are unique |
| `Medium.HoldsChosen` | application/filesystem-test/exhaustive_tester/source/f2fs_simulator.cpp:1086-1120 | On a medium that holds a checkpoint the choice of pack never fails and finds that checkpoint |
| `Layout.LbaInjective` | application/filesystem-test/exhaustive_tester/include/config.h:9-25 | For all constants that pass the start-up check no two metadata, summary or main-area blocks share an address |
| `Layout.MetaWrite` | application/filesystem-test/exhaustive_tester/include/config.h:9-25 | A metadata or summary write by block address is the write to that place of the abstract medium, and to nothing else, on one flat device |
| `Layout.MainWrite` | application/filesystem-test/exhaustive_tester/include/config.h:9-25 | The same for a block of the main area |
| `Layout.PhyRoundTrip` | application/filesystem-test/exhaustive_tester/include/f2fs_segment.h:240-258 | Segment and slot to block number and back |
| `Recovery.WholeImage` | application/filesystem-test/exhaustive_tester/source/f2fs_simulator.cpp:1065-1179 | Cut a whole run, metadata writes and segment steps interleaved, anywhere after its first checkpoint: the mount finds the newest completed checkpoint, and as long as no more segments were allocated since than were free then, every node and data block reads what it read at that checkpoint |
| `Recovery.OldTableReads` | application/filesystem-test/exhaustive_tester/source/f2fs_segment.cpp:261-366 | The node table of a checkpoint still reads its old contents after any run within its allocation budget |
| `Recovery.FilesSurvive` | application/filesystem-test/exhaustive_tester/source/f2fs_simulator.cpp:1909-1965 | After such a cut every file of that checkpoint has its size and its blocks, and files that held their tags still do |
| `Simulator.Simulator.constructor` | application/filesystem-test/exhaustive_tester/source/f2fs_simulator.cpp:131-207 | Tables, owners and a first checkpoint of a file system without dirty nodes, such as one with only its root, are on the medium, and its run is one of the recovery theorem |
| `Simulator.Simulator.StoreTables` | application/filesystem-test/exhaustive_tester/source/f2fs_simulator.cpp:1065-1081 | Only entries that some operation has marked dirty are handed over, all others keep their mark, and yet the checkpoint has exactly the tables and current segments of the segment manager: the marks cover every difference |
| `Simulator.Simulator.SyncSsa` | application/filesystem-test/exhaustive_tester/source/f2fs_segment.cpp:169-186 | Only the owners of segments marked dirty are written, and nothing else, and yet the medium has the owners of all |
| `Simulator.Simulator.SyncFs` | application/filesystem-test/exhaustive_tester/source/f2fs_simulator.cpp:1040-1063 | No file shows a difference, and success, which enough free segments for the dirty nodes guarantee, adds one completed checkpoint of a state without dirty nodes to the run and leaves nothing marked |
| `Simulator.Simulator.PowerLoss` | application/filesystem-test/exhaustive_tester/source/f2fs_simulator.cpp:1086-1146 | Power lost after any event past the first checkpoint: the tables loaded are those of the newest checkpoint completed by then, and within the allocation budget they lead to exactly its files, sizes, blocks and tags |
| `Simulator.MountReady` | application/filesystem-test/exhaustive_tester/source/f2fs_simulator.cpp:960-972 | A cut with no summary block written and no more segments allocated since the newest checkpoint than were free at it leaves a medium from which that checkpoint can be mounted with its owners |
| `Simulator.Simulator.Recover` | application/filesystem-test/exhaustive_tester/source/f2fs_simulator.cpp:960-1005 | Mounting such a medium gives a file system again, on which every operation works: the files of that checkpoint, the root cached, every read as it was then; it may write exactly when no current segment was empty |
| `Simulator.Simulator.Remount` | application/filesystem-test/exhaustive_tester/source/f2fs_simulator.cpp:960-1005 | Unmounting and mounting changes no file and no read, and the result is a file system again |
| `Simulator.Simulator.RemountRead` | application/filesystem-test/exhaustive_tester/source/f2fs_simulator.cpp:960-1005 | A read after unmounting and mounting gives what it would have given before; a file with its tags is read back exactly |
| `Simulator.TrackCheckpoint` | application/filesystem-test/exhaustive_tester/source/f2fs_simulator.cpp:1040-1084 | A checkpoint of a state without dirty nodes prolongs a run by one recovery point |
| `FileSystem.FileSystem.Mounted` | application/filesystem-test/exhaustive_tester/source/f2fs_nat.cpp:36-60 | A mounted segment manager whose nodes are files is a file system with those files |
| `FileSystem.FileSystem.BuildFree` | application/filesystem-test/exhaustive_tester/source/f2fs_nat.cpp:92-104 | The count of free identifiers, and the first of them as the next to be tried |
| `FileSystem.FileSystem.GetNode` | application/filesystem-test/exhaustive_tester/source/f2fs_nat.cpp:106-134 | Fails exactly when every identifier is in use; else takes the first free identifier at or after the last one taken, counted around, and changes no other entry; the wrap-around exit of the scan is unreachable |
| `FileSystem.FileSystem.PutNode` | application/filesystem-test/exhaustive_tester/source/f2fs_nat.cpp:136-153 | Exactly this identifier becomes free, its block is invalidated once if there is one, and nothing else reads differently |
| `FileSystem.FileSystem.OffsetToIndex` | application/filesystem-test/exhaustive_tester/source/f2fs_simulator.cpp:1909-1955 | The cached index node of a block; one created on the way changes no block of any file; without allocation nothing that is read changes |
| `FileSystem.FileSystem.AllocIndex` | application/filesystem-test/exhaustive_tester/source/f2fs_simulator.cpp:1919-1945 | A new index node is entered in the inode and written; failing to write it leaves it in use, and either way no file shows a different block |
| `FileSystem.FileSystem.WriteBlocks` | application/filesystem-test/exhaustive_tester/source/f2fs_simulator.cpp:1287-1363 | Exactly the blocks reported as written hold their tags, no other block of any file changes, new index nodes lie only between that of the first block and that of the last one tried; with identifiers for every block, and free segments or unused blocks enough to reclaim them, it writes them all, and a write that stops short stops at a block whose index node is there unless the identifiers ran out |
| `FileSystem.FileSystem.FileWrite` | application/filesystem-test/exhaustive_tester/source/f2fs_simulator.cpp:1248-1285 | The same for bytes: a complete write returns what was asked for and the size reaches its end, a short one ends with its last block, without a block or after an error the size stays and nothing is returned; files with their tags keep them if the write starts at or below the size; a short write of a file without idle index nodes leaves one exactly when the next block is at an index node that the size does not reach; with identifiers and unused blocks enough to reclaim it is complete |
| `FileSystem.FileSystem.ReadBlocks` | application/filesystem-test/exhaustive_tester/source/f2fs_simulator.cpp:1365-1405 | Each block read is the block of the file, except that from the first missing index node on nothing is read |
| `FileSystem.FileSystem.FileRead` | application/filesystem-test/exhaustive_tester/source/f2fs_simulator.cpp:1407-1446 | The blocks read reach exactly the end of the request cut at the size; a file with its tags is read back exactly; no file changes |
| `FileChanges.ReadExact` | application/filesystem-test/exhaustive_tester/source/f2fs_simulator.cpp:1376-1387 | A request is read exactly if and only if no block of it that is there lies behind a missing entry of the index table, counted from its first block |
| `Examples.SparseRead` | application/filesystem-test/exhaustive_tester/source/f2fs_simulator.cpp:1376-1387 | From an empty file system: a file whose second block was written and whose first was not; a read of both returns neither |
| `FileChanges.TaggedReads` | application/filesystem-test/exhaustive_tester/source/f2fs_simulator.cpp:1365-1405 | A file with its tags has no such gap |
| `FileChanges.WriteKeepsFiles` | application/filesystem-test/exhaustive_tester/source/f2fs_simulator.cpp:1248-1363 | A write at or below the size leaves tags and fullness of all files, and one that wrote everything leaves no idle index node |
| `FileChanges.NewBlocks` | application/filesystem-test/exhaustive_tester/source/f2fs_simulator.cpp:1277-1284 | The blocks below the new size are the old ones and the ones written, for every offset, length and short write |
| `FileMap.BlocksFill` | application/filesystem-test/exhaustive_tester/source/f2fs_simulator.cpp:1248-1285 | The blocks of a size are the fewest that hold it |
| `FileSystem.FileSystem.RoomExact` | application/filesystem-test/exhaustive_tester/source/f2fs_simulator.cpp:1287-1304 | The space guard of a write compares the blocks and the index nodes that hold them with the unused blocks above the reserve, all modulo 65536 |
| `FileSystem.FileSystem.AdmittedExact` | application/filesystem-test/exhaustive_tester/source/f2fs_simulator.cpp:1258-1304 | A write is let go on exactly when its end lies within the largest file and its blocks pass the space guard |
| `FileSystem.FileSystem.TruncateOne` | application/filesystem-test/exhaustive_tester/source/f2fs_simulator.cpp:1457-1494 | One block goes; its index node goes with it exactly when no other block lies below it |
| `FileSystem.FileSystem.RemoveFile` | application/filesystem-test/exhaustive_tester/source/f2fs_simulator.cpp:1676-1698 | Exactly the data blocks, the index nodes below the size and the inode are invalidated, each once; exactly those identifiers become free; all other files are unchanged; identifiers are lost if and only if the file had an index node above its size |
| `FileChanges.CutStep` | application/filesystem-test/exhaustive_tester/source/f2fs_simulator.cpp:1448-1497 | Truncation goes on correctly after an index node was given back: the next block never lies below the node that went |
| `FileChanges.IdleLost` | application/filesystem-test/exhaustive_tester/source/f2fs_simulator.cpp:1448-1497 | Removal loses no identifier exactly when the file has no idle index node |
| `Examples.ShortWrite` | application/filesystem-test/exhaustive_tester/source/f2fs_simulator.cpp:1309-1342 | From an empty file system with one segment more than the reserve: the first write of a file enters its index node, finds no segment for the block, and leaves the index node idle |
| `Examples.ShortWriteLoses` | application/filesystem-test/exhaustive_tester/source/f2fs_simulator.cpp:1676-1698 | Removing that file loses an identifier |
| `FileSystem.FileSystem.CreateInode` | application/filesystem-test/exhaustive_tester/source/f2fs_simulator.cpp:752-764 | A new empty file; without room its identifier is given back; all other files are unchanged |
| `FileSystem.FileSystem.OpenInode` | application/filesystem-test/exhaustive_tester/source/f2fs_simulator.cpp:844-877 | Opening brings the inode into the cache and changes no file |
| `FileSystem.FileSystem.CloseInode` | application/filesystem-test/exhaustive_tester/source/f2fs_simulator.cpp:357-403 | No file shows a difference even when a collection brings an index node back; it fails only with at most one free segment; without dirty nodes nothing is written; then, and with a free segment above the reserve for the inode and each index entry, exactly the inode and the index nodes below the size leave the cache, and every other node is cached as it was |
| `FileSystem.FileSystem.Sync` | application/filesystem-test/exhaustive_tester/source/f2fs_simulator.cpp:1040-1063 | Syncing changes no file, and on success a checkpoint may be taken; it succeeds when a segment above the reserve is free for every dirty node |
| `Fsck.CheckExact` | application/filesystem-test/exhaustive_tester/source/fsck.cpp:30-73 | The check without repair accepts a volume if and only if it is consistent: counters right, everything reached sound and with one owner, allocated nodes exactly the reached ones, valid blocks exactly the reached ones, inodes a tree under the root |
| `Fsck.WalkSound` | application/filesystem-test/exhaustive_tester/source/fsck.cpp:217-406 | A walk that succeeds, over any volume, marks exactly what is reachable, and what is reachable is sound and reached once |
| `Fsck.WalkComplete` | application/filesystem-test/exhaustive_tester/source/fsck.cpp:217-406 | A walk fails only for a double visit or an unsound item |
| `FsckRepair.RepairExact` | application/filesystem-test/exhaustive_tester/source/fsck.cpp:171-214 | After a repair the check passes if and only if everything reached was valid and no unvisited node shared a block with it |
| `FsckRepair.DeadSharesData` | application/filesystem-test/exhaustive_tester/source/fsck.cpp:176-190 | An injective node table with valid blocks is not enough: an unvisited node at a reached data block, which the repair invalidates |
| `FsckRepair.WalkFixes` | application/filesystem-test/exhaustive_tester/source/fsck.cpp:217-270 | A repairing walk leaves a reverse map that names the owner of every valid block it reached |
| `FsckRun.Checker.Fsck` | application/filesystem-test/exhaustive_tester/source/fsck.cpp:37-50 | The recursive check over the bitmaps decides exactly that, changes nothing without repair, and a repair that ends leaves exactly the reached nodes and blocks; whatever it changed is marked dirty |
| `FsckDevice.Device.Mount` | application/filesystem-test/exhaustive_tester/source/f2fs_segment.cpp:204-258 | What a check starts from: the tables of the newest checkpoint, the free segments counted again, and the owners from the medium |
| `FsckDevice.Device.Sync` | application/filesystem-test/exhaustive_tester/source/fsck.cpp:54-68 | The tables and owners of the check are written with a checkpoint, and the next mount has exactly the volume that the check left, with its owners |
| `FsckDevice.Device.StoreTables` | application/filesystem-test/exhaustive_tester/source/fsck.cpp:54-68 | Only entries that the check has marked dirty are handed over, all others keep their mark, and yet the checkpoint has all its tables |
| `FsckDevice.Device.StoreOwners` | application/filesystem-test/exhaustive_tester/source/fsck.cpp:54-68 | Only the owners of segments that the check has marked dirty are written, and nothing else, and yet the medium has the owners of all |
| `FsckDevice.Device.Fsck` | application/filesystem-test/exhaustive_tester/source/fsck.cpp:30-73 | Over the medium: without repair it passes exactly the volumes that it accepts and the next mount has the same volume; a check that throws writes nothing, and one that passes without repair writes a checkpoint exactly when a header is not whole; a repair that passes leaves a medium whose next check passes if and only if everything reached was valid and no unvisited node shared a block with it |
| `FsckDevice.Device.RepairThenCheck` | application/filesystem-test/exhaustive_tester/source/fsck.cpp:30-73 | A repair and then a check of what is on the medium: the check passes if and only if the volume was repairable, and then the volume is consistent |
| `FsckRun.Checker.ChkNode` | application/filesystem-test/exhaustive_tester/source/fsck.cpp:272-345 | The check of a node passes exactly when the walk from it does, and marks the same |
| `FsckRun.Checker.ChkInode` | application/filesystem-test/exhaustive_tester/source/fsck.cpp:347-382 | The same for an inode, with its block count |
| `FsckRun.Checker.ChkIndex` | application/filesystem-test/exhaustive_tester/source/fsck.cpp:384-406 | The same for an index node, with its pointer count |
| `FsckRun.Checker.ChkData` | application/filesystem-test/exhaustive_tester/source/fsck.cpp:217-270 | The same for a data block and the inodes a directory block names |
| `FsckRun.Checker.ChkMetadata` | application/filesystem-test/exhaustive_tester/source/fsck.cpp:118-168 | Passes exactly when every bitmap matches its counter and every segment is in use or counted free |
| `FsckRun.Checker.VerifyNodes` | application/filesystem-test/exhaustive_tester/source/fsck.cpp:171-192 | Passes exactly when no allocated node is unvisited; a repair returns them one by one and stops exactly at one whose block is not valid |
| `FsckRun.Checker.VerifyBlocks` | application/filesystem-test/exhaustive_tester/source/fsck.cpp:193-214 | Passes exactly when no valid block is unreached; a repair invalidates exactly those |
| `Versions.LastIsFold` | application/filesystem-test/exhaustive_tester/source/storage.cpp:147-188 | Following the newest version of each block is the same as replaying the log of the clone |
| `Versions.WriteKeeps` | application/filesystem-test/exhaustive_tester/source/storage.cpp:147-169 | A write appends to the log of one clone; the logs of the others and all reference counts stay right |
| `Versions.RollbackKeeps` | application/filesystem-test/exhaustive_tester/source/storage.cpp:228-261 | Taking back the last write is exactly the log without its last entry |
| `Versions.DeadUnlogged` | application/filesystem-test/exhaustive_tester/source/storage.cpp:293-312 | A record without references is in the log of no clone |
| `Versions.NoRepeat` | application/filesystem-test/exhaustive_tester/source/storage.cpp:228-261 | No record occurs twice in a log |
| `VersionStore.Stores.constructor` | application/filesystem-test/exhaustive_tester/source/storage.cpp:35-67 | Clones of an empty medium |
| `VersionStore.Stores.Get` | application/filesystem-test/exhaustive_tester/source/storage.cpp:278-291 | A record that no clone uses, with one reference; the pool grows exactly when the free list is empty; the live records stay as they are |
| `VersionStore.Stores.Put` | application/filesystem-test/exhaustive_tester/source/storage.cpp:293-312 | Gives up one reference; what becomes unreferenced is reclaimed along its chain, and no clone sees a difference |
| `VersionStore.Stores.Reclaim` | application/filesystem-test/exhaustive_tester/source/storage.cpp:331-340 | The record returns to the free list; nothing that a clone can read changes |
| `VersionStore.Stores.AllocateBuffer` | application/filesystem-test/exhaustive_tester/source/storage.cpp:314-329 | A refill adds exactly one chunk of records and leaves every record in use as it was |
| `VersionStore.Stores.BlockWrite` | application/filesystem-test/exhaustive_tester/source/storage.cpp:147-169 | The log of the clone with the write appended; all other clones unchanged |
| `VersionStore.Stores.BlockRead` | application/filesystem-test/exhaustive_tester/source/storage.cpp:171-188 | What replaying the log of the clone leaves at the block |
| `VersionStore.Stores.Rollback` | application/filesystem-test/exhaustive_tester/source/storage.cpp:228-261 | Exactly the last n writes are dropped, or nothing when there are fewer; all other clones unchanged |
| `VersionStore.Stores.CopyFrom` | application/filesystem-test/exhaustive_tester/source/storage.cpp:69-101 | The log of the target is that of the source; all other clones unchanged |
| `VersionStore.Stores.GetCacheNum` | application/filesystem-test/exhaustive_tester/source/storage.cpp:222-226 | Without its last n writes the log of the clone is a prefix of the log it was made with, and is all of it unless a rollback went behind that point |
| `TreeCode.CodeIso` | application/filesystem-test/exhaustive_tester/source/reference_fs.cpp:382-434 | Two trees have equal codes if and only if they are isomorphic as unordered trees labelled with size bucket and open mark |
| `TreeCode.PrefixFree` | application/filesystem-test/exhaustive_tester/source/reference_fs.cpp:382-434 | No code is a proper prefix of another |
| `TreeCode.FlatUnique` | application/filesystem-test/exhaustive_tester/source/reference_fs.cpp:382-434 | A concatenation of codes can be taken apart in one way only |
| `TreeCode.SortedUnique` | application/filesystem-test/exhaustive_tester/source/reference_fs.cpp:436-446 | Sorting child codes leaves no choice |
| `TreeCode.StaleBuffers` | application/filesystem-test/exhaustive_tester/source/reference_fs.cpp:436-446 | Comparing two buffers that are not terminated after their codes gives the order of the codes |
| `RefFiles.TreesUnique` | application/filesystem-test/exhaustive_tester/source/reference_fs.cpp:382-434 | The trees kept beside the table are the ones the table determines |
| `RefFiles.CodesCompare` | application/filesystem-test/exhaustive_tester/source/reference_fs.cpp:321-346 | The codes that two file systems keep at two objects are equal if and only if the trees there are isomorphic |
| `RefFiles.SortChildren` | application/filesystem-test/exhaustive_tester/source/reference_fs.cpp:390-391 | A permutation of the children, in the order of their codes |
| `RefFiles.RefFs.JoinCodes` | application/filesystem-test/exhaustive_tester/source/reference_fs.cpp:388-412 | The code of a directory from those of its sorted children; refused if and only if that code would be longer than the buffer |
| `RefFiles.RefFs.EncodeNode` | application/filesystem-test/exhaustive_tester/source/reference_fs.cpp:382-428 | One object has the code of its tree again, and only its parent is left to recode; refused if and only if the code of its label or of its children does not fit the buffer |
| `RefFiles.RefFs.UpdateEncode` | application/filesystem-test/exhaustive_tester/source/reference_fs.cpp:382-434 | Recoding up to the root makes every code the full recomputation again; some code on the way is refused as too long if and only if the code of the root would be, which is its old length and what the object grows by |
| `RefFiles.RefFs.constructor` | application/filesystem-test/exhaustive_tester/source/reference_fs.cpp:19-39 | A table with nothing but the root |
| `RefFiles.RefFs.GetFile` | application/filesystem-test/exhaustive_tester/source/reference_fs.cpp:46-57 | One object moves from the free list to the head of the used list |
| `RefFiles.RefFs.PutFile` | application/filesystem-test/exhaustive_tester/source/reference_fs.cpp:59-84 | One object moves from the used list to the free list |
| `RefFiles.RefFs.FindFileIndex` | application/filesystem-test/exhaustive_tester/source/reference_fs.cpp:208-218 | An object in use with this path, or none exists |
| `RefFiles.RefFs.AddPath` | application/filesystem-test/exhaustive_tester/source/reference_fs.cpp:98-145 | A new file or empty directory below its parent; every code is again the full recomputation and no other object changes; too long exactly when the code of the root has no room for the two or three characters of a new leaf |
| `RefFiles.ParentExact` | application/filesystem-test/exhaustive_tester/source/reference_fs.cpp:98-112 | The parent of a path is what stands before its last backslash, and the root when nothing does |
| `RefFiles.RefFs.UpdateFile` | application/filesystem-test/exhaustive_tester/source/reference_fs.cpp:158-176 | The new size, with every code recomputed; the code of the file is its open mark and the bucket in whose interval the new size lies; not found exactly when the path leads to no file, too long exactly when the code of the root with the new bucket does not fit |
| `RefFiles.BucketReached` | application/filesystem-test/exhaustive_tester/source/reference_fs.cpp:414-417 | A size is in a bucket or a higher one exactly when it is more than the blocks below that bucket, rounded up as the program does |
| `TreeCode.DecimalValue` | application/filesystem-test/exhaustive_tester/source/reference_fs.cpp:414-417 | The digits written for a bucket stand for it, without a zero in front, so different buckets have different codes |
| `RefFiles.RefFs.OpenFile` | application/filesystem-test/exhaustive_tester/source/reference_fs.cpp:178-185 | The open mark, with every code recomputed and one open file more; refused exactly when already open or a directory, too long exactly when the code of the root fills the buffer |
| `RefFiles.RefFs.CloseFile` | application/filesystem-test/exhaustive_tester/source/reference_fs.cpp:187-193 | The open mark taken off, with every code recomputed and one open file fewer; it fails exactly when the file is not open, and is never too long |
| `RefFiles.RefFs.RemoveFile` | application/filesystem-test/exhaustive_tester/source/reference_fs.cpp:233-251 | Exactly this object goes, with every code recomputed; not found exactly when no object has the path, and never too long |
| `RefFiles.RefFs.RemoveChild` | application/filesystem-test/exhaustive_tester/source/reference_fs.cpp:448-459 | The child leaves; the last child takes its place |
| `Directory.DirFile.FindSlot` | application/filesystem-test/exhaustive_tester/source/f2fs_simulator.cpp:470-490 | The first run of free slots of the length, if and only if the block has one |
| `Directory.DirFile.FindFile` | application/filesystem-test/exhaustive_tester/source/f2fs_simulator.cpp:274-334 | Exactly the value of the map, for every name, hash function and level |
| `Directory.DirFile.AddLink` | application/filesystem-test/exhaustive_tester/source/f2fs_simulator.cpp:441-545 | The map with the name added, in the first run of the fewest slots that hold it, at the first level whose block has one; the directory grows by a level exactly when no level in use has room, and it fails exactly when then the last level is in use |
| `Directory.SlotLeast` | application/filesystem-test/exhaustive_tester/source/f2fs_simulator.cpp:446 | The slots of a name are the fewest that hold it |
| `Directory.BlkExact` | application/filesystem-test/exhaustive_tester/source/f2fs_simulator.cpp:289-301 | A level has as many blocks as come before it and one more, and a hash value selects the one whose number is congruent to it |
| `Directory.EveryBlock` | application/filesystem-test/exhaustive_tester/source/f2fs_simulator.cpp:289-301 | Every block belongs to one level only, and some hash value selects it there |
| `Directory.DirFile.Unlink` | application/filesystem-test/exhaustive_tester/source/f2fs_simulator.cpp:547-663 | The map without the name, if it leads to this file; no block is left without an entry: an emptied one becomes a hole |
| `Directory.DirFile.GetChildNumber` | application/filesystem-test/exhaustive_tester/source/f2fs_simulator.cpp:665-690 | The size of the map |
| `Directory.PutMaps` | application/filesystem-test/exhaustive_tester/source/f2fs_simulator.cpp:500-545 | A fresh name in free slots adds it to the map and nothing else, names never overlapping |
| `Directory.ClearMaps` | application/filesystem-test/exhaustive_tester/source/f2fs_simulator.cpp:590-650 | Clearing an entry takes exactly its name out of the map |
| `Directory.EntriesAreNames` | application/filesystem-test/exhaustive_tester/source/f2fs_simulator.cpp:665-690 | There are as many entries as names |
| `Discard.DiscardControl.UpdateTreeRange` | application/filesystem/f2fs-lib/source/discard-control.cpp:346-433 | The commands stay ordered and disjoint, and cover exactly old and new, each block on the device that asked for it first; neighbours that could be one command never arise; a command longer than the maximum is an old one or covers no block covered before, and the block count grows by exactly the newly covered blocks |
| `Discard.DiscardControl.FillGap` | application/filesystem/f2fs-lib/source/discard-control.cpp:375-425 | A gap is filled by merging backwards, forwards or both, or by a new command: if no two neighbours could be one command before, none can afterwards; each block stays on its device, and commands under way are left alone |
| `Discard.DiscardControl.SubmitDiscardCmd` | application/filesystem/f2fs-lib/source/discard-control.cpp:633-729 | An error exactly when the refused request is among those that the length and the limit allow; without one the coverage is unchanged, what was issued is one command under way and the rest is pending again; with one exactly the blocks after the refused piece are covered no more, and a command whose first piece is refused is still pending |
| `Discard.SumIsCount` | application/filesystem/f2fs-lib/source/discard-control.cpp:346-433 | The lengths of disjoint commands add up to the number of blocks covered |
| `Discard.GrowsByNew` | application/filesystem/f2fs-lib/source/discard-control.cpp:346-433 | The total grows by the number of blocks not covered before |
| `WorkQueues.NeverFaults` | application/filesystem-test/exhaustive_tester/source/extester_multithread.cpp:186-267 | In every interleaving of any number of workers no thread takes from an empty queue |
| `WorkQueues.PopSafe` | application/filesystem-test/exhaustive_tester/source/extester_multithread.cpp:367-388 | A thread that was told to take finds something to take |
| `WorkQueues.AllDone` | application/filesystem-test/exhaustive_tester/source/extester_multithread.cpp:186-267 | When the collecting loop ends every context was run once and collected once, and both queues are empty |
| `WorkQueues.Progress` | application/filesystem-test/exhaustive_tester/source/extester_multithread.cpp:312-388 | While results are missing some thread can take a step that is safe |
| `WorkQueues.Terminates` | application/filesystem-test/exhaustive_tester/source/extester_multithread.cpp:186-267 | No interleaving has more than nine steps for each context |

## Left out

- Checkpoint versions, counters and block numbers of files do not wrap; only the space guard of a write is modelled in its 16-bit arithmetic (`RoomFor`), and exactly so (`RoomExact`).
- Pages are a map that only grows: the page allocator, its capacity and the freeing of pages are not modelled.
- Bitmaps are sequences of booleans or sets of marks, and the source's structs are values held in arrays; the child array of a directory is sorted as a local array and stored back.
- A write by the collector and a write by the file system are two methods instead of one with a flag.
- A temperature out of range has no current segment.
- The block counters of inodes and index nodes (blk_num, valid_data) are not stored; an index node is empty when it has no pointer. The checker model has its own count of blocks.
- The segment summary blocks are written in place and are not part of the crash-atomic state.
- FileSystem.FileSystem.CreateInode: after an error of the segment manager the model leaves the inode in the cache, where the program leaves an unattached page; entering the name in the parent directory is `Directory`.
- FileSystem.FileSystem.FileRead: an offset beyond the size is excluded, because the program's unsigned length wraps there.
- FileSystem.FileSystem.RemoveFile: stated for files that have a block wherever their size says so and nowhere else; truncating sparse files and partial truncation by users are not modelled.
- Open counts and link counts: a file is open when its inode is cached, and the caller decides between closing and removing.
- UpdateInode for files with blocks (its dropping of empty index nodes) and FileMove.
- RefFiles.RefFs.AddPath: assumes that the parent directory is not full and that the path has a last component; the program indexes past its child array otherwise.
- RefFiles.RefFs.RemoveFile: files and empty directories only, never the root; the tester calls it after the file system has removed the object, which refuses a directory with entries, and a child would otherwise stay in use below a freed parent.
- Demount and MoveFile of the reference file system, which leave codes out of date, and its checksums.
- Directory.DirFile.AddLink: the blocks of a directory are an array of its own and not blocks of `FileSystem`, so the data write behind it always succeeds; the name fits the slots of one block and is not there yet; syncing after an unlink is left to the caller.
- Directory.DirFile.Unlink: a missing name is reported, where the program throws.
- Discard: pending lists, timing, policies and completion of requests; the tree of commands is an ordered sequence whose lookup gives the containing command or its neighbours.
- WorkQueues: context numbers stand for work contexts; what an operation does to a state is not modelled, and a semaphore that is rung at its maximum stays there. A job has at most as many operations as the semaphore's maximum: the random mode (extester_multithread.cpp:197-202) takes its number of operations from the configuration without comparing it with the number of work contexts.
- Simulator.Simulator.Recover: when summary blocks were written after the newest checkpoint, or more segments allocated than were free at it, the owners on the medium need not be those of the tables; such a volume goes through the check first, and a file system over a repaired volume is not composed here.
- FsckDevice.Device.Mount: reading the root inode into the cache, which a mount does before the check looks at it.
- The main area of the checker holds the blocks as the check reads them, with their counters; it is a map of its own, apart from that of the segment manager.
- Before the first checkpoint of a new file system its node table is written a second time.
- Logging, dumps, configuration parsing, path walking, the Windows front ends, and the rest of f2fs-lib.
