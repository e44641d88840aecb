# Max, modelled and proved in Dafny

Max is a log-structured file system derived from F2FS. This project models its
hard parts and proves what they promise: the reader/writer lock that shares
nothing between readers, the multi-log segment allocator, the node address
table with its per-core flush, the shadow-copy checkpoint, the file index tree,
and the structures that have to agree with a plain map (directory, extent,
extended attributes, name digest).

`dafny verify dfyconfig.toml` checks everything.

| files | what they hold |
|---|---|
| `Common.dfy` | optional values, powers of two, sets of numbers below a bound |
| `Rps.dfy` | the RPS lock as a transition system with any number of threads and CPUs, and its counters as an object |
| `SegmentModel.dfy`, `SegmentSafety.dfy`, `SegmentLaws.dfy` | segment manager state and operations; what every run keeps; which blocks are live and where logs go |
| `SegmentManager.dfy`, `SegmentMount.dfy` | the search loops and update code as an object; building it at mount |
| `Shadow.dfy`, `SitFlush.dfy`, `SegmentStore.dfy` | two-copy block tables with a journal; the SIT flush; memory against disk over whole runs |
| `Nids.dfy`, `Nat.dfy`, `NatRuns.dfy`, `NodeManager.dfy` | free-nid lists; the NAT view; runs; the node manager with its per-core flush |
| `Checkpoint.dfy`, `Summary.dfy` | crashes and mounts; layout of the pack and whether it fits |
| `FileSystem.dfy`, `Recovery.dfy` | node manager, segment manager and disk through one checkpoint and a mount; through any number of checkpoints, crashes and mounts |
| `IndexPath.dfy`, `Truncate.dfy` | path arithmetic; truncation of a sparse tree |
| `DirLayout.dfy`, `DirBlock.dfy`, `Directory.dfy` | buckets and the checker's view; one block; the directory as a map |
| `Extent.dfy`, `ExtentTree.dfy` | the single cached extent; the tree of extents |
| `XattrCodec.dfy`, `Xattr.dfy`, `Digest.dfy` | attribute buffer; six-bit digest |

Conventions. The configuration is the one the headers select (RPS, FILE_CELL,
MLOG, PER_CORE_COUNTERS, PER_CORE_NID_LIST). Code that updates structures in
place is a class whose methods say how the new state follows from the old one;
the properties are lemmas about that state. Steps that run under one lock are
one step. A choice the code makes from page-cache counters, memory pressure or
timing is an argument or is arbitrary. `f2fs_bug_on` conditions are `requires`
where they state what callers owe, and are proved where they state what the
code itself guarantees.

Eight places where a promise holds only under a condition, each stated exactly:

* A mount gives a log of mlog 1 and up the allocation type that was saved for
  the log of mlog 0 of the same type. The mounted segment manager is therefore
  safe to allocate from exactly when no log that goes from SSR to LFS in this
  way has a block in use behind its head (`SegmentMount.CheckpointMountable`,
  `FileSystem.CheckpointAndMount`). Otherwise it comes to hand out a block in
  use (`SegmentMount.LostModeReuses`), and one allocation leads from LFS logs
  alone to a state of that kind (`SegmentMount.LostModeOccurs`).
* Truncation ends in `BUG()` when the cut is inside the last direct node the
  tree can have, or beyond it; otherwise it succeeds
  (`Truncate.TruncateBlocks`). A node is freed exactly when it maps only
  indexes that are cut off, or is an indirect or double indirect node on the
  way to the cut whose first child on that way is missing
  (`Truncate.FreedExactlyWhen`, `Truncate.StrandedOccurs`).
* An extent predicts the block map after every update except one: a hole merged
  in front of an extent that starts at block 1 (`Extent.UpdateExact`,
  `Extent.MergesNothingOccurs`). Real addresses start far above.
* An update of the extent tree keeps it in agreement with the block map exactly
  when it does not put back a right part of 64 blocks or more: the code gives
  that part the blocks from one too early on (`ExtentTree.UpdateAgrees`,
  `ExtentTree.WrongRightPartOccurs`). The code stops with `BUG()` exactly when
  that part meets the next extent (`ExtentTree.UpdateStops`).
* Every checkpoint pack that the limit on orphan inodes lets through fits its
  segment exactly when there is one log of each type; without node summaries,
  exactly when there are at most two (`Summary.AllPacksFit`,
  `Summary.NodelessPacksFit`). A first pack that does not fit overwrites the
  head of the last checkpoint before it is complete, and a crash then leaves
  none (`Checkpoint.OverrunLoses`).
* A stored attribute can be read back unless index, name and value are all
  empty: such an entry, and no other, begins with a zero word and reads as the
  end of the list (`Xattr.Attributes.SetXattr`, `XattrCodec.EndMark`). The
  indexes the file system uses start at 1 (Max/xattr.h:31-39).
* Encoding undoes decoding exactly for names whose length is not one more than
  a multiple of four; such a name, if it decodes, means the same as the name
  without its last symbol (`Digest.Reencode`, `Digest.ReencodeFails`).
* A directory never reaches the depth at which adding returns ENOSPC: the
  largest file ends first and `get_node_path` stops with `BUG()`
  (`Directory.Dir.AddLink`).

## Model

| member | source | states |
|---|---|---|
| `Rps.MutualExclusion` | Max/rps.c:29-94 | in every run, with any number of readers, writers and CPUs, no thread reads or writes while another is between the return of rps_down_write and the start of rps_up_write, whichever lane a reader came in or goes out by |
| `Rps.CountersBalance` | Max/rps.c:65-88 | highway sum plus lowway counter plus what the writer has collected equals the readers counted in and not out; once the highway is cleared lowway alone does |
| `Rps.NoLostWakeup` | Max/rps.c:65-88 | a waiting writer is admitted exactly when no counted reader is left, and one that sleeps has readers left or a waker on its way |
| `Rps.DeadlockFree` | Max/rps.c:29-94 | while some thread is inside a lock call or section, some such thread can move |
| `Rps.ReadersOnlyLeave` | Max/rps.c:65-88 | from the moment a writer holds the semaphore until it gives it up nobody is counted in: the readers it waits for are among those counted in when it took it |
| `Rps.ReadCallHolds` | Max/rps.c:46-51 | a thread that called rps_down_read has been reading before it is idle again: the call never returns without the lock |
| `Rps.TryCallHolds` | Max/rps.c:53-63 | rps_down_read_try_lock gives up only where down_read_trylock has failed |
| `Rps.WriteCallHolds` | Max/rps.c:82-88 | a thread that called rps_down_write has been in the write-side section before it is idle again |
| `Rps.UnlockEnds` | Max/rps.c:65-94 | having unlocked, a thread is in a section again only through a new call |
| `Rps.CallAdvances` | Max/rps.c:29-94 | inside a call every action of a thread brings it nearer to the end, and nobody else's action takes it further away except by waking it |
| `Rps.CallBounded` | Max/rps.c:29-94 | a call takes at most five steps of a reader, and of a writer at most six and two per CPU until it first tests the count |
| `Rps.InvStep` | Max/rps.c:29-94 | every atomic action of the lock keeps semaphore, grace-period, cleared-prefix, balance and wake-up invariants together |
| `Rps.SumChange` | Max/rps.c:29-88 | an action changes the three counters by exactly its change to who is counted in |
| `Rps.Counters.GoHighway` | Max/rps.c:29-38 | the highway counter of one CPU changes by the amount asked iff no writer is announced, and nothing else changes |
| `Rps.Counters.ClearHighway` | Max/rps.c:72-80 | all per-CPU counters become zero and their sum is returned |
| `Rps.Counters.Drain` | Max/rps.c:82-88 | the highway sum moves into the lowway counter: their total is unchanged |
| `SegmentSafety.AllocationSafe` | Max/segment.c:1316-1377 | in every interleaving of allocations in any log and mode, invalidations, checkpoints and discards, the address handed out is in neither the current nor the checkpointed valid map, and no two logs hold one segment |
| `SegmentSafety.CheckpointedBlocksKept` | Max/segment.c:962-1062 | a block live at a checkpoint is not handed out before the next one, even if invalidated in between |
| `SegmentSafety.Partition` | Max/segment.c:399-470 | between checkpoints each main segment is exactly one of free, open, prefree, dirty, full; DIRTY is the disjoint union of the typed maps; every counter is the size of its map |
| `SegmentSafety.Accounting` | Max/segment.c:654-702 | valid_blocks, ckpt_valid_blocks, section counts, the written total and discard_blks match the bitmaps in every reachable state; clean entries have equal maps |
| `SegmentSafety.CkptSnapshot` | Max/segment.c:2067-2168 | until the next checkpoint the checkpointed map of a segment is the current map it had at the last one |
| `SegmentSafety.AllocateInv` | Max/segment.c:1316-1377 | allocation keeps the whole invariant through log advance, LFS or SSR switch and SIT refresh |
| `SegmentSafety.InvalidateInv` | Max/segment.c:704-721 | so does giving a block up |
| `SegmentSafety.ForceNewInv` | Max/segment.c:1168-1196 | so does forcing a log onto a new segment |
| `SegmentSafety.CheckpointInv` | Max/segment.c:583-633 | so does a checkpoint: flush of all dirty entries, prefree segments freed, prefree map emptied |
| `SegmentSafety.TrimInv` | Max/segment.c:472-489 | so does marking a discarded block |
| `SegmentSafety.LocateMaps` | Max/segment.c:399-470 | what locate_dirty_segment does to the DIRTY and PRE maps, by the number of valid blocks |
| `SegmentSafety.AdvanceInv` | Max/segment.c:1001-1029 | moving a log head keeps it on blocks free in both maps and leaves the old head behind every log |
| `SegmentSafety.SetFreeInv` | Max/segment.h:394-413 | freeing a segment keeps the section map derived from the segment map and both counters exact |
| `SegmentSafety.SetInuseInv` | Max/segment.h:384-426 | the same for taking a segment |
| `SegmentLaws.OpLive` | Max/segment.c:654-721 | an allocation makes the block it hands out live and its predecessor dead, an invalidation its block dead, and nothing else changes what is live |
| `SegmentLaws.OpMarked` | Max/segment.c:654-693 | the discard map follows in the same way, and a discard adds its block |
| `SegmentLaws.NextHead` | Max/segment.c:1001-1029 | the block handed out is the log's head, or the first of a fresh segment for direct I/O; the log then stands on the next block of the segment usable in both maps, and only if there is none on the first usable one of the segment chosen; no other log moves |
| `SegmentLaws.HandedOnce` | Max/segment.c:1316-1377 | over every run a block handed out is not handed out again unless it was given up in between |
| `SegmentLaws.HandedAfterCheckpoint` | Max/segment.c:1316-1377 | a block live at a checkpoint is handed out later only after it was given up and a further checkpoint was taken |
| `SegmentManager.FindRevNextZero` | Max/segment.c:133-191 | the first clear bit from the start on, clamped at the size |
| `SegmentManager.Manager.UpdateSitEntry` | Max/segment.c:654-693 | updates entry, discard count, total and section count as UpdateSit does |
| `SegmentManager.Manager.LocateDirtySegment` | Max/segment.c:448-470 | moves the segment to the map its valid count calls for |
| `SegmentManager.Manager.RefreshSitEntry` | Max/segment.c:695-702 | the new block is live, the previous one is not, every other block is as before; both segments are located |
| `SegmentManager.Manager.InvalidateBlocks` | Max/segment.c:704-721 | keeps the object valid; exactly this block is no longer live |
| `SegmentManager.Manager.SetTestAndFree` | Max/segment.h:394-413 | frees the segment, and its section if that was the last |
| `SegmentManager.Manager.GetNewSegment` | Max/segment.c:820-915 | if a free section exists it returns a segment that was free after at most two passes over the zones, for both directions, every hint and any section and zone size: the next free one of the current section, or, if there is none or a new section is asked for, the first of a free section, the nearest in the direction asked for where zones are single sections |
| `SegmentManager.Manager.GetVictim` | Max/gc.c:245-323 | finds a victim iff an eligible dirty segment with room exists; the one found is eligible, and cheapest when the search was not cut short |
| `SegmentManager.Manager.AllocateSegment` | Max/segment.c:1132-1147 | a full log moves to a segment that is free, or dirty with room and in no log's section; a dirty one exactly when the log may be SSR, has no free segment next to it, free sections are short and an eligible one exists; warm node logs never |
| `SegmentManager.Manager.AllocateNewSegments` | Max/segment.c:1168-1196 | direct I/O moves the log to a free segment and locates the old one |
| `SegmentManager.Manager.AllocateDataBlock` | Max/segment.c:1316-1377 | the address returned is the log head of a step of the safe transition system; it is live afterwards, the previous address is not, and every other block is as before; the object stays valid |
| `SegmentManager.Manager.FlushSitEntries` | Max/segment.c:2067-2168 | every dirty entry's current map becomes its checkpointed map and nothing is dirty |
| `SegmentManager.Manager.SetPrefreeAsFree` | Max/segment.c:583-590 | exactly the prefree segments join the free map |
| `SegmentManager.Manager.ClearPrefree` | Max/segment.c:592-633 | the prefree map is emptied run by run and its counter with it |
| `SegmentMount.RawRoundTrip` | Max/segment.h:335-354 | an entry written out and read back is the flushed entry |
| `SegmentMount.CheckpointMountable` | Max/segment.c:1572-1711 | after a checkpoint in any reachable state, entries and logs as a mount restores them can be built on and hold every current map, count and type; every log stands on free blocks exactly when none loses an SSR mode it needs |
| `SegmentMount.LostModeReuses` | Max/segment.c:1697-1704 | if one does, some number of allocations in that log reaches a block in use and hands it out |
| `SegmentMount.LostModeOccurs` | Max/segment.c:1132-1147 | a consistent state with all logs in LFS mode, and one allocation after which a needed mode would be lost |
| `SegmentMount.BuiltInv` | Max/segment.c:2359-2418 | SIT, free maps and dirty lists built from such entries satisfy the whole invariant exactly when the logs stand on free blocks |
| `SegmentMount.BuildSit` | Max/segment.c:2306-2356 | sums, section counts and discard count built in one pass are exact |
| `SegmentMount.InitFreeSegmap` | Max/segment.c:2359-2375 | exactly the empty segments that are no log's are free |
| `SegmentMount.InitDirtySegmap` | Max/segment.c:2395-2418 | exactly the partly valid segments that are neither free nor open are dirty |
| `SegmentMount.Build` | Max/segment.c:2481-2540 | the object built at mount knows the same blocks and logs, and is valid exactly when the logs stand on free blocks |
| `Shadow.PutLookup` | Max/segment.c:1937-1956 | a journal write changes what is read back for exactly its key |
| `Shadow.StoreLookup` | Max/node.c:2654-2657 | a block write is read back for exactly its key, unless a journal entry hides it |
| `Shadow.FlipLookup` | Max/node.c:121-154 | copying the current block to the other place and turning its bit changes nothing that is read |
| `Shadow.Search` | Max/segment.c:1937-1956 | the journal slot of a key, or none |
| `SitFlush.AddSitEntry` | Max/segment.c:2001-2034 | the set list has one set per SIT block with dirty entries, with their number, smaller sets first, after each insertion and move |
| `SitFlush.MarkJournal` | Max/segment.c:2045-2061 | every journal entry becomes dirty and is counted once |
| `SitFlush.LoadEntries` | Max/segment.c:2306-2340 | what build_sit_entries reads is the journal entry or the current block's |
| `SitFlush.SitStore.TurnOver` | Max/segment.c:1963-1988 | a SIT block flips once, to the copy not in use, and reads the same |
| `SitFlush.SitStore.FlushSet` | Max/segment.c:2103-2150 | all dirty entries of one block are written, to the journal or to the turned block, and no others |
| `SitFlush.SitStore.Flush` | Max/segment.c:2067-2168 | nothing is dirty afterwards, journal and blocks hold every entry in memory, each block was turned over at most once, and none if the journal has room for all |
| `SegmentStore.OpQuiet` | Max/segment.c:635-702 | no operation but a checkpoint cleans an entry or changes a clean one |
| `SegmentStore.RunMatches` | Max/segment.c:2067-2168 | over every run in which a checkpoint writes dirty entries alone, disk and memory differ at dirty entries only |
| `SegmentStore.FlushSegments` | Max/segment.c:2067-2168 | given that, flush_sit_entries on entries, journal and SIT blocks is such a step of the disk: dirty entries are written, the others still read as before, and the entries in memory count as checkpointed |
| `SegmentStore.CheckpointSegments` | Max/segment.c:583-633 | with set_prefree_as_free_segments and clear_prefree_segments it is one checkpoint step, and disk and memory agree |
| `SegmentStore.MountSegments` | Max/segment.c:2306-2356 | a mount reads journal and SIT blocks and builds the manager from exactly these entries |
| `SegmentStore.CheckpointRestores` | Max/segment.c:2306-2356 | after any run, a checkpoint and a mount give back every map, count and type that was in memory, and a manager that is valid exactly when no log lost an SSR mode it needs |
| `Nids.ListIdxBound` | Max/node.c:2803-2806 | with the range size chosen at mount every nid has a list |
| `Nids.AddOk` | Max/node.c:1848-1920 | an unknown nid other than 0 is on offer, no other nid is known differently; each nid stays once in the list of its range and every count equals its number of offers |
| `Nids.WithdrawOk` | Max/node.c:1922-1948 | an offer is withdrawn, a handed-out nid stays; the rest as for AddOk |
| `Nids.TakeOk` | Max/node.c:2114-2142 | the nid is handed out and known as such; the rest as for AddOk |
| `Nids.GiveBackOk` | Max/node.c:2213-2249 | the nid is on offer again, or forgotten when memory is short; the rest as for AddOk |
| `Nids.FirstOnOffer` | Max/node.c:2131-2138 | a positive count means the list walk ends at a nid on offer, the first one |
| `Nids.SumUpFcnt` | Max/node.h:428-436 | the counts of all lists add up to the number of offers |
| `Nat.FlushInv` | Max/node.c:2725-2778 | a flush keeps the NAT and free-nid invariants |
| `NatRuns.ViewIsMap` | Max/node.c:402-606 | after any run a nid means its initial value with the assignments to it replayed |
| `NatRuns.LastAssigned` | Max/node.c:402-456 | after any run a nid has the owner and the address of the last assignment to it |
| `NatRuns.VersionCounts` | Max/node.c:430-441 | its version counts, modulo 256, how often a node written under it was freed |
| `NatRuns.FlushPersists` | Max/node.c:2725-2778 | after a flush journal and blocks alone hold that meaning |
| `NatRuns.StepInv` | Max/node.c:402-606 | every step keeps clean entries equal to the disk, placeholders off the disk, and offers unmapped |
| `NatRuns.NotReissued` | Max/node.c:2114-2249 | a nid handed out is not handed out again before it is given back or, having been freed, goes through a flush |
| `NatRuns.OffersExact` | Max/node.c:1848-2058 | at every moment no nid on offer is mapped, and each percore_fcnt is the number of offers in its list |
| `NodeManager.TotalDirty` | Max/node.c:2737-2742 | the per-core dirty counts add up to the number of dirty entries |
| `NodeManager.AdjustPacks` | Max/node.c:2684-2720 | merging a dirty set adds its entries to its block's pack and to no other, whatever the order |
| `NodeManager.BuildPacks` | Max/node.c:2752-2766 | one pack per block, holding exactly the dirty nids, each once |
| `NodeManager.Manager.constructor` | Max/node.c:2782-2867 | an empty cache and empty free lists are valid, and the nid ranges cover the table |
| `NodeManager.Manager.SetDirty` | Max/node.c:196-221 | an entry becomes dirty and is filed once under its core and block |
| `NodeManager.Manager.ClearDirty` | Max/node.c:241-255 | the inverse, and the entry counts as checkpointed |
| `NodeManager.Manager.GetNodeInfo` | Max/node.c:544-606 | returns the view, caches a missing entry clean, and changes no nid's meaning |
| `NodeManager.Manager.SetNodeAddr` | Max/node.c:402-456 | afterwards the nid means this owner and this address, its version is one more iff a written node is freed, it is dirty and its checkpoint flag is as it should be; no other nid changes its meaning |
| `NodeManager.Manager.TryToFreeNats` | Max/node.c:506-528 | only clean entries go, no nid changes its meaning, the count returned is what is left to free, and every core has no clean entry left or gave up its even share |
| `NodeManager.Manager.AddFreeNid` | Max/node.c:1848-1920 | a nid is put on offer exactly if there is memory, it is not 0, not known and, while collecting, not in use or waiting for a checkpoint |
| `NodeManager.Manager.RemoveFreeNid` | Max/node.c:1922-1948 | withdraws an offer, leaves a handed-out nid |
| `NodeManager.Manager.BuildFreeNids` | Max/node.c:2040-2058 | collecting from the journal offers only nids free in the view and, unless memory is short, all that are free by their journal entry |
| `NodeManager.Manager.BuildAllFreeNids` | Max/node.c:1973-2038 | the scan of NAT blocks followed by the journal offers only nids free in the view and, unless memory is short, every nid from the starting one on that journal and blocks say is free |
| `NodeManager.Manager.TryAllocNid` | Max/node.c:2114-2152 | one attempt on a list: the first nid on offer in it is handed out iff it has one, else the lists are refilled |
| `NodeManager.Manager.AllocNidDone` | Max/node.c:2188-2208 | the nid is forgotten by its list |
| `NodeManager.Manager.AllocNidFailed` | Max/node.c:2213-2249 | the nid is on offer again if there is memory and forgotten if not; 0 is ignored |
| `NodeManager.Manager.RemoveNatsInJournal` | Max/node.c:2394-2430 | the journal is empty, all it held is dirty in the cache, and no nid changes its meaning |
| `NodeManager.Manager.TurnOver` | Max/node.c:121-154 | a NAT block flips once, to the copy not in use |
| `NodeManager.Manager.FlushPack` | Max/node.c:2605-2681 | a whole pack goes to the journal if it fits, else to its turned block; exactly its entries become clean |
| `NodeManager.Manager.FlushNatEntries` | Max/node.c:2725-2778 | the view is unchanged, journal plus blocks alone give it with no stale journal entry, nothing is dirty, each block flipped at most once and none if the journal has room for all; only free nids came on offer, and all that lost their address unless memory is short |
| `Checkpoint.CrashAtomic` | Max/checkpoint.c:651-768 | stop any run of checkpoints, torn writes, crashes and mounts anywhere: a mount succeeds, with the version of the last complete checkpoint, and every NAT and SIT entry it reads is the one recorded there; the switch happens exactly at the last pack block |
| `Checkpoint.OneOfTwo` | Max/checkpoint.c:651-768 | while a run moves from one version to the next, whatever a crash leaves, with the pack or table block being written torn or not, is in order with one of the two checkpoints as its last |
| `Checkpoint.OverrunLoses` | Max/checkpoint.c:651-700 | a first pack longer than its segment replaces the head of the last checkpoint; until it is complete a mount finds neither |
| `Checkpoint.ChoosesCurrent` | Max/checkpoint.c:702-768 | with one pack half written, get_valid_checkpoint picks the other; with both complete, the newer |
| `Checkpoint.MountsCurrent` | Max/checkpoint.c:702-768 | bits, journals, logs and used blocks a mount sees are the checkpoint's |
| `Checkpoint.StepInv` | Max/checkpoint.c:989-1242 | every block write keeps the last checkpoint readable, and only the last pack block changes which one that is |
| `Checkpoint.SpareKept` | Max/node.h:243-260 | writing the copy not in use touches no block in use |
| `Checkpoint.Writer.SyncNat` | Max/checkpoint.c:1011-1016 | the changed NAT blocks are written to their spare copies and the disk then holds the new table |
| `Checkpoint.Writer.SyncSit` | Max/checkpoint.c:1011-1016 | the same for the SIT |
| `Checkpoint.Writer.WritePackBlocks` | Max/checkpoint.c:1117-1153 | the pack blocks are written in order and the new checkpoint becomes current |
| `Checkpoint.Writer.WriteCheckpoint` | Max/checkpoint.c:1196-1242 | an uninterrupted checkpoint is a run of the machine that ends with the new checkpoint current and its tables on disk |
| `Summary.AddressesApart` | Max/segment.h:703-707 | for every number of logs, payload, orphan count and reason the read addresses are distinct, inside the pack and behind the compacted pages |
| `Summary.AllPacksFit` | Max/checkpoint.c:1265-1267 | every pack with node summaries that max_orphans admits fits its segment iff there is one log of each type |
| `Summary.NodelessPacksFit` | Max/checkpoint.c:1265-1267 | without node summaries, iff there are at most two |
| `Summary.OrphanRoom` | Max/checkpoint.c:1066-1099 | for one pack, how many orphans it has room for |
| `Summary.ReadAddrForward` | Max/segment.c:1644-1668 | the address computed from the end of the pack is the one counted from its front |
| `Summary.WritePack` | Max/checkpoint.c:1066-1153 | the pack has exactly the announced number of blocks, starts and ends with the checkpoint block, and every summary lies where it is looked for |
| `Summary.WriteCompacted` | Max/segment.c:1836-1891 | compacted summaries use exactly npages_for_summary_flush pages, each entry at its byte offset |
| `Summary.ReadCompacted` | Max/segment.c:1572-1641 | the reader gets back journals and entries of every log |
| `Summary.CompactRoundTrip` | Max/segment.c:1572-1641 | writing then reading compacted summaries gives every entry and both journals back |
| `FileSystem.WriteCheckpoint` | Max/checkpoint.c:1196-1242 | NAT flush, SIT flush, block writes, pack and prefree segments together: the view is persistent, the segment manager takes its checkpoint step, memory and disk are in step again; and a crash at any moment, with a torn table or pack block or not, leaves a disk that mounts as the previous checkpoint or as this one, in version, logs and every entry |
| `FileSystem.CheckpointAndMount` | Max/checkpoint.c:1196-1242 | a mount from that disk alone gives every nid the meaning and every segment the map, count and type it had in memory, and a valid segment manager exactly when no log lost an SSR mode it needs |
| `FileSystem.CheckpointRecords` | Max/checkpoint.c:1196-1242 | the checkpoint so written records the entries and logs memory had |
| `Recovery.NothingOverwritten` | Max/checkpoint.c:989-1242 | over any number of checkpoints, crashes and mounts, and for a crash at any moment: no block that a mount reads as valid has been handed out since the checkpoint it mounts, as long as mounts leave the logs on free blocks |
| `Recovery.StepInv` | Max/checkpoint.c:989-1242 | operations, block writes, the commit, crashes and mounts keep memory's checkpointed maps equal to those of the last complete checkpoint |
| `FileSystem.MountsRecorded` | Max/checkpoint.c:702-768 | with memory and disk in step, a mount rebuilds exactly the tables, journals and logs recorded |
| `FileSystem.MountReads` | Max/checkpoint.c:702-768 | a disk in order reads, entry by entry, as its last checkpoint recorded |
| `IndexPath.PathInverse` | Max/gc.c:461-478 | start_bidx_of_node of the last node offset plus the last offset is the block, for every block below capacity |
| `IndexPath.NodePath` | Max/node.c:612-683 | a path exists exactly for blocks below capacity and starts at the inode |
| `IndexPath.PathKinds` | Max/node.h:341-356 | IS_DNODE holds of the first and last node on a path and of none between |
| `IndexPath.DnodePositions` | Max/node.h:341-356 | IS_DNODE holds exactly of the inode and the lowest nodes of each branch |
| `IndexPath.OffsetInjective` | Max/node.c:612-683 | different positions have different node offsets |
| `IndexPath.SharedOffset` | Max/node.c:612-683 | two paths with the same node offset have come the same way |
| `IndexPath.PathNumber` | Max/node.c:612-683 | a block lies in the direct node with its number, at the remainder |
| `Truncate.TruncateBlocks` | Max/file.c:506-567 | succeeds exactly when neither BUG() is met; then every index from the rounded-up block on is unmapped, every lower one unchanged, and exactly the nodes from FirstGone on are gone and freed, for any sparse tree |
| `Truncate.TruncateInodeBlocks` | Max/node.c:1004-1105 | the tree is cut at the node where the code really starts, and the freed nids are those of the nodes cut off |
| `Truncate.TruncateNodes2` | Max/node.c:875-943 | an indirect node loses its direct nodes from an offset on, and itself if that is all |
| `Truncate.TruncateNodes3` | Max/node.c:875-943 | the double indirect node loses its children from an offset on, and itself if that is all |
| `Truncate.TruncateFromInd` | Max/node.c:945-999 | a cut below an indirect slot, partial nodes included |
| `Truncate.TruncateFromDind` | Max/node.c:945-999 | a cut below the double indirect slot, a missing child on the path included |
| `Truncate.TruncateDataBlocks` | Max/file.c:437-470 | addresses from an offset on are cleared and those in use are counted |
| `Truncate.LookupDnode` | Max/node.c:691-818 | following the path finds the direct node with the block's number, or a hole |
| `Truncate.RemovedAreFreed` | Max/node.c:1004-1105 | a node that maps only removed indexes is freed |
| `Truncate.FreedAreRemoved` | Max/node.c:1004-1105 | a freed node has only holes below the cut |
| `Truncate.FreedExactlyWhen` | Max/node.c:945-1105 | a node of the tree is freed iff it starts at or behind the cut or is stranded: an indirect or double indirect node that starts before the cut, with the cut inside what its missing first child would map |
| `Truncate.StrandedOccurs` | Max/node.c:945-999 | trees with such a double indirect and such an indirect node |
| `DirLayout.DirBlockIndex` | Max/dir.c:63-72 | the summing loop gives the start of the bucket, with the 32-bit product of the code |
| `DirLayout.ReachableLevel` | Max/dir.c:23-72 | a block a file can have lies below level 31, where nothing wraps |
| `DirLayout.BucketInLevel` | Max/dir.c:63-72 | below level 31 a bucket lies inside its level |
| `DirLayout.BucketsTile` | Max/dir.c:63-72 | the buckets of a level share it out: each of its blocks is in the bucket of exactly one remainder of the hash |
| `DirLayout.GetCurrentLevel` | disk-tools/fsck/fsck.c:1115-1126 | the checker's loop finds the level a block belongs to |
| `DirLayout.CheckPosition` | disk-tools/fsck/fsck.c:1128-1152 | the checker accepts a block for a hash exactly when some level has it in the hash's bucket |
| `DirBlock.FindTarget` | Max/dir.c:100-149 | the walk finds an entry with this name and hash iff the block has one; without it, the longest run of clear slots is exact |
| `DirBlock.RoomForFilename` | Max/dir.c:456-473 | the first run of clear slots that is long enough, or the end exactly when there is none |
| `DirBlock.AddedEntries` | Max/dir.c:475-490 | the new entry is there and every other keeps place, name bytes, hash and inode |
| `DirBlock.RemovedEntries` | Max/dir.c:667-687 | clearing an entry's slots leaves every other entry as it was |
| `Directory.Dir.FindEntry` | Max/dir.c:208-241 | a name is found iff it is in the map, with its inode and place; a search without it notes the first level with room for the name, or that none has |
| `Directory.Dir.FindInLevel` | Max/dir.c:151-200 | a level either has the name or is not the name's level; it is noted exactly if the name is missing, there is room and none is noted for the hash |
| `Directory.Dir.AddLink` | Max/dir.c:496-613 | on success the map gains exactly this name, in its bucket of the first level from the starting one on that has room, and the depth grows to that level if need be; otherwise the map is unchanged; ENOSPC exactly at the greatest depth, which growth never reaches; the other failure only if a level's bucket is beyond the largest file and every level before it is full |
| `Directory.Dir.FindThenAdd` | Max/dir.c:208-613 | a lookup followed by an addition puts the name at the lowest level with room |
| `Directory.Dir.DeleteEntry` | Max/dir.c:667-703 | the map loses exactly this name, and the block is given back iff it is empty |
| `Directory.CheckDentries` | disk-tools/fsck/fsck.c:1208-1345 | the checker's walk over a block finds it clean iff every entry has its name's hash and lies in that hash's bucket of some level |
| `Directory.CheckerAccepts` | disk-tools/fsck/fsck.c:1208-1345 | run on any block of a directory, whatever was added and deleted, it finds it clean |
| `Extent.UpdateExact` | Max/data.c:288-353 | merge, split, drop and re-creation keep the extent right, for every update but the one named, and only that one breaks it |
| `Extent.MergesNothingOccurs` | Max/data.c:318-323 | the exception on concrete numbers |
| `Extent.UpdateGrows` | Max/data.c:314-328 | a block that continues the extent at either end makes it longer by one and nothing is forgotten |
| `Extent.UpdateKeeps` | Max/data.c:301-348 | any other change leaves exactly the longer part if that has 64 blocks, and gives the cache up in no other case |
| `Extent.SequentialWrite` | Max/data.c:288-353 | a file written in order to one piece of the disk is one extent |
| `Extent.ExtentRun` | Max/data.c:867-885 | after any sequence of address changes every offset inside the extent is mapped to the predicted block |
| `Extent.Cache.UpdateExtentInfo` | Max/data.c:288-353 | the field updates are Update, which UpdateExact, UpdateGrows and UpdateKeeps characterise |
| `Extent.Cache.SetBlock` | Max/data.c:867-885 | an address change keeps the cache right |
| `Extent.Cache.Reserve` | Max/data.c:228-243 | reserving a hole needs no cache update |
| `Extent.Cache.MapBlocks` | Max/data.c:1172-1177 | a hit gives the mapped address and a run of consecutive mapped blocks, as long as asked for or to the end of the extent |
| `ExtentTree.UpdateAgrees` | Max/data.c:623-669 | an update of a tree that agrees with the block map leaves it in agreement iff no right part goes back into it |
| `ExtentTree.UpdateCovers` | Max/data.c:623-669 | after an update the tree covers the offset changed if it has a block, the parts of 64 blocks or more of the extent around it, and all that other extents covered |
| `ExtentTree.UpdateStops` | Max/data.c:623-669 | the code stops iff a right part goes back and meets the next extent |
| `ExtentTree.NoRepeat` | Max/data.c:623-669 | where no block has two places the next extent is never met so |
| `ExtentTree.UpdateOrdered` | Max/data.c:623-669 | extents stay in order, apart, and joined with every neighbour they could be one extent with |
| `ExtentTree.TreeRun` | Max/data.c:623-669 | over any sequence of updates and removals under memory pressure order is kept; the tree agrees with the map until the first right part goes back, which ends the agreement or the run |
| `ExtentTree.WrongRightPartOccurs` | Max/data.c:655-661 | a 66-block extent whose first block moves leaves the tree wrong |
| `ExtentTree.InsertAgrees` | Max/data.c:493-528 | inserting with merges on both sides adds what the new extent claims and nothing else |
| `ExtentTree.InsertCovers` | Max/data.c:493-528 | however it merges, an insertion adds the new extent's offsets and loses none |
| `ExtentTree.SearchPlace` | Max/data.c:493-528 | the descent ends at a neighbour to merge with iff there is one, whatever the shape of the tree |
| `ExtentTree.Search` | Max/data.c:437-450 | the extent that covers an offset, iff there is one |
| `ExtentTree.Tree.Lookup` | Max/data.c:425-451 | the same through the cached node |
| `ExtentTree.Tree.InsertExtent` | Max/data.c:453-528 | merging with the node found and then with the other neighbour is Insert; the cached node stays a node of the tree |
| `ExtentTree.Tree.UpdateExtentTree` | Max/data.c:623-669 | lookup, removal, both parts and the new block are UpdateTree, for every shape of the tree |
| `XattrCodec.ReadEntry` | Max/xattr.h:56-81 | the bytes at an entry's offset read as that entry |
| `XattrCodec.EndMark` | Max/xattr.h:56-81 | an entry begins with the end mark's zero word iff index, name and value are all empty |
| `XattrCodec.DropBytes` | Max/xattr.c:551-563 | closing the gap of an entry leaves a well-formed, zero-terminated buffer with the other entries |
| `XattrCodec.PushBytes` | Max/xattr.c:567-581 | an entry written over the end mark leaves a well-formed buffer with it last |
| `Xattr.Attributes.FindXattr` | Max/xattr.c:253-267 | the walk stops at the key's entry, or at the end iff there is none |
| `Xattr.Attributes.GetXattr` | Max/xattr.c:402-443 | the value the map has, or ENODATA or ERANGE exactly when it should |
| `Xattr.Attributes.SetXattr` | Max/xattr.c:482-598 | create and replace fail exactly when the map says so, space runs out exactly at MIN_OFFSET, and success changes exactly this key |
| `Digest.Encode` | Max/crypto_fname.c:208-226 | the values of the symbols are the digits of the bytes' number in base 64, their count the ceiling of 4n/3; every value of the accumulator is below 2^13 by its type |
| `Digest.Decode` | Max/crypto_fname.c:228-250 | a foreign symbol or left-over bits are refused, exactly; otherwise the bytes of the same number; the number of bytes stored is exact in every case; the accumulator as in Encode |
| `Digest.RoundTrip` | Max/crypto_fname.c:208-250 | the decoding of a byte string's encoding is that byte string |
| `Digest.EncodingInjective` | Max/crypto_fname.c:208-226 | two byte strings have the same encoding iff they are the same |
| `Digest.Reencode` | Max/crypto_fname.c:208-250 | the encoding of a name's decoding is the name iff its length is not 1 modulo 4; otherwise the name ends in the symbol for zero and means the same without it |
| `Digest.ReencodeFails` | Max/crypto_fname.c:208-250 | the shortest name that does not come back |
| `Digest.DiskToUser` | Max/crypto_fname.c:307-341 | without a key a short name is shown as its digits, a long one as an underscore and the digits of hash and last sixteen bytes |
| `Digest.SetupFilename` | Max/crypto_fname.c:372-424 | whatever name a user gives, the decoder stays within the 32-byte buffer; a name is refused exactly for its length, a foreign symbol or left-over bits; a long one gives 24 bytes |
| `Digest.ShownNameFound` | Max/crypto_fname.c:307-424 | whatever a lookup makes of a name as it is shown without a key is the disk name, or the digest, the name was made from |

## Left out

- Page cache, bio submission, kernel threads, sysfs, tracing, mount options and slab allocation: plumbing; allocation of memory succeeds; available_free_memory for free nids is a limit on their number.
- The RPS lock's counters are unbounded integers, the semaphore is a correct lock and memory is sequentially consistent.
- CRC arithmetic: a block that was not written completely as a checkpoint block does not read as one.
- Checkpoint.CrashAtomic: versions are unbounded, so a 64-bit counter that comes round is not covered; NAT and SIT blocks are durable before the pack, and pack blocks in order; a checkpoint is started only if its pack fits, which Summary.AllPacksFit and Summary.OrphanRoom decide.
- SegmentSafety.AllocationSafe: starts from a consistent state; when a mount provides one is SegmentMount.CheckpointMountable.
- SegmentManager.Manager.FlushSitEntries: covers the entries in memory; the order of sets, the journal and the blocks are SitFlush.SitStore.Flush, and SegmentStore.FlushSegments joins the two.
- SegmentManager.Manager.GetVictim: the SSR search only; the LFS and cost-benefit searches and modification times are left out.
- The preference for a zone not in use in get_new_segment is an arbitrary choice.
- NodeManager.Manager.TryAllocNid: one attempt; alloc_nid repeats it on the next list without a bound.
- NodeManager.Manager.TryToFreeNats: any clean entry of a core may go first; the list order and the check whether memory is short are left out.
- NAT flags for fsync marks, readahead and the single-tree variant of the flush.
- Concurrency between cores inside the node manager: each locked section is one step.
- FileSystem.WriteCheckpoint: one summary block stands for those with the two journals; their places are Summary.WritePack.
- Node summaries rebuilt from the log when a pack has none.
- Roll-forward recovery, orphan processing and data or node page contents.
- Truncate.TruncateBlocks: files without inline data; node pages that are named by a parent but missing, quota counts and partial page zeroing are left out.
- Directory.Dir.FindEntry: names compare as bytes under an arbitrary hash function; lookup of encrypted names by hash and inline directories are left out.
- Directory.CheckDentries: hash and position only; inode numbers, file types, the exemption of dot entries and repairs are left out.
- Directory.Dir.AddLink: allocation of directory blocks succeeds within the largest file.
- ExtentTree.Tree.UpdateExtentTree: the balance of the red-black tree, the global list that orders removals, and failing allocation are left out.
- Xattr.Attributes.SetXattr: the buffer in memory; copying it to and from inode and xattr node, and ACL side effects, are left out.
- AES, keys and policies.
- Garbage collection moves, in-place updates, atomic writes, inline data, ACLs, rename and the rest of the tools: easier, or mostly I/O.
