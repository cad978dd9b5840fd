# KogMo-RTDB in Dafny

KogMo-RTDB is a real-time database in shared memory.  Every object owns a ring buffer of
timestamped commits that is written without a lock and read without a lock; readers can wait for
the next commit; object data lives in a heap with one of two allocators; a table holds the
objects; a recorder and a player write and read the history of a database as an AVI file.  This
project models these parts and proves what they promise.

| part of the database | modules |
|---|---|
| the lock-free history ring, as interleaved steps | `Seqlock`, `SeqlockSafety`, `SeqlockTheorems`, `SeqlockProgress`, `SeqlockWords` |
| the history ring, one call at a time: queries, retention, slot cursor | `History`, `Ring`, `Retention`, `Cursor` |
| waiting for a commit | `Notify` |
| the default heap allocator | `Blocks`, `SubaCells`, `SubaList`, `Suba` |
| the real-time heap allocator | `Blocks`, `Bits`, `TlsfMapping`, `TlsfLists`, `TlsfFreeLists`, `TlsfBlocks`, `TlsfStores`, `Tlsf` |
| the object table and its buffers | `Objects`, `ObjectHeap`, `Table`, `TableRuns` |
| the recording: chunks, index, record and play, seek index | `Riff`, `AviIndex`, `Records`, `Recording`, `Recorder`, `TimeIndex` |

`Database`, `Timestamps` and `Modulo` hold what several parts share.

## How the parts are modelled

**The lock-free ring.**  The halves of the commit timestamp and every payload word are separate
locations; an execution is a list of single steps of one writer and any number of readers.
Hypotheses: memory is sequentially consistent; one process writes; commit times increase strictly
and both their halves are nonzero; a commit follows the invalidation of its slot.  The main
theorem is an equivalence: an accepted read is the copy of one single commit exactly if both halves
of its first sample are nonzero.  It holds for the search for the latest entry at a time and for a
reader that moves to any slot at any time before it copies, which covers the other query modes and
the slot cursor.  A second theorem says when a search for the latest entry at a time succeeds: as
long as the writer does not come round to the slot of the commit asked for, and a third that what is
read are the words that the writer has stored.  Versions of slots, positions in the log and the log itself are auxiliary: no step
depends on them.

**The ring, one call at a time.**  `Ring.Ring` has the array of slots and `history_slot` of the
object; its invariant ties them to the log of all commits.  Times are nanoseconds, cycle times
are real numbers.  A scan takes a slot whose time is below 2^32 for an empty one, so the queries
are stated over the newest commits that are visible in this sense.  An empty ring is recognised by
its zeroed slots only, because the test for a negative slot compares a pointer.  The query modes
that look at the time of the data are defined by the walk from the newest commit backwards, since
that time need not be ordered.  With one slot a write in place hides the newest commit from the
cycle watch; the objects of the table have at least two slots (`Table.AtLeastTwo`).

**Waiting.**  Writers, deleters and waiting readers meet over an error-checking mutex and a
condition variable; wakeups may be spurious, waits may time out.  The lock that serialises several
writers of one object is left out, which only allows more runs.

**The allocators.**  Both are proved against a ghost view of the heap as a sequence of cells.  Their
headers are records in a map from offsets, and the words that a free block shares with the data of
its user are separate maps or fields.  What that hides is proved: `UserStore` of either heap shows
that the user may overwrite those words, and `Suba.StoresSpareUsed` and `TlsfStores.StoresSpareData`
that no store of the allocator lies in the data of a block in use.
`suba` has the offsets of a 64-bit build, `tlsf` those of a 32-bit build.
The bit operations of `tlsf` are taken to change the bit they name.

**The table.**  Names are strings that are compared as a whole.  The heap of the table is that of
`suba`, and its bytes are an array that is cleared where a buffer is handed out.  A deletion that
lists the children of an object uses a list with room for 999 of them; the list is complete unless
the table consists of 1000 live children of an object that is its own parent (`Table.AllChildren`).

**The recording.**  Files are sequences of bytes.  A record is a database chunk with its time, oid,
kind and data, or a chunk of an image stream.  Events come in any order: an update can be queued
after the deletion of its object, because its time was taken before.  The recorder writes the records to a file, the player
reads the file and decodes its chunks.  The size in the base data of an object is taken to be that of
its data; the player inserts every object of the recording successfully, and its map of oids has room
for all of them.

## Where the code does not keep a promise

- The code tests only the high half of a sampled time, and only before it samples.  A read whose
  first sample is zero can be accepted although it is torn (`SeqlockTheorems.ZeroSampleCanBeTorn`).
- A write in place gives up the oldest slot early.  While it is under way a read for a time in the
  history interval finds nothing exactly if its answer would be the commit in that slot
  (`Retention.ReadsCoverInterval`, `Retention.ReadFailsExactly`); a commit of the interval is lost
  exactly if it is the oldest of the ring and just as old as the interval is long
  (`Retention.PendingCoversInterval`).  A run of calls that gets there is
  `Retention.PendingWriteGivesUpOldest`.
- The search for a block leaves the tables for requests above 63/64 of 2^30, though blocks of that
  size are kept (`TlsfMapping.SearchesInTables`).
- Image stream 10 can be written, but its chunks are not recognised (`Riff.StreamCodes`).
- The player does not write plain updates as they were recorded, except at the very time of their
  commit: it moves the time of the data by what has passed since (`Records.ShiftedIs`,
  `Records.UnshiftedIff`).
- An update that was queued after the deletion of its object can be lost.  Without a log of events the
  recorder still knows the object and does not describe it again, and the player has removed it.
  Updates are lost exactly if events are not logged and the chunk of a deletion stands between, for
  an object that was known before and was not described since (`Recording.Dropped`,
  `Recording.AllArriveIff`); an example is `Recorder.LateUpdateIsLost`.
- `suba_init` accepts regions in which the link of the first cell does not fit
  (`SubaCells.LinksFit`).
- Insertion does not retry after a purge, because `continue` leaves its loop.  Memory that was
  allocated before no empty entry was found is lost; and if none could be allocated, a clash of names
  makes it give back bytes that it did not get, so that the ledger is off.  By how much and when is
  `Table.Lost`, which `Table.Table.Insert` proves exact; runs of both kinds are
  `TableRuns.FullTableLosesMemory` and `TableRuns.ClashGivesBackTooMuch`.

## Model

| member | source | states |
|---|---|---|
| SeqlockTheorems.UntornRead | rtdb/kogmo_rtdb_objdata.c:768-778 | in every run, an accepted read whose first sample has both halves nonzero holds exactly the payload and the time of one commit, and this is an equivalence |
| SeqlockWords.ReadIsStored | rtdb/kogmo_rtdb_objdata.c:141-163 | in every run, the words of such a read are those that the writer stored: each is the last one stored at its place before the commit whose time was read |
| SeqlockWords.CommitHasStored | rtdb/kogmo_rtdb_objdata.c:141-150 | word i of a commit is the last one stored as word i since the commit before |
| SeqlockWords.CommitOf | rtdb/kogmo_rtdb_objdata.c:141-150 | every commit of the log was made by an action of the writer |
| SeqlockTheorems.NeverStalerThanAtBegin | rtdb/kogmo_rtdb_objdata.c:603-632 | an accepted read for a time returns a commit not after that time, and not older than the latest such commit that could be reached when the read began |
| SeqlockTheorems.BegunIsReachableAtStart | rtdb/kogmo_rtdb_objdata.c:159-163 | what could be reached when a read began includes every commit whose write had finished by then |
| SeqlockTheorems.ZeroSampleCanBeTorn | rtdb/kogmo_rtdb_objdata.c:436-440 | a run in which a read is accepted whose copy mixes a commit with a write that is not committed yet, because the first sample was taken after the slot was invalidated |
| SeqlockProgress.QuietReadSucceeds | rtdb/kogmo_rtdb_objdata.c:603-778 | in every run, as long as the writer has not come round to the slot of the latest reachable commit for a time, a read for this time does not fail, samples both halves nonzero, and accepts exactly that commit |
| SeqlockProgress.QuietReadEnds | rtdb/kogmo_rtdb_objdata.c:603-778 | every step of its own brings such a read nearer to its end, by a number that is fixed when it starts |
| SeqlockProgress.AimIsLatest | rtdb/kogmo_rtdb_objdata.c:603-632 | the commit that such a read aims at is the latest reachable one for its time |
| SeqlockProgress.BeginsAreInvalidations | rtdb/kogmo_rtdb_objdata.c:141-142 | how far the writer has come round is the number of slots that it began to invalidate |
| SeqlockProgress.ExecKeepsQuiet | rtdb/kogmo_rtdb_objdata.c:109-163 | in every run each slot that the writer has not come round to is as it was committed, and each read that aims at it is undisturbed |
| SeqlockSafety.EqualSamplesSameVersion | rtdb/kogmo_rtdb_helpers.h:28-41 | equal first and final samples were taken of the same version of the slot, even if the halves of the first came from different writes |
| SeqlockSafety.PassedIsOverwritten | rtdb/kogmo_rtdb_objdata.c:613-630 | a walk for a time that passes a commit which fits has found its slot overwritten |
| SeqlockSafety.ExecKeepsInv | rtdb/kogmo_rtdb_objdata.c:141-163 | in every run the ring holds the newest commits, and every reader's samples and copies are explained by the log |
| Ring.Ring.Write | rtdb/kogmo_rtdb_objdata.c:41-197 | a write is refused for its size, for its writer, or for coming too soon, in this order, and otherwise appends exactly one commit, with its time moved by one if the slot it replaces has the same |
| Ring.Ring.PtrBegin | rtdb/kogmo_rtdb_objdata.c:200-245 | a write in place is begun by giving up the slot after the newest commit, and changes no other kept commit |
| Ring.Ring.PtrCommit | rtdb/kogmo_rtdb_objdata.c:249-365 | a write in place is refused for size, writer, haste or a stale pointer, in this order, and otherwise appends one commit |
| Ring.Ring.Publish | rtdb/kogmo_rtdb_objdata.c:141-163 | storing after the head and advancing it keeps exactly the newest commits, and their distance in time |
| Ring.Ring.HistScan | rtdb/kogmo_rtdb_objdata.c:381-444 | a step of a scan finds the commit before, exactly if that is kept and visible |
| Ring.Ring.FindDown | rtdb/kogmo_rtdb_objdata.c:603-652 | a query for the latest or an older entry finds the newest visible commit that satisfies it, and fails exactly if there is none, within as many steps as there are slots |
| Ring.Ring.FindUp | rtdb/kogmo_rtdb_objdata.c:653-685 | a query for a younger entry finds the oldest of the newest commits in a row that satisfy it, and fails exactly if the newest does not |
| Ring.Ring.Read | rtdb/kogmo_rtdb_objdata.c:570-793 | a read in any of the six modes gives the answer of the log, truncated to the reader's room, and says when it is denied, when there is none, and when it is stale |
| Ring.WriteThenRead | rtdb/kogmo_rtdb_objdata.c:109-163 | what is written is read back as the latest entry, with its process, its times and its data |
| History.SlotBefore | rtdb/kogmo_rtdb_objdata.c:409-440 | the wrap-around check and the test for an empty slot stop a scan exactly at the oldest visible commit |
| History.NewestSlot | rtdb/kogmo_rtdb_objdata.c:403-440 | a scan starts at the newest commit, and finds an empty ring by a zeroed slot |
| History.Committed | rtdb/kogmo_rtdb_objdata.c:109-163 | a commit into the slot after the head leaves the ring with the newest commits of the longer log |
| History.Invalidated | rtdb/kogmo_rtdb_objdata.c:141-142 | invalidating the slot after the head gives up the oldest commit of a full ring and no other |
| Retention.FoundIfThere | rtdb/kogmo_rtdb_objdata.c:603-750 | in every mode a query is answered exactly if a visible commit satisfies it, for the upward modes the newest one |
| Retention.AnswersPlainly | rtdb/kogmo_rtdb_objdata.c:614-750 | what each of the six modes answers, in terms of commit times and data times: the newest entry; the newest not later, earlier; the oldest of the newest in a row that are later |
| Retention.LeastSlots | rtdb/kogmo_rtdb_objmeta.c:369-370 | the computed number of slots is the least for which one cycle less spans the interval |
| Retention.ByTime | tests/kogmo_rtdb_histtest.c:65-79 | for commit times in order an answer splits the visible commits at the time asked for |
| Retention.Neighbours | tests/kogmo_rtdb_histtest.c:65-79 | asking with the time of a commit gives that commit, the one before and the one after |
| Retention.Retained | rtdb/kogmo_rtdb_objmeta.c:369-370 | with the computed number of slots and a watched cycle time, a commit no older than the history interval before the newest is still kept |
| Retention.SameAnswer | rtdb/kogmo_rtdb_objdata.c:87-117 | for any time in the history interval the latest entry of the ring is that of the whole history, unless a write in place is about to replace just that one |
| Retention.ReadsCoverInterval | rtdb/kogmo_rtdb_objdata.c:608-632 | the same for the reads of an object after any run of its writes, finished or under way |
| Retention.ReadFailsExactly | rtdb/kogmo_rtdb_objdata.c:226-241 | reads answer as the whole history would, exactly unless a write in place is under way and the time lies between the commit that it replaces and the next one |
| Retention.PendingCoversInterval | rtdb/kogmo_rtdb_objdata.c:226-241 | while a write in place is under way all commits of the interval are visible, exactly unless the oldest of the ring is as old as the interval is long |
| Retention.PendingWriteGivesUpOldest | rtdb/kogmo_rtdb_objdata.c:226-241 | three writes and the beginning of a write in place after which a read within the interval finds nothing |
| Cursor.Slot.ReadSlot | rtdb/kogmo_rtdb_objdata_slot.c:20-108 | a cursor starts at the newest commit; a checked move by any offset has exactly the outcome `MoveOutcome` for the remainder of the offset; an unchecked move lands on the commit in its slot, or finds it empty |
| Cursor.Slot.Relative | rtdb/kogmo_rtdb_objdata_slot.c:129-161 | a move by any offset that copies lands on the commit moved to, and after any failure the cursor is at the newest commit |
| Cursor.Checks | rtdb/kogmo_rtdb_objdata_slot.c:64-103 | the comparisons of times decide exactly whether origin and target are both kept, on which side of the ring the target lies, and whether its slot was never written |
| Cursor.TruncatedTurns | rtdb/kogmo_rtdb_objdata_slot.c:64-67 | the remainder of an offset differs from it by whole turns of the ring |
| Cursor.Origin | rtdb/kogmo_rtdb_objdata_slot.c:90-94 | a cursor's commit is still kept exactly if its slot has the time remembered |
| Cursor.Occupant | rtdb/kogmo_rtdb_objdata_slot.c:72-79 | every slot that is not empty holds a kept commit with the same slot number |
| Notify.WaitComesBack | rtdb/kogmo_rtdb_objdata.c:826-871 | in every run, a reader comes back with success only if there is a newer commit than it knew when it began to wait, with the news of a deletion only after one, and with a timeout only if woken by one |
| Notify.NothingNewNoReturn | rtdb/kogmo_rtdb_objdata.c:826-871 | while there is nothing newer, the object exists and no timeout comes, a reader does not leave |
| Notify.ReaderAlone | rtdb/kogmo_rtdb_objdata.c:826-871 | a reader that looks finds a newer commit, or the deletion, or waits, in at most five steps |
| Notify.CommitReachesWaiter | rtdb/kogmo_rtdb_objdata.c:154-170 | a commit newer than what a waiting reader knows lets it come back with success |
| Notify.DeleterAlone | rtdb/kogmo_rtdb_objmeta.c:662-671 | a deletion wakes all waiting readers and does nothing else to them |
| Notify.DeletedByAction | rtdb/kogmo_rtdb_objmeta.c:642-671 | the object counts as deleted exactly after a deletion began |
| Notify.CommitByAction | rtdb/kogmo_rtdb_objdata.c:109-170 | the newest commit is one that a writer began |
| Notify.NoLostWakeup | rtdb/kogmo_rtdb_objdata.c:826-871 | in every run, a reader in the wait set has seen the newest commit and the object exists, unless a thread that changed this still owes a broadcast |
| Notify.InvKept | rtdb/kogmo_rtdb_proc_obj_notify.h:96-144 | every step of writers, deleters and readers keeps the mutex, the visible commit and the promises to the waiting readers |
| Notify.MutualExclusion | rtdb/kogmo_rtdb_ipc_posix.c:535-585 | two threads never work under the notify lock at once |
| Notify.SecondUnlockHarmless | rtdb/kogmo_rtdb_proc_obj_notify.h:128-144 | the second unlock after a timeout never takes the mutex from another thread |
| Notify.OwedBroadcastComes | rtdb/kogmo_rtdb_objdata.c:154-170 | a thread that owes a broadcast pays it within three of its steps unless another holds the mutex, and then nobody is left waiting |
| Suba.Heap.Init | rtdb/rtmalloc/suba.c:76-107 | initialisation fails exactly for the null address, for a region that is too small, or if it is to attach and there is no heap; with a reset it leaves one free cell, without one it gives the heap that is there |
| SubaCells.LinksFit | rtdb/rtmalloc/suba.c:81-103 | the link of every cell lies in the cell exactly if the region has room for that of the first |
| Suba.Heap.Alloc | rtdb/rtmalloc/suba.c:110-182 | allocation serves from the first free cell that is big enough, never gives away the last cell, splits exactly if enough remains, keeps the heap and its ledger in order, and stores headers in free cells only |
| SubaCells.Refusal | rtdb/rtmalloc/suba.c:118-170 | a request is refused only if every free cell but the last has less than eight bytes more than asked for, and the last not a minimal cell more |
| Suba.Heap.Free | rtdb/rtmalloc/suba.c:184-258 | releasing a live block merges it with its free neighbours and nothing else, keeps list and ledger in order, stores headers in free cells and in this one only, and never takes the branch that appends after the tail |
| Suba.StoresSpareUsed | rtdb/rtmalloc/suba.c:150-255 | such stores touch neither header nor data of any other cell in use |
| Suba.Heap.UserStore | rtdb/rtmalloc/suba.c:35-46 | the user of a live block may overwrite the word where a free cell has its link |
| Suba.Heap.Scan | rtdb/rtmalloc/suba.c:134-148 | the walk from the tail finds the first cell in address order that is big enough, or none |
| Suba.Heap.InsertionPoint | rtdb/rtmalloc/suba.c:223-230 | the walk of a release finds the free cell before the block |
| Suba.SplitCorrect | rtdb/rtmalloc/suba.c:150-163 | the stores of a split leave the free list circular, ascending and ending at the tail |
| Suba.SpliceCorrect | rtdb/rtmalloc/suba.c:232-255 | the stores of a release do so in each of the four cases of adjacent free cells |
| SubaCells.TakeKeepsWellFormed | rtdb/rtmalloc/suba.c:150-170 | allocation keeps the exact tiling, no two free cells adjacent, the last cell free, and the minimal size of free and used cells |
| SubaCells.ReleaseKeepsWellFormed | rtdb/rtmalloc/suba.c:212-255 | so does release |
| SubaCells.AllocThenFree | rtdb/rtmalloc/suba.c:150-255 | freeing the block just allocated restores the identical cells, and the block was big enough |
| Blocks.ReleaseAllRestores | rtdb/rtmalloc/suba.c:184-258 | freeing all live blocks in any order restores the single cell of the beginning |
| Suba.FreeAll | rtdb/rtmalloc/suba.c:184-258 | whatever was allocated, freeing every live block in any order leaves the heap as initialised, and as much freed as allocated |
| Blocks.TakeUsedBytes | rtdb/rtmalloc/suba.c:172 | an allocation adds its header and its cell to the bytes in use |
| Blocks.ReleaseUsedBytes | rtdb/rtmalloc/suba.c:205 | a release takes the same away |
| Blocks.LiveBlocksDisjoint | rtdb/rtmalloc/suba.c:181 | blocks neither overlap nor leave the region |
| Bits.Ffs | rtdb/rtmalloc/tlsf-arch_dep.h:46-77 | the search finds the lowest set bit of every 32-bit number, -1 for none |
| Bits.Fls | rtdb/rtmalloc/tlsf-arch_dep.h:79-105 | the search finds the highest set bit of every 32-bit number, -1 for none |
| TlsfMapping.MappingInsert | rtdb/rtmalloc/tlsf.c:143-153 | every size below 2^30 is mapped to its class, inside the tables |
| TlsfMapping.MappingSearch | rtdb/rtmalloc/tlsf.c:123-141 | a search asks for the smallest size of a class, which is the request below 128 and exceeds it by less than a part in 32 above; the class is in the tables exactly for requests up to 63/64 of 2^30 |
| TlsfMapping.ClassAtLeast | rtdb/rtmalloc/tlsf.c:143-153 | a size is in a class or a higher one exactly if it is at least the smallest size of that class |
| TlsfMapping.ClassMonotone | rtdb/rtmalloc/tlsf.c:143-153 | bigger sizes are in the same or higher classes |
| TlsfMapping.SearchesInTables | rtdb/rtmalloc/tlsf.c:123-141 | a search stays inside the tables exactly for requests up to 63/64 of 2^30 |
| TlsfMapping.SearchSizeBounds | rtdb/rtmalloc/tlsf.c:123-141 | the size searched for is at least the request, and less than a part in 32 bigger |
| TlsfMapping.FlagIgnored | rtdb/rtmalloc/tlsf.c:244-249 | the flag in the size word does not change the class of the first block |
| TlsfFreeLists.FreeLists.Insert | rtdb/rtmalloc/tlsf.c:205-212 | a block becomes the head of its list; all lists stay linked both ways and the bits set exactly for nonempty ones |
| TlsfFreeLists.FreeLists.Extract | rtdb/rtmalloc/tlsf.c:189-203 | a block is taken from anywhere in its list; links and bits stay exact |
| TlsfFreeLists.FreeLists.ExtractHead | rtdb/rtmalloc/tlsf.c:176-186 | the head is taken from its list; links and bits stay exact |
| TlsfFreeLists.FreeLists.FindSuitable | rtdb/rtmalloc/tlsf.c:156-173 | the search returns the head of the first nonempty class from the one asked for, and nothing exactly if all those are empty |
| TlsfLists.SetBits | rtdb/rtmalloc/tlsf.c:210-211 | setting the two bits keeps both levels of the bitmap exact |
| TlsfLists.ClearBits | rtdb/rtmalloc/tlsf.c:197-199 | clearing them, the second only for an empty row, keeps both levels exact |
| TlsfLists.Removed | rtdb/rtmalloc/tlsf.c:189-203 | unlinking a block leaves all lists linked both ways, and the block in none |
| Tlsf.Pool.Init | rtdb/rtmalloc/tlsf.c:218-259 | the pool is refused exactly for a missing or unaligned address or a size out of bounds, and otherwise is one free block and the sentinel |
| Tlsf.Pool.Malloc | rtdb/rtmalloc/tlsf.c:282-318 | allocation fails exactly if no free block has the size searched for, so that all are less than three bytes and a part in 32 above the request; otherwise it serves from a block of the lowest class that has, split exactly if a minimal block remains, with at least the bytes asked for and not many more |
| Tlsf.NeedBounds | rtdb/rtmalloc/tlsf.c:288-290 | the size searched for is the request, rounded up to a word and by less than a part in 32 |
| Tlsf.HandedOut | rtdb/rtmalloc/tlsf.c:297-316 | the block handed out has the bytes asked for, and exceeds what was searched for by at most 15 |
| TlsfStores.StoresSpareData | rtdb/rtmalloc/tlsf.c:282-348 | the size words, notes and links that `Malloc` and `Free` store touch the data of no other block in use |
| Tlsf.Pool.Free | rtdb/rtmalloc/tlsf.c:320-348 | releasing a live block merges it with its free neighbours and keeps tiling, headers, notes of free neighbours, lists and bits in order |
| Tlsf.Pool.UserStore | rtdb/rtmalloc/tlsf.c:90-101 | the user of a live block may overwrite the words shared with the bookkeeping |
| Tlsf.GoodFit | rtdb/rtmalloc/tlsf.c:123-173 | a free block that exceeds the request, in whole words, by a part in 32 is always found |
| Tlsf.MallocThenFree | rtdb/rtmalloc/tlsf.c:282-348 | freeing the block just allocated restores the identical blocks |
| Tlsf.FreeAllRestores | rtdb/rtmalloc/tlsf.c:320-348 | freeing all live blocks in any order leaves the pool as initialised |
| TlsfBlocks.HeadersSplit | rtdb/rtmalloc/tlsf.c:299-311 | the stores of a split leave every header with its size, its flags and the true left neighbour |
| TlsfBlocks.HeadersRelease | rtdb/rtmalloc/tlsf.c:326-347 | so do the stores of a release in each case of free neighbours |
| TlsfBlocks.ListedRelease | rtdb/rtmalloc/tlsf.c:330-344 | after a release exactly the free blocks are listed, each in the class of its size |
| Objects.CascadeIsExact | rtdb/kogmo_rtdb_objmeta.c:636-689 | of the live objects a deletion removes precisely the object and those that follow it through chains of children, even around cycles; nothing else changes |
| Objects.DoomedIsGone | rtdb/kogmo_rtdb_objmeta.c:677-689 | whatever follows the deleted object through a chain of children is gone |
| Objects.ChildDeleted | rtdb/kogmo_rtdb_objmeta.c:677-689 | the deletion of a child, with all that follows it, is a part of its parent's |
| Objects.LiveCountDrops | rtdb/kogmo_rtdb_objmeta.c:642-651 | every deletion leaves fewer live objects, so the recursion ends |
| Objects.MatchingIff | rtdb/kogmo_rtdb_objmeta.c:140-194 | a search finds exactly the objects that match |
| Objects.MatchesMeans | rtdb/kogmo_rtdb_objmeta.c:140-194 | a search without a time finds live objects, one for a past time those that existed then, one with deleted objects those created by then |
| Table.Table.Delete | rtdb/kogmo_rtdb_objmeta.c:594-690 | a deletion is done exactly for an object that exists and is permitted, is then a cascade in which every object gets the time of the deletion, and keeps table and heap in order |
| Table.StaysAfterDeletion | rtdb/kogmo_rtdb_housekeeping.c:43-69 | a deleted object stays for the time it is to be kept, and is found by a search for a time before its deletion; after that it is purged, a kept buffer only ten seconds later and when memory is low |
| Table.LiveStays | rtdb/kogmo_rtdb_housekeeping.c:43-69 | no live object is purged |
| Table.Table.Mark | rtdb/kogmo_rtdb_objmeta.c:642-661 | the entry is marked with the time of the deletion, and emptied at once if it is flagged so |
| Table.Table.PurgeSlot | rtdb/kogmo_rtdb_objmeta.c:577-591 | the entry is emptied, its buffer freed and its bytes returned |
| Table.Table.PurgeObjs | rtdb/kogmo_rtdb_housekeeping.c:18-77 | exactly the objects deleted long enough ago are purged, kept buffers only when memory is low |
| Table.Table.Insert | rtdb/kogmo_rtdb_objmeta.c:278-571 | how an insertion ends is decided by the table, the heap and the next oid (`Verdict`): a clash of unique names, no kept buffer and no room in table or heap, no oid left, or success with the next oid in the first kept buffer or empty entry; no other entry changes, the heap is as before unless new memory went to the object or was lost (`HeapAfter`), and exactly `Lost` bytes are lost |
| Table.Table.Choose | rtdb/kogmo_rtdb_objmeta.c:384-490 | the first kept buffer that can be used again, else new memory exactly if the heap can serve it, and with that the first empty entry |
| Table.InsertedMeans | rtdb/kogmo_rtdb_objmeta.c:331-374 | the new entry has what was asked for: name, type, flags, parent or else the root object, creator, time, an even size, the time it is to be kept; a buffer used again was kept by the same process and its time is over |
| Table.SlotsSpanInterval | rtdb/kogmo_rtdb_objmeta.c:352-370 | its history has the number of slots that the retention of the ring asks for |
| Table.Table.Clash | rtdb/kogmo_rtdb_objmeta.c:499-519 | enumerating the matches one by one finds a live object that forbids the new one, if there is any |
| Table.Table.SearchNth | rtdb/kogmo_rtdb_objmeta.c:140-211 | the nth match in the order of the table, or none |
| Table.Table.FindMeta | rtdb/kogmo_rtdb_helpers.c:26-44 | the first entry with an oid, or none |
| Table.Table.FindReusable | rtdb/kogmo_rtdb_objmeta.c:384-417 | the first entry whose kept buffer can be used again, or none |
| Table.EntriesAfterInsert | rtdb/kogmo_rtdb_objmeta.c:499-549 | insertion without a clash keeps oids distinct and never issued before, and unique objects unique |
| Table.BuffersDisjoint | rtdb/kogmo_rtdb_objmeta.c:384-417 | the buffers of two objects do not overlap and lie in the heap |
| Table.AtLeastTwo | rtdb/kogmo_rtdb_objmeta.c:352-370 | every object with data has at least two history slots |
| TableRuns.ClashGivesBackTooMuch | rtdb/kogmo_rtdb_objmeta.c:441-517 | two insertions after which the ledger has 200000 bytes less than the objects |
| TableRuns.FullTableLosesMemory | rtdb/kogmo_rtdb_objmeta.c:441-523 | a full table, and an insertion whose memory is lost |
| ObjectHeap.ObjectHeap.MemAlloc | rtdb/kogmo_rtdb_rtmalloc.c:52-92 | memory is refused exactly if the size is not positive or the heap cannot serve it; a new buffer is a zeroed block that nobody had, all other blocks and bytes stay, and the ledger moves by the size asked for |
| ObjectHeap.ObjectHeap.MemFree | rtdb/kogmo_rtdb_rtmalloc.c:95-115 | only the one buffer is given back, none for a place before the heap, and the ledger moves back in both cases |
| ObjectHeap.BlocksDisjoint | rtdb/kogmo_rtdb_rtmalloc.c:52-92 | the data of two blocks do not overlap |
| Riff.Writer.FputChunk | record/kogmo_rtdb_avirawcodec.c:270-289 | a chunk is written with its size and padded to an even length; for an empty one only the header is written, and that is an error |
| Riff.Writer.FputStream | record/kogmo_rtdb_avirawcodec.c:215-241 | an image chunk gets the code of its stream |
| Riff.Writer.FputJunk | record/kogmo_rtdb_avirawcodec.c:243-268 | a junk chunk gets the code JUNK |
| Riff.Reader.FgetChunkHeader | record/kogmo_rtdb_avirawcodec.c:319-326 | the header is read exactly if eight bytes are left |
| Riff.Reader.FgetChunkData | record/kogmo_rtdb_avirawcodec.c:344-354 | the data are read with their padding exactly if they fit and are complete |
| Riff.Reader.ReadChunks | record/kogmo_rtdb_avirawcodec.c:319-354 | chunk after chunk is read from a file until its end |
| Riff.WriteThenRead | record/kogmo_rtdb_avirawcodec.c:270-354 | any list of nonempty chunks is read back as it was written |
| Riff.EncodedParses | record/kogmo_rtdb_avirawcodec.c:270-354 | what was written parses as the same chunks at the same boundaries |
| Riff.StreamCodes | record/kogmo_rtdb_avirawcodec.c:335-342 | the code of a stream is recognised exactly for streams 0 to 9, though 10 can be written |
| Riff.WordBytes | record/kogmo_rtdb_avirawcodec.h:29-33 | byte k of a word is its digit k to the base 256 |
| Records.LongBytes | record/kogmo_rtdb_stream.h:21-28 | the eight bytes of a time are its digits to the base 256 |
| AviIndex.BuildIndex | record/kogmo_rtdb_avi_idx.c:139-184 | the walk over any file yields the entries of the heads it meets up to an existing index, and counts per stream that sum to the number of entries |
| AviIndex.EntryDescribes | record/kogmo_rtdb_avi_idx.c:156-171 | every entry of the index of any file gives code and size of an image chunk that stands at its offset |
| AviIndex.ChunkHasEntry | record/kogmo_rtdb_avi_idx.c:156-171 | every image chunk of a recording before an existing index has an entry |
| AviIndex.MeetsChunk | record/kogmo_rtdb_avi_idx.c:151-180 | in a file of chunks the walk meets each of them, at its offset, up to an index |
| AviIndex.EntriesAscend | record/kogmo_rtdb_avi_idx.c:151-184 | the entries are in the order of the file, and each chunk has at most one |
| Records.RecordOfChunk | record/kogmo_rtdb_record.c:78-109 | what the player reads from the chunk of a record is the record: time, oid, kind and data, or stream and pixels |
| Records.RecordLayout | record/kogmo_rtdb_stream.h:21-28 | in the file a record is its code, size, time, oid, kind, data and padding |
| Records.InfoLayout | include/kogmo_rtdb_types.h:143-146 | metadata begin with the oid |
| Records.BaseLayout | include/kogmo_rtdb_obj_base.h:46-67 | the base data are time of commit, process, time of data and size; the player moves the third |
| Records.ShiftedIs | record/kogmo_rtdb_play.c:830-831 | before a plain update is written the eight bytes of its data time are moved by the time since the commit, and no other byte changes |
| Records.UnshiftedIff | record/kogmo_rtdb_play.c:830-831 | a plain update is written as it was recorded exactly at the time of its commit, modulo 2^64 |
| Recording.UpdatesAreDescribed | record/kogmo_rtdb_record.c:701-711 | in every recording each update is preceded by metadata of its object |
| Recording.PlayDelivers | record/kogmo_rtdb_play.c:802-943 | playing what was recorded for any events delivers exactly the updates of objects that the player has when it comes to them, each once and in order: images put together from header and stream chunk byte for byte, plain updates with just the data time moved |
| Recording.ArrivesIff | record/kogmo_rtdb_record.c:701-711 | an update arrives exactly if events are logged, or its object was not removed from the player while known and not described since |
| Recording.AllArriveIff | record/kogmo_rtdb_record.c:701-711 | all updates arrive exactly if events are logged or none is dropped in this way |
| Recording.PlayDeliversUpdates | record/kogmo_rtdb_play.c:802-943 | if events are logged, or no object is updated after its deletion, every update is delivered |
| Recording.LateUpdate | record/kogmo_rtdb_record.c:676-711 | of an update, a deletion and a late update of an object both updates arrive with a log, and one without |
| Recorder.Recorder.KnownObj | record/kogmo_rtdb_record.c:113-150 | an object is known exactly if it was seen and not forgotten; it becomes known unless 1000 others are |
| Recorder.Recorder.PutRtdb | record/kogmo_rtdb_record.c:78-109 | head, data and padding written one after the other are the chunk of the record |
| Recorder.Recorder.RecordEvent | record/kogmo_rtdb_record.c:701-774 | the recorder gives up exactly if it needs a place for a new object and 1000 are known; otherwise the file grows by the chunks for the event, in order |
| Recorder.Playback.PlayFile | record/kogmo_rtdb_play.c:545-947 | a file that consists of chunks is decoded and played chunk by chunk to its end |
| Recorder.RecordThenPlay | record/kogmo_rtdb_record.c:701-774 | the file written for any events, read and played, delivers the updates of objects that the player has, each once and in order, and these are all exactly if events are logged or none is dropped; recording succeeds exactly if there is always a place for a new object |
| Recorder.LateUpdateIsLost | record/kogmo_rtdb_play.c:781-805 | a file from which one of two recorded updates is delivered |
| TimeIndex.TimeIndex.Add | record/kogmo_rtdb_timeidx.c:140-191 | a record is accepted exactly if it is the first or an interval after the last, and then fills at least one entry |
| TimeIndex.TimeIndex.Fill | record/kogmo_rtdb_timeidx.c:170-185 | the entries are filled within the index, which grows as needed |
| TimeIndex.TimeIndex.Lookup | record/kogmo_rtdb_timeidx.c:194-211 | a lookup gives the place of the earliest accepted record from the beginning of the interval of the time on |
| TimeIndex.EarliestIsOne | record/kogmo_rtdb_timeidx.c:194-211 | that record is the only one of its kind |
| TimeIndex.EntriesAscend | record/kogmo_rtdb_timeidx.c:164-185 | the entries are in the order of time, up to that of the newest record |
| TimeIndex.IntervalAtLeast | record/kogmo_rtdb_timeidx.c:164 | a time is in an interval or a later one exactly if that has begun |

## Left out

- Relaxed memory: the ring is proved for sequentially consistent memory; the code has no barriers.
- Several writers of one object: commit times are taken before the object lock, so their order is assumed.
- Lengths re-read after the final check of a read: the theorems speak of the copied payload and time.
- Notify: the polling for objects without notifies, and the waits for changes of the metadata, which follow the same pattern.
- Suba.Heap.Alloc: the reclaim callback, which the database never sets, and realloc.
- Suba.Heap.Free: a pointer inside the region that is no live block, which the code cannot detect.
- Tlsf.Pool.Malloc: requests for which the search leaves the tables (`TlsfMapping.SearchesInTables`), where the code reads outside them.
- TlsfMapping.MappingSearch: requests above 0xFC000000, for which the sum of the code wraps around.
- TlsfMapping.SearchesInTables: the same requests.
- Tlsf.Pool: realloc and calloc, and the inline assembler for the bit operations.
- Table.Table.Insert: the counter of free entries, which is not kept exact, the wrap-around of the next oid after 2^31 insertions, and the variant for hard real time.
- Table: its lock, which an insertion that finds no room does not release.
- Table.Table.Delete: oid 0 as an argument, a full table of live children of the object, for which the code reads a place of its list that was not written, deletion that is forced to be immediate by the housekeeper, and the clock read anew for each child, which gets the same time here.
- Table: changes of the metadata of an object, and reuse of an entry while a reader still waits.
- Kept buffers: a reused buffer is not cleared, so a history then does not start empty.
- Ring.Ring.Read: simulation mode, and the variants that return a pointer instead of a copy.
- Cursor.Slot.ReadSlot: checked moves of a cursor that has never been on a commit, for which the code reads before the first slot.
- Cursor.Slot.Relative: the same cursors.
- Ring: the test of a scan for a ring without commits compares a pointer with zero, so it never holds; the zeroed slots stop the scan instead (`History.NewestSlot`).
- AviIndex.BuildIndex: the compatibility mode and the fields of the AVI header.
- TimeIndex.TimeIndex.Lookup: times less than an interval before or at 0 on an empty index, for which the code reads the entry before the first.
- Records: database chunks shorter than their head, and updates shorter than the base data, for which the player uses old bytes of its buffer.
- Recording: filters, the header of the file, junk chunks of the raw mode, metadata other than the oid, and the speed and position of the player.
- TimeIndex: files of stored indexes; the interval is a real number.
- Processes, signals, shared memory, trace queue, name patterns and remapping, text conversion, tools and user interfaces.
