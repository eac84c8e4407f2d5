# BadgerDB storage engine: a Dafny model

The project models the storage engine under `p3/btree/src` and proves what its layers promise, each alone and all
together.

* **Slotted page.** `SlotBytes`, `SlotLayout` and `SlottedPage` give a page as a value: header fields and 8176 bytes,
  with the slot directory laid over the low bytes exactly as the program does (6 bytes a slot) and the records growing
  down from the top. `PageObject.Page` is the class that changes those bytes in place. Every method is proved equal to
  a function on page values, and `PageCorrectness`, `PageLimits`, `PageRuns` and `PageExamples` prove what those
  functions mean: a page is a map from slots to records, over every run.
* **Paged file.** `PageList`, `PagedFile`, `FileCorrectness` and the class `FileObject.PageFile`: an ascending list of
  used pages and a last-in-first-out list of free pages, both threaded through the pages' next pointers.
* **Both kinds of files.** `Files`: what the buffer manager works on is a paged file or a blob file. A blob file, as
  an index uses it, only grows; its pages are read and written whole, whatever is in them.
* **Buffer manager.** `HashTable` (bucket chains relinked through pointers), `Clock` (the victim), `BufferPool` (the
  pool as a value, over one disk state per file and any number of File objects on it), and the class
  `BufferManager.BufMgr` over the real hash table. `BufferEffects` says of each operation everything it does to
  frames, hand, table and disk, and that it does nothing else. `BufferConsistency` proves what holds whatever clients
  do: table and frames in bijection, pins, lists on disk. `BufferDisk` proves which pages stay on disk as they are.
  `BufferCorrectness` proves what holds when clients report their changes: nobody can see that there is a pool.
  `BufferRuns` carries all of it through every run, up to a restart, and `BufferClients` says what clients can keep to
  without seeing into the pool. `ClockRuns` proves that over every run frames are handed out, refused and evicted as
  by `ClockMachine`, a clock that knows no pages, and that a page just used is not evicted while another frame is
  idle.
* **Scan.** `RecordOrder` (the records of a file in order, defined without pointers), `SharedFile` (a second File
  object on a file), `ScanSteps`, the class `RecordScan.FileScan` with its page and file iterators, which reads
  through a `BufMgr`, `IndexScan` (the loop that reads a whole file), `ScanAmong` (the same loop with other clients at
  work between its calls) and `PoolExamples`.
* **The layers together.** `RecordStore`: over any run of pool operations and of page operations on pinned pages, a
  file of slotted pages behaves as a map from pages to maps from slots to records, whatever clients write into pages
  of other files; a scan afterwards lists exactly those records once they are written.

## How to read it

Operations that change something are methods of classes. Their `ensures` equate the new value of the object (`View()`,
`State()`) with a function of the old one; the meaning of those functions is stated by the lemmas named in the table.
Exceptions are results (`Status`, `FileStatus`, `PoolStatus`, `HashStatus`, `ScanOutcome`).

What a caller has to see to is stated as a precondition:

* Slot numbers passed to a page are in `1 .. num_slots`; `p3/btree/src/page.h:257` leaves that to the caller. Reading
  is modelled for every slot number whose entry would lie in the page.
* The block that a deletion moves does not overwrite the directory entry of the deleted slot, from which the program
  goes on reading the length (`EntryClear`). The block may land on other entries. On pages where deletion is right at
  all it touches none, which is proved, not required (`PageCorrectness.SettledBlock`).
* In runs, no page is allocated in a paged file with no page in use and two or more free, and none is disposed of in a
  blob file, which `p3/btree/src/file.cpp:395` rules out. What one such operation does is proved as well.

A file has one state on disk, shared by all File objects opened on it; the pool caches pages by object. What clients
see of a file is what its first object shows. Objects opened later, as those of scans, only read: that is the
condition under which the pool is invisible, not a precondition of its operations.

That clients unpin their changes as dirty is no precondition of the buffer manager: bijection, pins, pinned frames and
lists are proved over all runs. It is the exact condition for the pool to be invisible
(`BufferCorrectness.UnPinPageCorrect`), and clients that unpin what they have changed as dirty meet it
(`BufferClients.HonestRunIsReported`).

## Where the code and its promises disagree

The model follows the code; each point is a lemma, or a branch of the function that a method is proved equal to.

* Deleting or updating a record loses part of another one when a record of length zero kept an offset below the
  free-space bound: the block to move is then taken from the wrong place. `PageLimits.DeletionAlwaysRightIffSettled`
  and `PageLimits.UpdateAlwaysRightIffSettled` give the exact condition, and `PageExamples.EmptyRecordLosesAnother` a
  run from a new page that gets there, with a deletion and with an update. In
  `PageExamples.BlockOnDirectoryLosesAnother` the wrong block even lands on the directory. Runs that store no empty
  record do not get there (`PageRuns.StoringRunRefinesMap`).
* `insertRecord` can throw `SlotInUseException` although `hasSpaceForRecord` said yes, and leaves a broken page: a new
  directory entry may fall on bytes of a record that has since moved away. `PageCorrectness.InsertCorrect` says
  exactly when; `PageExamples.StaleBytesRefuseInsertion` is a run that gets there.
* `validateRecordId` takes a slot number beyond the directory for a record if the byte there is not zero. The last
  page of `PageExamples.StaleBytesRefuseInsertion` has two slots, and slot 3 reads as used.
  `PageCorrectness.FetchBeyond` says what `getRecord` then returns.
* `FileScan` opens a File object of its own (`p3/btree/src/filescan.cpp:15`), which the hash table takes for another
  file. The scan misses what clients have changed on pages that are cached under their object and that nothing writes
  back before the scan reads them. `PoolExamples.UnwrittenRecordMissed` gets there from a new file, with the page
  pinned. As long as clients have pinned what they have not written, a scan returns what is on disk, and that is what
  clients see if and only if every cached page holds the records that are on disk (`IndexScan.ReadAllRecords`). A
  flush of the file that succeeds is what a caller can do (`RecordStore.LastFlushWrites`). Otherwise the scan's own
  evictions can write such pages while it runs; it returns records in order, each at most once, as they were on disk
  or in a frame, and misses none that all forms of its page have (`RecordScan.FileScan.ScanNext`).
* Inserting and then deleting restores header and records always, but the directory only when no empty record's offset
  lies in the bytes just used (`PageLimits.InsertThenDelete`; `PageExamples.EmptyRecordMoves` gets there).
* `allocatePage` breaks the used list when no page is used and two or more are free: the new page keeps its free-list
  pointer, so that the used list runs on through all free pages (`FileCorrectness.AllocateFreeCorrect`).
  `FileCorrectness.AllocateWellFormedIff` is the exact condition, and `FileCorrectness.BreakingAllocationReachable` a
  run from a new file that gets there.
* `disposePage` throws when the page is not cached, where `p3/btree/src/buffer.h:264-271` says it deletes the page
  from the file in any case; and it disposes of pinned pages.
* `unPinPage` sets the dirty flag before it finds that the page is not pinned and throws
  (`BufferEffects.UnPinPageExact`).
* `flushFile` has already written and dropped the pages before the first pinned frame of the file when it throws
  (`BufferEffects.FlushFileExact`). `readPage` of a page that is not in the file has already evicted another page
  (`BufferEffects.ReadPageExact`).
* The destructor of the pool loses a change that was not reported as dirty, and so does an eviction;
  `BufferRuns.RestartInvisible` and `BufferCorrectness.EvictInvisible` say exactly when.
  `PoolExamples.RestartLosesRecord` gets there with a page that is still pinned, so that its client has broken no
  rule.
* `disposePage` on a page of a blob file drops the cached page and its unwritten change before the file refuses
  (`BufferConsistency.DisposePageKeeps`).

## Model

| member | source | states |
|---|---|---|
| SlotBytes.ReadBackSlot | p3/btree/src/page.cpp:146-152 | a slot written over the page bytes reads back, and no other slot is changed |
| SlotBytes.PutIntoDirectory | p3/btree/src/page.cpp:146-152 | writing one entry over the bytes changes that entry of the directory and nothing else |
| SlotBytes.EntryBytes | p3/btree/src/page.h:78-94 | an entry is written as a flag and two numbers, each in its place; the padding byte and the bytes of other entries stay |
| SlotLayout.WithoutRecordTiles | p3/btree/src/page.cpp:85-113 | if the live records tile the bytes above the free-space bound, then after one is taken out and those below it are renumbered the survivors tile the bytes above the raised bound |
| SlotLayout.BlockFits | p3/btree/src/page.cpp:86-107 | the block found by the scan ends inside the page, however the empty records lie |
| SlotLayout.NewRecordTiles | p3/btree/src/page.cpp:188-193 | a record put right below the bound keeps the tiling |
| PageObject.Page.constructor | p3/btree/src/page.cpp:21-23 | a new page is the empty page, and well formed |
| PageObject.Page.Initialize | p3/btree/src/page.cpp:25-34 | whatever the page held, it becomes the empty page |
| PageObject.Page.HasSpaceForRecord | p3/btree/src/page.cpp:138-144 | true exactly when the map machine does not refuse the insertion for lack of space |
| PageObject.Page.ValidateRecordId | p3/btree/src/page.cpp:201-209 | within the directory, the id names this page and a key of its map of records; beyond it, whatever the byte there says |
| PageObject.Page.GetRecord | p3/btree/src/page.cpp:46-52 | within the directory, what the map of the page's records holds, or a refusal exactly for ids that name none; beyond it, the bytes that the stale entry names |
| PageCorrectness.FetchCorrect | p3/btree/src/page.cpp:46-52 | reading by entry and offset agrees with the map of records on every slot of the directory |
| PageCorrectness.FetchBeyond | p3/btree/src/page.cpp:46-52 | beyond the directory the bytes there decide: refused exactly for another page or a zero flag, out of range exactly when the offset is past the end, otherwise the bytes named, cut off at the end of the page |
| PageObject.Page.FindUnusedSlot | p3/btree/src/page.cpp:156-166 | finds the first unused slot of the directory |
| PageObject.Page.GetAvailableSlot | p3/btree/src/page.cpp:154-176 | the new page and slot are those of the specification |
| PageObject.Page.InsertRecordInSlot | p3/btree/src/page.cpp:178-199 | refuses slots out of range or in use and changes nothing; otherwise header, directory entry and bytes are those of the specification |
| PageObject.Page.InsertRecord | p3/btree/src/page.cpp:36-44 | the page, status and record id are those of `Insert`; the page ends well formed unless the slot was in use |
| PageObject.Page.EraseRecord | p3/btree/src/page.cpp:80-81 | the bytes of the record become zero and no others change |
| PageObject.Page.RenumberRecords | p3/btree/src/page.cpp:85-99 | every entry below the hole is shifted, and the offset and length found are the least offset and the total length of those entries |
| PageObject.Page.MoveRecords | p3/btree/src/page.cpp:100-108 | an overlapping block move through a copy |
| PageObject.Page.CompactSlots | p3/btree/src/page.cpp:117-135 | drops exactly the unused entries at the end of the directory |
| PageObject.Page.VacateSlot | p3/btree/src/page.cpp:78-115 | erasing, renumbering, moving and freeing together give the page of the specification |
| PageObject.Page.DeleteRecordKeeping | p3/btree/src/page.cpp:75-136 | refuses ids that name no record; otherwise the page of the specification, with or without slot compaction |
| PageObject.Page.DeleteRecord | p3/btree/src/page.cpp:71-73 | the page and status are those of `Delete`, and the page stays well formed unless the moved block lands on the directory |
| PageObject.Page.UpdateRecord | p3/btree/src/page.cpp:54-69 | the page and status are those of `Update`, and the page stays well formed unless the moved block lands on the directory |
| PageCorrectness.SettledBlock | p3/btree/src/page.cpp:85-108 | on a settled page the block that the scan finds is exactly the bytes between the free-space bound and the hole |
| PageCorrectness.VacatedRecord | p3/btree/src/page.cpp:75-115 | after a deletion every other live slot reads back byte for byte what it did |
| PageCorrectness.DeletedWellFormed | p3/btree/src/page.cpp:75-136 | deletion keeps the page well formed (tiling, counts, trimmed directory) and returns exactly the record's bytes and the trimmed entries |
| PageCorrectness.DeletedRecords | p3/btree/src/page.cpp:75-136 | deletion takes exactly the one record out of the map |
| PageCorrectness.InsertCorrect | p3/btree/src/page.cpp:36-44 | when insertion succeeds, is refused, or fails; a refusal changes nothing; success adds one record in a slot that held none and keeps the page well formed; failure is exactly when the page ends broken; then the directory has one more entry, counted as free |
| PageCorrectness.UpdateCorrect | p3/btree/src/page.cpp:54-69 | succeeds exactly when the new length is at most the free space plus the old length; otherwise changes nothing; keeps the page well formed unless the moved block lands on the directory, and on a settled page replaces that record only |
| PageCorrectness.SpaceConserved | p3/btree/src/page.h:186-187 | directory, free space and live records add up to the size of the page |
| PageLimits.UnsettledLosesByte | p3/btree/src/page.cpp:86-108 | when an empty record lies below the bound, the last byte of the record under the hole becomes zero |
| PageLimits.BlockMoved | p3/btree/src/page.cpp:100-108 | settled or not, the block that is moved starts at the least offset of any live record below the hole, the empty ones included, is as long as those records together and goes up by the length of the hole; no other byte beside the slot's entry changes then |
| PageLimits.EntriesShifted | p3/btree/src/page.cpp:85-99 | before that, the directory holds the entries with all offsets below the hole raised |
| PageLimits.DeletionRightIffSettled | p3/btree/src/page.cpp:75-136 | where the block lands on no directory entry and the byte below the hole is not zero, deletion is right if and only if the page is settled |
| PageLimits.DeletionAlwaysRightIffSettled | p3/btree/src/page.cpp:75-136 | deletion is right for every content of the records if and only if the page is settled |
| PageLimits.UpdateRightIffSettled | p3/btree/src/page.cpp:54-69 | under the same conditions, an update that fits is right if and only if the page is settled |
| PageLimits.NonzeroDeletionIffSettled | p3/btree/src/page.cpp:75-136 | when the other records hold no zero byte, deletion leaves a well-formed page with exactly those records if and only if the page is settled, even where the block lands on directory entries |
| PageLimits.NonzeroUpdateIffSettled | p3/btree/src/page.cpp:54-69 | the same of an update that fits |
| PageLimits.UpdateAlwaysRightIffSettled | p3/btree/src/page.cpp:54-69 | an update that fits is right for every content of the records if and only if the page is settled |
| PageLimits.InsertThenDelete | p3/btree/src/page.cpp:36-136 | deleting what was just inserted restores header and records, and the directory exactly when no empty record lies in the way |
| PageLimits.VacatedKeepsBytes | p3/btree/src/page.cpp:100-108 | the bytes a block is moved away from are not cleared |
| PageLimits.VacatedErased | p3/btree/src/page.cpp:80-81 | the bytes of the erased record that the block does not reach stay zeros |
| PageRuns.StepRefines | p3/btree/src/page.cpp:36-199 | one operation does to the map of records what the map machine says, with the same answer |
| PageRuns.RunRefinesMap | p3/btree/src/page.cpp:36-199 | over every run, records and all answers (slots handed out, refusals) are those of the map machine, which knows no bytes |
| PageRuns.RoomIsFreeSpace | p3/btree/src/page.h:186-187 | the free space of a page is a function of its records alone |
| PageRuns.SpaceIsRoom | p3/btree/src/page.cpp:138-144 | the test for space says what the map machine says |
| PageRuns.SlotIsLowestFree | p3/btree/src/page.cpp:154-176 | the slot handed out is the lowest number that holds no record |
| PageRuns.SettledWithoutEmptyRecords | p3/btree/src/page.cpp:85-99 | without empty records every deletion is right |
| PageRuns.StoringRunRefinesMap | p3/btree/src/page.cpp:36-199 | over every run that stores no empty record, on a page without one, records and answers are those of the map machine with no guard on deletions and updates, and no empty record appears |
| PageExamples.StaleBytesRefuseInsertion | p3/btree/src/page.cpp:167-187 | from a new page, a run after which an insertion that has space is refused with the slot in use, and a slot beyond the directory reads as used |
| PageExamples.EmptyRecordLosesAnother | p3/btree/src/page.cpp:86-108 | from a new page, a run with an empty record after which a deletion damages another record, and so does an update |
| PageExamples.BlockOnDirectoryLosesAnother | p3/btree/src/page.cpp:86-108 | from a new page, a run after which the block moved by a deletion or update lands on directory entries, not on the slot's own, and another record is lost |
| PageExamples.EmptyRecordMoves | p3/btree/src/page.cpp:85-99 | from a new page, a run after which inserting and deleting a byte does not restore the directory |
| PageExamples.FirstRecordBytes | p3/btree/src/page.cpp:178-199 | the bytes of a new page after a record of five bytes has been inserted, entry and padding included |
| PageList.AscendingWalk | p3/btree/src/file_iterator.h:61-67 | a list whose every pointer leads to the next member is walked in ascending order, meets each member once and ends with 0 |
| PageList.LinkIn | p3/btree/src/file.cpp:176-198 | linking a page in between its neighbours keeps the list ascending |
| PageList.LinkOut | p3/btree/src/file.cpp:281-294 | leading the pointer past a page takes just that page out of the list |
| FileObject.PageFile.constructor | p3/btree/src/file.h:24-44 | a new file has no pages |
| FileObject.PageFile.ReadPage | p3/btree/src/file.cpp:238-258 | returns a page in use and refuses all others |
| FileObject.PageFile.WritePage | p3/btree/src/file.cpp:260-274 | refuses a deleted page; otherwise everything but the next pointer on disk is replaced |
| FileObject.PageFile.FindPlace | p3/btree/src/file.cpp:187-195 | the walk stops on the greatest used page below the new one |
| FileObject.PageFile.FindTail | p3/btree/src/file.cpp:214-222 | the walk stops on the last used page |
| FileObject.PageFile.FindPrevious | p3/btree/src/file.cpp:286-293 | the walk stops on the page that leads to the given one |
| FileObject.PageFile.AllocatePage | p3/btree/src/file.cpp:165-236 | header, lists and page are those of the specification, on every branch |
| FileObject.PageFile.DeletePage | p3/btree/src/file.cpp:276-305 | header, lists and page are those of the specification, or the page is refused and nothing changes |
| FileCorrectness.UsedListInOrder | p3/btree/src/file.cpp:307-315 | the used list holds every used page once, strictly ascending, and ends with 0 |
| FileCorrectness.AllocateNewCorrect | p3/btree/src/file.cpp:203-226 | extending the file keeps it well formed and hands out a new empty page |
| FileCorrectness.AllocateFreeCorrect | p3/btree/src/file.cpp:169-202 | reusing a free page takes it off the free list, and keeps the file well formed exactly when a page is used or it was the only free one; with no page used, the used list runs on from it through exactly the free list, and the header is given |
| FileCorrectness.AllocateWellFormedIff | p3/btree/src/file.cpp:165-236 | allocation changes no other page; it keeps the file well formed if and only if a page is used or at most one is free |
| FileCorrectness.BreakingAllocationReachable | p3/btree/src/file.cpp:176-183 | two allocations and two deletions on a new file lead to where the next allocation breaks it: page 2 is used and leads to page 1, which is free |
| FileCorrectness.DeleteCorrect | p3/btree/src/file.cpp:276-305 | deletion keeps the file well formed, takes just that page out of use and puts it on top of the free list; it is refused exactly for pages not in use |
| FileCorrectness.DeleteThenAllocate | p3/btree/src/file.cpp:165-305 | allocation after deletion returns the same page, emptied, and restores the rest of the file if and only if another page is used or none was free |
| FileCorrectness.WriteKeepsLists | p3/btree/src/file.cpp:260-274 | writing a page back changes no list, no header and no other page, whatever next pointer the copy carries |
| FileCorrectness.AllocatedLinks | p3/btree/src/file.cpp:165-236 | which page is allocated, and the lists afterwards, depend on the lists before and on nothing the pages hold |
| FileCorrectness.DeletedLinks | p3/btree/src/file.cpp:276-305 | the same of deletion |
| Files.BlobFile.constructor | p3/btree/src/file.cpp:343-345 | a new blob file has no pages |
| Files.BlobFile.AllocatePage | p3/btree/src/file.cpp:364-380 | header, pages and the page handed out are those of the specification; the file stays in order, so that over every run of allocations the header goes on to name page 1 as the first |
| Files.BlobFile.GetFirstPageNo | p3/btree/src/file.cpp:62-65 | page 1, or 0 if there is none |
| Files.BlobFile.ReadPage | p3/btree/src/file.cpp:382-387 | returns the page as it was written |
| Files.BlobFile.WritePage | p3/btree/src/file.cpp:389-393 | replaces the whole page and nothing else |
| Files.AllocateWellFormedIff | p3/btree/src/file.cpp:165-380 | in either kind of file allocation uses one more page and changes no other; the file stays in order always for a blob file, and for a paged file exactly when a page is used or at most one is free; in order means for a blob file that the header names the least page in use and no free page |
| Files.WriteKeepsLists | p3/btree/src/file.cpp:260-393 | in either kind of file a page written back reads back as clients see it, and header, lists and other pages stay |
| Files.DeleteCorrect | p3/btree/src/file.cpp:276-398 | deletion is refused exactly in blob files and for pages not in use; otherwise it takes just that page out of use |
| HashTable.Hash | p3/btree/src/bufHashTbl.cpp:18-24 | the bucket is always inside the table |
| HashTable.HashSteps | p3/btree/src/bufHashTbl.cpp:18-24 | consecutive pages go to consecutive buckets around the table, but where the 32-bit sum wraps; address and page number count alike |
| HashTable.BufHashTbl.constructor | p3/btree/src/bufHashTbl.cpp:26-33 | an empty table stands for the empty map |
| HashTable.BufHashTbl.Lookup | p3/btree/src/bufHashTbl.cpp:70-84 | finds what the map says; refuses exactly the keys it does not hold |
| HashTable.BufHashTbl.Insert | p3/btree/src/bufHashTbl.cpp:48-68 | adds one entry to the map, or refuses a key that is there and changes nothing |
| HashTable.BufHashTbl.Remove | p3/btree/src/bufHashTbl.cpp:86-112 | takes one entry out of the map, or refuses a key that is not there |
| HashTable.BufHashTbl.Unlink | p3/btree/src/bufHashTbl.cpp:94-103 | relinking the bucket before, or the table, drops one bucket and keeps all chains in order and acyclic |
| HashTable.Added | p3/btree/src/bufHashTbl.cpp:59-67 | a bucket put at the head of its chain adds its key to the map |
| HashTable.Removed | p3/btree/src/bufHashTbl.cpp:94-103 | chains with one bucket taken out stand for the map without its key |
| Clock.NoVictimIffAllPinned | p3/btree/src/buffer.cpp:62-102 | the search fails if and only if every frame holds a pinned page |
| Clock.VictimIsFirst | p3/btree/src/buffer.cpp:62-96 | the victim is the first free or idle frame after the hand, or else the first unpinned one; exactly the reference bits passed over are cleared |
| ClockMachine.StepDetermined | p3/btree/src/buffer.cpp:57-117 | the machine has no choice: the event decides the frame and the state |
| ClockMachine.TraceDetermined | p3/btree/src/buffer.cpp:57-230 | over a whole run the events decide all frames and states |
| ClockMachine.SecondChance | p3/btree/src/buffer.cpp:62-102 | over every run, a frame handed out since the hand last reached it is not taken while another is free or idle |
| ClockMachine.FillsInOrder | p3/btree/src/buffer.cpp:23-39 | a new pool is filled from its first frame to its last |
| BufferPool.EvictConsistent | p3/btree/src/buffer.cpp:81-113 | taking a frame keeps table and frames naming each other, and the files in order |
| BufferEffects.TakeExact | p3/btree/src/buffer.cpp:57-117 | the frame taken is the one the clock names; it is emptied, its page leaves the table and is written if dirty, the hand stays on it, and exactly the frames passed lose their reference bits; a search that fails clears all bits and changes nothing else, the hand included |
| BufferEffects.ReadPageExact | p3/btree/src/buffer.cpp:120-151 | a cached page gains a pin and its frame the reference bit, and nothing else changes; another page goes into the frame taken, with one pin, the bit and no dirty mark; if it is not in its file the frame stays empty |
| BufferEffects.UnPinPageExact | p3/btree/src/buffer.cpp:154-169 | one descriptor changes: dirty if it was or is reported, even when the unpin is refused, and one pin less if there was one |
| BufferEffects.AllocPageExact | p3/btree/src/buffer.cpp:213-230 | the file's new page goes into the frame taken, as the file hands it out, with one pin, the bit and no dirty mark |
| BufferEffects.DisposePageExact | p3/btree/src/buffer.cpp:196-210 | the frame is cleared, the page leaves the table unwritten, the file is what deletion makes of it; nothing else changes |
| BufferEffects.FlushFileExact | p3/btree/src/buffer.cpp:171-194 | the frames of the file before its first pinned one are emptied, and written if dirty; from there on, and in other files, nothing changes; without a pinned one all are |
| BufferEffects.FlushedPages | p3/btree/src/buffer.cpp:171-194 | what has been flushed is on disk as clients saw it and no longer cached, even if the flush stops |
| BufferEffects.DestroyExact | p3/btree/src/buffer.cpp:42-56 | the pages of dirty frames are written in the order of the frames, and no other byte of any file changes |
| BufferConsistency.AllocBufKeeps | p3/btree/src/buffer.cpp:57-117 | whether it finds a frame or not, the search keeps bijection, pins and lists and touches no pinned page; it fails exactly when all frames are pinned |
| BufferConsistency.ReadPageKeeps | p3/btree/src/buffer.cpp:120-151 | pins the page once or fails, exactly when; touches no other pinned page, even when it fails after an eviction |
| BufferConsistency.UnPinPageKeeps | p3/btree/src/buffer.cpp:154-169 | takes one pin off or is refused, exactly when; table and disk stay |
| BufferConsistency.AllocPageKeeps | p3/btree/src/buffer.cpp:213-230 | hands out the page that the file's own lists say and leaves the lists that allocation leaves, even when it has just evicted a stale page of that file; fails exactly when all frames are pinned |
| BufferConsistency.AllocPageConsistentIff | p3/btree/src/buffer.cpp:213-230 | the pool stays consistent if and only if the file is a blob file or has a page in use or at most one free, or nothing was allocated |
| BufferConsistency.DisposePageKeeps | p3/btree/src/buffer.cpp:196-210 | a cached page leaves the pool whatever its pins, and its file changes exactly as by deletion, or refuses if it is a blob file; nothing happens if the page is not cached; the pool stays consistent if and only if no other object has the page cached |
| BufferConsistency.FlushFromKeeps | p3/btree/src/buffer.cpp:171-194 | the sweep from any frame on stops exactly on a pinned frame and never meets the bad-buffer case; frames of other files stay |
| BufferConsistency.FlushFileKeeps | p3/btree/src/buffer.cpp:171-194 | succeeds unless a page of the file is pinned; then nothing of the file is cached |
| BufferConsistency.WriteFrameKeeps | p3/btree/src/buffer.cpp:129-132 | writing through the pointer to a pinned page touches nothing else |
| BufferDisk.EvictDiskKept | p3/btree/src/buffer.cpp:104-113 | an eviction leaves every page on disk as it is whose unpinned dirty copies hold what is on disk, and brings no page into a new form |
| BufferDisk.ReadPageDiskKept | p3/btree/src/buffer.cpp:120-151 | the same of a read with the eviction it may need |
| BufferCorrectness.EvictInvisible | p3/btree/src/buffer.cpp:104-113 | taking a frame is invisible to clients if and only if it is dirty or holds what is on disk; a frame of a further File object, if and only if it is not written over something else that clients see |
| BufferCorrectness.AllocBufInvisible | p3/btree/src/buffer.cpp:57-117 | with or without success the search is invisible |
| BufferCorrectness.ReadPageCorrect | p3/btree/src/buffer.cpp:120-151 | shows the client its view of the page; invisible even when it fails after an eviction |
| BufferCorrectness.ReadIsReported | p3/btree/src/filescan.cpp:75-94 | a page just read can be unpinned as clean, as a scan does with pages it skips |
| BufferCorrectness.UnPinPageCorrect | p3/btree/src/buffer.cpp:154-169 | shows nothing at once, and nothing is lost later if and only if the change was reported |
| BufferCorrectness.AllocPageCorrect | p3/btree/src/buffer.cpp:213-230 | the new page is empty; no other page changes for anybody |
| BufferCorrectness.DisposePageCorrect | p3/btree/src/buffer.cpp:196-210 | the page is gone if it was cached; no other page changes for anybody |
| BufferCorrectness.FlushFromCorrect | p3/btree/src/buffer.cpp:171-194 | the sweep is invisible wherever it stops |
| BufferCorrectness.FlushFileCorrect | p3/btree/src/buffer.cpp:171-194 | after success the disk holds what clients saw of the file; a partial flush is invisible too |
| BufferCorrectness.WriteFrameCorrect | p3/btree/src/buffer.cpp:129-132 | the view of that page changes and of no other |
| BufferCorrectness.DestroyCorrect | p3/btree/src/buffer.cpp:42-56 | the destructor leaves on disk what clients saw of a page if and only if it was not cached, dirty, or the same on disk; lists stay |
| BufferRuns.StepConsistent | p3/btree/src/buffer.cpp:120-230 | one operation, reported or not, keeps table and frames in bijection, has the right effect on every pin count and on which pages are in use, moves no pinned page and touches none but its own |
| BufferRuns.StepExplained | p3/btree/src/buffer.cpp:120-230 | every answer says what is the case: reads, flushes and allocations are refused exactly when frames, pins or the file say so, unpins exactly when the page is not pinned |
| BufferRuns.StepFollowsFile | p3/btree/src/file.cpp:165-305 | one operation does to the lists of every file what the file by itself does, and hands out the page that the file would |
| BufferRuns.StepCorrect | p3/btree/src/buffer.cpp:120-230 | with changes reported, one operation does to each page what it would do without a pool |
| BufferRuns.RunConsistent | p3/btree/src/buffer.cpp:57-230 | over every run, reported or not, the bijection holds, a page is pinned as often as reads and allocations less unpins, and all answers fit |
| BufferRuns.RunFollowsFile | p3/btree/src/file.cpp:165-305 | over every run the lists of each file and all page numbers handed out are those of a file on which only the successful allocations and disposals are done |
| BufferRuns.RunInvisible | p3/btree/src/buffer.cpp:42-230 | over every run with changes reported a page looks as the changes, allocations and disposals say |
| BufferRuns.RunKeepsPinnedPages | p3/btree/src/buffer.cpp:57-230 | over every run, while a client holds a pin, the page stays in its frame |
| BufferRuns.ReadAfterRun | p3/btree/src/buffer.cpp:120-151 | a read after any run with changes reported returns what the run made of the page |
| BufferRuns.RestartInvisible | p3/btree/src/buffer.cpp:23-56 | destroying the pool and making a new one over the same disk changes no page if and only if no cached page was changed and not marked dirty |
| BufferRuns.StepDiskKept | p3/btree/src/buffer.cpp:120-230 | one operation leaves every page on disk as it is that it is not about and that nothing unpinned would write back changed |
| BufferRuns.StepVersionsElsewhere | p3/btree/src/buffer.cpp:120-230 | an operation on another file brings no page of this one into a form, on disk or in a frame, that it did not have |
| BufferRuns.NothingLost | p3/btree/src/buffer.cpp:42-56 | which is so when no page is pinned and changes were reported |
| ClockRuns.StepFollowsClock | p3/btree/src/buffer.cpp:120-230 | one operation does to hand, pins and reference bits what the clock machine does, hands out the frame it does, and is refused exactly when it refuses |
| ClockRuns.RunFollowsClock | p3/btree/src/buffer.cpp:57-230 | over every run the hand, the bits, the victims, the refusals and the frames handed out are those of a machine that knows no pages |
| ClockRuns.RecentPageStays | p3/btree/src/buffer.cpp:62-130 | over every run, a page read or allocated since the hand last came to its frame is not evicted while another frame is free or idle |
| ClockRuns.StepMarksDirty | p3/btree/src/buffer.cpp:120-230 | after one operation a cached page is marked dirty exactly if it was or the operation reported it |
| ClockRuns.RunMarksDirty | p3/btree/src/buffer.cpp:120-230 | while a page stays cached it is marked dirty exactly if it was at the start or some unpin reported it |
| BufferClients.HonestRunIsReported | p3/btree/src/buffer.cpp:154-169 | clients that unpin what they changed as dirty, and only what they pinned, report all changes, however their operations interleave |
| BufferManager.BufMgr.constructor | p3/btree/src/buffer.cpp:23-39 | all frames are cleared, the pages empty, the hand is on the last frame, the table is empty and of the size computed, and the invariant holds |
| BufferManager.BufMgr.AdvanceClock | p3/btree/src/buffer.h:200-203 | the hand moves to the next frame and wraps around |
| BufferManager.BufMgr.Search | p3/btree/src/buffer.cpp:62-102 | two sweeps of the loop clear the bits, set the hand and find the victim that the clock specification names, or none |
| BufferManager.BufMgr.AllocBuf | p3/btree/src/buffer.cpp:57-117 | the pool and frame are those of the specification |
| BufferManager.BufMgr.ReadPage | p3/btree/src/buffer.cpp:120-151 | the pool, status and frame are those of the specification, over the real hash table |
| BufferManager.BufMgr.LoadFrame | p3/btree/src/buffer.cpp:142-149 | the insertion into the hash table never finds the key present |
| BufferManager.BufMgr.UnPinPage | p3/btree/src/buffer.cpp:154-169 | the pool and status are those of the specification |
| BufferManager.BufMgr.FlushFile | p3/btree/src/buffer.cpp:171-194 | the pool and status are those of the specification |
| BufferManager.BufMgr.FlushFrame | p3/btree/src/buffer.cpp:181-189 | writing back, unhashing and clearing one frame is an eviction |
| BufferManager.BufMgr.DisposePage | p3/btree/src/buffer.cpp:196-210 | the pool and status are those of the specification; the pool is valid afterwards unless another object has the page cached, exactly when |
| BufferManager.BufMgr.AllocPage | p3/btree/src/buffer.cpp:213-230 | the pool, status, page number and frame are those of the specification; the pool is valid afterwards unless the allocation broke the file, exactly when |
| BufferManager.BufMgr.Destroy | p3/btree/src/buffer.cpp:42-56 | the disk is that of the specification |
| RecordOrder.AllRecordsExact | p3/btree/src/filescan.cpp:35-104 | the list to be scanned holds exactly the records of the file, each once, by page and then by slot |
| RecordOrder.NextSlotIsNext | p3/btree/src/page_iterator.h:111-121 | going to the next used slot takes the next record off the list, or ends the page |
| RecordOrder.NextPageIsNext | p3/btree/src/file_iterator.h:61-67 | going to the next used page skips no record |
| RecordScan.GetNextUsedSlot | p3/btree/src/page_iterator.h:111-121 | the least used slot after the given one, or 0 if there is none |
| RecordScan.FileScan.constructor | p3/btree/src/filescan.cpp:13-20 | opens a File object of its own on the shared file; all its records are still to come and no page is pinned |
| RecordScan.FileScan.ScanNext | p3/btree/src/filescan.cpp:35-104 | always: the record returned comes after the one before and is live in the page pinned, and no record that every form of its page has is passed over; end of file comes only when none of those remains, and is final; one pin on the page of the record and none otherwise; nobody else notices; refused a frame exactly when the scan holds no page yet, the file has one and all frames are pinned. If evictions cannot change the file on disk: the first of the remaining records, leaving the rest, and end of file exactly when none remain. The dirty mark is kept exactly while the scan stays on its page, and then the pool does not change at all |
| RecordScan.FileScan.SkipEmptyPages | p3/btree/src/filescan.cpp:71-104 | the same past any number of pages without further records; never refused a frame |
| RecordScan.FileScan.TurnPage | p3/btree/src/filescan.cpp:75-94 | leaves the page and enters the next one in use, with the same records to come and none passed over, or ends; there is always a frame; the pool is unpinned once, with the dirty mark, and read once |
| RecordScan.FileScan.EnterPage | p3/btree/src/filescan.cpp:89-93 | what the pool makes of a read of the page: it is pinned and the iterator put on its first record, or refused exactly when all frames are pinned; nobody else notices |
| RecordScan.FileScan.LeavePage | p3/btree/src/filescan.cpp:77-80 | what the pool makes of an unpin with the scan's dirty mark, which leaves a frame to be taken; nobody else notices |
| RecordScan.FileScan.NextRecord | p3/btree/src/page_iterator.h:61-80 | the iterator moves to the next used slot of its page |
| RecordScan.FileScan.GetRecord | p3/btree/src/filescan.cpp:106-111 | the bytes of the record as clients see them, or a refusal when it has been deleted meanwhile |
| RecordScan.FileScan.Close | p3/btree/src/filescan.cpp:22-33 | what the pool makes of an unpin with the scan's dirty mark, if it holds a page; nobody else notices |
| IndexScan.ReadNext | p3/btree/src/btree.cpp:157-159 | the next record with its bytes, counted against those found so far and against those no form of the file lacks |
| IndexScan.ReadOn | p3/btree/src/btree.cpp:156-184 | always: each record once, in order, with bytes it had on disk or in a frame at the start, and every record that all forms of its page had at the start; to the end, unless there is a page and all frames are pinned at the start. If evictions cannot change the file on disk: every record of the file and no other |
| IndexScan.ReadAllRecords | p3/btree/src/btree.cpp:152-184 | every record that all forms of its page have; to the end exactly unless there is a page and all frames are pinned. With unwritten pages pinned, the scan returns what is on disk, and that is what clients see if and only if every cached page holds the records that are on disk; no pin is left |
| IndexScan.ScanOfWritten | p3/btree/src/filescan.cpp:13-104 | when everything has been written, the scan returns the clients' records with their bytes |
| IndexScan.EndIsFinal | p3/btree/src/filescan.cpp:39-42 | a scan that has come to the end says so again after a client has added a page with records to its file |
| ScanAmong.ScanGoesOn | p3/btree/src/btree.cpp:156-184 | after any run of others on other files, index insertions into a blob file for instance, reported or not, a scan stands on the same page in the same frame and what all forms of a page have they still have; if evictions cannot change its file on disk it has the same records to come |
| ScanAmong.Perform | p3/btree/src/buffer.cpp:120-230 | an operation carried out on the real pool is the step of the run machine, with its answer |
| ScanAmong.LetOthers | p3/btree/src/btree.cpp:162-180 | what others do between two calls is a run of possible operations, and the scan is as valid as before |
| ScanAmong.ReadAmong | p3/btree/src/btree.cpp:156-184 | the loop with operations of others on other files each time a record has been found: as `ReadOn`, each record once, in order, with bytes from the start of the loop, none missed that all forms had, to the end under the same exact condition; exactly the records on disk if evictions cannot change the file |
| SharedFile.SecondViewIff | p3/btree/src/filescan.cpp:13-20 | at the moment of opening, the scan's File object shows what clients see if and only if every cached page of the file is as on disk |
| SharedFile.SecondScanIff | p3/btree/src/filescan.cpp:13-20 | at the moment of opening, it shows the clients' records with their bytes if and only if every cached page holds the records that are on disk |
| SharedFile.StillKept | p3/btree/src/buffer.cpp:104-110 | what the object shows stays the same while evictions have nothing changed to write |
| SharedFile.FlushedIsWritten | p3/btree/src/buffer.cpp:171-194 | after a flush that succeeds, every cached page of the file is as on disk |
| PoolExamples.UnwrittenRecordMissed | p3/btree/src/filescan.cpp:13-104 | from a new file: a record is inserted, clients see it, and the first `scanNext` of a scan opened then says end of file |
| PoolExamples.RestartLosesRecord | p3/btree/src/buffer.cpp:42-56 | from a new file: a record is inserted into a page that is still pinned, the pool is destroyed, and a new one shows the page empty |
| RecordStore.StepCorrect | p3/btree/src/buffer.cpp:120-230 | one operation, on the pool or on a pinned page, changes the map of that page as the map machine says and no other of the file, whatever is written into other files |
| RecordStore.RunRefinesStore | p3/btree/src/page.cpp:36-199 | over every run of all clients, through all evictions and flushes, each page of a file of slotted pages is a map from slots to records changed by its own operations only, with the answers the map gives; pages of other files may be written raw |
| RecordStore.LastFlushWrites | p3/btree/src/buffer.cpp:171-194 | a run that ends with a successful flush of a file leaves nothing of it unwritten |
| RecordStore.ScanAfterRun | p3/btree/src/filescan.cpp:13-104 | a scan opened after any run, when the file has been written, lists exactly the records in those maps, in order and with their bytes |

## Left out

- The B+ tree (`p3/btree/src/btree.cpp`): its leaf inserts append without sorting (374-377) and its split does not advance its output index (446), so a proof would be about another algorithm. Only the scan loop at 152-184 is modelled.
- `p2/bufmgr/src`: its page and file code is an earlier copy; its buffer manager does not follow the clock. `p1`, `p4` and `p5` are console, SQL loading and web code.
- `Files.BlobFile.ReadPage`: a page number outside the file; the program reads past the end and leaves the shared stream failed. The pool refuses such a page here as one that is not in use. A page of a blob file is a page value with any fields and bytes, which is what the program's cast of another struct over it amounts to.
- Streams, file opening and closing, shared open counts, exception texts, statistics and printing. A disk is a map of files; a page on disk is a page value. A `readPage` of page 0 is refused here; the program computes a position far past the end of the file (`p3/btree/src/file.h:175-176`, in unsigned arithmetic) and leaves the shared stream failed.
- The frame number field of a frame descriptor, which is its index.
- Page numbers, page counts and pin counts do not wrap at 32 bits. Slot numbers, offsets and lengths are 16 bits wide, and every assignment to them is proved not to wrap; the hash is computed in 32 bits.
- Slot entries are stored little endian with one byte of padding, which is the layout on the machines the program is built for; a used flag is any byte other than 0.
- PageObject.Page.DeleteRecord: does not cover pages where the moved block overwrites the directory entry of the deleted slot, or lies below the last slot's entry (`EntryClear`). In the first case the copying loop goes on with a length that it has just overwritten and can write past its array; in the second, compaction counts entries that have been overwritten. On settled pages, where deletion is right, this is proved not to happen. Slot numbers are in the directory.
- PageObject.Page.DeleteRecordKeeping: as `DeleteRecord`.
- PageObject.Page.VacateSlot: as `DeleteRecord`.
- PageObject.Page.UpdateRecord: as `DeleteRecord`, for updates that fit.
- PageCorrectness.UpdateCorrect: as `DeleteRecord`, for updates that fit.
- PageCorrectness.DeletedWellFormed: pages where the moved block lands on no directory entry (`MoveClear`); elsewhere the page can end broken.
- PageLimits.UnsettledLosesByte: as `DeleteRecord`.
- PageLimits.BlockMoved: as `DeleteRecord`.
- PageLimits.DeletionRightIffSettled: `MoveClear`, and only one byte not zero; with all bytes of other records not zero it is `NonzeroDeletionIffSettled`.
- PageLimits.UpdateRightIffSettled: as `DeletionRightIffSettled`.
- PageLimits.NonzeroDeletionIffSettled: as `DeleteRecord`.
- PageLimits.NonzeroUpdateIffSettled: as `DeleteRecord`.
- PageLimits.DeletionAlwaysRightIffSettled: as `DeleteRecord`; that settled pages are right is proved on every page.
- PageLimits.UpdateAlwaysRightIffSettled: as `DeletionAlwaysRightIffSettled`.
- PageObject.Page.ValidateRecordId: slot number 0, and those whose entry would lie beyond the page, make the program read outside its array.
- PageObject.Page.GetRecord: as `ValidateRecordId`.
- FileObject.PageFile.WritePage: a page number past the end of the file makes the program read a header that is not there; not modelled.
- BufferManager.BufMgr.ReadPage: calls into the file use the functions that `FileObject.PageFile` is proved equal to, since pages on disk are values here; the same holds for the other methods of `BufMgr`.
- BufferConsistency.AllocPageKeeps: a paged file with no page in use and two or more free is broken by the allocation; that the pool then is, and only then, is `AllocPageConsistentIff`.
- BufferCorrectness.AllocPageCorrect: as `AllocPageKeeps`.
- BufferRuns.RunConsistent: runs in which a page is allocated in a paged file with no page in use and two or more free stop there, as do runs that dispose of a page of a blob file; what the pool does over a broken file is not modelled.
- ClockRuns.RunFollowsClock: as `RunConsistent`; the same holds of `ClockRuns.StepFollowsClock`, `RecentPageStays`, `StepMarksDirty` and `RunMarksDirty`.
- RecordScan.FileScan.constructor: the File object stays open when the scan is closed; the program deletes it and leaves its address in the frames.
- RecordScan.FileScan.ScanNext: every form of the file's pages, on disk and in frames, is well formed, and the page the scan stands on is not disposed of between calls; the scan's File object is its own, as the class keeps it private; the iterators are kept as a page number and a slot number, and the pointer of the record iterator is the scan's current frame.
- IndexScan.ReadAllRecords: collects the records; the insertions into the index between two calls, operations on the pages of a blob file, are in `ScanAmong.ReadAmong`, not in this method. How the index is built is not modelled.
- ScanAmong.ReadAmong: others do not work on the scanned file meanwhile; what one call of the scan finds after they have is `ScanNext`.
- File objects are addresses that stay distinct while the pool lives; address reuse and deletion of a File object with cached pages are not modelled.
