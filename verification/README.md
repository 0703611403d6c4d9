# A verified model of the opsys kernel's memory manager and scheduler

The project models, in Dafny, the part of the i386 microkernel where a mistake
is both easy and expensive: the reference-counted frame allocator, the
two-level page tables that are only reachable through temporary mappings, the
blocking primitives, the scheduler, and the identifiers and boot-time claims
they rest on.

## What is modelled and how

**Frames and page tables.** `FrameMap` is `pmem.c` over an array of map bytes
(two type bits, six count bits). `Accounting` ties the bytes to the contents of
all paging structures: the count of every frame but frame 0 is its number of
non-entry owners plus the number of page-table and directory entries that name
it, less the directory entries that one address space has copied from another
without taking a reference. `Paging` holds the entry operations of `pagetbl.c` and
`pagedir.c`, which keep that equation on success and on failure. `FlatMap` defines the simple
reading of an address space, a map from pages to entries, and what every store
does to it, and `Reports` says what the emptiness check reports in terms of pages. `Vmem32`, `PageRanges` and `FrameRanges` are the range operations of
`vmem_32.c`, and `Ledger` says which frames they spend and that all others keep
count, type and owners; `WindowSearch` and `Vmem` are the search and the allocation
of `vmem.c`, and `SearchLimits` says for which arguments they keep what they promise.
`Failures` follows repeated failures, `Sharing` is the copying of directory entries.

Physical memory is a sequence of frames, each either a structure of 1024 words
or empty. Several address spaces live in the same memory; an operation on one
of them, also one that fails, is shown to leave the structures of all others
alone. An address space set up with `vmem_init_from_parent` shares page tables
with its parent by entries that are not counted; all operations are proved with any
number of such entries around, and a mapped frame is never handed out.

**Blocking and scheduling.** `Spinlock` and `SemaphoreProtocol` are transition
systems over any number of threads; every interleaving is a run. The spinlock
has separate test, exchange and unlock steps. One section under the semaphore's
spinlock is one step of the semaphore, which is what the spinlock's mutual
exclusion buys. `LockOrder` covers the order in which `vmem.c` and `pmem.c` take
semaphores. `Scheduler` is `sched.c` over sequences, and `Ring` shows on the heap
that the linked list of `list.c` behaves like a sequence.

**Identity, sizing, boot.** `Bitset`, `Identity`, `Memzone` and `Boot` cover id
allocation, thread id packing, the chunk sizing of `memzone_init` and the
claim/reclaim passes of `multiboot.c`.

Integers are unbounded in Dafny. Shifts and masks are written as divisions and
remainders, and tied back to single bits by lemmas over `Binary`. Where the 32-bit words of the kernel can wrap,
the model says `% WORD`; where a count is held in six bits, the byte is modelled.

## What was found not to hold

"All states" below are all that satisfy the accounting, the well-formedness of the
address space and the assumptions listed further down.

- The temporary mapping ignores a failing reference. The books balance afterwards
  if and only if the mapped frame's count was between 1 and 62
  (`Vmem32.InstallTempPageFrame`).
- With no temporary page left, the emptiness check does not look at the tables. It
  reports the number of tables times the pages left in the first one, so every
  range inside one table is reported empty, whatever it holds. The report is right
  in all such states if and only if no page is asked about
  (`Vmem32.CheckEmptyPages`, `SearchLimits.BlindIsRightIff`).
- `find_empty_pages` compares sizes strictly and never uses the last page of its
  window. Any window with room for the one or more pages asked for has a state in
  which the only room is at its end and the search fails: it is first fit over all
  states if and only if no start fits the window at all, or no page is asked for in
  a window that has one (`SearchLimits.FirstFitIffTrivial`).
- There is a second cause: a query that spans two tables can report too many empty
  pages, so that the search skips a usable range or fails although there is one.
  Measured by the starts the strict comparison admits, the search is first fit over
  all states if and only if at most one page is asked for, or there is only one
  start to try, or no query but the last can span two tables
  (`SearchLimits.FirstUsableIffUncrossed`). Without this cause the search goes wrong
  exactly where the start at the very end is the only one
  (`WindowSearch.UncrossedMissesOnlyTheLast`).
- A range operation on the whole address space visits no table, because its size in
  bytes wraps to zero (`Words.TableWalk`).
- Sharing a page table takes no reference. Replacing a directory entry then keeps the
  books if and only if it is not the last counted one of a shared table
  (`Accounting.MoveKeepsAccount`). With two copies, removing the original entry and one
  copy leaves a frame with count zero that the other directory still names
  (`Sharing.SharedTableIsHandedOut`).
- A failing `vmem_32_alloc_pages` leaves its page table mapped. After n failures n
  temporary pages are gone and the table's count has grown by n; when the count is
  saturated the next temporary mapping goes uncounted and the books break
  (`Failures.FailRepeatedly`, `Failures.SaturateAndBreak`).
- Cleaning up a task that still has threads lets another thread get the same packed
  id; it is safe if and only if the thread count is zero (`Identity.UninitIsSafeIff`).
- The spinlock excludes on all runs if and only if every uid is nonzero; before
  `sched_init` the uid is NULL (`Spinlock.ExclusionIffNonzeroUids`).
- Entries and thread ids lose high bits of frame numbers above 2^20 and of task
  ids above 2^24 (`Words.EntryRoundTrip`, `Identity.ThreadIdRoundTrip`).

## Assumptions

- Page tables reached through the emptiness check and the lookup are installed,
  as `vmem_init_nopg` does for the kernel areas (src/kernel/bin/vmem.c:430-453),
  and their reference counts are not saturated.
- Ranges keep clear of the area of temporary mappings and inside the 2^20 pages
  of the address space.
- At least one frame is asked for in an allocation; frame 0 is never mapped.
- The page tables of another address space are not shared with the one operated
  on, where a statement is about another address space.
- Directories name page tables, not directories, and the directory operated on is one
  of the known ones; the temporary page table is not a directory.
- Thread ids given to `tcb_init_with_id` are below 64. Its parameter is an unsigned
  char, but the id bits of a task are eight bytes and the source does not check.
- A scheduler operation is one step, threads handed to `sched_switch_to` are
  READY, and new threads are not registered already.
- Only a task without threads is cleaned up, and its storage is not reused.

## Model

| member | source | states |
|---|---|---|
| `Words.EntryRoundTrip` | src/kernel/bin/arch/i386/pte.c:22-32 | page-table and directory entries give back the frame number modulo 2^20, hence the number itself iff it fits 20 bits; the present bit survives the flag masks; flags never leak into the frame number |
| `Words.PteBits` | src/kernel/bin/arch/i386/pte.c:22-26 | every bit of a page-table entry: 0 to 2 are those of the flags, 3 to 11 are zero, the rest those of the frame number |
| `Words.PdeBits` | src/kernel/bin/arch/i386/pde.c:22-26 | every bit of a directory entry: 0 to 4 and 7 are those of the flags, 5, 6 and 8 to 11 are zero, the rest those of the frame number |
| `Words.EntryFields` | src/kernel/bin/arch/i386/pte.h:44-48 | an entry is present iff bit 0 is set, and its frame number is its bits from 12 on |
| `Words.TableWalk` | src/kernel/bin/arch/i386/pagetbl.h:49-72 | for a range inside the address space the index and count computed with wrapping address arithmetic are the first table and exactly the tables up to that of the last page; for the whole address space the count is zero |
| `FrameMap.MasksAreArithmetic` | src/kernel/bin/pmem.c:31-53 | the masks 0x3f and 0xc0 on every byte agree with the arithmetic reading used by the model |
| `FrameMap.CountStaysInItsBits` | src/kernel/bin/pmem.c:55-97 | counting up or down leaves the type bits alone iff the guard holds, and is then exact; a guarded decrement never touches the type |
| `FrameMap.FirstFitIsUnique` | src/kernel/bin/pmem.c:208-241 | the first-fit specification determines the answer |
| `FrameMap.SkipRejected` | src/kernel/bin/pmem.c:170-177 | stepping over frames in use loses no run |
| `FrameMap.SkipBlocker` | src/kernel/bin/pmem.c:221-236 | jumping past the frame that blocks a run loses no run |
| `FrameMap.NoFitIsNoSpare` | src/kernel/bin/pmem.c:208-241 | a one-frame request fails iff no allocable frame is left |
| `FrameMap.RefUnrefRestores` | src/kernel/bin/pmem.c:270-371 | raising and dropping a range restores the map iff no count of the range was saturated |
| `FrameMap.AllocIsEffect` | src/kernel/bin/pmem.c:208-241 | the allocation method is one step of the run relation |
| `FrameMap.EffectOnFrame` | src/kernel/bin/pmem.c:145-371 | any single call moves any count by at most one; which calls raise, drop or retype |
| `FrameMap.TypesChangeOnlyBySetType` | src/kernel/bin/pmem.c:145-371 | over every run of calls in which `pmem_set_type` is not called on the frame, its type does not change, and its count moves by at most the length of the run |
| `FrameMap.AllocableOverRuns` | src/kernel/bin/pmem.c:99-168 | over every run a frame is allocable iff the last successful `pmem_set_type` on it made it available and its count is zero |
| `FrameMap.PMem.constructor` | src/kernel/bin/pmem.c:129-143 | the map is zeroed and offers no frame to any request |
| `FrameMap.PMem.SetTypes` | src/kernel/bin/pmem.c:145-168 | retypes exactly the range and keeps counts, or fails with ENODEV iff the range is not in the map |
| `FrameMap.PMem.FindAllocableFrame` | src/kernel/bin/pmem.c:170-177 | finds the first allocable frame of the range |
| `FrameMap.PMem.FindNonAllocableFrame` | src/kernel/bin/pmem.c:179-186 | finds the first frame of the range in use |
| `FrameMap.PMem.RefFrameRange` | src/kernel/bin/pmem.c:188-196 | raises exactly the counts of the range |
| `FrameMap.PMem.AllocFrameRange` | src/kernel/bin/pmem.c:198-206 | raises the whole range iff it was free, else reports the first blocker and changes nothing |
| `FrameMap.PMem.AllocFrames` | src/kernel/bin/pmem.c:208-241 | returns the least index from 1 on where the run is free and raises exactly those counts; returns 0 with the map unchanged iff there is no such run |
| `FrameMap.PMem.AllocFramesAt` | src/kernel/bin/pmem.c:243-268 | allocates at the given index iff the whole run is free, with the source's three results |
| `FrameMap.PMem.UndoRefs` | src/kernel/bin/pmem.c:298-303 | the undo loop gives back the map from before the call |
| `FrameMap.PMem.ClaimFrames` | src/kernel/bin/pmem.c:270-306 | all or nothing; succeeds iff the range is in the map and unsaturated |
| `FrameMap.PMem.RefFrames` | src/kernel/bin/pmem.c:308-349 | all or nothing; succeeds iff every frame is in use and unsaturated; the error is that of the first offending frame |
| `FrameMap.PMem.UnrefFrames` | src/kernel/bin/pmem.c:351-371 | drops one reference per frame, leaving zero counts alone |
| `Accounting.WriteEntry` | src/kernel/bin/arch/i386/pagetbl.c:53-65 | one store moves exactly one reference from the old frame to the new one in the count over all structures |
| `Accounting.WriteDir` | src/kernel/bin/arch/i386/pagedir.c:53-66 | a store into a directory moves exactly one of the directory references; a store elsewhere moves none |
| `Accounting.UncountedBound` | src/kernel/bin/arch/i386/vmem_32.c:514-518 | a frame that is named or owned has a positive count although copies are uncounted |
| `Accounting.SoleEntry` | src/kernel/bin/arch/i386/pagetbl.c:38-71 | a frame counted once over all structures is named by one entry only |
| `Accounting.AllocableIsUnused` | src/kernel/bin/pmem.c:99-103 | an allocable frame has no owner, is named by no entry of any structure, counted or not, and holds no structure |
| `Accounting.MappedIsNeverHandedOut` | src/kernel/bin/pmem.c:208-241 | the run returned by first fit contains no frame that any entry names, also when address spaces share tables |
| `Accounting.MoveKeepsAccount` | src/kernel/bin/arch/i386/pagetbl.c:38-106 | storing an entry while moving one count keeps the accounting equation for every frame iff the entry is replaceable: not the last counted directory entry of a shared frame, and no directory naming a directory |
| `Accounting.UncountedStoreBreaksAccount` | src/kernel/bin/arch/i386/vmem_32.c:121-123 | storing an entry without its reference breaks the equation |
| `Accounting.AllocKeepsAccount` | src/kernel/bin/arch/i386/vmem_32.c:171-175 | allocating a frame with its first owner keeps the equation |
| `Accounting.InitKeepsAccount` | src/kernel/bin/arch/i386/vmem_32.c:191-194 | turning an owned frame into an empty table or a new directory keeps the equation |
| `Paging.AccountedNames` | src/kernel/bin/arch/i386/pagetbl.c:57-60 | a frame named by an entry is in the map with a positive count, so dropping it never meets the guard |
| `Paging.PagedMemory.constructor` | src/kernel/bin/pmem.c:129-143 | without structures every count is an owner's, and the equation holds |
| `Paging.PagedMemory.ReplaceEntry` | src/kernel/bin/arch/i386/pagetbl.c:38-71 | the shared step of mapping and installing: succeeds iff the frame can be referenced, then stores the entry and moves one reference; otherwise nothing changes; the equation holds afterwards iff the call failed or the entry was replaceable |
| `Paging.PagedMemory.ClearEntry` | src/kernel/bin/arch/i386/pagetbl.c:88-106 | the shared step of unmapping and uninstalling: clears the entry and drops one reference; the equation holds afterwards iff the entry was replaceable |
| `Paging.PagedMemory.MapPageFrame` | src/kernel/bin/arch/i386/pagetbl.c:38-71 | as ReplaceEntry, for a page-table entry, which is always replaceable |
| `Paging.PagedMemory.UnmapPageFrame` | src/kernel/bin/arch/i386/pagetbl.c:88-106 | as ClearEntry, for a page-table entry, which is always replaceable |
| `Paging.PagedMemory.MapPageFrames` | src/kernel/bin/arch/i386/pagetbl.c:73-86 | maps the longest prefix of refable frames, stops at the first that is not, touches no other entry of any structure; the equation holds |
| `Paging.PagedMemory.UnmapPageFrames` | src/kernel/bin/arch/i386/pagetbl.c:108-120 | clears exactly the range; the equation holds |
| `Paging.PagedMemory.InstallPageTable` | src/kernel/bin/arch/i386/pagedir.c:38-72 | as ReplaceEntry, for a directory entry |
| `Paging.PagedMemory.UninstallPageTable` | src/kernel/bin/arch/i386/pagedir.c:91-110 | as ClearEntry, for a directory entry |
| `FlatMap.StorePage` | src/kernel/bin/arch/i386/vmem_32.c:345-348 | a store into an installed table changes the translation of one page and of no other, in this or another address space |
| `FlatMap.StoreTemp` | src/kernel/bin/arch/i386/vmem_32.c:118-125 | a store into the temporary table changes at most one temporary page |
| `FlatMap.InitTable` | src/kernel/bin/arch/i386/vmem_32.c:191-194 | zero-filling a frame without a structure changes no translation |
| `FlatMap.InstallTable` | src/kernel/bin/arch/i386/vmem_32.c:196-203 | installing an empty table in an empty slot changes no translation |
| `FlatMap.OtherSpacesUntouched` | src/kernel/bin/vmem.c:219-248 | another address space whose tables are foreign stays an address space, and all its pages translate as before |
| `FlatMap.OneTable` | src/kernel/bin/arch/i386/vmem_32.c:302-311 | one table of the walk advances over empty pages and stops at an occupied page or the end |
| `FlatMap.ScanBehind` | src/kernel/bin/arch/i386/vmem_32.c:296-315 | a walk that enters a table while still behind it can no longer report the full count |
| `FlatMap.ScanIsExact` | src/kernel/bin/arch/i386/vmem_32.c:287-318 | the walk reports the full count iff every page of the range is empty, for any number of tables; zero for the whole address space |
| `Reports.ScanCounts` | src/kernel/bin/arch/i386/vmem_32.c:296-315 | the report is a sum of one number per table: the longest run of empty pages from where the walk looks, inside the table and the count left, the position moving on by the pages counted only |
| `Reports.CountsAreUnique` | src/kernel/bin/arch/i386/vmem_32.c:296-315 | the pages determine these numbers |
| `Reports.ScanIsReport` | src/kernel/bin/arch/i386/vmem_32.c:287-318 | so the report on any range of installed tables is the one that its pages determine |
| `Reports.ShortScan` | src/kernel/bin/arch/i386/vmem_32.c:302-311 | if p is the first occupied page, the pages before p are counted, and the walk goes on in the next table with the position at p |
| `Reports.ShortReport` | src/kernel/bin/arch/i386/vmem_32.c:296-315 | over two tables that adds exactly the run of empty pages from p + 1024 on |
| `Vmem32.FindFreeTemp` | src/kernel/bin/arch/i386/vmem_32.c:102-116 | finds the first free temporary entry iff there is one |
| `Vmem32.InstallTempPageFrame` | src/kernel/bin/arch/i386/vmem_32.c:97-130 | maps the frame at the first free temporary page, or EBUSY iff none; the accounting holds afterwards iff the frame could be referenced |
| `Vmem32.TempIsWriteable` | src/kernel/bin/arch/i386/vmem_32.c:123-123 | a temporary mapping is present and writeable and not for user mode |
| `Vmem32.UninstallTempPage` | src/kernel/bin/arch/i386/vmem_32.c:132-162 | clears the entry and its reference, or EINVAL iff the page is not temporary |
| `Vmem32.MovedBack` | src/kernel/bin/arch/i386/vmem_32.c:218-251 | mapping and unmapping one frame restores every byte of the frame map |
| `Vmem32.AllocOneFrame` | src/kernel/bin/arch/i386/vmem_32.c:421-425 | a new frame is unused by every structure; 0 iff none is left |
| `Vmem32.FreeOneFrame` | src/kernel/bin/arch/i386/vmem_32.c:213-215 | giving the frame back restores map and owners |
| `Vmem32.AllocAndInitPageTable` | src/kernel/bin/arch/i386/vmem_32.c:164-216 | all or nothing; fails iff no frame or no temporary page is left; on success no translation outside the temporary area changes, the table is counted by its owner, the directory and its temporary mapping |
| `Vmem32.MapPageTable` | src/kernel/bin/arch/i386/vmem_32.c:218-245 | reaches the table of a slot, creating it if asked; exact failure conditions; nothing else changes |
| `Vmem32.UnmapUnchanged` | src/kernel/bin/arch/i386/vmem_32.c:247-251 | unmapping a table that was only read restores memory and frame map exactly |
| `Vmem32.CountEmptyEntries` | src/kernel/bin/arch/i386/vmem_32.c:302-311 | the inner loop returns the length of the empty run |
| `Vmem32.BlindScanIs` | src/kernel/bin/arch/i386/vmem_32.c:299-300 | without a free temporary page the walk adds up the pages left in the first table once per table |
| `Vmem32.BlindReport` | src/kernel/bin/arch/i386/vmem_32.c:287-318 | that is the full count iff the range stays in one table or is that product |
| `Vmem32.CountEmptyInTable` | src/kernel/bin/arch/i386/vmem_32.c:297-314 | reading one table leaves no trace; it is skipped iff no temporary page is free |
| `Vmem32.WalkTables` | src/kernel/bin/arch/i386/vmem_32.c:296-317 | the outer loop returns the scan of the flat map, which Reports ties to the pages, or the blind count without temporary pages |
| `Vmem32.CheckEmptyPages` | src/kernel/bin/arch/i386/vmem_32.c:287-318 | leaves no trace; reports the full count iff all pages are empty while a temporary page is free, and otherwise the number that the pages determine; without a temporary page tables times pages left in the first one, which is the full count iff the range is BlindFull |
| `Vmem32.LookupFrame` | src/kernel/bin/arch/i386/vmem_32.c:367-393 | returns what the flat map says for a present page, EFAULT otherwise, and leaves no trace |
| `Ledger.UnspentBytes` | src/kernel/bin/pmem.c:109-113 | a frame that was not spent keeps its map byte |
| `Ledger.SpentPage` | src/kernel/bin/arch/i386/vmem_32.c:421-430 | a page spends one allocable frame, which then has one owner and one entry, and touches no other |
| `Ledger.TableSpent` | src/kernel/bin/arch/i386/vmem_32.c:218-245 | mapping a table spends its frame iff it is new and counts it once more |
| `Ledger.NoNewTables` | src/kernel/bin/arch/i386/vmem_32.c:405-412 | where no table is missing the directory stays as it was |
| `Ledger.BooksJoin` | src/kernel/bin/arch/i386/vmem_32.c:405-434 | what two passes spend is the frames of their pages and of their new tables together, each once |
| `PageRanges.AllocOnePage` | src/kernel/bin/arch/i386/vmem_32.c:421-430 | one page gets a frame that was allocable, or ENOMEM iff none is left |
| `PageRanges.FillTable` | src/kernel/bin/arch/i386/vmem_32.c:416-431 | fills the range up to the end of the table with fresh frames; fails only when fewer frames than pages are left; spends exactly the frames of the pages filled |
| `PageRanges.FillAndUnmap` | src/kernel/bin/arch/i386/vmem_32.c:414-433 | filling and unmapping leave the filled pages as the only visible change; after a failure also the temporary mapping of the table, at the first entry that was free |
| `PageRanges.AllocPass` | src/kernel/bin/arch/i386/vmem_32.c:405-434 | one pass over one table, including the creation of the table; what a failure leaves behind |
| `PageRanges.RangeFailed` | src/kernel/bin/arch/i386/vmem_32.c:440-444 | a failure in a later pass leaves behind the pages done so far and at most one temporary mapping, and nothing in other address spaces |
| `PageRanges.CoveredStep` | src/kernel/bin/arch/i386/vmem_32.c:399-419 | each pass starts at the page after the previous table's end and in its own slot |
| `PageRanges.AllocPages` | src/kernel/bin/arch/i386/vmem_32.c:395-445 | on success only the range changes; if it was empty every page has a fresh frame; after a failure the pages done so far are fresh, all other pages and address spaces are as before, and at most one named entry of the temporary table is left mapping the table of the page that failed; no frame but those of the pages, of new tables and of that table changes in count, type or owners; success is guaranteed while a temporary page is free and frames are left for the pages and missing tables; the accounting holds always |
| `PageRanges.FreshIsIsolated` | src/kernel/bin/vmem.c:219-248 | the frame of a fresh page is named by that page's entry and by no other entry of any address space |
| `PageRanges.FreshPagesAreDistinct` | src/kernel/bin/vmem.c:219-248 | no other page of the address space has a fresh page's frame |
| `PageRanges.FreshNeedsSpare` | src/kernel/bin/arch/i386/vmem_32.c:421-425 | n fresh pages need n frames that were allocable before |
| `FrameRanges.FillFrames` | src/kernel/bin/arch/i386/vmem_32.c:340-352 | maps consecutive frames up to the end of the table; over an empty range it stops exactly at the first frame that cannot be referenced |
| `FrameRanges.FillFramesAndUnmap` | src/kernel/bin/arch/i386/vmem_32.c:340-354 | filling and unmapping leave the mapped pages as the only visible change; after a failure also the temporary mapping of the table |
| `FrameRanges.FramePass` | src/kernel/bin/arch/i386/vmem_32.c:331-355 | one pass over one table, including the creation of the table; what a failure leaves behind |
| `FrameRanges.AllocFrames` | src/kernel/bin/arch/i386/vmem_32.c:320-365 | on success the flat map changes exactly to pfindex + k at pgindex + k, and owners change only by new tables; over an unmapped range with its tables installed it succeeds iff a temporary page is free and every frame can be referenced, owners stay and exactly the frames mapped gain a reference; after a failure the pages done so far are mapped, all else is as before but for at most one named temporary mapping and its count |
| `WindowSearch.Query` | src/kernel/bin/vmem.c:186-190 | a query is full iff the range is empty |
| `WindowSearch.SearchIsSound` | src/kernel/bin/vmem.c:177-197 | a range found lies in the window and is empty |
| `WindowSearch.SearchHasTrace` | src/kernel/bin/vmem.c:177-197 | for every window, crossing or not, the search tries the starts that follow from the reports on the pages and stops at the first empty range |
| `WindowSearch.TraceIsUnique` | src/kernel/bin/vmem.c:177-197 | the pages determine the answer of the search |
| `WindowSearch.LastStartIsMissed` | src/kernel/bin/vmem.c:183-184 | if the only fitting start is the last of the window the search fails |
| `WindowSearch.SkipsNothing` | src/kernel/bin/vmem.c:192-193 | without a crossing, no usable start is among the pages skipped |
| `WindowSearch.UncrossedIsFirstFit` | src/kernel/bin/vmem.c:177-197 | without a crossing the search returns the least start its strict comparison admits, and ENOMEM iff there is none |
| `WindowSearch.UncrossedMissesOnlyTheLast` | src/kernel/bin/vmem.c:177-197 | without a crossing the search is first fit for the window in exactly the address spaces where the last start is not the only fitting one |
| `WindowSearch.TrapSprings` | src/kernel/bin/arch/i386/vmem_32.c:296-315 | a query across a boundary counts a page of the next table on top of the run before the occupied page |
| `WindowSearch.TrappedMisses` | src/kernel/bin/vmem.c:177-197 | in every address space of the stated shape the search misses its first usable start, and fails if that is the only one |
| `Vmem.FindEmptyPages` | src/kernel/bin/vmem.c:177-197 | leaves no trace; a result lies in the window and is unmapped; with a free temporary page the answer is that of the trace of starts that the pages determine, for crossing windows too; without one the first range is taken if it is BlindFull |
| `Vmem.AllocPagesWithin` | src/kernel/bin/vmem.c:219-248 | fresh, isolated allocation: the range lies in the window, was unmapped, each page has a frame of its own that was allocable, all other pages translate as before and all other frames keep count, type and owners; it fails iff the search fails, too few frames or no temporary page is left, and then leaves behind the pages done and one temporary mapping with its count; the accounting holds always |
| `SearchLimits.SpaceIsAccounted` | src/kernel/bin/pmem.c:49-53 | for any set of occupied pages there is a memory with a frame map and owners that balance, no frame having more than 33 references |
| `SearchLimits.SpaceIsReady` | src/kernel/bin/vmem.c:430-453 | it is a well-formed address space with all page tables, and a temporary page is free iff its page is not occupied |
| `SearchLimits.FirstUsableIffUncrossed` | src/kernel/bin/vmem.c:177-197 | for every window and request: first fit, by the strict comparison, in all states iff not crossing |
| `SearchLimits.OnlyLastFits` | src/kernel/bin/vmem.c:183-184 | every window with room has a state whose only room is at its end |
| `SearchLimits.FirstFitIffTrivial` | src/kernel/bin/vmem.c:177-197 | for every window and request: first fit for the window in all states iff no start fits, or no page is asked for in a window that has one |
| `SearchLimits.BlindHidesPages` | src/kernel/bin/arch/i386/vmem_32.c:299-300 | in any range reported full without looking, any page can be occupied |
| `SearchLimits.BlindIsRightIff` | src/kernel/bin/arch/i386/vmem_32.c:287-318 | the report without a free temporary page is right in all states iff the range has no page |
| `Sharing.LastCountedEntry` | src/kernel/bin/arch/i386/pagedir.c:91-110 | removing the last counted directory entry of a shared frame takes the reference of its owner; exactly one directory entry less than were uncounted still names the frame |
| `Sharing.SharePageRange` | src/kernel/bin/arch/i386/vmem_32.c:501-521 | the directories agree on the slots of the range, nothing else changes, no count moves, and the accounting holds with the copies uncounted; an entry overwritten loses its reference for good |
| `Sharing.InRangeIffPage` | src/kernel/bin/arch/i386/vmem_32.c:507-509 | the slots copied are those that hold a page of the range |
| `Sharing.CopyKeepsAccount` | src/kernel/bin/arch/i386/vmem_32.c:514-518 | copying an entry into an empty slot leaves one entry more uncounted |
| `Sharing.LoseEntry` | src/kernel/bin/arch/i386/vmem_32.c:514-518 | overwriting an entry without dropping its reference leaves one copy less or a reference nobody drops |
| `Sharing.SharedTableIsFreed` | src/kernel/bin/arch/i386/pagedir.c:91-110 | from any balanced state, two copies and two removals leave a table with count zero that a directory names, the books balancing up to the last step |
| `Sharing.SharedTableIsHandedOut` | src/kernel/bin/arch/i386/pagedir.c:91-110 | there is such a run, and the frame is then allocable |
| `Failures.FailOnce` | src/kernel/bin/arch/i386/vmem_32.c:440-444 | with no frame left an allocation in an installed table fails and changes nothing but one temporary page and one count of the table |
| `Failures.FailRepeatedly` | src/kernel/bin/arch/i386/vmem_32.c:440-444 | n such calls use up n temporary pages, all mapping that table, and raise its count by n |
| `Failures.SaturateAndBreak` | src/kernel/bin/arch/i386/vmem_32.c:118-125 | once they have saturated the count, the next temporary mapping succeeds and the accounting no longer holds |
| `Failures.AllUsed` | src/kernel/bin/arch/i386/vmem_32.c:421-425 | there is a balanced state in which such calls fail |
| `Spinlock.StepKeepsExclusion` | src/kernel/bin/spinlock.c:38-66 | every test, exchange and unlock step keeps: the word is nonzero iff exactly one thread holds the lock |
| `Spinlock.MutualExclusion` | src/kernel/bin/spinlock.c:38-66 | the same over every run of any number of threads with nonzero uids |
| `Spinlock.StepOutcome` | src/kernel/bin/spinlock.c:38-66 | a test only looks; an exchange stores the uid and acquires the lock iff it was free; unlocking frees it; no step moves another thread |
| `Spinlock.FreeLockIsTaken` | src/kernel/bin/spinlock.c:44-60 | calling, testing and exchanging on a free lock make the thread its holder, with its uid in the word |
| `Spinlock.ZeroUidAdmitsTwo` | src/kernel/bin/arch/i386/atomic.h:22-34 | a thread locking with uid 0 admits a second one |
| `Spinlock.ExclusionIffNonzeroUids` | src/kernel/bin/spinlock.c:38-66 | exclusion on all runs iff all uids are nonzero |
| `SemaphoreProtocol.StepKeepsQueue` | src/kernel/bin/semaphore.c:78-164 | every section keeps the wait list duplicate-free, holding exactly the queued threads, woken ones first |
| `SemaphoreProtocol.StepKeepsWakeups` | src/kernel/bin/semaphore.c:78-164 | every section keeps the wake-up bound |
| `SemaphoreProtocol.WakeupsOverRuns` | src/kernel/bin/semaphore.c:70-165 | in every reachable state, if a thread is WAITING then slots are at most the woken threads that have not retried; the wait list stays in order |
| `SemaphoreProtocol.FreeSlotIsSought` | src/kernel/bin/semaphore.c:134-162 | a free slot while somebody sleeps always has a woken thread on its way |
| `SemaphoreProtocol.Conservation` | src/kernel/bin/semaphore.c:82-90 | over every run in which only insiders leave, slots plus insiders is constant |
| `SemaphoreProtocol.OneSlotExcludes` | src/kernel/bin/semaphore.c:70-165 | a semaphore with one slot has at most one insider on every such run |
| `SemaphoreProtocol.WithoutKeepsOrder` | src/kernel/bin/semaphore.c:117-117 | a thread leaving the wait list keeps the order of the others |
| `SemaphoreProtocol.ArrivalOrder` | src/kernel/bin/semaphore.c:97-97 | over every run the wait list holds its threads in the order of their last tries |
| `SemaphoreProtocol.WaitingInOrder` | src/kernel/bin/semaphore.c:97-97 | of two threads in the list the one that tried earlier stands first |
| `SemaphoreProtocol.WakesTheOldest` | src/kernel/bin/semaphore.c:134-162 | over every run, leaving frees one slot, makes READY exactly the WAITING thread whose last try is oldest, and leaves every other thread and the list as they are |
| `SemaphoreProtocol.Semaphore.constructor` | src/kernel/bin/semaphore.c:27-42 | the initial state of the protocol |
| `SemaphoreProtocol.Semaphore.TryEnter` | src/kernel/bin/semaphore.c:80-102 | the first locked section is the protocol's Try step: it takes a slot iff there is one, and else appends the thread to the list and makes it WAITING |
| `SemaphoreProtocol.Semaphore.DequeueSelf` | src/kernel/bin/semaphore.c:115-119 | the second locked section is the protocol's Dequeue step: the thread leaves the list, slots and states stay |
| `SemaphoreProtocol.Semaphore.LeaveSection` | src/kernel/bin/semaphore.c:132-164 | leaving is the protocol's step: a slot more and the first waiter still WAITING woken |
| `LockOrder.EnterLeaveBalance` | src/kernel/bin/vmem.c:262-285 | entered semaphores are left, each once, also for source equal to destination; they are entered in ascending order |
| `LockOrder.NextHolds` | src/kernel/bin/vmem.c:287-343 | an acquisition adds exactly the wanted semaphore to what its thread holds, a release removes exactly one |
| `LockOrder.RunKeepsInv` | src/kernel/bin/vmem.c:287-343 | on every run no semaphore is held by two threads |
| `LockOrder.WorkingHoldsBoth` | src/kernel/bin/vmem.c:287-308 | an operation at work holds the semaphores of both its address spaces, and the frame map's while it uses the frame map |
| `LockOrder.OperationsExclude` | src/kernel/bin/vmem.c:287-343 | over every run, operations at work at the same time have no address space in common, and only one uses the frame map |
| `LockOrder.WantsAbove` | src/kernel/bin/vmem.c:262-274 | a thread waits only for a semaphore above all it holds, the frame map's being topmost |
| `LockOrder.SomeHolderIsFree` | src/kernel/bin/pmem.c:208-241 | whenever a thread waits for a held semaphore, some holder is not waiting |
| `LockOrder.NoCircularWait` | src/kernel/bin/vmem.c:262-343 | over every run from idle threads, if any thread waits, a thread holding a semaphore has an enabled step |
| `Scheduler.SelectIsHighest` | src/kernel/bin/sched.c:241-268 | the selected thread is READY, first of its class to be so, and no higher class has a READY thread; none is selected iff none is READY |
| `Scheduler.SelectedIsTop` | src/kernel/bin/sched.c:241-268 | no READY thread has a higher class than the selected one, and none of its class stands before it |
| `Scheduler.IdleSuffices` | src/kernel/bin/sched.c:264-267 | a READY idle thread means that selection succeeds |
| `Scheduler.DispatchKeepsQueue` | src/kernel/bin/sched.c:186-234 | a dispatch permutes the thread's own ring and no other and keeps the queue invariant |
| `Scheduler.StepKeepsQueue` | src/kernel/bin/sched.c:132-287 | every event keeps: each registered thread sits exactly once, in the ring of its class |
| `Scheduler.DispatchSetsCurrent` | src/kernel/bin/sched.c:211-233 | a switch that succeeds makes the thread chosen current; any other event leaves the current thread |
| `Scheduler.CurrentIsLastDispatched` | src/kernel/bin/sched.c:201-234 | over every run the current thread is the one dispatched last, and a registered one |
| `Scheduler.DispatchMovesForward` | src/kernel/bin/sched.c:186-191 | dispatching a thread moves another one forward by one iff it stood behind in the same ring |
| `Scheduler.StepMovesForward` | src/kernel/bin/sched.c:186-287 | no event moves a thread back unless it is chosen; a switch that passes it over moves it forward |
| `Scheduler.BoundedWaiting` | src/kernel/bin/sched.c:241-287 | a thread at position k that stays READY, with no higher class READY at a switch, is chosen within k + 1 switches, whatever else happens |
| `Scheduler.SchedQueues.constructor` | src/kernel/bin/sched.c:89-124 | the idle thread alone, in class 0, and current |
| `Scheduler.SchedQueues.AddThread` | src/kernel/bin/sched.c:132-141 | appends the thread to the ring of its class, with its class, ids and state, and changes no other ring or thread |
| `Scheduler.SchedQueues.SetThreadState` | src/kernel/bin/tcb.c:122-126 | sets the state of one thread and nothing else |
| `Scheduler.SchedQueues.SelectThread` | src/kernel/bin/sched.c:241-268 | the nested loops compute the selection |
| `Scheduler.SchedQueues.SwitchTo` | src/kernel/bin/sched.c:201-234 | moves the thread to the back of its ring and no other; it becomes current iff the switch succeeds |
| `Scheduler.SchedQueues.Switch` | src/kernel/bin/sched.c:275-287 | selection followed by dispatch: on success the current thread is READY, no READY thread has a higher class, and none stood before it in its ring |
| `Scheduler.SchedQueues.SearchThread` | src/kernel/bin/sched.c:162-184 | finds a thread with the ids iff there is one, and the one asked for if ids are unique |
| `Ring.InsertedIsRing` | src/kernel/bin/list.c:47-71 | relinking around a new node gives the ring of the sequence with the node inserted |
| `Ring.RemovedIsRing` | src/kernel/bin/list.c:101-113 | bypassing a node gives the ring of the sequence without it |
| `Ring.InitHead` | src/kernel/bin/list.c:32-39 | the empty list is a ring of its head |
| `Ring.EnqueueBefore` | src/kernel/bin/list.c:47-58 | insertion before an item, next and prev staying inverse |
| `Ring.EnqueueAfter` | src/kernel/bin/list.c:60-71 | insertion behind an item |
| `Ring.EnqueueFront` | src/kernel/bin/list.c:73-77 | the list becomes the new item followed by the old ones |
| `Ring.EnqueueBack` | src/kernel/bin/list.c:79-83 | the list becomes the old items followed by the new one |
| `Ring.Dequeue` | src/kernel/bin/list.c:101-113 | removes a linked item; on an unlinked one nothing in any ring changes |
| `Ring.SlotIsBehindEquals` | src/kernel/bin/list.c:91-96 | all items behind the slot are strictly smaller, so equal items stay in arrival order |
| `Ring.SlotKeepsOrder` | src/kernel/bin/list.c:85-99 | inserting at the slot keeps the list descending for every total preorder |
| `Ring.FindSlot` | src/kernel/bin/list.c:89-96 | the walk stops at the slot |
| `Ring.EnqueueSorted` | src/kernel/bin/list.c:85-99 | the ring becomes that of the items with the new one at its slot, and a descending list stays descending |
| `Bitset.Set` | src/kernel/bin/bitset.c:23-27 | adds its bit to the set of bits and nothing else |
| `Bitset.Unset` | src/kernel/bin/bitset.c:29-33 | removes its bit and nothing else |
| `Bitset.SetTo` | src/kernel/bin/bitset.c:35-43 | the one or the other |
| `Bitset.Test` | src/kernel/bin/bitset.c:45-49 | tells membership |
| `Bitset.MaskIsShift` | src/kernel/bin/bitset.c:23-49 | on bit vectors, the masks are one shifted by the bit, and a bit is set iff the byte shifted down ends in one |
| `Bitset.FindUnset` | src/kernel/bin/bitset.c:51-72 | the least clear bit, EAGAIN iff all are set |
| `Identity.ThreadIdRoundTrip` | src/kernel/include/tid.h:24-40 | packing returns the thread id always and the task id iff it fits 24 bits |
| `Identity.ThreadIdBits` | src/kernel/include/tid.h:24-40 | every bit of a packed id: 0 to 7 are the thread id, the rest the task id; unpacking takes them apart again |
| `Identity.PackedLookup` | src/kernel/bin/sched.c:162-184 | with unique ids, the unpacked id of a registered thread matches that thread and no other |
| `Identity.Task.Init` | src/kernel/bin/task.c:32-55 | takes the least free task id and clears the thread ids, or changes nothing and fails iff all are taken; it is the TaskInit step of the run |
| `Identity.Task.Uninit` | src/kernel/bin/task.c:57-61 | frees exactly the id of the task; it is the TaskUninit step of the run |
| `Identity.Task.Ref` | src/kernel/bin/task.c:69-78 | counts up to the maximum, EAGAIN beyond |
| `Identity.Task.Unref` | src/kernel/bin/task.c:80-89 | counts down to zero, EINVAL below |
| `Identity.Task.NewThreadWithId` | src/kernel/bin/tcb.c:45-98 | succeeds iff the task has room, the id is free and the set-up succeeds; a failure leaves id bits and thread count as they were; it is the TcbInit or TcbFail step of the run |
| `Identity.Task.NewThread` | src/kernel/bin/tcb.c:100-114 | as above with the least free id |
| `Identity.Task.UninitThread` | src/kernel/bin/tcb.c:116-120 | drops the thread count and keeps the id bit |
| `Identity.RunKeepsInv` | src/kernel/bin/tcb.c:45-120 | over every run of creation and destruction that cleans up only tasks with thread count zero, ids in use are reserved, pairs distinct, and the thread count is the number of live threads |
| `Identity.LiveThreadIdsAreDistinct` | src/kernel/bin/task.c:32-89 | over every such run no two live threads share a packed id |
| `Identity.FreedIdClashes` | src/kernel/bin/task.c:38-44 | if the id of a live thread's task is free, new tasks taking the least free ids reach it, and a second thread gets the same packed id |
| `Identity.UninitIsSafeIff` | src/kernel/bin/task.c:57-61 | the clean-up of a task keeps packed ids distinct whatever orderly steps follow iff its thread count is zero |
| `Identity.RegisteredThreadsAreUnique` | src/kernel/bin/sched.c:162-184 | hence a scheduler holding live threads has unique ids that fit the packed form |
| `Identity.SearchByThreadId` | src/kernel/bin/syscall.c:84-85 | after any run, looking up the packed id of a registered thread returns that thread, and a result has the id asked for |
| `Memzone.LogBase2` | src/kernel/bin/memzone.c:40-51 | the position of the highest set bit, -1 for zero |
| `Memzone.Sizing` | src/kernel/bin/memzone.c:186-201 | for every area size the chunk size is the least power of two above memsz / 2^24, at most 256, and both flag bits of every chunk lie in the flags buffer |
| `Memzone.SetFlags` | src/kernel/bin/memzone.c:53-65 | bit 2i is bit 0 of the flags and bit 2i + 1 is bit 1; a chunk's flags read back, and no other chunk's change |
| `Boot.ReclaimsPermuteClaims` | src/kernel/bin/arch/i386/multiboot.c:394-596 | the reclaim pass visits the same regions as the claims, each as often |
| `Boot.CoverPermutes` | src/kernel/bin/arch/i386/multiboot.c:850-852 | how many regions touch a frame does not depend on their order |
| `Boot.ClaimsSucceedIff` | src/kernel/bin/arch/i386/multiboot.c:506-529 | the claims succeed iff every region is in the map and no frame gets more than 63 references; then each count has grown by the regions on the frame, however they overlap |
| `Boot.FailedClaims` | src/kernel/bin/arch/i386/multiboot.c:506-531 | after a failure exactly the regions before the failing one are claimed; it fails with ENOMEM iff the region is not in the map, else because a frame of it is saturated |
| `Boot.BootBytesAreKept` | src/kernel/bin/arch/i386/multiboot.c:394-479 | after success the frame of every byte of the frame map, the information structure, its memory map and module list, the sections, the modules up to their end address and the command lines has grown in count and is not allocable |
| `Boot.GrownFramesHoldBytes` | src/kernel/bin/arch/i386/multiboot.c:394-479 | conversely a frame whose count has changed has such a byte, if nothing runs over the end of the address space |
| `Boot.ReclaimCounts` | src/kernel/bin/arch/i386/multiboot.c:537-596 | a pass subtracts the regions on each frame, saturating at zero, and keeps types |
| `Boot.GuardUnmetIff` | src/kernel/bin/pmem.c:89-97 | the saturating guard is never met iff every frame holds as many references as regions on it |
| `Boot.BootClaimsCancel` | src/kernel/bin/arch/i386/multiboot.c:506-596 | if no frame has fewer references before the pass than after the claims, the pass removes exactly the claimed ones and never meets the guard; the memory map's own claim and what was taken in between remain |
| `Boot.ReclaimRestores` | src/kernel/bin/arch/i386/multiboot.c:506-596 | with nothing in between, the map is byte for byte that of the memory map's claim alone |
| `Boot.ClaimMultibootFrames` | src/kernel/bin/arch/i386/multiboot.c:394-424 | claims the info, memory-map and module-list regions in order, up to the first failure |
| `Boot.ClaimKernelFrames` | src/kernel/bin/arch/i386/multiboot.c:426-447 | claims every section with an address, up to the first failure |
| `Boot.ClaimModulesFrames` | src/kernel/bin/arch/i386/multiboot.c:449-479 | claims every module and command line, up to the first failure |
| `Boot.ClaimBootFrames` | src/kernel/bin/arch/i386/multiboot.c:506-531 | the four claims in sequence; after success no frame with a byte of the boot structures is allocable |
| `Boot.ReclaimMultibootFrames` | src/kernel/bin/arch/i386/multiboot.c:537-556 | drops the three regions in reverse order |
| `Boot.ReclaimKernelFrames` | src/kernel/bin/arch/i386/multiboot.c:558-573 | drops every section |
| `Boot.ReclaimModulesFrames` | src/kernel/bin/arch/i386/multiboot.c:575-596 | drops every command line and module |
| `Boot.ReclaimBootFrames` | src/kernel/bin/arch/i386/multiboot.c:850-852 | the three passes in sequence |

## Left out

- `semaphore_try_enter`, which takes the spinlock and never releases it.
- Progress of semaphores under preemption: a thread marks itself WAITING while it still holds the spinlock. Safety only.
- That a section under the spinlock can be treated as one step is argued from mutual exclusion and not itself a theorem; wrap-around of `slots` at 2^32 is not modelled.
- `vmem_32_map_pages` for more than one page, whose source index is not advanced.
- InstallTempPageFrame: frame 0 is left out; the contents of physical frame 0 are not part of the model.
- MapPageTable: an absent table without `init_if_none`, where the source maps frame 0, and a table with a saturated count are left out.
- CountEmptyInTable: absent and saturated tables are left out, as in MapPageTable.
- WalkTables: absent and saturated tables are left out, as in MapPageTable.
- CheckEmptyPages: absent and saturated tables, and the area of temporary mappings, which changes while it is looked at, are left out.
- LookupFrame: the same pages are left out as for CheckEmptyPages.
- FindEmptyPages: windows with absent tables are left out; without a free temporary page and beyond the first range the result is only located in the window.
- AllocPagesWithin: windows with absent tables are left out, because the search would look at frame 0.
- PMem.AllocFrames: a request for no frames is left out; the source may then read one byte past the map.
- Clean-up after failures in the middle of a range, marked as to do in the source; what stays behind is stated exactly.
- The range loops of `pagedir.c`, which repeat those of `pagetbl.c`, and the set-up functions that run before paging.
- FrameRanges.AllocFrames: the exact success condition is stated for an unmapped range whose page tables are installed; over a mapped range dropped references can change which later frames are refable.
- AllocPages: the guarantee of success counts a frame per page and missing table; on a mapped range fewer can do, because mapping over a page can free its frame.
- NewThreadWithId: ids from 64 on, which would reach outside the id bits, are left out.
- Init: the address space pointer of a task is not modelled.
- SchedQueues.constructor: the timer alarm of `sched_init` and its failure path are not modelled, and there is one CPU.
- Sizing: the allocation of the flags page is not modelled.
- Boot structures that run over the end of the 32-bit address space: their spans wrap, and no statement is made about their bytes.
- The pairing of section headers with the boot information's flag word: the sections are the headers the iteration visits.
- `available_frames`, `alloc_memmap` and `find_unused_area` of `multiboot.c`, the latter being sound for ascending region lists only.
- The search and allocation of `memzone.c`, and `kmalloc`/`kfree`.
- `timer.c`, whose comparator and list order disagree.
- IPC, system calls, `iomem.c`, the ELF loader, console, drivers, descriptor tables, assembly, TLB flushes and memory barriers.
