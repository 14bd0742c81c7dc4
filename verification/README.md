# Verified model of the RT-Thread 2.1 kernel core and the finsh expression compiler

A Dafny 4.11 model of the parts of RT-Thread whose correctness depends on invariants over whole runs:
the three heap allocators, the IPC objects, the scheduler, the timers, and the compiler and stack
machine of the finsh shell. `dafny verify dfyconfig.toml` checks everything.

## How the model is built

Every subsystem comes in two layers.

* **Specification functions** over immutable values say what one operation does to the state, branch by
  branch. The theorems are lemmas about them: what every operation keeps, and what follows over every
  run.
* **Classes** hold the fields the C code updates in place (cells of in-band headers, `next`/`prev` links,
  ring-buffer offsets, wait lists, bitmaps, stack slots). Each method does the writes of the C function
  and is proved to take the abstract state to exactly what the specification function says, so the
  theorems hold of the imperative code.

A section that runs with interrupts disabled is one atomic step. A run is any sequence of steps by any
threads; `Reaches`, `LegalRun` and `Run` say which sequences are considered. A thread that was woken but
has not run again yet is a phase of its own, so other threads can get in between. An operation of several
sections is several steps, with ticks and steps of others in between: the two sections of a message-queue
send and receive, of `rt_timer_start` (which reads the clock between them) and of `rt_thread_resume`, and the
section of `rt_timer_stop` and of `rt_thread_suspend` against the tests and writes outside it. The uninterrupted
operation, as a caller with interrupts disabled runs it, is the composition of its steps.

| module | source | what it models |
|---|---|---|
| Words, Lists | include/rtservice.h | machine words; lists without repetitions |
| Blocks, SmallMem, SmallHeap | src/mem.c | first-fit heap over in-band headers |
| Memheap, MemheapPool | src/memheap.c | pool with an address-ordered ring and a free list |
| Pages, Zones, Slab, SlabAlignment, SlabBytes, SlabHeap | src/slab.c | page runs, chunk zones, the slab allocator over both, alignment, contents |
| Waiting, Mailbox, MsgQueue, Event, Mutex, Semaphore | src/ipc.c | IPC objects as step systems |
| ReadyBits, Scheduler, RoundRobin | src/scheduler.c, src/thread.c, src/clock.c, src/kservice.c | ready queues, bitmaps, time slices |
| SkipList, Timers, TimerSystem | src/timer.c, src/clock.c | the skip list and when timers fire |
| FinshVm, FinshCompiler | components/finsh | byte-code machine, annotation pass, emitter |

## Where the code does not do what it promises

Each of these is proved: the exact condition under which the promise holds, and a failing input that
calls can reach from the initial state.

* src/mem.c: the strict loop bound of `rt_malloc` never considers a last block of exactly the rounded size
  (`SmallMem.LimitExcludes`, `SmallMem.MallocIsFirstFit`; input: `SmallMem.ExactLastRefused`).
* src/mem.c: rounding a request in the last three bytes of a 32-bit size wraps to zero; the block handed out
  covers the request exactly for sizes up to 2^32 - 4 (`SmallMem.RoundedCovers`; input:
  `SmallMem.LargestGetsLeast`). src/memheap.c rounds the same way (`Memheap.RoundedCovers`; input:
  `Memheap.LargestGetsLeast`).
* src/mem.c: the search bound of `rt_malloc` is an unsigned difference. On a fresh heap the search for a request
  that is not refused at once ends exactly if the heap has at least 12 payload bytes; below that the bound wraps
  and `rt_malloc` does not return (`SmallMem.SearchEndsIff`, every smaller heap and every such request).
* src/mem.c: a shrinking `rt_realloc` keeps the lowest-free cursor lowest exactly when it was below the block
  already or the next block is free; otherwise `rt_malloc` no longer sees the tail that was cut off
  (`SmallMem.ShrinkKeepsLowest`; input: `SmallMem.ShrinkHidesTail`).
* src/memheap.c: `rt_memheap_alloc` refuses a request for all of the available bytes
  (`Memheap.AllocIsFirstFit`; input: `Memheap.LastBytesRefused`).
* src/memheap.c: the in-place test of `rt_memheap_realloc` wraps; beside a free successor the pool is destroyed
  exactly by sizes in the last 12 bytes of the range (`Memheap.ReallocValidIff`; input:
  `Memheap.GrowthDestroys`).
* src/slab.c: the comment promises that all power-of-two sizes are aligned to their size. Every allocation of
  every reachable heap is, if and only if the size is at most a page (`SlabAlignment.PowerAlignedIff`; inputs:
  `SlabAlignment.MisalignedBeyondPage`, `SlabAlignment.MisalignedChunk`).
* src/slab.c: the same comment promises a pointer for `malloc(0)`; the code returns NULL, and
  `Slab.MallocKeeps` says exactly when else it does.
* src/ipc.c: the hold count of a mutex is one byte; after n nested takes the mutex is consistent exactly when
  n is no multiple of 256 (`Mutex.TakeKeeps` for one take, `Mutex.NestedIff` from the initial mutex).
* src/ipc.c: with RT_IPC_FLAG_FIFO a hand-over can leave the owner less urgent than a waiter. All hand-overs are
  urgent exactly when each thread that took the mutex was no more urgent than the one before it
  (`Mutex.FifoUrgentIff`, take by take `Mutex.FifoTakeSorted`; input: `Mutex.FifoInverts`).
* src/ipc.c: a semaphore release with nobody waiting at value 65535 loses all units (`Semaphore.ReleaseBalance`,
  `Semaphore.RunKeeps`; input: `Semaphore.ReleasesOverflow`).
* src/ipc.c: what is left of a timeout is computed in 32 bits, so it is right exactly if the thread looks again within
  half the range of ticks after its end (`Waiting.RemainingIs`; input: `Waiting.LateLook`).
* src/scheduler.c: the lock counter is a signed 16-bit number, although its comment allows 65535 nested enters.
  The scheduler stays locked until the last leave exactly for up to 32768 of them; beyond, the first leave
  unlocks it (`Scheduler.NestingIff`).
* src/thread.c: `rt_thread_resume` tests the status outside its sections. Each section keeps the ready queues
  right exactly if it does not find its thread ready (`Scheduler.StepValidIff`); two contexts that resume the same
  thread put it in its queue twice (`Scheduler.DoubleResume`).
* src/timer.c: `rt_timer_start` reads the clock outside its sections. The first firing is at that reading plus the
  delay exactly if the timer is linked before that tick, and otherwise at the tick after the linking
  (`Timers.OneShotExact`, `Timers.PeriodicExact`; input: `Timers.LateLinkFiresLate`). With interrupts disabled, a
  delay from one on is met exactly (`Timers.PromptExact`).
* src/timer.c: a periodic timer with delay zero keeps `rt_timer_check` from ending (`Timers.ZeroPeriodSpins`); a
  one-shot timer with delay zero fires at the next tick (`Timers.StartKeeps`).
* src/timer.c: `rt_timer_stop` clears its flag outside its section, so a stop that overlaps a start of the same
  timer can leave it on the list to fire once only (`Timers.OverlapLosesTimer`).

## Model

| member | source | states |
|---|---|---|
| Blocks.LiveDisjoint | src/mem.c:136-174 | two used blocks of a tiled region never overlap, and lie inside it |
| Blocks.DeleteLive | src/mem.c:152-173 | merging a free block into its neighbour changes no other used block |
| Blocks.InsertLive | src/mem.c:303-319 | cutting a free remainder off a block changes only where that block ends |
| Blocks.MarkLive | src/mem.c:314 | setting or clearing the used flag makes exactly that block live or not |
| Blocks.AbsorbLive | src/memheap.c:354-405 | a used block that swallows its free successor is the only one that changes |
| Blocks.TotalInsert | src/mem.c:303-324 | how a byte count over the blocks changes when a block is cut in two |
| Blocks.TotalDelete | src/mem.c:136-174 | how a byte count over the blocks changes when two blocks are merged |
| SmallMem.PlugKeeps | src/mem.c:136-174 | two-sided merging around a block just freed gives a valid heap again: tiled, no two free neighbours, cursor on a free block, same allocations |
| SmallMem.FreeKeeps | src/mem.c:505-559 | freeing gives back exactly that allocation, every other keeps its address and length, and a lowest-free cursor stays lowest |
| SmallMem.TakeKeeps | src/mem.c:285-352 | taking a free block, split or whole, makes one new aligned allocation of at least the size and leaves a valid heap |
| SmallMem.MallocKeeps | src/mem.c:246-375 | NULL leaves the heap untouched; otherwise the result is aligned, was nobody's, is long enough, and no other allocation changes |
| SmallMem.MallocIsFirstFit | src/mem.c:253-374 | with the cursor lowest, the result is the lowest block that fits, and NULL means none fits except possibly a last block of exactly the rounded size |
| SmallMem.MallocIs | src/mem.c:246-375 | the whole outcome wherever the cursor stands: NULL if and only if the size is zero, above the heap, or no block from the cursor on fits, an exact last one aside; otherwise the first such block, cut to exactly the rounded size if the rest can hold a block, and whole if not |
| SmallMem.LimitExcludes | src/mem.c:279-281 | the strict loop bound excludes a block that fits exactly when it is the last and has exactly the size |
| SmallMem.ExactLastRefused | src/mem.c:279-285 | a fresh heap of 12 bytes refuses a request for 12 bytes |
| SmallMem.RoundedCovers | src/mem.c:262-274 | the rounded size covers the request if and only if rounding up does not wrap around 32 bits |
| SmallMem.LargestGetsLeast | src/mem.c:262-274 | a request for 2^32 - 1 bytes is granted with 12 |
| SmallMem.OwnedIndex | src/mem.c:505-545 | a payload address handed out leads back to its own header, and determines its length |
| SmallMem.ShrinkKeeps | src/mem.c:431-455 | shrinking in place keeps the address, ends the allocation after the new size, and changes no other |
| SmallMem.ShrinkKeepsLowest | src/mem.c:431-455 | a shrink keeps the cursor at the lowest free block if and only if the cursor was below the block or the next block is free |
| SmallMem.ShrinkHidesTail | src/mem.c:431-455 | one allocation and one shrink from a fresh heap leave a tail that fits a request which is then refused |
| SmallMem.MoveKeeps | src/mem.c:458-466 | allocate, copy, free: on NULL the old block stays live and the heap unchanged, otherwise exactly one allocation moved |
| SmallMem.ReallocKeeps | src/mem.c:386-467 | rt_realloc on a live block keeps a valid heap: nothing changes on NULL, otherwise the block is kept, shortened or moved and no other allocation changes |
| SmallMem.ReallocIs | src/mem.c:386-467 | the whole outcome on a live block: NULL for a rounded size above the heap; the same block for exactly its size; the block shortened to the size if the tail can hold a block; otherwise a move, or NULL if and only if the size is zero or no block from the cursor on fits, an exact last one aside |
| SmallMem.ReallocOther | src/mem.c:393-418 | without an old block it allocates, and an address beyond the heap comes back as it is |
| SmallMem.SearchEndsIff | src/mem.c:279-285 | on a fresh heap, the search for a request that is not refused at once ends if and only if the heap has at least 12 payload bytes |
| SmallMem.InitValid | src/mem.c:184-231 | the initial heap is valid with the cursor lowest |
| SmallMem.ReallocPeak | src/mem.c:458-466 | how far a reallocation raises `max_mem`, with the old and new block both in use during a move |
| SmallMem.StepKeeps | src/mem.c:246-559 | each of malloc, realloc and free keeps a valid heap and makes `max_mem` the larger of the old one and the operation's peak; malloc and free also keep the lowest cursor |
| SmallMem.RunKeeps | src/mem.c:136-559 | every legal run keeps the tiling, no two free neighbours, the cursor and `used_mem` as the total extent of used blocks; `max_mem` is the most that was ever in use, both blocks of a move included; runs without realloc keep the cursor lowest |
| SmallMem.RunDrains | src/mem.c:136-559 | once everything is freed, after any run, the heap is the initial single free block again, with `max_mem` the peak of the run |
| SmallHeap.PayloadCell | src/mem.c:136-174 | a cell of a live payload lies in no header and in no other block |
| SmallHeap.LinkedInsert | src/mem.c:303-319 | the writes of a split leave `next` and `prev` inverse to each other, up to the unmaintained `prev` of `heap_end` |
| SmallHeap.LinkedDelete | src/mem.c:147-173 | so do the writes of a merge |
| SmallHeap.LinkedMark | src/mem.c:314 | so does a write to a used flag |
| SmallHeap.MovePayloads | src/mem.c:458-466 | through a move, the copied bytes arrive and every byte of every other live block stays |
| SmallHeap.ShrinkPayloads | src/mem.c:431-455 | a shrink keeps the bytes that stay allocated and every other live byte |
| SmallHeap.Store.constructor | src/mem.c:184-231 | builds the first and last header; the state is the initial heap |
| SmallHeap.Store.PlugHoles | src/mem.c:136-174 | the header writes do the two-sided merge and touch header cells only |
| SmallHeap.Store.AdvanceCursor | src/mem.c:345-352 | the loop over used blocks ends at the next free block or the end |
| SmallHeap.Store.WriteSplit | src/mem.c:303-319 | exactly which header cells a split writes |
| SmallHeap.Store.TakeBlock | src/mem.c:285-352 | split, flags, byte counts and cursor as specified; every live payload byte kept |
| SmallHeap.Store.Search | src/mem.c:279-285 | the loop along `next` finds the first block that fits from the cursor |
| SmallHeap.Store.Allocate | src/mem.c:246-375 | rt_malloc on cells is the specified allocation and keeps every live byte |
| SmallHeap.Store.Deallocate | src/mem.c:505-559 | rt_free on cells is the specified one, ignores NULL and addresses below or beyond the heap, and keeps every other live byte |
| SmallHeap.Store.ShrinkBlock | src/mem.c:431-455 | the in-place branch of rt_realloc on cells, with contents |
| SmallHeap.Store.MoveBlock | src/mem.c:458-466 | the copying branch of rt_realloc on cells: the first min(old payload, new size) bytes arrive |
| SmallHeap.Store.Reallocate | src/mem.c:386-467 | rt_realloc on cells, for NULL and addresses outside the heap too: the specified heap, the kept prefix of the payload, and every byte of every other live block |
| Memheap.AllocKeeps | src/memheap.c:146-288 | NULL leaves the pool untouched; otherwise a new aligned block of at least the rounded size, every other unchanged, and the high-water mark brought up to date |
| Memheap.AllocIsFirstFit | src/memheap.c:162-190 | NULL if and only if the rounded request is not below the available bytes or no free block fits; otherwise the first that fits in free-list order |
| Memheap.AllocIs | src/memheap.c:146-285 | the whole outcome: as above, and the block is cut to exactly the rounded size if the rest can hold a block, and whole if not |
| Memheap.AllocOrder | src/memheap.c:186-255 | the rest of a block that was cut comes first on the free list, which the block itself has left |
| Memheap.RoundedCovers | src/memheap.c:154-157 | the rounded size covers the request if and only if rounding up does not wrap around 32 bits |
| Memheap.LargestGetsLeast | src/memheap.c:154-190 | a request for 2^32 - 1 bytes is granted with 12 |
| Memheap.LastBytesRefused | src/memheap.c:162 | a fresh pool refuses a request for its one free block |
| Memheap.TakeKeeps | src/memheap.c:194-265 | taking a free block, split or whole, keeps both lists in agreement and the byte count |
| Memheap.OccupyKeeps | src/memheap.c:244-265 | a whole block leaves the free list and becomes the one new allocation |
| Memheap.SplitUsedKeeps | src/memheap.c:436-489 | cutting the tail off a used block puts the tail on the free list and shortens only that allocation |
| Memheap.AbsorbNextKeeps | src/memheap.c:356-371 | taking out the free successor lengthens only this allocation |
| Memheap.FreeKeeps | src/memheap.c:499-596 | freeing gives back exactly that allocation and keeps everything else, in all four merge cases |
| Memheap.FreeOrder | src/memheap.c:525-596 | the block given back comes first on the free list unless it joins the free block before it, which keeps its place; a free block behind it leaves the list |
| Memheap.ReleaseAloneKeeps | src/memheap.c:536-592 | a block between used ones goes on the free list |
| Memheap.ReleaseLeftKeeps | src/memheap.c:541-558 | a block behind a free one is merged into it |
| Memheap.MergeNextKeeps | src/memheap.c:560-579 | merging with a free successor keeps lists, byte count and allocations |
| Memheap.RefitKeeps | src/memheap.c:354-405 | growing in place or shrinking keeps the address, changes only this allocation's end, and the byte count by the difference |
| Memheap.MoveKeeps | src/memheap.c:412-420 | allocate, copy, free: nothing changes on NULL, otherwise exactly one allocation moved |
| Memheap.ReallocKeeps | src/memheap.c:291-496 | the contract of rt_memheap_realloc on a live block: untouched on NULL, otherwise kept, refitted or moved, no other affected |
| Memheap.ReallocIs | src/memheap.c:314-496 | the whole outcome on a live block: it stays, or is shortened to the size if the tail can hold a block; it grows in place if the free block behind it leaves more than the least size; otherwise it moves, or NULL comes back if and only if the size is not below the available bytes or no free block fits |
| Memheap.ReallocOther | src/memheap.c:298-312 | a size of zero gives the block back and answers NULL; without an old block it allocates |
| Memheap.ReallocValidIff | src/memheap.c:338-357 | the pool stays valid if and only if the in-place test does not wrap around 32 bits beside a free successor |
| Memheap.GrowthDestroys | src/memheap.c:338-357 | one allocation and one reallocation from a fresh pool destroy it |
| Memheap.ReallocPeak | src/memheap.c:356-359 | how far a reallocation raises the high-water mark, with the old and new block both in use during a move |
| Memheap.InitValid | src/memheap.c:60-131 | the initial pool is valid and its high-water mark is what is in use |
| Memheap.StepKeeps | src/memheap.c:146-596 | each operation keeps a valid pool and makes the mark the larger of the old one and the operation's peak |
| Memheap.RunKeeps | src/memheap.c:60-596 | every legal run keeps the free list exactly the free blocks of the ring, no two free neighbours, the byte count, and the mark the historical maximum |
| Memheap.RunDrains | src/memheap.c:60-596 | once everything is freed, the pool is the initial single free block again |
| MemheapPool.RingInsert | src/memheap.c:216-220 | the four link writes of a split insert into the address-ordered ring and leave the free list alone |
| MemheapPool.RingDelete | src/memheap.c:573-574 | the two link writes of a merge delete from the ring and leave the free list alone |
| MemheapPool.ListRemove | src/memheap.c:577-578 | unlinking takes exactly one item off the circular free list and leaves the ring alone |
| MemheapPool.ListPush | src/memheap.c:583-587 | linking behind the header puts an item first on the free list and leaves the ring alone |
| MemheapPool.HeaderKeeps | src/memheap.c:374-391 | a header built inside a block's own reach overwrites no other payload |
| MemheapPool.CopyKeeps | src/memheap.c:412-418 | contents through a move |
| MemheapPool.MemHeap.constructor | src/memheap.c:60-131 | the links of the first item, the end item and the free-list header represent the initial pool |
| MemheapPool.MemHeap.SplitRing | src/memheap.c:210-220 | a new item between a block and its successor, in both directions of the ring |
| MemheapPool.MemHeap.Search | src/memheap.c:176-190 | the walk along the free list finds the first item that is large enough, and knows whether it did |
| MemheapPool.MemHeap.TakeItem | src/memheap.c:194-265 | the found item leaves the free list, split if the rest can hold a block |
| MemheapPool.MemHeap.Alloc | src/memheap.c:146-288 | rt_memheap_alloc on links is the specified one and keeps every live byte |
| MemheapPool.MemHeap.Release | src/memheap.c:536-592 | give back, merge left, merge right, link: the specified pool |
| MemheapPool.MemHeap.MergeRight | src/memheap.c:560-579 | the right merge on links |
| MemheapPool.MemHeap.Free | src/memheap.c:499-596 | rt_memheap_free on links is the specified one and writes no payload byte |
| MemheapPool.MemHeap.GrowInto | src/memheap.c:356-405 | the in-place growth on links, with contents |
| MemheapPool.MemHeap.ShrinkTo | src/memheap.c:436-489 | the split and right merge of a shrink on links, with contents |
| MemheapPool.MemHeap.Move | src/memheap.c:412-420 | the copying branch on links: the first min(old, new) bytes arrive, everything else live stays |
| MemheapPool.MemHeap.Realloc | src/memheap.c:291-496 | rt_memheap_realloc on links: the specified pool, the kept prefix, and every byte of every other live block; all payloads stay on NULL |
| Pages.CanonicalUnique | src/slab.c:246-332 | the page list is a canonical form: two sorted, merged lists of the same free pages are identical |
| Pages.AllocKeeps | src/slab.c:246-280 | NULL if and only if no run is long enough; otherwise exactly the returned pages, all free before, are taken |
| Pages.AllocFirst | src/slab.c:253-275 | the first run that is long enough gives its first pages |
| Pages.FreeKeeps | src/slab.c:282-332 | exactly the given pages become free, and the list stays sorted and maximally merged |
| Pages.AllocThenFree | src/slab.c:246-332 | freeing what an allocation returned restores the identical list |
| Pages.PageList.constructor | src/slab.c:337-344 | one run of all the pages |
| Pages.PageList.SetPrev | src/slab.c:256-271 | the write through `prev` hits the list head or the `next` of the run before |
| Pages.PageList.PutRun | src/slab.c:260-265 | one new head in place of a stretch of runs, linked from before |
| Pages.PageList.DropRun | src/slab.c:268-273 | a used-up run is unlinked |
| Pages.PageList.GrowRun | src/slab.c:301-310 | a run grows by the freed pages, and by the next run if it now touches it |
| Pages.PageList.Alloc | src/slab.c:246-280 | the loop over linked page heads is the specified allocation |
| Pages.PageList.Free | src/slab.c:282-332 | the loop over linked page heads is the specified freeing, for every place the pages can touch |
| Zones.ZoneIndexIs | src/slab.c:411-469 | zoneindex picks the smallest class that fits, wasting less than 8 bytes or an eighth |
| Zones.PowerTestIff | src/slab.c:637 | the bit trick recognises exactly the powers of two, among all sizes |
| Zones.OffsetRounds | src/slab.c:630-640 | the first chunk is placed at a multiple of the chunk size if that is a power of two, of 8 otherwise |
| Zones.ChunkAligned | src/slab.c:633-646 | every chunk is 8-byte aligned; one of a power-of-two size is aligned to it if and only if its zone is, and always up to a page |
| Zones.FreshZoneKeeps | src/slab.c:624-659 | a new zone is well formed with exactly its first chunk live and further chunks free |
| Zones.TakeChunkKeeps | src/slab.c:559-584 | a chunk taken from the virgin area or the free list was not live, and is now; `z_nfree` stays the virgin chunks plus the list length |
| Zones.TakeChunkChoice | src/slab.c:559-584 | chunks that were never handed out come first and in order, after those the chunk that was returned last |
| Zones.PutChunkKeeps | src/slab.c:861-873 | returning a live chunk makes exactly that chunk free |
| Zones.FullIsEmpty | src/slab.c:885 | when `z_nfree` reaches `z_nmax`, no chunk of the zone is live |
| Zones.ChunkInZone | src/slab.c:648-654 | chunks lie inside their zone, behind its header |
| Zones.CarvedApart | src/slab.c:648-654 | chunks of a zone do not overlap |
| Slab.ChunkPage | src/slab.c:826-858 | the usage table maps every page of every live chunk back to its zone |
| Slab.LivePage | src/slab.c:826-858 | what rt_free reads from the usage table for a live pointer is the truth about it |
| Slab.LiveDisjoint | src/slab.c:488-684 | live blocks, small and large, never overlap, and lie in pages that are not free |
| Slab.PowersAligned | src/slab.c:158-167 | in any heap that a run can reach: each live chunk is 8-byte aligned, and one of a power-of-two size is aligned to it up to a page, and beyond exactly as its zone is |
| SlabAlignment.PowerAlignedIff | src/slab.c:158-167 | for a power of two n: every rt_malloc(n), large or small, in every reachable heap at a given start returns an n-aligned address if and only if n is at most a page |
| SlabAlignment.AlignedUpToPage | src/slab.c:628-646 | up to a page, on every valid heap and at every page-aligned start |
| SlabAlignment.MisalignedBeyondPage | src/slab.c:507-517 | for every larger power of two and every start with room, one of two fresh heaps misaligns its first large block |
| SlabAlignment.MisalignedChunk | src/slab.c:628-646 | at every start, one of two fresh heaps misaligns its first chunk of 8192 bytes |
| Slab.MallocLargeKeeps | src/slab.c:507-546 | NULL if and only if no run of pages is long enough; otherwise one new block of whole pages |
| Slab.MallocSmallKeeps | src/slab.c:559-677 | NULL if and only if the class list and the idle zones are empty and no run holds a zone; otherwise one new chunk |
| Slab.SmallChoice | src/slab.c:559-677 | a zone of the class with a free chunk comes before an idle zone, and that before new pages |
| Slab.MallocKeeps | src/slab.c:488-684 | NULL if and only if the size is zero, no run of pages is long enough for a large one, or a small one finds no free chunk, no idle zone and no run for a zone; then the heap is untouched; otherwise the block was not live, is long enough, and no other changes |
| Slab.FreeChunkKeeps | src/slab.c:853-935 | returning a chunk keeps zone counts, class lists, idle zones and usage table, also when the zone empties and is released |
| Slab.RetireKeeps | src/slab.c:898-932 | an empty zone joins the idle ones, at most two stay, and no live block changes |
| Slab.ReleaseChoice | src/slab.c:873-932 | a zone is given up exactly when its last live chunk is returned and another zone of its class has a free chunk; it becomes idle while fewer than two are, and otherwise its pages become free |
| Slab.ReleaseUsage | src/slab.c:907-928 | released pages held no live block, are free again, and the page list stays canonical |
| Slab.FreeLiveKeeps | src/slab.c:793-935 | freeing a live block drops exactly that one |
| Slab.MoveKeeps | src/slab.c:695-757 | allocate, copy, free on the block level: the heap is untouched on NULL, otherwise exactly one block moved |
| Slab.ReallocKeeps | src/slab.c:695-757 | NULL leaves the heap untouched; otherwise the block stayed or moved, is long enough, and no other changes |
| Slab.ReallocIs | src/slab.c:715-757 | the whole outcome on a live block: a chunk that has the chunk size of the request stays; any other block moves, or NULL comes back if and only if rt_malloc refuses the size |
| Slab.ReallocOther | src/slab.c:701-708 | a size of zero gives the block back and answers NULL; without an old block it allocates |
| SlabBytes.HeaderKept | src/slab.c:624-657 | clearing the header of a zone reaches no live block |
| SlabBytes.BlockKept | src/slab.c:861-863 | writing the link of a freed chunk reaches no other live block |
| SlabBytes.MoveBytes | src/slab.c:747-753 | through allocate, copy and free the old contents arrive and every byte of every other live block stays |
| Slab.InitValid | src/slab.c:354-405 | the initial heap is valid and holds no live block |
| Slab.ZoneSizeIs | src/slab.c:384-393 | the zone size: from 32 KB on doubled while below 128 KB and its double below a 1024th of the heap |
| Slab.InitReserves | src/slab.c:398-401 | the initial heap keeps the least number of pages that hold the usage table, and the rest is free |
| Slab.StepKeeps | src/slab.c:488-935 | each of malloc, realloc and free keeps a valid heap and the zone size |
| Slab.RunKeeps | src/slab.c:488-935 | every legal run keeps `z_nfree`, class lists exactly the zones with a free chunk, the usage table, at most two idle zones and canonical pages |
| SlabHeap.Store.constructor | src/slab.c:354-405 | the fields represent the initial heap over the given memory |
| SlabHeap.Store.Malloc | src/slab.c:488-684 | rt_malloc on the fields is the specified one and keeps every byte of every live block |
| SlabHeap.Store.Large | src/slab.c:507-546 | the large branch on the fields |
| SlabHeap.Store.Small | src/slab.c:559-677 | class list, idle zone, or new pages: the specified choice |
| SlabHeap.Store.Mark | src/slab.c:616-622 | the loop that enters a new zone in the usage table |
| SlabHeap.Store.Free | src/slab.c:793-935 | rt_free on the fields is the specified one, ignores NULL, and keeps every byte of every other live block |
| SlabHeap.Store.ReturnChunk | src/slab.c:853-935 | the chunk branch on the fields |
| SlabHeap.Store.RetireZone | src/slab.c:901-931 | the idle list and the release of the newest idle zone |
| SlabHeap.Store.Unlist | src/slab.c:893-896 | the loop that unlinks a zone from its class list |
| SlabHeap.Store.Clear | src/slab.c:916-922 | the loop that clears a zone in the usage table |
| SlabHeap.Store.Realloc | src/slab.c:695-757 | rt_realloc on the fields is the specified one; the first min(old length, requested size) bytes are carried over and every byte of every other live block stays, and all of them on NULL |
| SlabHeap.Store.Replace | src/slab.c:695-757 | its allocate, copy and free branch, with contents |
| SlabHeap.Store.CopyBytes | src/slab.c:727 | the copy loop between blocks that do not overlap |
| Waiting.SuspendIs | src/ipc.c:92-135 | suspension adds exactly the one thread to the list |
| Waiting.InsertSorted | src/ipc.c:104-131 | insertion by priority keeps the list sorted |
| Waiting.InsertPlace | src/ipc.c:104-131 | the new thread stands behind all that are at least as urgent, so those of the same urgency keep their order of arrival, and right before one that is less urgent; the others keep their order |
| Waiting.SuspendPlace | src/ipc.c:92-135 | in FIFO order the new thread stands at the end, in order of priority at that place |
| Waiting.RemainingIs | src/ipc.c:1478-1484 | a timeout of zero or below stays what it is; of any other exactly the ticks not yet elapsed are left if and only if the thread looks again within half the range of ticks after its end |
| Waiting.LateLook | src/ipc.c:1478-1484 | a timeout of one tick, looked at half the range and a tick later, has nearly half the range left |
| Waiting.SuspendOn | src/ipc.c:92-135 | the search loop inserts at the specified place |
| Waiting.FailAllIs | src/ipc.c:169-197 | resuming all gives every thread of the list the verdict, and nobody else |
| Mailbox.PutIsEnqueue | src/ipc.c:1498-1505 | storing at `in_offset` with wrap-around appends to the mail sequence |
| Mailbox.TakeIsDequeue | src/ipc.c:1645-1653 | reading at `out_offset` with wrap-around takes the first of the mail sequence |
| Mailbox.SendKeeps | src/ipc.c:1406-1524 | a pass of a send by an idle or woken thread keeps the invariant, no lost wakeup included |
| Mailbox.RecvKeeps | src/ipc.c:1553-1676 | so does a pass of a receive |
| Mailbox.SendIs | src/ipc.c:1422-1521 | what a pass of a send answers: a mailbox that is not full takes the mail and wakes its first receiver; a full one refuses a sender without a timeout, and any other one waits with its mail and timeout, for ever included |
| Mailbox.RecvIs | src/ipc.c:1572-1673 | what a pass of a receive answers: the first mail if and only if there is one, and the first sender is woken; otherwise a receiver without a timeout is refused, and any other one waits |
| Mailbox.RerunIs | src/ipc.c:1466-1485 | a woken thread makes another pass with what is left of its timeout, a failed one answers its error |
| Mailbox.ExpireKeeps | src/thread.c:669-690 | so does a timeout |
| Mailbox.ExpireIs | src/thread.c:669-690 | the thread leaves its list with an error; no mail, no other thread and no other place changes |
| Mailbox.ResetKeeps | src/ipc.c:1688-1717 | a reset keeps it and empties the mailbox |
| Mailbox.StepKeeps | src/ipc.c:1406-1717 | so does every step of any thread |
| Mailbox.RunKeeps | src/ipc.c:1406-1717 | in every interleaving: waiting receivers mean mails at most woken receivers, waiting senders mean free places at most woken senders |
| Mailbox.NobodyStranded | src/ipc.c:1406-1717 | with no woken thread left to run, waiting receivers mean an empty mailbox and waiting senders a full one |
| Mailbox.StepIsFifo | src/ipc.c:1406-1676 | one step of a bounded FIFO queue |
| Mailbox.RunIsFifo | src/ipc.c:1406-1676 | over every run without reset, what was there and was sent is what was received and is still there, in order |
| Mailbox.MailBox.constructor | src/ipc.c:1255-1283 | an empty mailbox over the caller's pool |
| Mailbox.MailBox.SendPass | src/ipc.c:1406-1524 | one pass over the fields is the specified step |
| Mailbox.MailBox.RecvPass | src/ipc.c:1553-1676 | one pass over the fields is the specified step |
| Mailbox.MailBox.TimeOut | src/thread.c:669-690 | a timeout over the fields |
| Mailbox.MailBox.Control | src/ipc.c:1688-1717 | the two resume-all loops and the reset of the offsets |
| MsgQueue.SendBeginKeeps | src/ipc.c:1926-1964 | the first section of a send moves one node from the free list to the sender, or fails |
| MsgQueue.SendBeginIs | src/ipc.c:1926-1964 | a send never waits: a message that is too long is refused, and so is any without a free node; otherwise the sender holds the first free node |
| MsgQueue.SendEndKeeps | src/ipc.c:1965-2000 | the second section links it, counts it and wakes a receiver |
| MsgQueue.SendEndIs | src/ipc.c:1965-2000 | the second section answers and wakes the first receiver |
| MsgQueue.RecvKeeps | src/ipc.c:2097-2207 | a pass of a receive unlinks the first node, gives up or suspends |
| MsgQueue.RecvIs | src/ipc.c:2097-2207 | what a pass of a receive answers: the first message if and only if there is one; otherwise a receiver without a timeout is refused, and any other one waits |
| MsgQueue.RerunIs | src/ipc.c:2156-2176 | a woken receiver makes another pass with what is left of its timeout, a failed one answers its error |
| MsgQueue.RecvEndKeeps | src/ipc.c:2209-2218 | the receiver reads the message as it was sent, cut to its buffer, and returns the node |
| MsgQueue.ResetKeeps | src/ipc.c:2236-2280 | a reset between the sections of an operation leaves its node with it and frees the queued ones |
| MsgQueue.StepKeeps | src/ipc.c:1740-2280 | every step of any thread keeps the invariant |
| MsgQueue.StepOrder | src/ipc.c:1965-2207 | messages are linked at the end, urgent ones at the front, and received from the front |
| MsgQueue.StepIsFifo | src/ipc.c:1965-2207 | a step without urgent messages and resets is one of a FIFO queue of messages |
| MsgQueue.RunIsFifo | src/ipc.c:1926-2223 | over every run without urgent sends and resets, what was queued and was linked is what was received and is still queued, in order |
| MsgQueue.StepPlays | src/ipc.c:1740-2280 | every step is at most one change of a plain list of messages |
| MsgQueue.RunPlays | src/ipc.c:1740-2280 | over every run, with urgent sends, timeouts and resets: the queued messages go through the changes of a plain list, where a message joins at the end or, when urgent, at the front, only the first one leaves, and a reset drops all |
| MsgQueue.RunKeeps | src/ipc.c:1740-2280 | in every interleaving with resets: each node is in exactly one of queue, free list and one operation's hands; `entry` is the queue length; no receiver is stranded |
| MsgQueue.QuietFree | src/ipc.c:1740-2280 | when every operation is over, exactly the nodes that are not queued are free |
| MsgQueue.InitValid | src/ipc.c:1740-1787 | the initial queue is valid |
| MsgQueue.ChainPush | src/ipc.c:2054-2056 | linking a node before the first |
| MsgQueue.ChainAppend | src/ipc.c:1967-1978 | linking a node behind the last |
| MsgQueue.MessageQueue.constructor | src/ipc.c:1740-1787 | the loop that threads all nodes on the free list |
| MsgQueue.MessageQueue.TakeNode | src/ipc.c:1926-1964 | the first section over head, tail, free and next |
| MsgQueue.MessageQueue.LinkNode | src/ipc.c:1960-2000 | the second section over the fields |
| MsgQueue.MessageQueue.LinkLast | src/ipc.c:1967-1978 | linking at the tail |
| MsgQueue.MessageQueue.LinkFirst | src/ipc.c:2054-2060 | linking at the head, for urgent messages |
| MsgQueue.MessageQueue.RecvPass | src/ipc.c:2097-2207 | a receive pass over the fields |
| MsgQueue.MessageQueue.ReturnNode | src/ipc.c:2209-2218 | copying out and returning the node |
| MsgQueue.MessageQueue.TimeOut | src/thread.c:669-690 | a timeout over the fields |
| MsgQueue.MessageQueue.RecycleHead | src/ipc.c:2252-2266 | one turn of the reset loop: the first queued node goes to the free list |
| MsgQueue.MessageQueue.Control | src/ipc.c:2236-2280 | the reset over the fields |
| Event.GrantIsReceive | src/ipc.c:1029-1058 | the set granted to a waiter is what an immediate receive returns, and clears the same bits |
| Event.ClearSatisfiesNone | src/ipc.c:1056-1058 | clearing bits satisfies nobody |
| Event.ConditionIs | src/ipc.c:1030-1050 | with AND all wanted bits are set, with OR alone some wanted bit is |
| Event.UnionIs | src/ipc.c:1018 | a send leaves the least set with its bits and those before |
| Event.MinusIs | src/ipc.c:1057-1058 | clearing takes exactly these bits out |
| Event.SendIsRetryAll | src/ipc.c:998-1077 | a send is the same as setting the bits and letting every waiter in turn try an immediate receive |
| Event.ScanIsRetry | src/ipc.c:1020-1067 | the same at every point of the scan |
| Event.ScanKeeps | src/ipc.c:1020-1067 | after the scan, exactly the satisfied waiters are woken and nobody left is satisfied |
| Event.SendKeeps | src/ipc.c:998-1077 | a send leaves no suspended thread satisfied |
| Event.RecvKeeps | src/ipc.c:1093-1201 | nor does a receive, which suspends only an unsatisfied thread |
| Event.RecvIs | src/ipc.c:1093-1201 | what a receive answers: nothing is refused; the wanted bits that are set if the condition holds, cleared if and only if asked; otherwise a thread without a timeout is refused and nothing changes, and any other one waits for just that |
| Event.RerunIs | src/ipc.c:1176-1194 | a woken receiver answers the set it was granted, a failed one its error |
| Event.SendNothing | src/ipc.c:1008-1009 | a send of no bits is refused and changes nothing; any other succeeds |
| Event.ExpireIs | src/thread.c:669-690 | a thread that times out leaves the list with an error, and nobody else does |
| Event.ResetKeeps | src/ipc.c:1213-1238 | nor does a reset |
| Event.StepKeeps | src/ipc.c:998-1238 | nor does any step |
| Event.RunKeeps | src/ipc.c:998-1238 | in every run no suspended thread's AND or OR condition is satisfied by the current set |
| Event.EventObject.constructor | src/ipc.c:889-906 | an event without bits and waiters |
| Event.EventObject.EventSend | src/ipc.c:998-1077 | the scan loop over the wait list in place is the specified send |
| Event.EventObject.EventRecv | src/ipc.c:1093-1201 | a receive over the fields |
| Event.EventObject.TimeOut | src/thread.c:669-690 | a timeout over the fields |
| Event.EventObject.Control | src/ipc.c:1213-1238 | the reset loop |
| Mutex.TakeKeeps | src/ipc.c:642-761 | a take keeps value, owner, hold and boost consistent if and only if it is not the owner's 256th nested one; a failed try changes nothing |
| Mutex.TakeIs | src/ipc.c:642-761 | what a take answers: the owner holds it once more; a free mutex is held once; of a held one a thread without a timeout is refused and nothing changes, and any other one waits and leaves the owner at the more urgent of both priorities, and no other priority changes |
| Mutex.BlockKeeps | src/ipc.c:706-718 | a waiter lends the owner its priority and takes its place in the sorted list |
| Mutex.ReleaseKeeps | src/ipc.c:772-859 | the last release restores the owner's own priority and hands the mutex to the most urgent waiter; others change nothing |
| Mutex.ReleaseIs | src/ipc.c:772-859 | what a release answers: refused to all but the owner; a nested one only counts; the last one gives the original priority back and hands the mutex, held once, to the first waiter, or leaves it as in the beginning |
| Mutex.ReleaseUndoesTake | src/ipc.c:642-859 | a release undoes a take that did not wait, nested or not |
| Mutex.HandoverKeeps | src/ipc.c:809-838 | the new owner is at least as urgent as every remaining waiter |
| Mutex.HandoversUrgentIff | src/ipc.c:809-838 | hand over by hand over, each new owner is at least as urgent as those who still wait if and only if they wait in order of urgency |
| Mutex.PrioHandovers | src/ipc.c:104-131 | with RT_IPC_FLAG_PRIO every hand-over until the list is empty is urgent |
| Mutex.FifoTakeSorted | src/ipc.c:99-101 | a waiting take in FIFO order keeps the list sorted if and only if the thread is no more urgent than the last one in it |
| Mutex.FifoUrgentIff | src/ipc.c:642-859 | when threads take a held FIFO mutex one after the other, all hand-overs are urgent if and only if each was no more urgent than the one before it |
| Mutex.NestedIff | src/ipc.c:642-761 | n nested takes from the initial mutex leave it consistent if and only if n is no multiple of 256 |
| Mutex.FifoInverts | src/ipc.c:92-135 | with FIFO order a hand-over can leave the owner less urgent than a waiter |
| Mutex.ExpireKeeps | src/thread.c:669-690 | a waiter that times out leaves exactly itself |
| Mutex.StepKeeps | src/ipc.c:642-859 | a step on one mutex keeps all mutexes and priorities consistent |
| Mutex.InitValid | src/ipc.c:525-544 | the initial mutexes are consistent |
| Mutex.RunKeeps | src/ipc.c:642-859 | in every run: each owner is at least as urgent as its waiters, wait lists stay sorted, and a thread without a mutex has its own priority |
| Mutex.Threads.ChangePriority | src/thread.c:507-572 | the priority the inheritance code sets |
| Mutex.MutexObject.constructor | src/ipc.c:525-544 | a free mutex |
| Mutex.MutexObject.TakeBy | src/ipc.c:642-761 | rt_mutex_take over the fields and priorities is the specified step |
| Mutex.MutexObject.ReleaseBy | src/ipc.c:772-859 | rt_mutex_release over the fields and priorities is the specified step |
| Mutex.MutexObject.TimeOut | src/thread.c:669-690 | a timeout over the fields |
| Semaphore.ResetKeeps | src/ipc.c:481-510 | a reset fails every waiter and nobody else, and grants nothing |
| Semaphore.TakeIs | src/ipc.c:328-411 | what a take answers: a unit that is there is taken; without one a thread without a timeout is refused and nothing changes, and any other one waits |
| Semaphore.ReleaseIs | src/ipc.c:435-469 | a release hands the unit to the first waiter, and adds it to the value if nobody waits |
| Semaphore.StepKeeps | src/ipc.c:328-510 | every step, an overflowing release or a reset too, keeps: a positive value means no waiter, and FIFO waiters stand in order of arrival |
| Semaphore.GrantInOrder | src/ipc.c:435-469 | a release to a FIFO waiter grants the earliest arrival that is left |
| Semaphore.TimeoutConsumesNothing | src/thread.c:669-690 | a timed-out waiter gets an error and takes no unit, no grant and nobody's place |
| Semaphore.ReleaseBalance | src/ipc.c:435-469 | a release adds one unit or hands it over, if and only if it does not overflow 16 bits with nobody waiting |
| Semaphore.StepBalance | src/ipc.c:328-510 | every step balances units released or set, taken, left, and lost to an overflow or a reset |
| Semaphore.RunKeeps | src/ipc.c:328-510 | in every run: initial value plus releases and values set by resets is the value plus the takes plus what was lost, 65536 by each release at 65535 with nobody waiting and the old value by each reset; no waiter beside a positive value; FIFO grants in arrival order |
| Semaphore.ReleasesOverflow | src/ipc.c:435-469 | n releases of a fresh semaphore leave n modulo 65536 |
| Semaphore.SemaphoreObject.constructor | src/ipc.c:211-231 | the initial value, cut to 16 bits, and no waiter |
| Semaphore.SemaphoreObject.TakeBy | src/ipc.c:328-411 | rt_sem_take over the fields, up to the suspension |
| Semaphore.SemaphoreObject.ReleaseOne | src/ipc.c:435-469 | rt_sem_release over the fields |
| Semaphore.SemaphoreObject.TimeOut | src/thread.c:669-690 | a timeout over the fields |
| Semaphore.SemaphoreObject.Control | src/ipc.c:481-510 | the resume-all loop and the new value, cut to 16 bits |
| ReadyBits.LowestBitIs | src/kservice.c:1213-1231 | the byte table holds the lowest bit of every byte but zero |
| ReadyBits.FfsIs | src/kservice.c:1243-1257 | the search returns one more than the lowest bit set of a 32-bit word, and 0 exactly for 0 |
| ReadyBits.FirstInGroup | src/kservice.c:1243-1257 | the same on bit numbers |
| ReadyBits.FirstInRow | src/scheduler.c:211-212 | the same in a byte of the ready table |
| ReadyBits.GroupBits | src/scheduler.c:301 | setting and clearing a group bit changes exactly that bit |
| ReadyBits.RowBits | src/scheduler.c:299 | setting and clearing a row bit changes exactly that bit |
| ReadyBits.RowColumn | src/thread.c:245-247 | row and column by shift and mask are quotient and remainder by 8 |
| Scheduler.MarkIs | src/scheduler.c:298-301 | marking a priority ready sets exactly its bit, in the 32- and the 256-level form |
| Scheduler.UnmarkIs | src/scheduler.c:341-349 | unmarking clears exactly its bit; the group bit goes only when the row is empty |
| Scheduler.HighestIs | src/scheduler.c:206-213 | the search finds the most urgent marked priority, in both forms |
| Scheduler.InsertKeeps | src/scheduler.c:268-305 | a thread outside the queues joins the queue of its priority |
| Scheduler.RemoveKeeps | src/scheduler.c:314-354 | a ready thread leaves its queue, and the bit goes exactly with the last |
| Scheduler.SuspendKeeps | src/thread.c:585-617 | suspension in either order of status and removal |
| Scheduler.ChangeKeeps | src/thread.c:507-572 | a ready thread changes its priority by leaving and joining |
| Scheduler.ChangeIs | src/thread.c:507-572 | the thread has the new priority and, if ready, stands at the end of its queue and in no other; nothing else changes |
| Scheduler.ExitIs | src/thread.c:78-113 | the thread is closed and in no queue; nothing else changes |
| Scheduler.YieldIs | src/thread.c:408-442 | the current thread goes behind the others of its priority if it is ready and there are any; otherwise nothing changes |
| Scheduler.RotateKeeps | src/thread.c:420-428 | moving the current thread to the end of its queue changes no bit |
| Scheduler.ParkIdle | src/thread.c:595-612 | the section of a suspension whose thread is not ready any more changes no queue and no bit |
| Scheduler.ReadyBreaks | src/thread.c:643-656 | either section of a resume breaks the queues if it finds its thread ready |
| Scheduler.StepValidIff | src/thread.c:78-690 | each section of each transition, whatever came before it, keeps queues, bitmap and thread states in agreement if and only if it is not a section of a resume that finds its thread ready |
| Scheduler.RunKeeps | src/scheduler.c:192-354 | in every run of such sections in which no section of a resume finds its thread ready, bit p is set exactly if queue p is not empty, and a thread is in its own priority's queue exactly if it is ready, once, and in no other |
| Scheduler.ResumeKeeps | src/thread.c:627-661 | an uninterrupted resume puts a suspended thread, and no other, at the end of the queue of its priority and leaves all other queues |
| Scheduler.SuspensionKeeps | src/thread.c:585-617 | an uninterrupted suspension takes a ready thread, and no other, out of the queue of its priority and leaves all other queues |
| Scheduler.SuspendUndoesResume | src/thread.c:585-661 | suspending a thread that was just resumed restores every queue and thread |
| Scheduler.DoubleResume | src/thread.c:627-661 | a run in which two contexts resume the same thread and put it in its queue twice |
| Scheduler.ScheduleIs | src/scheduler.c:192-259 | an unlocked rt_schedule makes current the head of the most urgent queue: a ready thread that no ready thread exceeds |
| Scheduler.LockedIs | src/scheduler.c:200-203 | a locked rt_schedule changes nothing, and a yield not the current thread |
| Scheduler.LockedRun | src/scheduler.c:192-402 | from an enter on and until the leave that brings the counter to 0, no step of a run changes the current thread, and the counter is the enters less the leaves |
| Scheduler.CriticalSection | src/scheduler.c:359-402 | a whole critical section keeps the current thread, and the leave that belongs to its enter makes the most urgent ready thread current |
| Scheduler.FormsAgree | src/scheduler.c:206-213 | the 32-level and the 256-level bitmap choose the same priority for the same queues |
| Scheduler.LeaveUndoesEnter | src/scheduler.c:359-402 | one leave undoes one enter if and only if the 16-bit counter is not negative |
| Scheduler.EntersIs | src/scheduler.c:359-374 | n nested enters leave n wrapped to 16 signed bits |
| Scheduler.NestingIff | src/scheduler.c:359-402 | for n up to 65535 nested enters, the scheduler stays locked until the last of n leaves if and only if n is at most 32768; beyond, the first leave unlocks it |
| Scheduler.Kernel.constructor | src/scheduler.c:121-148 | empty queues and bitmap |
| Scheduler.Kernel.Insert | src/scheduler.c:268-305 | over the queue table and the bitmap fields |
| Scheduler.Kernel.Remove | src/scheduler.c:314-354 | over the queue table and the bitmap fields |
| Scheduler.Kernel.Reschedule | src/scheduler.c:192-259 | over the fields: the specified choice of the current thread |
| Scheduler.Kernel.LeaveList | src/thread.c:643-651 | the first section of rt_thread_resume on the ready queues |
| Scheduler.Kernel.ParkThread | src/thread.c:595-612 | the section of rt_thread_suspend |
| Scheduler.Kernel.StartupThread | src/thread.c:234-265 | rt_thread_startup |
| Scheduler.Kernel.SuspendThread | src/thread.c:585-617 | rt_thread_suspend with nothing in between, with its result: it refuses a thread that is not ready |
| Scheduler.Kernel.ResumeThread | src/thread.c:627-690 | rt_thread_resume with nothing in between, with its result: it refuses a thread that is not suspended |
| Scheduler.Kernel.ControlPriority | src/thread.c:507-572 | the change of priority, in both branches |
| Scheduler.Kernel.YieldNow | src/thread.c:408-442 | rt_thread_yield: rotate and reschedule, or nothing when alone |
| Scheduler.Kernel.ExitCurrent | src/thread.c:78-113 | rt_thread_exit up to its reschedule |
| Scheduler.Kernel.EnterCritical | src/scheduler.c:359-374 | one nesting level more |
| Scheduler.Kernel.ExitCritical | src/scheduler.c:380-402 | one nesting level less, and a reschedule at the last |
| RoundRobin.ChargeIs | src/clock.c:83-105 | a tick is charged to the current thread alone, which yields with a full slice at the last tick of its slice and only then; a slice of zero has 2^32 ticks |
| RoundRobin.AloneRuns | src/clock.c:83-105 | a thread alone at its priority keeps running through the end of its slice |
| RoundRobin.YieldRotates | src/thread.c:408-442 | a yield at the top priority turns the queue by one and runs the next thread |
| RoundRobin.OneSlice | src/clock.c:83-105 | a full slice runs the first thread for exactly its ticks, then turns the queue by one with all slices full |
| RoundRobin.SomeSlices | src/clock.c:83-105 | the first threads of the queue run their slices in order |
| RoundRobin.FullCycle | src/clock.c:83-105 | over the sum of the slices every thread runs exactly its init_tick ticks in queue order, and the state is the same again |
| RoundRobin.Clock.constructor | src/clock.c:45-47 | full slices |
| RoundRobin.Clock.TickIncrease | src/clock.c:87-101 | the slice part of rt_tick_increase over the fields |
| SkipList.SubInsertBoth | src/timer.c:376-388 | inserting a timer in two rows keeps the upper an ordered part of the lower |
| SkipList.SubInsertLower | src/timer.c:376-377 | so does inserting it in the lower only |
| SkipList.SubRemove | src/timer.c:123-131 | so does removing it from both |
| SkipList.AdvanceIs | src/timer.c:342-364 | the search loop stops at the place of a plain linear insertion behind all equal or earlier timers |
| SkipList.BelowIs | src/timer.c:365-366 | going down a row skips no later timer, so the search may go on from there |
| SkipList.InsertRowsKeeps | src/timer.c:339-388 | for any number of rows and any height a start keeps every row an ordered part of the row below |
| SkipList.RemoveRowsKeeps | src/timer.c:123-131 | so does a removal |
| Timers.LaterIs | src/timer.c:356-360 | for ticks within half the range of each other, the wrapped 32-bit tests compare like an unbounded clock |
| Timers.LaterThanIs | src/timer.c:356-360 | the timers that stop the search are exactly those with a later deadline |
| Timers.InsertOrdered | src/timer.c:339-377 | the list stays ordered by deadline, and by linking among equal deadlines |
| Timers.EnlistKeeps | src/timer.c:339-390 | linking a timer that is off the list keeps the list ordered and its history exact, also when its deadline has already come |
| Timers.BeginKeeps | src/timer.c:306-321 | the first section of a start and the clock reading, of an active timer too, keep everything |
| Timers.LinkKeeps | src/timer.c:324-393 | the second section keeps everything, whatever ticks and other timers came in between |
| Timers.RemoveKeeps | src/timer.c:431-436 | the section of a stop, also when the timer fired since the test of its flag, keeps everything |
| Timers.ClearKeeps | src/timer.c:439 | so does clearing the flag afterwards |
| Timers.StartKeeps | src/timer.c:294-409 | an uninterrupted start keeps everything and is linked at the tick it read, so its first firing is at its delay if and only if that is not zero |
| Timers.StopKeeps | src/timer.c:419-442 | an uninterrupted stop keeps everything, leaves its timer inactive and off the list, and changes no other |
| Timers.OffStaysSilent | src/timer.c:419-546 | over every run a timer that is off the list fires no more until it is linked again |
| Timers.PopKeeps | src/timer.c:501-515 | an expired first timer leaves the list and the log of firings stays in order |
| Timers.FireKeeps | src/timer.c:510-537 | one firing keeps the list and the log in order and leaves one due timer less |
| Timers.FiringIs | src/timer.c:510-537 | one firing calls its timer once, at this tick; a periodic one is active and on the list again for its delay from now on, a one-shot one is off; no other timer changes |
| Timers.CheckKeeps | src/timer.c:488-546 | a check fires every timer that is due and ends with all deadlines ahead |
| Timers.TickKeeps | src/clock.c:83-105 | a tick with its check meets every deadline of that tick and every one that was linked too late |
| Timers.StepKeeps | src/timer.c:294-546 | every section of a start or stop and every tick keeps everything |
| Timers.RunKeeps | src/timer.c:294-546 | every run from any clock value, with ticks and other timers' operations between the sections, keeps the list ordered, deadlines ahead unless linked too late since the last tick, and the firing history exact |
| Timers.OneShotExact | src/timer.c:294-546 | in every such run a one-shot timer not stopped fires exactly once: at its start plus its delay if and only if it was linked before that tick, else at the tick after its linking, despite wrap-around |
| Timers.PeriodicExact | src/timer.c:294-546 | a periodic timer not stopped has fired at that first tick and every multiple of its delay after it up to now, and at no other tick |
| Timers.StartedIs | src/timer.c:294-546 | what the steps of a run say of a timer since its last start: delay, kind, and the ticks of the clock reading and the linking |
| Timers.StartedExact | src/timer.c:294-546 | stated on the steps of a run alone: from the linking of its last start on, with any steps in between and after that are not about it, a periodic timer is on the list and has fired at its first tick and every multiple of its delay after it up to now, a one-shot one once, and neither at any other tick; the first tick is the start plus the delay if it was linked before that, else the tick after the linking |
| Timers.PromptExact | src/timer.c:294-546 | a timer linked at the tick its start read, as with interrupts disabled, fires exactly at its start plus its delay, and at every multiple if periodic |
| Timers.EqualDeadlinesInOrder | src/timer.c:351-359 | over every run firings come in order of time, in one check in order of deadline, and for one deadline in order of linking; each at its deadline if no start links late |
| Timers.LateLinkFiresLate | src/timer.c:307-324 | a start with delay one and a tick between its clock reading and its linking: the timer fires two ticks after the reading |
| Timers.OverlapLosesTimer | src/timer.c:425-439 | a stop that clears the flag after another start linked the periodic timer leaves it to fire once only |
| Timers.ZeroPeriodSpins | src/timer.c:501-531 | a periodic timer with delay zero is fired any number of times in one check |
| TimerSystem.TimerList.constructor | src/timer.c:671-679 | empty rows |
| TimerSystem.TimerList.RemoveTimer | src/timer.c:123-131 | the timer leaves every row |
| TimerSystem.TimerList.Scan | src/timer.c:342-364 | the inner loop stops before the first later timer |
| TimerSystem.TimerList.Search | src/timer.c:339-367 | the descent finds the place of a linear insertion in every row |
| TimerSystem.TimerList.InsertUp | src/timer.c:373-388 | the insertion loop fills the last row and some consecutive rows above it |
| TimerSystem.TimerList.EnterRows | src/timer.c:339-388 | search and insertion: the last row is the specified list, whatever the counter's bits |
| TimerSystem.TimerList.Enter | src/timer.c:324-393 | the second section over the rows and fields, for a first start and for the restart of a periodic timer |
| TimerSystem.TimerList.BeginStart | src/timer.c:306-321 | the first section over the rows, and the wrapping deadline |
| TimerSystem.TimerList.LinkStart | src/timer.c:324-393 | the second section of a start, in whatever state it finds the rows |
| TimerSystem.TimerList.StartTimer | src/timer.c:294-409 | rt_timer_start over the rows with nothing in between |
| TimerSystem.TimerList.RemoveSection | src/timer.c:431-436 | the section of rt_timer_stop over the rows |
| TimerSystem.TimerList.ClearFlag | src/timer.c:439 | the write after it |
| TimerSystem.TimerList.StopTimer | src/timer.c:419-442 | rt_timer_stop over the rows with nothing in between, with its error result |
| TimerSystem.TimerList.FireFirst | src/timer.c:512-536 | one firing over the rows |
| TimerSystem.TimerList.CheckTimers | src/timer.c:488-546 | the check loop over the rows is the specified check |
| TimerSystem.TimerList.TickIncrease | src/clock.c:83-105 | the wrapping tick counter and the check refine the unbounded clock |
| TimerSystem.TimerList.NextTimeout | src/timer.c:110-121 | the tick returned belongs to a deadline that no other precedes, or is the maximum when there is none |
| FinshVm.Get32Set32 | components/finsh/finsh.h:38-55 | every operand the compiler writes is read back unchanged |
| FinshVm.LoadAfterStore | components/finsh/finsh_ops.c:375-434 | a reload after a store yields the stored word, at every address, and no other byte changes |
| FinshVm.LittleEndian | components/finsh/finsh_ops.c:375-434 | words lie in memory least significant byte first, at ascending addresses |
| FinshVm.ApplyMeans | components/finsh/finsh_ops.c:42-295 | each operation computes on 32-bit signed numbers what C does, up to a wrap-around: sum, difference, product, quotient toward zero with its remainder, bits, shifts; refused are exactly a division by zero and a shift by 32 or more |
| FinshVm.ArithmeticMeans | components/finsh/finsh_ops.c:54-163 | sum, difference and product are those of the signed numbers modulo 2^32, and exact where they fit |
| FinshVm.DivisionMeans | components/finsh/finsh_ops.c:98-141 | dividend is divisor by quotient plus remainder, the remainder smaller than the divisor and of the sign of the dividend |
| FinshVm.ShiftsMean | components/finsh/finsh_ops.c:252-295 | a left shift multiplies by a power of two, a right shift divides by it and rounds down |
| FinshVm.BitwiseMeans | components/finsh/finsh_ops.c:164-229 | and, or and exclusive or act on each bit |
| FinshVm.InvertedMeans | components/finsh/finsh_ops.c:230-251 | the complement changes each bit and is the negative less one |
| FinshVm.RunLoad | components/finsh/finsh_ops.c:317-387 | a load with an operand skips its four bytes and pushes |
| FinshVm.RunOp | components/finsh/finsh_vm.c:47-72 | any other code is one byte and acts on the stack |
| FinshVm.RunPadding | components/finsh/finsh_ops.c:48-52 | the zeroed rest of the text segment does nothing |
| FinshVm.Vm.constructor | components/finsh/finsh_vm.c:47-72 | a cleared text and an empty stack |
| FinshVm.Vm.Dispatch | components/finsh/finsh_ops.c:42-441 | a stack operation on the arrays is the specified one, or stops where the source would run off the stack |
| FinshVm.Vm.Compute | components/finsh/finsh_ops.c:42-45 | a binary operation takes two words and leaves one, with truncating division and arithmetic right shift |
| FinshVm.Vm.Push | components/finsh/finsh_ops.c:317-387 | the two operations that push, with their operand |
| FinshVm.Vm.Execute | components/finsh/finsh_vm.c:47-72 | the fetch and dispatch loop runs the whole text from an empty stack to the specified final stack and store |
| FinshCompiler.EmitsCode | components/finsh/finsh_compiler.c:43-901 | the annotation pass types every node of the fragment DWORD and marks exactly the l-values in address position, so the emitter produces the code of the expression |
| FinshCompiler.EmitsAddress | components/finsh/finsh_compiler.c:759-901 | the same for an l-value in address position |
| FinshCompiler.CodeEvaluates | components/finsh/finsh_compiler.c:43-757 | for every expression, stack and store: the compiled code pushes exactly one value, that of direct left-to-right evaluation, with the same final store, and stops only where evaluation is undefined |
| FinshCompiler.AddressEvaluates | components/finsh/finsh_compiler.c:43-757 | the same for the address of an l-value |
| FinshCompiler.ComputeEvaluates | components/finsh/finsh_compiler.c:43-757 | the case of a binary operator, operands left to right |
| FinshCompiler.SetEvaluates | components/finsh/finsh_compiler.c:43-757 | the case of an assignment, address before value |
| FinshCompiler.StepEvaluates | components/finsh/finsh_compiler.c:43-757 | the four cases of ++ and --, prefix and postfix |
| FinshCompiler.StoreAndReload | components/finsh/finsh_ops.c:375-434 | store and reload leave the assigned value where the address was |
| FinshCompiler.OpCodes | components/finsh/finsh_ops.c:42-45 | the byte of each operator is decoded to that operator |
| FinshCompiler.ComputeMeans | components/finsh/finsh_ops.c:42-295 | evaluation takes operands from left to right and computes what the operator computes in C |
| FinshCompiler.ComplementMeans | components/finsh/finsh_ops.c:230-251 | the complement of x is -x - 1 |
| FinshCompiler.SetMeans | components/finsh/finsh_compiler.c:311-372 | an assignment locates its target first, has the value it assigns, leaves it there and changes no other byte |
| FinshCompiler.StepMoves | components/finsh/finsh_compiler.c:373-714 | `++` and `--` move the variable by one; postfix forms have its value before, prefix forms after |
| FinshCompiler.PointedAddress | components/finsh/finsh_compiler.c:718-748 | `*&` leaves an l-value what it is |
| FinshCompiler.ProgramEvaluates | components/finsh/finsh_compiler.c:903-937 | statements run in order and leave the last value at the bottom |
| FinshCompiler.DepthBound | components/finsh/finsh_compiler.c:43-757 | an expression uses at most two stack slots more than it has nodes |
| FinshCompiler.StatementDepths | components/finsh/finsh_compiler.c:903-937 | so does every statement of a list |
| FinshCompiler.ShellEvaluates | components/finsh/finsh_compiler.c:903-937 | with the shell's table and stack sizes the whole text runs to the value and store of direct evaluation: it never underflows, overflows or meets a bad code |
| FinshCompiler.Frame | components/finsh/finsh_compiler.c:759-901 | a tree in the node table depends only on its own entries |
| FinshCompiler.SetRoot | components/finsh/finsh_compiler.c:759-901 | annotating a node changes that node of the tree only |
| FinshCompiler.Detach | components/finsh/finsh_compiler.c:903-937 | clearing a statement's sibling link separates it from the rest |
| FinshCompiler.Compiler.constructor | components/finsh/finsh_compiler.c:903-937 | over a node table and a text segment |
| FinshCompiler.Compiler.TypeCheck | components/finsh/finsh_compiler.c:759-901 | the recursive walk over table indices annotates in place as specified and touches no other entry |
| FinshCompiler.Compiler.CheckLinks | components/finsh/finsh_compiler.c:759-901 | its two recursive calls |
| FinshCompiler.Compiler.CompileNode | components/finsh/finsh_compiler.c:43-757 | the recursive walk writes exactly the specified bytes at the program counter |
| FinshCompiler.Compiler.CompileAll | components/finsh/finsh_compiler.c:903-937 | the statement loop writes the specified program |
| FinshCompiler.Compiler.CompilerRun | components/finsh/finsh_compiler.c:903-937 | annotate, clear the text, compile: the specified program followed by no-operations |

## Left out

- Context switches, interrupt masking, hooks, debug logs, asserts as output, the object registry and device layer: plumbing, or foreign assembly.
- The allocators' own semaphores and concurrent callers: each allocator is modelled as a sequential object.
- `rt_calloc`, `rt_realloc` across several memheaps (src/memheap.c:654-685) and src/mempool.c: wrappers, or easy once the rest is there.
- SmallMem.InitValid: heaps of fewer than 12 payload bytes are left out; `SmallMem.SearchEndsIff` shows that `rt_malloc` does not return on them.
- SmallMem.RunDrains: the same heaps are left out.
- SmallHeap.Store.constructor: the same heaps are left out.
- SmallHeap.Store: `magic` fields are not modelled; the header is its used flag and its two links.
- MemheapPool.MemHeap: items are kept by offset in a map and payload bytes in a sequence beside it; that a new header overwrites its own 24-byte area is modelled on the bytes. One pool; `magic` and pool pointers are left out.
- Memheap.ReallocKeeps: not for a rounded size in the last 12 bytes of the 32-bit range beside a free successor, where `Memheap.ReallocValidIff` shows that the code destroys the pool.
- Memheap.ReallocPeak: the same exception.
- Memheap.StepKeeps: the same exception.
- Memheap.RunKeeps: the same exception for every reallocation of the run.
- Memheap.RunDrains: the same exception for every reallocation of the run.
- MemheapPool.MemHeap.Realloc: the same exception.
- SlabHeap.Store: of the allocator's own writes into the heap, the cleared zone headers and the links of freed chunks are modelled on the bytes; page heads, which lie in free pages, and later updates of zone headers are kept in fields only.
- Slab.ReallocKeeps: the blocks only; their contents are in `SlabHeap.Store.Realloc`.
- Slab.MoveKeeps: the blocks only; their contents are in `SlabHeap.Store.Replace`.
- SlabHeap.Store.constructor: `used_mem` and `max_mem` are left out, and the usage table, which the source does not clear, is taken to start out zero.
- Slab: the class and idle lists are sequences of zones rather than `z_next` links.
- Waiting.SuspendOn: wait lists are sequences of threads; the links of the circular list are modelled for the memheap, the page list and the message queue only.
- Mailbox, MsgQueue, Event, Mutex, Semaphore: deletion and detach of objects with waiters, and deletion of threads that wait, own a mutex or have been woken but not run.
- Mutex.StepKeeps: no thread holds or awaits a second mutex while owning one, the application changes no priority, and takes nest below 256 (`Mutex.NestedIff` says what happens then). Dynamic creation is left out.
- Mutex.RunKeeps: the same holds of every step of the run.
- Mutex.Threads.ChangePriority: the priority only; `Scheduler.Kernel.ControlPriority` moves the thread between queues.
- Event.EventObject.EventRecv: an option with neither AND nor OR is outside the model; the source asserts.
- Scheduler.Kernel: `rt_current_priority` and stack checks are left out; some thread is always ready, as the idle thread is in the source.
- Scheduler.RunKeeps: runs in which a section of a resume finds its thread ready are excluded; `Scheduler.StepValidIff` shows that exactly those break the queues. `rt_thread_detach` and `rt_thread_delete` on another thread are left out.
- Scheduler.Kernel.SuspendThread: the stop of the thread timer is left out.
- Scheduler.Kernel.ParkThread: the same stop, and a wait list that a stale suspension takes its thread off.
- Scheduler.Kernel.LeaveList: the wait list the thread leaves and the stop of its timer are left out.
- Scheduler.Kernel.ResumeThread: the wait list the thread leaves and the stop of its timer are left out; the IPC modules model the wait lists.
- Scheduler.Kernel.ExitCurrent: the defunct list and the detaching of the timer are left out.
- RoundRobin: slices only; no other thread becomes ready at the same or a more urgent priority and the scheduler is unlocked during a cycle.
- Timers: one thread at a time operates on a given timer (`Timers.OverlapLosesTimer` shows why), and a bound `slack` says by how many ticks a start may link after its deadline; delay and slack together stay below RT_TICK_MAX / 2, where the wrapped comparison is right.
- Timers.StartKeeps: not for a periodic timer with delay zero, where `Timers.ZeroPeriodSpins` shows that the check never ends.
- Timers.RunKeeps: the same exception.
- TimerSystem.TimerList.BeginStart: the same exception.
- TimerSystem.TimerList.StartTimer: the same exception.
- Timers: hard timers whose callbacks leave the timers alone, checked at every tick. Soft timers and `rt_timer_control` on an active timer are left out. The clock part and the slice part of `rt_tick_increase` are modelled separately.
- TimerSystem.TimerList: rows are sequences of timers rather than `rt_list_t` links.
- FinshCompiler: the DWORD fragment only, that is int, long and pointers to them. BYTE and WORD operations, unsigned types, void pointers, `++` and `--` on system variables and system calls are left out; outside the fragment the emitted code depends on widths.
- FinshCompiler.ShellEvaluates: the text has to fit the 128-byte segment, which the source does not check. Lexer, parser and the shell's private heap come before the tree and are no part of the model.
- FinshCompiler.Compiler.CompileNode: the text has to fit.
- FinshCompiler.Compiler.CompileAll: the text has to fit.
- FinshCompiler.Compiler.CompilerRun: the text has to fit.
- FinshVm.Vm.Execute: division by zero and shifts by 32 or more are undefined in C and stop the machine with a reason of their own; signed overflow, the least number divided by -1 and left shifts of negative numbers are undefined too, and wrap here; the program's store is separate from the machine's stack and text.
