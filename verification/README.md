# A verification model of the kernel's memory, scheduling and timer core

This project models the stateful core of a small 64-bit kernel in Dafny and proves what it does over
whole runs. Eight components are modelled:

- the address translator, a linked list of runs of pages with a one-entry cache, searched from both sides;
- the address codecs, the search for free virtual pages over four paging levels, and the counters that
  hand out virtual pages for devices;
- the kernel heap, first fit on an address-ordered free list with headers in memory;
- the allocator of equal-sized objects with its bitmap;
- the physical page allocator, with a cursor for single pages and a search for ranges;
- the scheduler's intrusive lists under the first-come-first-served policy;
- the saving and restoring of registers on the threads' stacks;
- the delta list of sleeping threads behind the local APIC timer.

Each component has the same shape. A module on values says what the calls do and proves properties of
whole runs (`RunList` to `Removal`, `TranslatorRuns`, `Slots`, `Mapping`, `FreeSlots`, `Blocks`, `HeapRuns`,
`Scheduling`, `ContextRuns`, `Deadlines`, `TimerHistory`, `PageSearch`, `Marking`, `PageRuns`). A module on memory,
where links, headers and objects live, connects the two (`HeapMemory`, `HeapOverlap`, `HeapPayload` and `HeapObjects`
on the bytes of `MemoryBytes`, `ListMemory`, `TimerMemory`). A class with the original's fields and loops is proved
against it (`Translator`, `PageManager`, `Heap`, `SlabHeap`, `Scheduler`, `ContextSwitch`, `TimerQueue`,
`PhysicalPages`, `Countdown`); `Yielding` puts two of them together. Physical operations of the translator are the virtual ones on the flipped list.
Machine words wrap at 2^64 where the code computes with them.

## Where the code departs from its purpose

The model follows the code. Where a promise of its comments or its evident purpose does not hold, there is a
concrete input for which it fails and a theorem that says exactly when it holds.

- Translator: ends are compared inclusively, so a page where one run ends and another starts can be found
  through the wrong one, or through the right one when the cache says so (`TranslateExact`, `CacheExact`,
  `CacheShows`, and over runs `RunExact`). An entry below the first one is inserted behind it (`AddSortedExact`).
  Removal never looks at the last entry, goes on from released entries and cuts runs that merely end at the range
  (`RemoveExact` and the examples `LastStays`, `EarlyReleaseFaults` and `StraySplits`); a range that passes 2^64 can
  keep it splitting for ever (`PassingTopNeverEnds`, `EndlessExact`), and one in a run that reaches 2^64 is never
  removed (`TopStays`). The cache stays on the released entry, if that was cached (`RemoveEntryVirtual`,
  `DanglingCache`).
- Virtual pages: every call uses up a whole 512 GiB slot (`MapNextExact`, `CallsExact`), and from the last page every
  call hands out that page again (`LastPageRepeats`, `DistinctExact`).
- Heap: the exact-fit branch compares a pointer with a size and is never taken, so headers overlap unless 16
  bytes remain (`CarveStored`, `WholeBlockBreaks`). A request below 8 bytes leads to a block too small for the header
  of a free block, so giving it back can overwrite the next block or the bytes behind the heap (`FreeStored`,
  `FreeOutside`, `SmallRequestBreaks`); from 8 bytes on nothing is refused (`AllFreed`).
- Equal-sized objects: `!` where `~` is meant clears eight bits, and the search never leaves its byte; the
  allocator never reuses an object (`BumpOnly`, `FreeExact`), and its bitmap lasts for eight times the objects that
  the region holds (`HandedExactly`, `ObjectsApart`).
- Physical pages: the comment promises a new page, but the inverted test hands out the same page on every call
  (`SinglesRepeat`); a range starts at the used page before it, so two ranges share a page (`SecondOverlaps`,
  `RunExact`), and the bit formula marks the wrong pages in general (`MarkingExact`).
- Scheduler: a woken sleeper stays linked among the sleepers (`AwokenBreaks`); a yield before anything was
  added reads a null head (`FaultsExactly`).
- Timer: an insertion in the middle does not shorten its successor (`InsertExact`, `InstantExact`), and no call
  takes account of the time gone by since the timer was set (`HistoryExact`, `SecondIsEarly`); the first
  insertion keeps the pool on the waiting list, does not set the timer, and the refill raises the wrong counter;
  the pool is not refilled when it runs dry (`FirstShares`, `SecondDecides`, `HeldExact`, `MemoryExact`,
  `EleventhExact`); the handler clears a link before it follows it and never gets
  beyond that (`TimerHandler`; `TimerHandlerInOrder` is the same loop with the link read first).

## Model

| member | source | states |
|---|---|---|
| RunList.FlipMaps | libc/src/memory/address_translater_v3.c:166-186 | the physical side of a list is its flipped list: exchanging the two sides of every run inverts the mapping it denotes |
| RunList.FirstHit | libc/src/memory/address_translater_v3.c:153-161 | the index the scan stops at: the first run that passes the inclusive test, or the length |
| Lookup.TranslateExact | libc/src/memory/address_translater_v3.c:144-164 | a translation answers what the list denotes, the reserved value included, if and only if the cache starts at the page or no run ending at the page gets in the way of the one holding it |
| Lookup.FoundExact | libc/src/memory/address_translater_v3.c:212-227 | the scan finds something if and only if a run below 2^64 holds the page or a run ends exactly there |
| Lookup.ContainsExact | libc/src/memory/address_translater_v3.c:212-227 | containing an address agrees with the mapping if and only if: no run ends at the page of an unmapped address; and for a mapped one the cache starts at its page, or a run below 2^64 holds it, or one ends at its page |
| Lookup.CacheMoves | libc/src/memory/address_translater_v3.c:144-164 | after a lookup the cache is the first run whose inclusive test holds, or what it was when it starts at the page or no test holds; with no test holding, the answer is 0x3FFC000000000000 |
| Lookup.RoundTrip | libc/src/memory/address_translater_v3.c:144-186 | translating there and back gives the address again, offset included, exactly when the way back is a lookup of the working kind |
| TranslatorRuns.CacheExact | libc/src/memory/address_translater_v3.c:144-186 | for every cache content every mapped address is translated right, if and only if every run behind which another starts is continued by it or comes later in the list, and a run that reaches 2^64 is one page, alone or continuing the run before it |
| TranslatorRuns.CacheShows | libc/src/memory/address_translater_v3.c:148-161 | a two-run list that gives two different answers for one address, depending on the cache |
| TranslatorRuns.UnmappedExact | libc/src/memory/address_translater_v3.c:163 | an unmapped address gets 0x3FFC000000000000 if and only if no run ends at its page |
| TranslatorRuns.RunDenotes | libc/src/memory/address_translater_v3.c:91-316 | over every run of additions in any order of addresses, removals that work, by virtual or physical addresses, and lookups of any kind, the list denotes exactly what was added and not removed since, and both sides stay clean |
| TranslatorRuns.CarveKeeps | libc/src/memory/address_translater_v3.c:246-316 | a removal that works keeps both sides clean, and seamless if they were |
| TranslatorRuns.RunExact | libc/src/memory/address_translater_v3.c:91-316 | at every point of every such run, and in either direction, all mapped addresses are translated right whatever is cached, if and only if every addition continued what it touched, or was put before it in the list |
| TranslatorRuns.RunAnswers | libc/src/memory/address_translater_v3.c:91-316 | at the end of such a run a mapped address goes where the run sends it, if every addition joined in; an unmapped one gets the reserved value if and only if the byte before its page is unmapped too |
| TranslatorRuns.RunAnswersBack | libc/src/memory/address_translater_v3.c:91-316 | the same for physical addresses, mapped and unmapped |
| TranslatorRuns.JoinsSorted | libc/src/memory/address_translater_v3.c:116-141 | on a sorted list that condition is: the new run continues, or is continued by, every run it touches |
| Insertion.AddSortedExact | libc/src/memory/address_translater_v3.c:116-141 | adding a run that overlaps nothing keeps the list sound and sorted if and only if the run is not below the first entry |
| Insertion.AddMeaning | libc/src/memory/address_translater_v3.c:91-142 | the mapping grows by exactly the new run, wherever it goes, if and only if it is not merged, across the top of the address space, with a first entry that reaches 2^64 |
| Insertion.MergesExact | libc/src/memory/address_translater_v3.c:104-141 | in a sorted list the new run lengthens the entry that ends where it starts on both sides, if there is one, and becomes an entry of its own otherwise; the cache is that entry |
| Removal.RemoveExact | libc/src/memory/address_translater_v3.c:246-280 | removing a page range inside one run, up to 2^64, leaves exactly the old mapping minus the range if and only if: the run is not the last and ends below 2^64, no visited run ends where the range starts, and a run released whole is among the two before the last |
| Removal.CarvedMeaning | libc/src/memory/address_translater_v3.c:253-275 | all four ways of cutting (whole, front, back, split) denote the old mapping minus the range and keep order and disjointness on both sides |
| Removal.RemovableWorks | libc/src/memory/address_translater_v3.c:251-279 | in the working case the loop ends with exactly the cut list |
| Removal.StrayBreaks | libc/src/memory/address_translater_v3.c:252-275 | a visited run that ends where the range starts is lost or becomes a run of negative size |
| Removal.RemoveEitherWay | libc/src/memory/address_translater_v3.c:246-316 | naming the range by its physical addresses gives the same list if and only if that form is a working one too |
| Removal.LastStays | libc/src/memory/address_translater_v3.c:251 | a concrete range in the last run that is not removed |
| Removal.EarlyReleaseFaults | libc/src/memory/address_translater_v3.c:253-257 | releasing the first of more than three entries goes on from the released entry |
| Removal.StraySplits | libc/src/memory/address_translater_v3.c:252-275 | a concrete removal that leaves a run of nearly 2^64 bytes |
| Removal.ReleasedFirst | libc/src/memory/address_translater_v3.c:253-257 | the entry released is the first one but the last that passes the test and has just the length to remove |
| Removal.ReleasedRemovable | libc/src/memory/address_translater_v3.c:253-257 | a removal that works releases the run of the range, if it has that length, or none |
| Removal.ReleasesFirst | libc/src/memory/address_translater_v3.c:253-257 | a concrete list whose first entry is released |
| Removal.EmptyRangeKeeps | libc/src/memory/address_translater_v3.c:251-279 | with an empty range the loop may split a run, but the list denotes the same mapping |
| Removal.TopStays | libc/src/memory/address_translater_v3.c:252 | a range in a run that reaches 2^64 is never removed, as the computed end of that run is 0 |
| Removal.LoopEnds | libc/src/memory/address_translater_v3.c:251-279 | in all other cases the loop ends, after finitely many iterations, with the specified result |
| Removal.EndlessExact | libc/src/memory/address_translater_v3.c:251-279 | for every list and range: the call never returns if and only if the range passes 2^64 and some run but the last is split, with none before it split or released, unless what is split off has just the length to release |
| Removal.PassingTopNeverEnds | libc/src/memory/address_translater_v3.c:251-279 | a concrete removal past 2^64 that never ends |
| Translator.AddressTranslator.constructor | libc/src/memory/address_translater_v3.c:10-15 | an empty list and no cache |
| Translator.AddressTranslator.AddEntry | libc/src/memory/address_translater_v3.c:91-142 | on linked entries: the list and the cache position become those of the specified addition, and the cache is an entry of the list |
| Translator.AddressTranslator.TranslateVirtual | libc/src/memory/address_translater_v3.c:144-164 | answer and new cache are those of the specified lookup, 0x3FFC000000000000 when nothing is found; the list is unchanged |
| Translator.AddressTranslator.TranslatePhysical | libc/src/memory/address_translater_v3.c:166-186 | the same lookup on the flipped list |
| Translator.AddressTranslator.ContainsVirtual | libc/src/memory/address_translater_v3.c:212-227 | found exactly if the cache starts at the page or the scan stops; the cache moves as in a translation |
| Translator.AddressTranslator.ContainsPhysically | libc/src/memory/address_translater_v3.c:229-244 | only the scan decides, because the cache test is a statement without effect |
| Translator.AddressTranslator.ContainsLevel | libc/src/memory/address_translater_v3.c:188-205 | the masked test on every run decides, and the cache moves to the first run that passes it; the cache test never does on aligned entries |
| Translator.AddressTranslator.RemoveEntryVirtual | libc/src/memory/address_translater_v3.c:246-280 | the list becomes that of the specified loop, or a null entry is followed exactly when the loop says so; the entry released is the specified one, and a cached entry stays an entry of the list if and only if it is not that one |
| Translator.AddressTranslator.RemoveEntryPhysical | libc/src/memory/address_translater_v3.c:282-316 | the same on the flipped list, cache and released entry included |
| Translator.DanglingCache | libc/src/memory/address_translater_v3.c:253-257 | two additions, a lookup and a removal after which the cache is the released entry |
| Paging.EncodersAgree | libc/src/memory/memory.c:10-20 | both encoders give the same 64-bit word, which is canonical and starts a page |
| Paging.EncodersGive | libc/src/memory/memory.c:10-20 | the word both give, as a sum of the four shifted indices and the copies of bit 47 |
| Paging.DecodeEncode | kernel/arch/x86_64/memory.c:9-27 | decoding undoes encoding for all indices below 512 |
| Paging.EncodeDecode | kernel/arch/x86_64/memory.c:9-27 | encoding undoes decoding exactly on the canonical page-aligned addresses |
| Paging.Encode | kernel/arch/x86_64/memory.c:19-27 | the or-chain of get_virtual_address is a 64-bit word, the sum of its fields |
| Countdown.VirtExact | kernel/arch/x86_64/memory.c:80-90 | the address handed out is that of the indices, and canonical, if and only if the top index is at least 256 |
| Countdown.SettledIs | kernel/arch/x86_64/memory.c:38-50 | a call uses the next page down, or the top page of the highest free slot, and keeps the indices in range |
| Countdown.NewSlotExact | kernel/arch/x86_64/memory.c:38-50 | after the first call a new slot is taken if and only if the last page of the current one has been used; otherwise the page is the one the indices stand for; a new slot is the highest one not present, from its top page on |
| Countdown.RunDescends | kernel/arch/x86_64/memory.c:29-95 | over every run each page lies below all earlier ones, so no page repeats; within a slot directly below the previous one |
| Countdown.RunExact | kernel/arch/x86_64/memory.c:29-95 | over every run call i returns page 512^3 - 1 - i % 512^3 of its slot, and takes a new slot, the highest one not present, if and only if i is a multiple of 512^3 |
| Countdown.DeviceMapper.NextFreePml4 | kernel/arch/x86_64/memory.c:135-146 | the loop finds the highest slot not present |
| Countdown.DeviceMapper.Map | kernel/arch/x86_64/memory.c:29-95 | the address of the counted-down indices in the same slot until its last page has been used, and then the top page of the highest slot not present; a failure only when all slots from 1 up are present |
| Slots.OccupiedExact | libc/src/memory/address_translater_v3.c:188-205 | a slot of 512 GiB, 1 GiB, 2 MiB or 4 KiB is reported occupied if and only if a run starts below its end and either ends at its start or above, or reaches 2^64 while the slot is the lowest |
| Slots.OccupiedCoarser | libc/src/memory/address_translater_v3.c:188-205 | occupied at a finer level implies occupied at every coarser one |
| Slots.CacheTestExact | libc/src/memory/address_translater_v3.c:188-205 | for every list and cache: a level is reported occupied if and only if a run occupies it, or the slot is the topmost and the cached address is odd |
| Slots.CacheTestIdle | libc/src/memory/address_translater_v3.c:193 | so on page-aligned entries the cache test never decides |
| Slots.FirstFreeMeaning | libc/src/memory/page_manager.c:301-338 | the search returns its start if its 512 GiB slot is empty, else the base of the lowest empty slot above, and nothing exactly when all slots up to 2^64 are occupied |
| Mapping.MapStep | libc/src/memory/page_manager.c:212-239 | one call: the page was free and is mapped afterwards to the frame given; the cursor moves to an empty slot, or stays when it is the last page |
| FreeSlots.MapNextExact | libc/src/memory/page_manager.c:212-239 | below the last page, in full: a call returns a page and leaves a cursor if and only if the page is the cursor itself when no run holds it or ends at it, and otherwise the first of the lowest 512 GiB slot above that no run reaches, and the new cursor starts the lowest such slot above the page, one that the page ends at excepted; it aborts if and only if there are no such two |
| FreeSlots.LastPageExact | libc/src/memory/page_manager.c:212-239 | at the last page a call returns if and only if no run reaches its slot, and leaves the cursor there |
| FreeSlots.CallsExact | libc/src/memory/page_manager.c:212-239 | over every run from below the last page: exactly as many calls return as there are free 512 GiB slots from the first new cursor up |
| FreeSlots.NoCalls | libc/src/memory/page_manager.c:212-239 | none returns when there is no page and cursor for the first one |
| FreeSlots.KernelStart | libc/src/memory/page_manager.c:212-239 | with the page at the first cursor of the kernel in use, 0xFFFF800000000000, the call returns 0xFFFF808000000000 |
| Mapping.MapRun | libc/src/memory/page_manager.c:212-239 | over every run from below the last page each call takes a 512 GiB slot of its own above all earlier ones, and all earlier pages stay mapped |
| Mapping.FreshJustBefore | libc/src/memory/page_manager.c:215-232 | each page handed out was unmapped just before its call |
| Mapping.AllTranslate | libc/src/memory/page_manager.c:232-238 | at the end of the run every page handed out translates to its frame, whatever is cached |
| Mapping.CallsBounded | libc/src/memory/page_manager.c:236 | at most 511 minus the slot index of the cursor many calls return |
| Mapping.LastPageRepeats | libc/src/memory/page_manager.c:212-239 | from the last page every run of calls, on any list, hands out that page every time |
| Mapping.DistinctExact | libc/src/memory/page_manager.c:212-239 | over every run of two or more calls the pages are pairwise different if and only if the cursor starts below the last page |
| Mapping.TranslateAllExact | libc/src/memory/page_manager.c:212-239 | at the end of every run all pages handed out translate to their frames, whatever is cached, if and only if the cursor started below the last page |
| Mapping.TopPageRepeats | libc/src/memory/page_manager.c:212-239 | a concrete list on which two calls return the last page |
| PageManager.PageManager.Probe | libc/src/memory/page_manager.c:301-338 | the four tests of one round: the first decides, the three finer steps are never taken |
| PageManager.PageManager.FindFreeVirt | libc/src/memory/page_manager.c:301-338 | the loop terminates and stores the indices of the specified search, or aborts exactly when that fails |
| PageManager.PageManager.CheckFreeAndAllocStructures | libc/src/memory/page_manager.c:434-467 | the decision: whether the page is free, and how many tables are missing |
| PageManager.MissingExact | libc/src/memory/page_manager.c:434-467 | three, two, one or no tables are missing, by the coarsest level at which no run reaches the slot of the page |
| PageManager.PageManager.MapNextTo | libc/src/memory/page_manager.c:212-239 | the address, the list and the cursor are those of the specified step; None is the abort |
| Blocks.LayoutUnique | libc/src/memory/heap.c:53-88 | two coalesced tilings of a range with the same live blocks are equal: the layout forgets its history |
| Blocks.CarveMeaning | libc/src/memory/heap.c:44-50 | cutting off the tail of a free block keeps the tiling and adds exactly one live block |
| Blocks.ReleaseMeaning | libc/src/memory/heap.c:65-88 | freeing with joins on both sides removes exactly that block from the live ones and leaves no two free blocks touching; the result is a tiling again if and only if the free block has room for its header |
| HeapOverlap.CarveStored | libc/src/memory/heap.c:44-50 | on bytes: the headers after malloc are those of the carved layout if and only if 16 bytes remain in the chosen block, or the bytes that its header and the new one share agree |
| HeapMemory.GrowStored | libc/src/memory/heap.c:67-70 | joining to the left block writes exactly the joined layout, byte by byte |
| HeapMemory.LinkStored | libc/src/memory/heap.c:71-79 | linking a block of 16 bytes or more behind the previous free block writes exactly the layout with the block free |
| HeapMemory.SwallowStored | libc/src/memory/heap.c:81-88 | swallowing the right neighbour writes exactly the joined layout and clears its header |
| HeapMemory.NextAdjacent | libc/src/memory/heap.c:81 | the adjacency test holds exactly when the next block is free |
| HeapMemory.HeadersStored | libc/src/memory/heap.c:8-14 | every tiling is that of some memory |
| HeapOverlap.FreeStored | libc/src/memory/heap.c:53-88 | on bytes: after the wiping and all writes of free the headers are those of the new layout if and only if the block is joined to the left, has 16 bytes or lies last, or the bytes its header overwrites in the next block agree |
| HeapOverlap.FreeOutside | libc/src/memory/heap.c:72-77 | a block below 16 bytes at the end of the heap, not joined to the left, overwrites the bytes behind the heap with its size; nothing else is written outside |
| Heap.FreeListHeap.constructor | libc/src/memory/heap.c:8-14 | one free block of full size |
| HeapPayload.CarveClears | libc/src/memory/heap.c:44-50 | malloc writes inside the chosen block only, and leaves the whole new object zero when 8 bytes remain |
| HeapPayload.FreeClears | libc/src/memory/heap.c:62-88 | what was the object is zero after free: all of it when the block was joined to the left, all but its first 8 bytes otherwise |
| HeapPayload.FreeKeeps | libc/src/memory/heap.c:53-89 | free changes no byte of any other live object |
| HeapObjects.RunIntact | libc/src/memory/heap.c:16-89 | over every run of calls and of writes of the program in its objects the blocks tile the heap and their headers are in memory |
| HeapObjects.ObjectKept | libc/src/memory/heap.c:16-89 | over every such run an object that is neither freed nor written stays live with the bytes it had |
| HeapObjects.ZeroUntilWritten | libc/src/memory/heap.c:44-50 | over every such run a new object is zero until the program writes or frees it |
| Heap.FreeListHeap.Malloc | libc/src/memory/heap.c:16-51 | first fit, tail carving, the address returned, when the headers in memory stay right, and when they also keep their room; every byte of the object is 0 and no byte outside the chosen block changes |
| Heap.FreeListHeap.Free | libc/src/memory/heap.c:53-89 | for every block that malloc returned: memory holds the layout with that block released exactly under the stated condition, and the heap stays intact exactly if the free block has room too; the objects of all other live blocks are unchanged and the released one is 0 behind the new header; the null fallback is not reached |
| Heap.FreeListHeap.FindPrevious | libc/src/memory/heap.c:55-60 | the walk finds the last free block below the pointer |
| HeapRuns.RunKeeps | libc/src/memory/heap.c:16-89 | after any run of calls the blocks tile the heap in ascending order, no two free blocks touch and the first block is free |
| HeapRuns.SameLiveSameHeap | libc/src/memory/heap.c:16-89 | two runs that leave the same blocks live leave the same heap |
| HeapRuns.AllFreed | libc/src/memory/heap.c:53-89 | after every run of requests of 8 bytes or more the live blocks can be freed in every order: no release is refused, and the heap is the single initial block again |
| HeapRuns.FreeSucceeds | libc/src/memory/heap.c:53-88 | when all blocks have 16 bytes, freeing any live block succeeds and keeps the heap intact |
| HeapRuns.FreeUndoesMalloc | libc/src/memory/heap.c:16-89 | freeing what malloc just returned always succeeds and restores the heap exactly |
| HeapRuns.BytesConserved | libc/src/memory/heap.c:16-89 | free bytes and allocated bytes always add up to the heap |
| HeapRuns.SmallRequestBreaks | libc/src/memory/heap.c:72-77 | a heap in memory, with the blocks that requests of 8, 0 and 0 bytes lead to, on which free overwrites the size of the next block |
| HeapRuns.SmallRequestAgrees | libc/src/memory/heap.c:72-77 | a heap in memory on which it overwrites that size with the same value, so the headers are right but overlap |
| HeapRuns.WholeBlockBreaks | libc/src/memory/heap.c:44-50 | a heap in memory on which a request that takes the only block whole leaves wrong headers |
| SlabHeap.BumpOnly | libc/src/memory/same_sized_heap.c:27-59 | over every run of allocations and frees the i-th object handed out is the i-th of the region: nothing is reused |
| SlabHeap.ObjectsApart | libc/src/memory/same_sized_heap.c:27-33 | objects are aligned and pairwise disjoint, and lie in the region if and only if they are among its first ones |
| SlabHeap.HandedExactly | libc/src/memory/same_sized_heap.c:18-33 | over every run exactly the first 8 * (size / objSize) allocations succeed, whatever is freed, as the bitmap has a byte and not a bit for each object of the region |
| SlabHeap.UsedExactly | libc/src/memory/same_sized_heap.c:35-42 | bit k is set if and only if object k was handed out and no object of its byte was freed since |
| SlabHeap.FreeExact | libc/src/memory/same_sized_heap.c:41 | freeing clears exactly its own bit if and only if no other object of the byte is in use |
| SlabHeap.SameSizedHeap.constructor | libc/src/memory/same_sized_heap.c:18-25 | an empty bitmap of size / objSize zero bytes, and the first object next |
| SlabHeap.SameSizedHeap.MallocSame | libc/src/memory/same_sized_heap.c:27-33 | the next object of the region; false exactly from object 8 * length of the bitmap on, when the write leaves it |
| SlabHeap.SameSizedHeap.FindNextFree | libc/src/memory/same_sized_heap.c:44-59 | the loops end with the first clear bit of the same byte, or with the next index: the offset is never reset |
| SlabHeap.SameSizedHeap.FreeSame | libc/src/memory/same_sized_heap.c:35-42 | the whole byte is cleared and no other; false exactly when it lies outside the bitmap |
| PageSearch.WalkExact | libc/src/memory/page_manager.c:173-191 | inside one region: the range found is free exactly when the rest to count is free at its start and the range at the page recorded before is |
| PageSearch.FindExact | libc/src/memory/page_manager.c:166-196 | in terms of the bitmaps alone: the search fails if and only if no free page has enough free pages before it, back to the last used page whose byte is not full; otherwise it ends at the first such page |
| PageSearch.RangeExact | libc/src/memory/page_manager.c:166-196 | over all regions: the page returned is the last used one before the first page that makes the count sufficient; the range is free and inside its region if and only if as much as was still to count at the start of that region is free there, and the range at the last used page of the regions before is free too |
| PageSearch.FirstRangeExact | libc/src/memory/page_manager.c:166-196 | in the first region: exactly when its first pages are free, and then those are returned |
| PageSearch.LargeRangeExact | libc/src/memory/page_manager.c:166-196 | a range larger than a free first region is counted on into the second but starts at the first page of that one, and lies inside if and only if the second region alone has room |
| PageSearch.NeverMissed | libc/src/memory/page_manager.c:171-195 | a free run long enough in any region is never missed |
| PageSearch.SecondOverlaps | libc/src/memory/page_manager.c:166-196 | two ranges allocated one after the other, with the first pages free for both, share a page |
| PageSearch.MarkedBitsAre | libc/src/memory/page_manager.c:153-155 | the bits set are the old ones and those of the marked pages |
| Marking.MarkingExact | libc/src/memory/page_manager.c:151-155 | the pages marked are those asked for if and only if: whole bytes from a byte boundary, or a range inside one byte (or from its start) when the byte index is divisible by 8 |
| PhysicalPages.AcceptsExact | libc/src/memory/page_manager.c:248 | find_next_free accepts a page if and only if it, or one above it in its byte, is used |
| PhysicalPages.SinglesRepeat | libc/src/memory/page_manager.c:143-149 | every run of single allocations hands out the same page every time |
| PhysicalPages.DistinctExact | libc/src/memory/page_manager.c:143-149 | the pages handed out are pairwise different if and only if there was at most one call |
| PhysicalPages.FreshRange | libc/src/memory/page_manager.c:151-190 | with its first pages free the first region gives exactly these, and exactly these become used |
| PhysicalPages.RangeAfterSingle | libc/src/memory/page_manager.c:143-190 | from a free start, a range allocated after a single page starts with that page |
| PhysicalPages.SingleAfterRange | libc/src/memory/page_manager.c:143-164 | from a free start, a single page allocated after a range is the one behind it |
| PageRuns.PairExact | libc/src/memory/page_manager.c:143-196 | two calls from a free start share no page if and only if a range comes first and a single page second |
| PageRuns.RunExact | libc/src/memory/page_manager.c:143-196 | over every run of single and range allocations from a free start with room for three: no page is handed out twice if and only if there is at most one call, or a range followed by one single page |
| PageRuns.SingleSharesExact | libc/src/memory/page_manager.c:143-164 | in every state: the single page after a range belongs to the range if and only if, in the region of the cursor, the cursor stood behind the first page of the range, or was reset to the first page of all and the range starts there |
| PhysicalPages.PageFrames.AllocPage | libc/src/memory/page_manager.c:143-149 | the page at the cursor, 4096 bytes each, is marked and returned and the cursor stays |
| PhysicalPages.PageFrames.FindNextFree | libc/src/memory/page_manager.c:241-264 | the cursor goes to the first accepted page from it on; abort exactly when there is none |
| PhysicalPages.PageFrames.MarkUsedArea | libc/src/memory/page_manager.c:151-164 | the bits are those of the specified marking; the cursor moves by the length if the range starts at it, and back to the first page of all when its index is not below the size in bytes; false exactly when a write leaves the bitmap |
| PhysicalPages.PageFrames.AllocRange | libc/src/memory/page_manager.c:166-196 | the three loops return the address of the specified search and mark it |
| Scheduling.RunPartitions | kernel/src/kernel/scheduling/scheduler_main.c:49-149 | over every run of add, yield, wait, sleep and kill each node is in exactly one of five places, ten for each bucket |
| Scheduling.InitialPartitioned | kernel/src/kernel/scheduling/scheduler_main.c:172-184 | the state after init_kernel_thread is so partitioned |
| Scheduling.FaultsExactly | kernel/src/kernel/scheduling/scheduler_main.c:49-71 | a yield reads a null head if and only if nothing was ever added; wait, sleep and kill if and only if nobody is ready |
| Scheduling.YieldsRotate | kernel/src/kernel/scheduling/scheduler_main.c:49-71 | k yields rotate running thread plus queue by k |
| Scheduling.FullRound | kernel/src/kernel/scheduling/scheduler_main.c:49-71 | with n ready threads n + 1 yields restore everything |
| Scheduling.WaitsItsTurn | kernel/src/kernel/scheduling/scheduler_init.c:10-14 | in any run a ready thread moves up by one with every switch, whatever is added behind it |
| Scheduling.RunsAtItsTurn | kernel/src/kernel/scheduling/scheduler_init.c:10-14 | the thread at ready position j runs at the (j + 1)-th switch: none starves |
| ListMemory.PoppedRepresents | kernel/src/kernel/scheduling/scheduler_main.c:58-71 | on the intrusive lists: popping is the specified step, and lists, counters and distinctness of nodes are kept |
| ListMemory.ReadiedRepresents | kernel/src/kernel/scheduling/scheduler_init.c:10-14 | linking the running node behind the ready tail is the specified step |
| ListMemory.ParkedRepresents | kernel/src/kernel/scheduling/scheduler_main.c:124-149 | pushing the running node on the waiting, sleeping or spare list is the specified step |
| ListMemory.AddedRepresents | kernel/src/kernel/scheduling/scheduler_main.c:85-100 | moving a spare node to the ready tail is the specified step |
| ListMemory.BucketRepresents | kernel/src/kernel/scheduling/scheduler_main.c:73-83 | a new bucket becomes the spare list |
| ListMemory.AwokenBreaks | kernel/src/kernel/scheduling/scheduler_main.c:102-122 | waking a sleeper makes the ready list run on into the sleepers, and no partitioned state is represented any more |
| Scheduler.ThreadScheduler.constructor | kernel/src/kernel/scheduling/scheduler_main.c:172-184 | the initial lists in memory |
| Scheduler.ThreadScheduler.MallocEmptyBucket | kernel/src/kernel/scheduling/scheduler_main.c:73-83 | ten nodes are linked into the spare list and counted |
| Scheduler.ThreadScheduler.NewThread | kernel/src/kernel/scheduling/scheduler_main.c:152-169 | a new thread with its number and stack pointer; the lists are untouched |
| Scheduler.ThreadScheduler.AddThreadToSchedule | kernel/src/kernel/scheduling/scheduler_main.c:85-100 | the specified addition, refilling the pool when it is empty |
| Scheduler.ThreadScheduler.PopNextThread | kernel/src/kernel/scheduling/scheduler_main.c:58-71 | the first ready thread runs and is marked running; false exactly when nobody is ready and a null head is read |
| Scheduler.ThreadScheduler.PopNextAndReaddRunning | kernel/src/kernel/scheduling/scheduler_main.c:49-56 | the specified yield: the running thread goes behind the ready ones and is marked ready, the first of these runs and is marked running; the outgoing thread keeps the stack pointer it came with, no other is touched |
| Scheduler.ThreadScheduler.ThisWait | kernel/src/kernel/scheduling/scheduler_main.c:124-129 | the running node goes to the front of the waiting list and its thread is marked waiting; with the pop that follows this is the wait of those runs |
| Scheduler.ThreadScheduler.ThisSleep | kernel/src/kernel/scheduling/scheduler_main.c:131-139 | the running node goes to the front of the sleepers with the time as its score, and its thread is marked sleeping; with the pop the sleep of those runs |
| Scheduler.ThreadScheduler.ThisKill | kernel/src/kernel/scheduling/scheduler_main.c:141-149 | the thread is marked dead, and the running node is cleared and goes to the front of the spare list; with the pop the kill of those runs |
| Scheduler.ThreadScheduler.AwakeThread | kernel/src/kernel/scheduling/scheduler_main.c:102-122 | the first sleeper with the id becomes ready, and the lists stay well formed exactly when no sleeper has it |
| ContextSwitch.Cpu.Save | kernel/arch/x86_64/interrupts.asm:89-110 | the twenty words of registers and frame lie on the stack in order, aligned and at or below the interrupted stack pointer, and no other word changes |
| ContextSwitch.Cpu.BeginInterrupt | kernel/arch/x86_64/interrupts.asm:89-110 | fifteen pushes, rdi the address of the frame and rsi the stack pointer |
| ContextSwitch.Cpu.EndInterrupt | kernel/arch/x86_64/interrupts.asm:112-135 | from any stack holding a saved context exactly that context is restored |
| ContextSwitch.Unpack | kernel/arch/x86_64/interrupts.asm:112-135 | where each of the twenty words is found |
| ContextRuns.SwitchRestores | kernel/arch/x86_64/interrupts.asm:89-135 | a switch puts one context away and brings back exactly the one put away for the incoming thread |
| ContextRuns.RunKeeps | kernel/arch/x86_64/interrupts.asm:89-135 | at every point of every run each thread that is not running is saved on its own stack |
| ContextRuns.ResumesExactly | kernel/arch/x86_64/interrupts.asm:89-141 | over every run of computing, spawning and yielding a thread resumes with exactly the registers and frame it had when it was switched out |
| ContextRuns.RunPartitioned | kernel/src/kernel/scheduling/scheduler_main.c:49-100 | over every such run whose buckets are fresh the lists of the scheduler stay partitioned: each step is one of its calls |
| ContextRuns.StartsClean | kernel/src/kernel/scheduling/scheduler_main.c:151-170 | a new thread first runs at its entry point, with zeroed registers and its stack pointer at the end of its page, so that the whole page is free below it |
| Yielding.Syscall | kernel/src/kernel/syscall.c:11-16 | the registers are pushed, the scheduler keeps the stack pointer and picks the next thread, and the registers are popped from its stack: together exactly the switch of those runs, or the null ready list is read; the next thread sees what was saved for it |
| Yielding.LayStack | kernel/src/kernel/scheduling/scheduler_main.c:157-165 | the last twenty words of the page of a new stack become a saved context, word by word: fifteen zeros, the entry point, 0x8, 0x102, the end of the page and 0x10; no other word changes |
| Yielding.SpawnChild | kernel/src/kernel/scheduling/scheduler_main.c:85-170 | spawn_child_thread and add_thread_to_schedule together are exactly the spawn step of those runs, every node keeps a thread of its own, and the stack pointer kept is 0xF60 bytes into the page |
| Deadlines.InsertExact | kernel/arch/x86_64/APIC.c:156-187 | insertion denotes stable insertion into the absolute deadlines, all others kept, if and only if the new one lies before, after or on the others |
| Deadlines.MiddleIsLate | kernel/arch/x86_64/APIC.c:184-186 | a concrete insertion that makes a later sleeper late |
| Deadlines.InstantExact | kernel/arch/x86_64/APIC.c:138-188 | over every history of requests made at one instant all threads are due when they asked to be, if and only if no request fell between two earlier ones; otherwise some deadline is late for good |
| TimerHistory.SortAllMeaning | kernel/arch/x86_64/APIC.c:138-188 | the reference is the stable sort of the times asked for: ascending, and equal ones in order of arrival |
| Deadlines.TimerExact | kernel/arch/x86_64/APIC.c:158-173 | counted in ticks, the timer is set for the earliest sleeper if and only if it was already, or someone came with a shorter time than the first |
| Deadlines.WalkTotal | kernel/arch/x86_64/APIC.c:176-182 | wherever the walk stops, wrapped or not, the deadlines together do not become earlier |
| Deadlines.DueNowMeaning | kernel/arch/x86_64/APIC.c:207 | the sleepers due together are exactly those sharing the first deadline |
| TimerHistory.HistoryExact | kernel/arch/x86_64/APIC.c:138-188 | over every history of requests made at different times, none of them due yet: all threads are due when they asked to be, if and only if no time passes between the requests and none falls between two earlier ones |
| TimerHistory.ElapsedIsWrong | kernel/arch/x86_64/APIC.c:156-187 | as soon as time passes between two requests some thread is due at the wrong time, and stays so |
| TimerHistory.HeadMakesLate | kernel/arch/x86_64/APIC.c:165-173 | a request put first after time has passed makes the thread that was first late |
| TimerHistory.RequestDelays | kernel/arch/x86_64/APIC.c:156-187 | no request makes another sleeper earlier |
| TimerHistory.SecondIsEarly | kernel/arch/x86_64/APIC.c:175-187 | two requests 50 ticks apart, the second of which is due 50 ticks early |
| TimerHistory.AlarmExact | kernel/arch/x86_64/APIC.c:158-173 | with the time gone by: the timer fires when the first sleeper is due if and only if it did so before, or someone came with a shorter time than the first |
| Deadlines.RestKeepsTimes | kernel/arch/x86_64/APIC.c:198-216 | taking those due off the list, counted from the interrupt, leaves all others the time at which they are due |
| TimerMemory.PlacedInserts | kernel/arch/x86_64/APIC.c:156-187 | on linked nodes: with a node on no waiting list the call performs exactly the insertion of the delta list |
| TimerMemory.BlockIs | kernel/arch/x86_64/APIC.c:140-147 | the ten nodes of a refill lie 24 bytes apart, each zeroed and linked to the next |
| TimerMemory.FirstShares | kernel/arch/x86_64/APIC.c:140-163 | the first request leaves the rest of the pool on the waiting list, and the wrong counters |
| TimerMemory.SecondDecides | kernel/arch/x86_64/APIC.c:165-187 | the second request repairs the list, or closes it into a ring, exactly as it is not, or is, the earlier one |
| TimerMemory.NextIsExact | kernel/arch/x86_64/APIC.c:138-188 | up to the tenth request every further insertion is exact |
| TimerMemory.ReusedExact | kernel/arch/x86_64/APIC.c:150-187 | the same of any node that is taken while it waits: when the list still ends, and what it is then |
| TimerQueue.TwoExact | kernel/arch/x86_64/APIC.c:138-188 | after two requests the waiting list ends if and only if the second is not the earlier one |
| TimerQueue.FirstBlockExact | kernel/arch/x86_64/APIC.c:138-188 | over every run whose second request is not the earlier one, while the first ten nodes last, memory holds exactly the delta list of the requests, and the pool the rest of the nodes |
| TimerQueue.HeldExact | kernel/arch/x86_64/APIC.c:138-188 | over every run: after m requests memory holds the delta list of the requests if and only if there were two to ten and the second was not the earlier one |
| TimerQueue.HowMany | kernel/arch/x86_64/APIC.c:138-188 | the waiting list has ten nodes after the first request, and never more than ten |
| TimerQueue.MemoryExact | kernel/arch/x86_64/APIC.c:138-188 | over every run: after m requests all threads are due in memory when they asked to be, if and only if there were two to ten, the second was not the earlier one, no time passed between them and none fell between two earlier ones |
| TimerQueue.CountAndTimer | kernel/arch/x86_64/APIC.c:138-188 | while memory holds that list: the count is ten too high, and when the timer and the alarm are right |
| TimerQueue.EleventhExact | kernel/arch/x86_64/APIC.c:140-154 | the eleventh request takes the node of a thread that waits; the list still ends if and only if the walk passes that node and one more, and then everybody between it and the new place is lost |
| TimerQueue.HandlerWakesDue | kernel/arch/x86_64/APIC.c:198-215 | for every waiting list, waking the head alone wakes exactly those who share the first deadline, if and only if the head is alone with it |
| TimerQueue.ApicTimer.Refill | kernel/arch/x86_64/APIC.c:141-147 | ten zeroed nodes linked in order |
| TimerQueue.ApicTimer.AddToSleep | kernel/arch/x86_64/APIC.c:127-188 | the state is that of the specified call with the time converted to ticks by a 64-bit product; on an empty list the node in memory has the thread and that product as its time; false exactly when a null pool node is read |
| TimerQueue.ApicTimer.FindPlace | kernel/arch/x86_64/APIC.c:175-182 | the walk ends where the specified one does |
| TimerQueue.ApicTimer.TimerHandler | kernel/arch/x86_64/APIC.c:198-209 | in every state the head alone is woken, or nobody on an empty list; the list is lost and a null pointer is read; whom it wakes is whom the interrupt owes exactly if nobody shares the first deadline |
| TimerQueue.ApicTimer.TimerHandlerInOrder | kernel/arch/x86_64/APIC.c:198-217 | with each link read before it is cleared: exactly those sharing the first deadline are woken in order, the others keep their order and times, the count is right and the timer is set for the new head; a null pointer is read exactly when nobody is left |

## Left out

- RemoveEntryVirtual: requires that the loop ends, for which `EndlessExact` gives the condition; the new entry of a split comes from malloc, which is taken to succeed.
- RemoveEntryPhysical: requires the same on the flipped list.
- TranslateVirtual: requires a cache that is an entry of the list, which every addition establishes; after a removal that released the cached entry (exactly when, RemoveEntryVirtual says), or on an empty translator, the code reads a dangling or uninitialised pointer.
- TranslateExact: requires that no run touches the reserved value 0x3FFC000000000000, so that it can be told from an answer.
- RunExact and RunAnswers in TranslatorRuns: additions overlap nothing on either side and stay clear of 2^64 and of the reserved value, and removals are those that work.
- Malloc: requires that size + 8 stays below 2^64.
- Free: requires a pointer that malloc returned and that was not freed since; other pointers are not modelled.
- RunKeeps in HeapRuns: ends a run at a call that does not leave the heap intact; what later calls make of a broken heap is not modelled.
- FreeListHeap.constructor: requires a start address higher than the heap is long, as for a kernel in the upper half; only then is the pointer compared in malloc never equal to a size.
- CheckFreeAndAllocStructures: keeps the decision and the number of missing tables; page table contents and the pages they take from the equal-sized allocator are not modelled.
- MapNextTo: the entry written to the page table is not modelled.
- Map: the walk through the tables and its entries are not modelled; which top-level slots are present is an input.
- RunDescends and RunExact in Countdown: assume that slots of the top-level table are filled but never emptied between calls.
- MallocSame: addresses do not wrap at 2^64, and what is filled into the objects is not modelled.
- AllocPage: bitmaps may hold anything; those the kernel starts with come from malloc, which clears them (libc/src/memory/heap.c:46), and are what the statements from a free start are about. A write outside them is reported and not followed further; page numbers do not wrap.
- RunExact: in PageRuns, starts from a free first region with room for the first three calls, and from the cursor's initial place.
- AllocRange: a marking that leaves the bitmap is reported, and the state it leaves is not specified.
- AwakeThread: what a broken ready list does in later calls is not modelled.
- ThisSleep: the call of add_to_sleep inside this_sleep is modelled separately in TimerQueue.
- AddThreadToSchedule: the addresses malloc returns for buckets and threads are inputs, taken to be unused.
- ResumesExactly: takes it that each stack has room for a saved context, that a running thread leaves other stacks alone, and that the handler leaves saved contexts alone; threads stand for their list nodes (that each of them has a thread of its own is what Syscall and SpawnChild ask for and keep), threads do not end in these runs, and privilege changes and floating-point state are not modelled.
- AddToSleep: requires a waiting list that ends; once it is a ring, or a node is on it twice, later calls are not modelled. Conversion to ticks is a 64-bit product with an arbitrary factor.
- HistoryExact: requests come in order of time from different threads, and nobody is due before a later request is made; times are counted in ticks and do not wrap.
- TimerHandler: stops at the first read through a null pointer; the rest of its code is never reached. The null reads inside awake_thread are those of AwakeThread.
- SpawnChild: the page of the stack, the address of the struct and the thread number are inputs; parent and flags are not modelled.
- HeldExact, MemoryExact, FirstBlockExact and TwoExact: a run makes fewer than 2^64 requests and goes on only while its waiting list ends; no timer interrupt comes between the requests, as none is survived.
- Concurrency between an interrupt and the code it interrupts, beyond the context switch itself.
- translator_init_kernel_space, the table walks get_pml4 to get_pt, map_address_space and get_phys_addr: built on tables of the boot loader and raw casts.
- find_next_free_page_area, find_page_area, alloc_next_free_page_directory: one reads an uninitialised counter, one steps by less than a page.
- Ports, model-specific registers, CR3, invlpg, interrupt tables, PIT and APIC programming beyond the count written to the timer.
- PCI, SATA, USB, keyboard, ACPI, terminals, fonts, the command line, printf, string routines and ArrayList.
- The two unused earlier versions of the translator.
