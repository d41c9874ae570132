# Verification of the kernel's memory stack, containers, formatting and locking

Dafny models of the parts of the kernel that carry its state: the physical frame allocator, the
four-level page tables, the slab caches with the intrusive lists under them, the registry of I/O
regions, the formatter behind `printk`, the log ring, and the one-time construction guards. Run
`dafny verify dfyconfig.toml` to check everything.

How the pieces stand on each other:

- `BitWords`, `Arithmetic`, `Sequences`: bits of machine words as numbers; powers of two, the size
  of a page, division and remainder; sequences without repetition.
- `Frames` says on values what physmm.cc does to bitmap and counter; `FrameAllocator` is the code,
  a class over 32-bit words, proved to do just that; `FrameRuns` covers whole sequences of calls and
  `FrameCores` any interleaving of cores, one memory access at a time, and `FrameCalls` what a whole
  call has achieved then.
- `PageTables` reads a tree of tables as a function from virtual pages to entries; `Mmu` is the code of
  virtmm.cc, writing tables in place in frames it draws from the allocator of `FrameAllocator`.
- `Lists` and `SingleLists` are the lists of list.h on the heap, abstracted as sequences.
- `SlabLayout`, `Slabs` and `SlabRuns` are the slab cache on values and its laws; `Cache` is the code
  on the heap: four rings of `Lists`, unlinked from while they are walked, and free lists threaded
  through the words that otherwise hold a slab's address. `SlabFrames` puts a compact cache on the
  frame allocator, on values and on the heap, so that nothing is assumed of its back end.
- `Digits` is the conversion of numbers, `FormatSpec` what a format and its arguments make the
  formatter do, `Format` the code, `FormatReading` what it reads out of a format, character by character,
  `FormatFacts` the laws of its output, `FormatStandard` what the C
  standard wants printed and when that is what comes out. `LogRing` puts the ring
  buffer behind it.
- `Mmio` is the region registry, `MmioRequests` when it accepts a request and how many releases that
  takes, `Guards` the guard protocol.

## Where the code falls short of what it is for

Each of these is proved, for all inputs, with the exact condition under which the code does what it
should:

- `alloc_page_range` of 2^20 pages or more succeeds but marks only the count modulo 2^20
  (`Frames.AllocMarksWholeRunIff`, `FrameRuns.HoldsAllIff`).
- `_unmap_region` stays at the first page whose page table is missing (`Mmu.UnmapCompleteIff`).
- `list_splice` leaves a one-element source where it is (`Lists.ListSplice`); therefore releasing an
  I/O region with exactly one child forgets the child and all below it (`Mmio.ReleaseKeepsOthersIff`).
- A shared request may be handed the region around the one it matches (`Mmio.FindSharedRightIff`).
- A region requested right at its root's end is accepted and lies outside
  (`Mmio.AcceptedOutside`, `Mmio.Accept`).
- Formatted integers differ from section 7.21.6.1 of ISO/IEC 9899:2011 in exactly the cases that
  `FormatStandard.StandardIff` names: `h` and `hh` do not narrow the argument; a zero with precision
  zero, or with a negative star precision, prints a blank; `#` puts a `0` before an octal number whose
  precision already begins with zeros, and `0x` before `%u`, where that section leaves `#` undefined
  and the model takes it to do nothing; `0` together with a negative star width
  loses sign and prefix; and `0` stays in force under an explicit precision 0. Strings differ for a
  negative star precision (`FormatStandard.StringStandardIff`).
- Initialising one guarded object inside another deadlocks, and nothing else does
  (`Guards.CanFreeIffNotNested`).

## Model

| member | source | states |
|---|---|---|
| FrameAllocator.Allocator.constructor | kernel/memory/physmm.cc:43-50 | wraps a bitmap whose frame 0 is taken and a counter equal to its number of set bits |
| FrameAllocator.Allocator.SetPhysicalBaseOffset | kernel/memory/physmm.cc:336-348 | moves the base offset and leaves bitmap and counter alone |
| FrameAllocator.Allocator.FreePageCount | kernel/memory/physmm.cc:356-360 | the number of clear bits, never negative |
| FrameAllocator.Allocator.PeekUsed | kernel/memory/physmm.cc:52-60 | the bit of a frame; every frame past the map is taken, except that the first one past it reads an unknown bit |
| FrameAllocator.Allocator.MarkUsedBit | kernel/memory/physmm.cc:62-70 | sets one bit inside the map and counts it only if it was clear |
| FrameAllocator.Allocator.MarkFreeBit | kernel/memory/physmm.cc:72-80 | clears one bit inside the map and counts it only if it was set |
| FrameAllocator.Allocator.MarkUsedPages | kernel/memory/physmm.cc:94-104 | the loop marks exactly the whole pages of the length, frame by frame |
| FrameAllocator.Allocator.MarkFreePages | kernel/memory/physmm.cc:82-92 | the loop frees exactly the whole pages of the length, frame by frame |
| FrameAllocator.Allocator.SearchFirstFree | kernel/memory/physmm.cc:106-123 | the word-skipping search returns the lowest free frame, 0 if there is none |
| FrameAllocator.Allocator.SearchFirstFreeRange | kernel/memory/physmm.cc:125-161 | the word-skipping search over 32-bit words returns what the naive bit-by-bit search does: the lowest index with num free frames in a row, 0 if there is none |
| FrameAllocator.FullWordHasNoFit | kernel/memory/physmm.cc:134-138 | no run of free frames starts in a word that is all ones, so skipping it loses nothing |
| FrameAllocator.Allocator.AllocatePage | kernel/memory/physmm.cc:362-382 | new bitmap, counter and pointer (null, or frame address plus base offset) of alloc_page |
| FrameAllocator.Allocator.AllocatePageRange | kernel/memory/physmm.cc:384-412 | new bitmap, counter and pointer of alloc_page_range, with the 32-bit length product |
| FrameAllocator.Allocator.ReleasePage | kernel/memory/physmm.cc:414-439 | free_page clears its frame, with or without the base offset, never frame 0, and ignores frames past the map; the invariant holds for any pointer |
| FrameAllocator.Allocator.ClampCount | kernel/memory/physmm.cc:457-470 | the quotient-plus-remainder loop of free_page_range terminates and gives up only frames past the map |
| FrameAllocator.GuardPassesInside | kernel/memory/physmm.cc:463-468 | the odd bound test passes every end that lies inside the map |
| FrameAllocator.Allocator.ReleasePageRange | kernel/memory/physmm.cc:441-479 | free_page_range clears exactly the frames inside the map that its 32-bit length reaches (the count modulo 2^20), for any pointer and count, and keeps the invariant |
| FrameAllocator.FrameOf | kernel/memory/physmm.cc:414-424 | a pointer into frame k of the linear map, or its physical address below that map, stands for frame k |
| FrameAllocator.RoundTrip | kernel/memory/physmm.cc:384-479 | freeing the pointer an allocation returned gives back bitmap and counter, for every count, base offset and bit past the map |
| FrameAllocator.AllocateThenRelease | kernel/memory/physmm.cc:384-479 | running alloc_page_range and then free_page_range leaves the allocator as it was, for every 32-bit count |
| Frames.FirstFitUnique | kernel/memory/physmm.cc:125-161 | the lowest fit is unique, so any search that finds one finds this one |
| Frames.ZeroMeansNone | kernel/memory/physmm.cc:366-376 | 0 can stand for no frame: with frame 0 taken the search answers 0 exactly when no run exists |
| Frames.RunEnd | kernel/memory/physmm.cc:52-60 | a run found in the map ends inside it, or one frame past it and then only because of the bound test in _peek_used |
| Frames.AllocFailsIffNoRun | kernel/memory/physmm.cc:362-412 | an allocation fails exactly when no run of the wanted length is free; the quick counter test turns nothing away |
| Frames.AllocTakesFreshRun | kernel/memory/physmm.cc:362-412 | a successful allocation hands out a run that was free, inside the map and without frame 0, and marks exactly the frames of it the 32-bit length reaches |
| Frames.AllocMarksWholeRunIff | kernel/memory/physmm.cc:407 | the 32-bit product marks the whole run exactly when the count is below 2^20 |
| Frames.HugeAllocTakesNothing | kernel/memory/physmm.cc:397-411 | concrete failure: asking for 2^20 pages succeeds and marks none |
| Frames.FreeKeepsOk | kernel/memory/physmm.cc:414-479 | frees of arbitrary frames keep the counter equal to the set bits and frame 0 taken |
| Frames.FreeReturnsRun | kernel/memory/physmm.cc:441-479 | freeing a run gives back exactly the frames of it the 32-bit length reaches |
| Frames.FreeUndoesAlloc | kernel/memory/physmm.cc:384-479 | free after alloc restores bits and counter, for every count |
| FrameRuns.RunsConservePages | kernel/memory/physmm.cc:356-479 | over any sequence of allocations of any size and frees of live allocations: counter equals set bits, what live allocations hold is disjoint and marked, frame 0 stays taken, free frames plus frames held is constant |
| FrameRuns.HoldsAllIff | kernel/memory/physmm.cc:407 | what an allocation holds is all it was handed exactly below 2^20 pages |
| FrameRuns.IdleAgainRestoresMap | kernel/memory/physmm.cc:356-479 | when everything allocated has been freed the bitmap and counter are those of the start |
| FrameRuns.AllocIs | kernel/memory/physmm.cc:356-412 | an allocation of `count` pages hands out the lowest run of that many free frames and marks what the 32-bit length reaches of it; nothing changes exactly if there is none |
| FrameRuns.FreeIs | kernel/memory/physmm.cc:414-479 | a free clears exactly what the 32-bit length reaches of the allocation given up, and ends that allocation alone |
| FrameCores.StepInv | kernel/include/hotarubi/lock.h:33-50 | every step of any core (test-and-set, search, one bit, one counter change, unlock) keeps the global invariant |
| FrameCores.Safety | kernel/memory/physmm.cc:362-439 | any number of cores, any interleaving, calls of any size: one core in a body at a time, bitmap and counter agree whenever the lock is free, no frame held twice |
| FrameCores.BodiesAreAtomic | kernel/include/hotarubi/lock.h:81-100 | each critical section has the effect and the answer of one sequential operation on the bitmap it found |
| FrameCalls.AllocCall | kernel/memory/physmm.cc:362-412 | a whole call for `count` pages under any interleaving: the core gets the lowest run of that many frames free when it took the lock, with those frames marked on return, or nothing exactly if there was none; the lock is free on return |
| FrameCalls.FreeCall | kernel/memory/physmm.cc:414-479 | a whole call that gives up a run clears exactly its frames under any interleaving, and the core keeps its other runs |
| FrameCalls.HolderFrees | kernel/include/hotarubi/lock.h:33-50 | whoever holds the lock can always go on, and frees it with boundedly many steps of its own |
| FrameCalls.InsideIsBounded | kernel/include/hotarubi/lock.h:33-50 | in no interleaving does a core take more than 2^21 + 3 steps while it holds the lock |
| PageTables.EntryIsSum | kernel/memory/virtmm.cc:127 | for an aligned address inside the mask and flags outside it the or of the two has no bit in common |
| PageTables.EntryBits | kernel/memory/virtmm.cc:127 | an entry has the bits of the address and of the flags, and bit 0, for any address and flags |
| PageTables.FrameNoBits | kernel/memory/virtmm.cc:38-43 | the frame number of an entry is its bits 12 to 52 |
| PageTables.EntryParts | kernel/memory/virtmm.cc:38-43 | frame number and flag bits read back from an entry are those that were put in, with bit 0 set |
| PageTables.IndicesArePage | kernel/memory/virtmm.cc:33-36 | the four 9-bit indices are the base-512 digits of the 36-bit page number |
| PageTables.SamePageIffSameIndices | kernel/memory/virtmm.cc:33-36 | two addresses share all four indices exactly when they lie in one page |
| PageTables.ReachInjective | kernel/memory/virtmm.cc:89-127 | in an alias-free tree, walks that end in one page table took the same way |
| PageTables.WriteLeaf | kernel/memory/virtmm.cc:127 | writing a leaf entry changes the translation of its page and of no other |
| PageTables.HangGrown | kernel/memory/virtmm.cc:94-101 | hanging a cleared fresh frame into an empty entry keeps the tree alias-free and every translation as it was |
| PageTables.MapOneMore | kernel/memory/virtmm.cc:89-131 | one more page written extends the function update by that page |
| PageTables.FetchIs | kernel/memory/virtmm.cc:89-127 | a processor that goes through an entry only if bit 0 is set, at every level, finds the leaf entry exactly if that has bit 0: the entries above are never in the way |
| Mmu.AddressSpace.constructor | kernel/memory/virtmm.cc:198-202 | a cleared frame is an address space in which nothing is mapped |
| Mmu.AddressSpace.NewTable | kernel/memory/virtmm.cc:92-101 | a missing table is a fresh cleared frame of the allocator, hung in with bits 0 and 1 set; if none is left nothing changes and every frame but 0 is in use |
| Mmu.AddressSpace.EnterTable | kernel/memory/virtmm.cc:103-113 | the table below an entry, found or made, without changing any translation |
| Mmu.AddressSpace.EnterPageTable | kernel/memory/virtmm.cc:91-125 | the three table steps end at the page table of the address |
| Mmu.AddressSpace.MapPage | kernel/memory/virtmm.cc:89-130 | one round writes the leaf of its page and of no other, or fails because no frame is left |
| Mmu.AddressSpace.MapRegion | kernel/memory/virtmm.cc:69-134 | on success the translation is updated on exactly the ceil(len/4096) pages of the region; on failure on the first pages only and no frame is left; the tables stay an alias-free tree whose upper entries all have bits 0 and 1 set |
| Mmu.AddressSpace.FollowEntry | kernel/memory/virtmm.cc:320-340 | the entry at a level and the pointer below it, null exactly when it names no frame |
| Mmu.AddressSpace.LookupMapping | kernel/memory/virtmm.cc:308-356 | succeeds exactly when the walk reaches an entry with a non-null frame; the entries of the tables it went through are returned, and what it did not reach is marked invalid, together with the entry it broke off at |
| Mmu.AddressSpace.NullPointerIff | kernel/memory/virtmm.cc:45-46 | the null test means frame 0 unless the linear map wraps around to 0 |
| Mmu.AddressSpace.MapFixed | kernel/memory/virtmm.cc:263-268 | maps one page, or fails because no frame is left |
| Mmu.AddressSpace.FindPageTable | kernel/memory/virtmm.cc:158-174 | finds the page table of an address, null exactly when one above it is missing |
| Mmu.AddressSpace.ClearEntry | kernel/memory/virtmm.cc:176-184 | clears a leaf entry that names a frame, giving the frame back if asked to |
| Mmu.AddressSpace.UnmapPage | kernel/memory/virtmm.cc:158-188 | one round: nothing where the page table is missing, else the leaf is cleared and the frame given back if asked to |
| Mmu.AddressSpace.UnmapRegion | kernel/memory/virtmm.cc:136-191 | clears the region up to the first page whose page table is missing, since the address then no longer advances; with `free_page` the frames in use are those before but for the frames its pages were mapped to |
| Mmu.AddressSpace.UnmapFixed | kernel/memory/virtmm.cc:294-299 | unmaps one page and frees no frame |
| Mmu.NewFrame | kernel/memory/virtmm.cc:94-97 | a page that alloc_page delivers was free and is neither frame 0 nor any other frame in use |
| Mmu.MappedTranslation | kernel/memory/virtmm.cc:69-134 | after a mapping page i translates to paddr + 4096 i with the bits of the flags and bit 0, and every other page as before; frame 0 reads as unmapped |
| Mmu.MappedIsFetched | kernel/memory/virtmm.cc:69-134 | after a mapping the processor gets to every page of the region, whatever the flags, and finds an entry with the bits of the frame's address, of the flags, and the present bit |
| Mmu.MappedHasTable | kernel/memory/virtmm.cc:89-127 | every page mapped to a non-zero frame has its page table |
| Mmu.UnmapUndoesMap | kernel/memory/virtmm.cc:69-191 | unmapping a region just mapped to non-zero frames reaches its end, leaves none of it mapped and restores the rest |
| Mmu.UnmapFreesMapped | kernel/memory/virtmm.cc:69-191 | unmapping with `free_page` what was mapped takes exactly the frames of the region out of use |
| Mmu.UnmapCompleteIff | kernel/memory/virtmm.cc:156-189 | _unmap_region leaves nothing of its region mapped exactly if before the call no page was mapped behind one whose page table was missing |
| Mmu.HoledState | kernel/memory/virtmm.cc:136-191 | the tree of the failure below fits an allocator map: 32 frames of 512 words, all in use |
| Mmu.UnmapStopsAtHole | kernel/memory/virtmm.cc:158-174 | concrete failure: whatever _unmap_region leaves, a page mapped behind a missing page table stays mapped |
| Lists.MutuallyInverse | kernel/include/list.h:40-44 | in a well-formed ring next and prev undo each other |
| Lists.RingUnique | kernel/include/list.h:61-65 | a ring determines the sequence of its links |
| Lists.InitList | kernel/include/list.h:48-50 | an initialised head is the empty ring |
| Lists.InsertBetween | kernel/include/list.h:90-97 | insertion between two neighbours inserts at that position of the sequence |
| Lists.ListAdd | kernel/include/list.h:105-108 | list_add prepends, or inserts right behind a link |
| Lists.ListAddTail | kernel/include/list.h:110-113 | list_add_tail appends, or inserts right before a link |
| Lists.ListDel | kernel/include/list.h:136-141 | list_del removes one link, without a walk, and unlinks it |
| Lists.ListEmpty | kernel/include/list.h:143-146 | true exactly for the empty sequence |
| Lists.ListSplice | kernel/include/list.h:118-134 | moves a source list behind a link of another ring, unless the source has exactly one link: then nothing changes |
| SingleLists.SListAdd | kernel/include/list.h:192-196 | slist_add prepends to a singly linked ring |
| SingleLists.SListDel | kernel/include/list.h:218-237 | slist_del walks to the predecessor and removes the element; an element that is not there changes nothing |
| SingleLists.SListEmpty | kernel/include/list.h:187-190 | true exactly for the empty sequence |
| SingleLists.HListAdd | kernel/include/list.h:291-301 | hlist_add prepends and keeps every back pointer on the cell that leads to its node |
| SingleLists.HListDel | kernel/include/list.h:303-315 | hlist_del removes a node without a walk and without the head, the first one included |
| SingleLists.HListEmpty | kernel/include/list.h:317-320 | true exactly for the empty sequence |
| SlabLayout.InitConfig | kernel/memory/cache.cc:449-458 | the loop finds the least whole number of slab sizes that holds the object, and from it compactness |
| SlabLayout.ConfigIs | kernel/memory/cache.cc:449-458 | the block is the least whole number of pages that holds one object, and the cache is compact exactly if a block holds more than eight |
| SlabLayout.BuffSizeIs | kernel/memory/cache.cc:216-225 | a buffer is object, 2 bytes of marker and 8 of inline control block as configured, rounded up to the alignment and no more |
| SlabLayout.FindBuffSize | kernel/memory/cache.cc:219-225 | the byte-wise loop arrives at the least aligned size that holds object, marker and inline control block |
| SlabLayout.GoodIff | kernel/memory/cache.cc:227-234 | a cache has room for a buffer exactly when one rounded-up buffer fits what its block leaves |
| SlabLayout.BuffersFit | kernel/memory/cache.cc:236-254 | object, marker and inline control block fit their buffer; the buffers stay inside the block, clear of an inline header, and aligned if the block is |
| SlabLayout.BuffersApart | kernel/memory/cache.cc:239 | buffers of one slab do not overlap |
| SlabLayout.NoRoomForMore | kernel/memory/cache.cc:227-229 | a slab has as many buffers as fit: one more would not |
| Slabs.SortLists | kernel/memory/cache.cc:399-438 | sorting lists every slab exactly as often as before, from any distribution |
| Slabs.PicksInOrder | kernel/memory/cache.cc:399-438 | what a pass leaves on a list and what it moves stay in order |
| Slabs.SortSorts | kernel/memory/cache.cc:399-438 | from any distribution sorting keeps the set of slabs and leaves each on one list, once: full if it has no free buffer, free if it has no references, else used |
| Slabs.SortTwice | kernel/memory/cache.cc:399-438 | a second sort changes nothing, not even the order |
| SlabRuns.GrowInv | kernel/memory/cache.cc:176-275 | a new slab with every buffer free joins the cache without disturbing the invariant or any live object |
| SlabRuns.GetKeeps | kernel/memory/cache.cc:469-505 | get_object keeps the invariant and makes live exactly one buffer, which was not live |
| SlabRuns.PutKeeps | kernel/memory/cache.cc:507-551 | put_object of a live object keeps the invariant and ends that life and no other |
| SlabRuns.PutUndoesGet | kernel/memory/cache.cc:469-551 | giving back what was just handed out leaves every slab with the free list and count it had, a slab made for it with those it was made with |
| SlabRuns.SlabIsListed | kernel/memory/cache.cc:387-438 | a slab is on the full list exactly if all its buffers are out, on the free list exactly if none is, and on the used list exactly if some are |
| SlabRuns.GetSpares | kernel/memory/cache.cc:477-498 | get_object makes a slab exactly if every buffer of every slab is out, and takes from a slab in use as long as one has a buffer left |
| SlabRuns.NoCollision | kernel/memory/cache.cc:157-167 | an object shares no byte with another object, any marker, inline control block or inline header, lies in its block and is aligned if the block is |
| SlabRuns.BufferUnique | kernel/memory/cache.cc:239 | an address is the start of at most one buffer of the whole cache |
| SlabRuns.StepAgrees | kernel/memory/cache.cc:469-551 | after each call the addresses out are exactly the buffers on no free list, and get_object hands out an address that was not out |
| SlabRuns.RunsKeepInvariant | kernel/memory/cache.cc:350-551 | over any run: each slab on exactly the list its count says, references plus free list add up to the buffers, obj_map lists exactly all external control blocks |
| SlabFrames.PageIsFresh | kernel/memory/cache.cc:130-179 | a page that alloc_page_range delivers meets all that a compact cache demands of a new block, so nothing need be assumed of the back end |
| SlabFrames.StepGood | kernel/memory/cache.cc:130-551 | get_object, put_object and the calls of others on the allocator, who free no page of the cache, all keep the cache standing on pages of its own |
| SlabFrames.StepDoes | kernel/memory/cache.cc:130-551 | get_object fails exactly if all objects are out and no frame is free; else it hands out an address that was not out, drawing a page only if all were; the others change what they should and nothing else |
| SlabFrames.RunsStandOnFrames | kernel/memory/cache.cc:130-551 | over any such run, pages left or not: the cache keeps its invariant, live allocations hold disjoint marked pages, and every object out lies in one page that only its slab's allocation holds |
| SlabFrames.GetPaged | kernel/memory/cache.cc:469-505 | get_object on the heap drawing its blocks from the allocator on the heap: the object of the value-level operation on the page drawn, or null when a page is needed and none is left |
| SlabRuns.FirstGet | kernel/memory/cache.cc:469-505 | the preconditions can be met: the first get_object of any cache succeeds and yields a live object |
| Cache.PopThread | kernel/memory/cache.cc:353-361 | taking the first control block off the threaded free list leaves the rest threaded, and its word then holds the slab's address |
| Cache.PushThread | kernel/memory/cache.cc:377-385 | putting a control block back threads the free list through its word again |
| Cache.StayEntries | kernel/memory/cache.cc:399-438 | what stays on a ring and what moves are the slabs of the right kind, in order |
| Cache.SortEntries | kernel/memory/cache.cc:399-438 | the rings the three passes leave list what sorting on values gives |
| Cache.SlabCache.constructor | kernel/memory/cache.cc:440-467 | _cache_init makes a valid empty cache |
| Cache.SlabCache.SlabFull | kernel/memory/cache.cc:387-391 | the free list points at itself exactly when no buffer is free |
| Cache.SlabCache.FindKind | kernel/memory/cache.cc:387-397 | _slab_full and _slab_empty together tell whether all, none or some of the buffers are out |
| Cache.SlabCache.Visit | kernel/memory/cache.cc:403-411 | one round of a pass unlinks the current slab and hangs it at the tail of the target, exactly if its kind does not stay |
| Cache.SlabCache.Migrate | kernel/memory/cache.cc:403-421 | a whole pass, walking a ring it unlinks from, leaves two well-formed rings: those that stay, and the target with the others appended in order |
| Cache.SlabCache.Resort | kernel/memory/cache.cc:423-437 | the last pass splits the used ring over three well-formed rings |
| Cache.SlabCache.CacheSort | kernel/memory/cache.cc:399-438 | _cache_sort on the rings has the effect of sorting on values, terminates and keeps all rings well formed and apart |
| Cache.SlabCache.SlabAlloc | kernel/memory/cache.cc:176-275 | _slab_alloc on rings and words adds one slab, every buffer free, with its control blocks in obj_map, at the head of the free list |
| Cache.SlabCache.FillSlab | kernel/memory/cache.cc:227-271 | the loop gives every buffer its control block, threads them all and lists the external ones |
| Cache.SlabCache.SlabGetObject | kernel/memory/cache.cc:350-375 | pops a control block, counts the reference and returns the object it stands for, inline or external |
| Cache.SlabCache.PickSlab | kernel/memory/cache.cc:477-498 | takes from a slab in use if there is one, else an empty one, else a new one |
| Cache.SlabCache.GetObject | kernel/memory/cache.cc:469-505 | get_object on rings and words has exactly the effect and result of the operation on values |
| Cache.SlabCache.FindCtl | kernel/memory/cache.cc:520-532 | the walk along obj_map finds a control block of the address if and only if one is listed |
| Cache.SlabCache.SlabPutObject | kernel/memory/cache.cc:377-385 | pushes the control block of a live buffer and drops the reference |
| Cache.SlabCache.PutObject | kernel/memory/cache.cc:507-551 | put_object of a live object has exactly the effect of the operation on values; an address without a buffer changes nothing in a cache with external control blocks |
| Cache.OwnerOf | kernel/memory/cache.cc:359 | the shared word of a live buffer's control block holds its slab's address |
| Cache.CtlOfPtr | kernel/memory/cache.cc:515-532 | both ways to a control block arrive at the one of the buffer that starts at the address |
| Digits.NumeralDenotes | kernel/lib/_vcbprintf.cc:51-62 | the digits of a number denote it and have no superfluous leading zero, in every base from 2 to 16 |
| Digits.NumeralUnique | kernel/lib/_vcbprintf.cc:51-62 | there is no other way to write the number without a superfluous leading zero |
| Digits.NumeralCase | kernel/lib/_vcbprintf.cc:46-58 | digits above 9 are letters of the case asked for |
| Digits.NumeralLength | kernel/lib/_vcbprintf.cc:51-56 | a number has at most n digits exactly if it is below base^n |
| Digits.LastDenotes | kernel/lib/_vcbprintf.cc:56-61 | what a limit of n characters keeps denotes the number modulo base^n, and is all of it exactly if it is below base^n |
| Digits.BufferSuffices | kernel/lib/_vcbprintf.cc:30 | 64 digits, so certainly 130, are enough for every 64-bit number in every base |
| Digits.CountDigits | kernel/lib/_vcbprintf.cc:51-54 | the first loop terminates and counts the digits |
| Digits.WriteDigits | kernel/lib/_vcbprintf.cc:57-61 | the second loop, back to front, writes the last digits and nothing else |
| Digits.ConvertNumber | kernel/lib/_vcbprintf.cc:32-63 | convert_number leaves the last n digits, the terminator behind them and the rest of the buffer untouched; the base is clamped to 2..16 |
| Format.ReadFlags | kernel/lib/_vcbprintf.cc:192-231 | the flag loop reads the longest run of flag characters |
| Format.ReadCount | kernel/lib/_vcbprintf.cc:232-247 | a width or precision is the digits, unless a star follows them |
| Format.ReadLength | kernel/lib/_vcbprintf.cc:277-287 | the table walk finds the longest length modifier that matches |
| Format.ReadDirective | kernel/lib/_vcbprintf.cc:192-287 | a directive is parsed into flags, width, precision, length and conversion, with negative star arguments |
| Format.DigitsOf | kernel/lib/_vcbprintf.cc:381-387 | the digits of the number as they come back out of the 131-byte buffer |
| Format.Printer.Put | kernel/lib/_vcbprintf.cc:111-112 | one call of the callback, successful exactly if everything was taken |
| Format.Printer.PadString | kernel/lib/_vcbprintf.cc:76-105 | padding of any length goes out in runs of at most 40 and stops with -1 at the first run not taken |
| Format.Printer.PutLayout | kernel/lib/_vcbprintf.cc:416-478 | left fill, sign, prefix, precision zeros, digits and right fill go out in the order and number the layout says, up to the first text not taken |
| Format.Printer.PutNumber | kernel/lib/_vcbprintf.cc:292-481 | argument width, sign extension, base, sign and prefix of the integer conversions |
| Format.Printer.PutString | kernel/lib/_vcbprintf.cc:507-546 | %s in its field |
| Format.Printer.Convert | kernel/lib/_vcbprintf.cc:289-590 | each conversion does what its events say; an unknown one prints its own text; %n stores the truncated count |
| Format.Printer.Print | kernel/lib/_vcbprintf.cc:107-595 | _vcbprintf carries out the plan of the format, or the part of it up to the first text not taken whole, and returns the number of characters or -1 |
| FormatFacts.NumberText | kernel/lib/_vcbprintf.cc:416-478 | the characters of an integer field from left to right |
| FormatFacts.NumberLength | kernel/lib/_vcbprintf.cc:384-478 | an integer field is max(width, max(precision, characters for the digits) + sign + prefix) long, exactly unless `0` meets left justification and there is a sign or prefix to lose; the blank for a zero of precision zero counts as one character |
| FormatFacts.LeftWithZeroIff | kernel/lib/_vcbprintf.cc:192-275 | `0` meets left justification exactly if a `0` flag is followed by a negative star width and no positive precision |
| FormatFacts.ZeroWithNegativeStar | kernel/lib/_vcbprintf.cc:418-450 | concrete failure, parse included: %0*d with -5 and -42 prints 42 and two spaces |
| FormatFacts.StringLength | kernel/lib/_vcbprintf.cc:507-546 | a string field is max(width, min(precision, length)) long and consists of the kept text and spaces on one side |
| FormatFacts.CharLength | kernel/lib/_vcbprintf.cc:484-505 | a character field is max(width, 1) long and consists of the character and spaces on one side |
| FormatFacts.ParseBack | kernel/lib/_vcbprintf.cc:290-478 | stripping padding, sign and prefix and reading the digits gives the argument back, exactly unless its minus sign was lost or a zero of precision zero was printed as a blank with no zeros before it |
| FormatFacts.PlayStopsAtFirst | kernel/lib/_vcbprintf.cc:111-112 | every text before the first one cut short is delivered whole, that one is offered, and nothing after it |
| FormatFacts.TakenWhole | kernel/lib/_vcbprintf.cc:107-595 | a callback that takes everything gets every text in order |
| FormatReading.NumberReads | kernel/lib/_vcbprintf.cc:234-237 | a width or precision is read in decimal up to the first character that is no digit |
| FormatReading.SignedIs | kernel/lib/_vcbprintf.cc:242 | the argument of a star is the word's low half as a signed number |
| FormatReading.LengthReads | kernel/lib/_vcbprintf.cc:277-287 | the longest length modifier that is there is the one read, for all eight |
| FormatReading.DirectiveReads | kernel/lib/_vcbprintf.cc:192-287 | a directive is flags, width, precision behind a period, modifier and conversion, each as far as its characters go; its stars take the first arguments |
| FormatReading.ValueIs | kernel/lib/_vcbprintf.cc:310-381 | d and i read their argument signed and the others unsigned, of 64 bits with l, ll, j, z and t and for p, else of 32 |
| FormatReading.PointerIsHex | kernel/lib/_vcbprintf.cc:292-294 | %p prints like %#tx |
| FormatReading.StoresCount | kernel/lib/_vcbprintf.cc:548-583 | %n stores the count modulo the size its modifier names |
| FormatReading.StoresCountAll | kernel/lib/_vcbprintf.cc:548-583 | in a whole format whatever %n stores is the number of characters handed over before it |
| FormatReading.UnknownPrints | kernel/lib/_vcbprintf.cc:585-589 | a directive of no known conversion is printed as it stands |
| FormatReading.LiteralPart | kernel/lib/_vcbprintf.cc:167-179 | text up to a percent sign or the end is handed on as it stands |
| FormatReading.PercentPart | kernel/lib/_vcbprintf.cc:184-188 | of two percent signs one is handed on |
| FormatReading.DirectivePart | kernel/lib/_vcbprintf.cc:181-590 | a directive gets the argument behind those of its stars, uses it up exactly if its conversion is known, and is told how many characters went before |
| FormatStandard.FlagsAre | kernel/lib/_vcbprintf.cc:192-231 | the flags read are the characters that occur, except that `-` turns `0` off wherever it stands |
| FormatStandard.DrawUnique | kernel/lib/_vcbprintf.cc:416-478 | two printed numbers are the same text only if they have the same spaces, sign, prefix, zeros and digits |
| FormatStandard.CodeDraws | kernel/lib/_vcbprintf.cc:290-478 | the spaces, sign, prefix, zeros and digits the code prints |
| FormatStandard.StandardDraws | kernel/lib/_vcbprintf.cc:384-386 | the same of the text section 7.21.6.1 of ISO/IEC 9899:2011 defines |
| FormatStandard.StandardIff | kernel/lib/_vcbprintf.cc:192-478 | an integer directive, however written, prints the text that section defines exactly if the argument fits h and hh and the directive meets the condition on flags, width, precision and value that Conforms spells out |
| FormatStandard.FitsIff | kernel/lib/_vcbprintf.cc:310-381 | that the code does not narrow its argument shows exactly if the argument does not fit short or char |
| FormatStandard.StringStandardIff | kernel/lib/_vcbprintf.cc:507-546 | %s prints the text that section defines exactly unless a negative precision hides a string that is more than spaces the field has room for |
| FormatStandard.ZeroDespitePrecision | kernel/lib/_vcbprintf.cc:273-274 | concrete failure, parse included: %05.0d prints 42 with zeros instead of spaces |
| FormatStandard.PrintsAddress | kernel/memory/physmm.cc:236 | the format of the memory map prints 16 columns: 0x, zeros, and the digits of the address |
| LogRing.Ring.constructor | kernel/log/printk.cc:86-96 | init_printk makes an empty ring |
| LogRing.Ring.EmitOne | kernel/log/printk.cc:52-68 | one character: appended to the history, and reading from out to in gives its last len - 1 characters; both indices stay below len |
| LogRing.Ring.Emit | kernel/log/printk.cc:47-70 | emit takes everything and keeps the ring showing the end of the history |
| LogRing.Shift | kernel/log/printk.cc:54-67 | writing one character around the buffer appends it and drops the oldest exactly if the buffer was full |
| LogRing.EmitAll | kernel/log/printk.cc:47-70 | after any sequence of emit calls reading around gives the last min(total, len - 1) characters |
| LogRing.Printk | kernel/log/printk.cc:98-112 | printk appends the whole text of its format to the log history and returns its length |
| Mmio.CheckSeesAll | kernel/memory/mmio.cc:58-80 | the recursive check passes exactly when no region anywhere in the tree collides |
| Mmio.FindSharedIff | kernel/memory/mmio.cc:82-100 | a shared request finds something exactly when a shared region of those bounds is registered |
| Mmio.FindSharedRightIff | kernel/memory/mmio.cc:82-100 | what is handed out is a shared region of the bounds asked for exactly if the root is one, or the first child with a match in its tree is itself the match |
| Mmio.FindSharedHandsOutParent | kernel/memory/mmio.cc:91-98 | concrete failure: the top-level region around a nested match is handed out, neither shared nor of the bounds asked for |
| Mmio.SlotIs | kernel/memory/mmio.cc:111-131 | where among its siblings a region goes, with what the walk reads where it takes the list head for a sibling |
| Mmio.PlaceKeepsAll | kernel/memory/mmio.cc:108-154 | insertion keeps every earlier region reachable and adds the new one, wherever it goes |
| Mmio.NoCollision | kernel/memory/mmio.cc:61-68 | a range that does not collide with a region is disjoint from it, or inside it and it is not busy |
| MmioRequests.CollidesIff | kernel/memory/mmio.cc:61-68 | which ranges a region stops, both ways and for empty ranges too |
| MmioRequests.AcceptedIff | kernel/memory/mmio.cc:156-238 | a request is answered exactly if it is shared and such a region is registered or no region is in its way; only then a region is registered, with the bounds asked for |
| MmioRequests.WithoutBit | kernel/memory/mmio.cc:219-223 | the flags registered are those asked for but for the mapped bit |
| MmioRequests.HandlesNeeded | kernel/memory/mmio.cc:170-251 | a region registered and asked for k more times needs k + 1 releases |
| Mmio.ReleaseTakes | kernel/memory/mmio.cc:170-195 | what a release takes out of the tree |
| Mmio.ReleaseKeepsOthersIff | kernel/memory/mmio.cc:178-194 | a release keeps every other region registered exactly if other handles are left or the region does not have exactly one child |
| Mmio.OnlyChildForgotten | kernel/memory/mmio.cc:180-188 | concrete failure: after the release of its parent a busy region no longer blocks an overlapping request |
| Mmio.RequestStep | kernel/memory/mmio.cc:156-168 | a request keeps the registered regions laminar, inside the root unless they begin at its end, and out of busy regions, and the tree holding each exactly once |
| Mmio.AcceptedOutside | kernel/memory/mmio.cc:58-80 | concrete failure: a one-byte request right at the end of the memory root is accepted, with a region outside the root |
| Mmio.Accept | kernel/memory/mmio.cc:58-80 | an accepted region lies inside the root exactly if it begins before the root's end or does not reach behind it |
| Mmio.FreeStep | kernel/memory/mmio.cc:170-195 | a release keeps the same |
| Mmio.RunsStayLaminar | kernel/memory/mmio.cc:156-251 | over any run of requests and of releases of registered regions, the registered regions stay laminar: any two disjoint, or the later inside the earlier, which is not busy |
| Mmio.Registry.constructor | kernel/memory/mmio.cc:54-56 | both roots start without regions |
| Mmio.Registry.RequestRegion | kernel/memory/mmio.cc:197-238 | request_region shares, accepts or refuses on the tree its flags name, and leaves the other alone |
| Mmio.Registry.ReleaseRegion | kernel/memory/mmio.cc:240-251 | release_region gives up one handle and leaves the other tree alone |
| Guards.StepInv | kernel/lib/cxxabi.cc:115-135 | every step of any thread keeps the mutex exclusive and held by somebody while it is taken, and every grant accounted for |
| Guards.OneTimeConstruction | kernel/lib/cxxabi.cc:115-135 | any threads, guards and interleaving: no initialiser is granted twice, one has finished before the next is granted, and whoever is told 0 finds the initialiser finished |
| Guards.EveryCallAnswered | kernel/lib/cxxabi.cc:115-135 | the acquires of a guard are those still waiting and those answered, one for one; of n that are back at least n - 1 were told that the object exists |
| Guards.NestingNeverEnds | kernel/lib/cxxabi.cc:118 | an initialiser that acquires a guard itself never returns, and nothing is granted or told from then on |
| Guards.CanFreeIffNotNested | kernel/lib/cxxabi.cc:115-135 | in every reachable state the mutex can be freed by steps of calls under way, at most five of its holder, if and only if no initialiser waits for another guard |
| Guards.NestingReachable | kernel/lib/cxxabi.cc:115-125 | a run that ends with an initialiser waiting for another guard |

## Left out

Frame allocator and page tables:

- Parsing of the boot memory map, and the per-page metadata (`_flag_page_range`, `_free_page_range`): the model starts from a bitmap whose frame 0 is taken.
- Frames.AllocFailsIffNoRun: the first frame past the map reads an unknown bit in `_peek_used`. `PeekUsed`, the search and the round trip keep it as a parameter; the statements about what an allocation means take it to be set.
- Maps of 2^27 words or more, where the 32-bit product of the map size by 8 wraps.
- FrameCores.Safety: the search under the lock is one step, since nothing it reads can change then; memory ordering weaker than interleaving and `spin_lock_irqsafe` are not modelled.
- Mmu.AddressSpace.MapRegion: regions of more than 2^36 pages, where the walk comes back to its start, the length 0, which the loop takes for 2^64 pages, and physical addresses that run past 2^64 are not modelled; large pages neither. `MappedTranslation` is about frame-aligned addresses inside the address mask.
- Mmu.AddressSpace.UnmapRegion: when frames are to be freed none of them may hold a page table, and their address in the linear map may not wrap. TLB invalidation is not modelled.
- CR3 is a parameter of the operations that read it; the linear map of all frames is assumed not to wrap (base plus memory is at most 2^64).
- `map_address` and `map_address_range`, which pass an offset pointer as a physical address.

Slab cache:

- The failure paths of `_slab_alloc`, `reap`, `release`, `get_cache`, the statistics, the contents of the overflow markers, `obj_setup` and `obj_erase`.
- Where headers and external control blocks come from, and blocks of a back end other than the frame allocator: what they deliver is a parameter that must not overlap what is in use (`Slabs.Fresh`). For compact caches on the frame allocator `SlabFrames` proves it. The cache's lock is not modelled.
- SlabFrames.GetPaged: when no page is left the code clears a page at the null pointer before it tests for it; the model just returns null. Pages are not given back, as only `reap` and `release` do that.
- Cache.SlabCache.PutObject: an address that is not a live object is only allowed in a cache with external control blocks, and only if no buffer starts there; a double free reads a free-list pointer as a slab.
- `slist_add_tail` on a non-empty list looks for a null that a ring never contains.

Formatter and log:

- Format.Printer.Print: a format must not end inside a directive, where the code reads past the terminator; widths, precisions and lengths beyond `INT_MAX` are unbounded here. Reading an argument of another type than the directive's is outside the model, as it is outside the language.
- LogRing.Printk: the texts reach the ring after the formatting instead of during it, which is the same because `emit` refuses nothing; the debug port and the lock are left out.

I/O regions:

- The tree is a value that the registry replaces; the list links and parent pointers inside it are not modelled, so update in place and aliasing are not captured there. Lists.ListSplice is the operation release uses.
- Mmio.RequestStep: requests that begin behind the root's end, for which the code follows null links, are excluded.
- Mmio.FreeStep: a region forgotten by the release of its parent cannot be released itself, since its links lead into memory that has been given back.
- Mapping of regions (`activate_region`) and failing allocations of the region objects.

Elsewhere:

- `__cxa_finalize` and `__cxa_atexit`; `spin_lock` fairness; descriptor tables, interrupt controllers, timers and ACPI.
- `kmalloc`'s choice of size classes and the string library.
