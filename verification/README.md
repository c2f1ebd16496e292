# HeavenOS memory and process core, modelled in Dafny

This project models the kernel's memory and process core and proves what its parts promise one
another. `dafny verify dfyconfig.toml` checks all of it.

The model has the branches, loops and constants of the C code, also where the code departs from what
it is evidently meant to do. Such a departure is not corrected. It appears as an outcome of its own
(`NullBitmap`, `Wild`, `Stolen`, `BogusFrame`, `Fault`, `Crash`), or as a property with the exact
condition under which it holds, and with an input or a run that shows the failure. Where the code goes
on to read or write through a wrong pointer or to free what it does not own (`NullBitmap`, `Wild`,
`Stolen`, `Fault`, `Crash`), the model stops in the state reached so far; address spaces keep their
areas in a sequence, of which `AreaRing.dfy` is the list in memory; and writing a list node does not
overwrite the page it lies in. "Left out" names these places.

## The parts

- **Lists** (`Lists.dfy`, `Common.dfy`). The circular intrusive list as heap nodes; a ring of nodes
  is a sequence.
- **Buddy allocator** (`Buddy.dfy`, `ListOrder.dfy`, `Bits.dfy`, `ZoneAddr.dfy`, `ZoneLayout.dfy`,
  `Zone.dfy`, `Frames.dfy`). `Buddy` is the theory on blocks: free and live blocks tile the zone,
  and coalescing makes the free lists a function of the free pages. `ListOrder` adds the order in
  the lists. `Zones.Zone` is the code in place, over list nodes and the bytes of the bitmaps, and
  each method ends in the state and the lists these two give. `Frames` takes all zones together,
  down to the set of free pages that the address spaces draw from.
- **Page tables** (`Paging.dfy`, `Tables.dfy`, `TableSteps.dfy`). Entries as words, addresses as
  indices, the walk and the access rights of the Intel SDM, volume 3A, sections 4.5 and 4.6. Every
  allocated frame has one owner: a table or data page of one space at one place, entered in one
  table, or something outside the spaces.
- **Address spaces** (`Vmem.dfy`, `Clone.dfy`, `Destroy.dfy`, `Unmap.dfy`, `Areas.dfy`,
  `AreaRing.dfy`, `Spaces.dfy`, `FaultCases.dfy`, `LargePages.dfy`, `SpaceRuns.dfy`). Mapping in
  three sizes, deep copy, teardown, unmapping, demand paging by areas. The invariant
  (`PhysMem.Valid`, `Space.Valid`) says that the tables form one tree for each space, that rights
  only shrink on the way down, that free and owned frames make up all frames, and that the allocated
  pages of a space lie in its areas. All methods keep it, but for the one outcome in which the code
  maps a frame that does not exist. `SpaceRuns` puts any number of spaces over one memory and
  follows all runs of their operations, with an account of every frame.
- **The first space** (`Boot.dfy`, `InitTask.dfy`). The three mapping loops of `setup_vmem`, and the
  stack area.
- **Objects** (`Slab.dfy`). Frames carved into objects chained through themselves.
- **Tasks** (`Tasks.dfy`, `TaskSafety.dfy`, `TaskTheorems.dfy`, `TaskProgress.dfy`,
  `ExitCodes.dfy`, `WaitStatus.dfy`, `Kernel.dfy`). The task table as a state machine with one step
  for each system call up to its switch, with proofs over all runs, and the same code in place over
  an array, each method proved to be that step.

## Where the code departs from its intent

- `mm/frame_alloc.c:160` sizes every bitmap for the largest order. The bitmaps are disjoint only if
  the zone is empty (`ZoneLayout.AsWrittenFitsIffEmpty`), and otherwise cannot describe the blocks
  (`AsWrittenCannotDescribe`), and no zone is empty (`NeverEmpty`). Sized as on line 140 all is well
  (`PerOrderFits`); `EveryRegion` puts both together. The allocator's methods are proved for zones
  whose bitmaps are disjoint and start cleared, which is exactly when the constructor's state is
  valid; `Sizing` chooses between the two lines.
- `mm/frame_alloc.c:151` measures the end from the aligned start. `ZoneInsideRegion` says exactly
  when the zone stays in its region, `ZoneOutsideRegion` gives one that does not. The zones still
  never meet (`ZonesApart`), but then the zone holds the next region's bitmaps (`BitmapsInZone`,
  `BitmapsOverrun`). Line 74 lets regions of exactly 1024 pages through that line 129 rejects; the
  constructor requires what line 129 does.
- `mm/frame_alloc.c:195-196` uses the bitmap of the largest order, which is NULL: outcome
  `NullBitmap`, reached in every region (`Zones.LargestRequest`).
- `mm/vmem.c:288-289` compares a converted address with NULL: outcome `BogusFrame`, reached by
  `FaultCases.BogusPage`. The tables are not sound after it.
- `mm/vmem.c:331` adds a number of pages to an address in bytes: `Areas.TestIsRight`, `PlacedOk`,
  `OverlapAccepted`.
- `mm/vmem.c:374-377` raises the flags of a large page and takes its frame for a table, and lines
  352-362 read it as one: outcome `Wild`, with the exact condition. The page's whole range has the
  new flags then: `LargePages.DirectOpened` for the direct mapping, `MapInside` and `UnmapInside`
  with any memory.
- `mm/vmem.c:364` looks at the user bit where the allocation bit is meant: `Unmap.UnmapIsRight`,
  `Spaces.ReleaseIsRight`, outcome `Stolen`; `FaultCases.KernelPageLost` loses a frame,
  `LargePages.CodeStolen` and `UnmapForeign` free one that is not the space's.
- `mm/obj.c:40` cuts off the free chain: `Slab.ObjAlloc.ObjectFree`, `Slab.FreeTwo`. The end of an
  address space loses all its areas to this: `AreaRing.AreaList.Drain`. Line 13 goes on without a
  page: outcome `Fault`, and so the tests of `mm/vmem.c` for a NULL object are never true.
- `sched/sched.c:161` has its comparison the wrong way round: `TaskProgress.QuantumIsOneTick`. Line
  172 reads past the table before it looks at the bound, which does no harm:
  `Kernel.TaskTable.AllocateTask`.
- `kernel/syscall.c:55` goes on without a slot, and line 95 indexes the table with any number:
  outcome `Crash`, reached by `TaskTheorems.ForkCrashIsPossible` and `CrashIsPossible`. Line 114
  accepts either flag where both are needed: `WaitStatus.StatusTest`; it looks at the first of four
  bytes, which is enough for aligned addresses only (`AllFourBytes`, `BytesBeyond`). A wait for a
  reaped child whose slot is still free never ends: `TaskTheorems.NoLostWakeUp`, `StuckForever`; a
  run that gets there is `WakeUpCanBeLost`.

## Model

| member | source | states |
|---|---|---|
| `Lists.ListEmpty` | utils/list.c:4-8 | a list is empty exactly when it is a ring of one node |
| `Lists.ListInit` | utils/list.c:10-15 | the node becomes a ring of its own |
| `Lists.ListInsertAfter` | utils/list.c:17-29 | the ring is the old one with the new node after the given one: `next` and `prev` stay inverse all around |
| `Lists.ListExtract` | utils/list.c:31-41 | the ring is the old one without the node, and the node's own links are left as they were |
| `Lists.InsertInTable` | utils/list.c:10-29 | of several lists in one memory the others are untouched by an insertion |
| `Lists.ExtractFromTable` | utils/list.c:31-41 | of several lists in one memory the others are untouched by an extraction |
| `Bits.WriteBitExact` | common.h:33-36 | setting, clearing or flipping a bit of a byte changes that bit as named and no other bit |
| `ZoneAddr.BuddyAddr` | mm/frame_alloc.c:230 | in an aligned zone, flipping bit 12 + order of a block's address gives the address of its buddy |
| `ZoneAddr.FlipIsXor` | common.h:36 | FLIP_BIT, written with plus and minus, changes the named bit of an address and no other |
| `ZoneAddr.IndexOfAddr` | mm/frame_alloc.c:193 | the index computed from a block's address is the block's index |
| `ZoneAddr.ParentAddr` | mm/frame_alloc.c:271-272 | the lower of two buddies' addresses is where the block of both starts |
| `ZoneAddr.RoundedDown` | mm/frame_alloc.c:275 | the assertion after coalescing holds: the final block starts at the freed address rounded down to its size |
| `Buddy.TakeKeeps` | mm/frame_alloc.c:190-196 | taking a listed block keeps the buddy invariant: blocks tile the zone, no overlap, no two free buddies |
| `Buddy.SplitKeeps` | mm/frame_alloc.c:222-236 | splitting a taken block and listing its second half keeps the invariant |
| `Buddy.MergeKeeps` | mm/frame_alloc.c:267-272 | coalescing a block with its free buddy keeps the invariant |
| `Buddy.ReleaseKeeps` | mm/frame_alloc.c:277-280 | listing a block whose buddy is busy keeps the invariant |
| `Buddy.AllocKeeps` | mm/frame_alloc.c:181-243 | an allocation keeps the invariant and adds exactly one live block, inside the free block it came from |
| `Buddy.FreeKeeps` | mm/frame_alloc.c:245-281 | a deallocation with all its coalescing keeps the invariant and removes exactly the freed live block |
| `Buddy.RunInsideFreeBlock` | mm/frame_alloc.c:251-280 | every aligned, fully free run of pages lies inside one listed block |
| `Buddy.Canonical` | mm/frame_alloc.c:251-280 | the listed blocks are exactly the maximal aligned runs of free pages |
| `Buddy.LiveDeterminesState` | mm/frame_alloc.c:251-280 | two states with the same live blocks have the same free lists |
| `Buddy.AllocCompleteness` | mm/frame_alloc.c:186-242 | a large enough listed block exists if and only if an aligned free run of that size does |
| `Buddy.AllocFreeRoundTrip` | mm/frame_alloc.c:181-281 | freeing a block just allocated restores every free list |
| `Buddy.OnePageAlloc` | mm/frame_alloc.c:181-243 | an allocation of order 0 takes exactly one free page, and every other page is as free as before |
| `Buddy.OnePageFree` | mm/frame_alloc.c:245-281 | a deallocation of order 0 makes exactly one page free that was not, whatever it is merged into |
| `Buddy.InitialInv` | mm/frame_alloc.c:171-176 | a zone with all its largest blocks listed satisfies the invariant |
| `Buddy.RunKeeps` | mm/frame_alloc.c:181-281 | the invariant holds after every run of allocations and matching deallocations |
| `Buddy.RunToEmptyIsInitial` | mm/frame_alloc.c:171-281 | a run that frees everything, in any order, ends in the state zone_add built |
| `Buddy.RunsAgree` | mm/frame_alloc.c:181-281 | two runs that leave the same blocks live leave the same free lists |
| `ListOrder.ListsRoundTrip` | mm/frame_alloc.c:181-281 | freeing a block just allocated restores every free list with its order, so that the next request of the order gets the same block |
| `ZoneLayout.PerOrderFits` | mm/frame_alloc.c:135-163 | sized per order as line 140 does, the bitmaps are disjoint, hold a bit for each pair and fit in the reserved pages |
| `ZoneLayout.AsWrittenFitsIffEmpty` | mm/frame_alloc.c:158-163 | sized as line 160 does, the bitmaps are disjoint if and only if the zone manages nothing |
| `ZoneLayout.AsWrittenCannotDescribe` | mm/frame_alloc.c:158-163 | with line 160's bases no contents of the bitmaps can describe the free blocks after a split: two pairs share a bit |
| `ZoneLayout.NeverEmpty` | mm/frame_alloc.c:129-157 | every region line 129 lets through manages at least one largest block |
| `ZoneLayout.EveryRegion` | mm/frame_alloc.c:129-163 | in every region line 129 lets through, the bitmaps fit as line 140 sizes them and overlap as line 160 does |
| `ZoneLayout.ZoneShape` | mm/frame_alloc.c:150-154 | the zone starts aligned after the bitmaps and consists of whole largest blocks, no more pages than are left |
| `ZoneLayout.ZoneInsideRegion` | mm/frame_alloc.c:148-154 | the zone stays inside its region if and only if the pages lost to alignment would not have filled another block |
| `ZoneLayout.ZoneOutsideRegion` | mm/frame_alloc.c:148-154 | a region of 2049 pages at address 0 gets a zone that ends 1023 pages past the region |
| `ZoneLayout.ZonesApart` | mm/frame_alloc.c:148-154 | the zones of disjoint regions never meet, although a zone may leave its region |
| `ZoneLayout.BitmapsInZone` | mm/frame_alloc.c:148-154 | of two regions one behind the other, the first one's zone holds bitmap bytes of the second if and only if it leaves its region |
| `ZoneLayout.BitmapsOverrun` | mm/frame_alloc.c:148-154 | the zone of 2049 pages at address 0 holds all bitmaps of a region right behind it |
| `Zones.PlanZone` | mm/frame_alloc.c:126-163 | start, number of largest blocks and bitmap bases are those of the layout functions |
| `Zones.Zone.constructor` | mm/frame_alloc.c:126-179 | lists and blocks are those of a fresh zone, the list of the largest order from the last block down to the first; the whole invariant holds if and only if the bitmaps are disjoint and the uncleared reserved pages happen to hold zero bits |
| `Zones.Zone.UpdateBit` | mm/frame_alloc.c:195-196 | writing one pair's bit brings the bitmaps in line with a change of the free blocks of that pair |
| `Zones.Zone.SplitDown` | mm/frame_alloc.c:222-236 | the split loop reaches the state of the specification, leaving the first half at the same address |
| `Zones.Zone.ZoneAlloc` | mm/frame_alloc.c:181-243 | NULL exactly if all lists from the order up are empty; otherwise the best fit is split, its first part returned and cleared, nothing else in memory cleared, and lists and blocks are those of the specification, in order; an exact fit of the largest order goes through a NULL bitmap |
| `Zones.Zone.Coalesce` | mm/frame_alloc.c:255-272 | one round: the bit says whether the buddy is free; then both become one live block, otherwise the bit is set |
| `Zones.Zone.ZoneDealloc` | mm/frame_alloc.c:245-281 | the state becomes that of the specification: lists, bitmaps and blocks agree again, and each list has the order the coalescing leaves |
| `Zones.LargestRequest` | mm/frame_alloc.c:186-196 | in every region, even with disjoint and cleared bitmaps, the first request for a largest block writes through the NULL bitmap |
| `Zones.FirstRequest` | mm/frame_alloc.c:171-176 | in every region the first request for less than a largest block is served at the start of the zone's last 4 MB: the last block added is the first in the list |
| `Frames.Pages2Order` | mm/frame_alloc.c:283-291 | the least order whose blocks hold the requested pages |
| `Frames.ExhaustedMeansNoRun` | mm/frame_alloc.c:186-242 | the lists have no block for an order if and only if the zone has no aligned free run of that size |
| `Frames.ExhaustedMeansNoPage` | mm/frame_alloc.c:186-242 | for one page the lists are exhausted if and only if the zone has no free page |
| `Frames.FrameAllocator.FramesAlloc` | mm/frame_alloc.c:87-98 | the first zone with a large enough block serves the request; all zones before it are exhausted and all others unchanged |
| `Frames.FrameAllocator.FramesFree` | mm/frame_alloc.c:100-114 | the zone around the address takes its block back, the others are unchanged; an address in no zone is a panic and changes nothing |
| `Frames.PageTaken` | mm/frame_alloc.c:87-98 | when one zone serves one page, its address was in the set of free pages of all zones and is all that leaves it |
| `Frames.PageReturned` | mm/frame_alloc.c:100-114 | when one zone takes one page back, its address was not in the set of free pages of all zones and is all that joins it |
| `Frames.FrameAllocator.FrameAlloc` | mm/frame_alloc.c:116-119 | over all zones: the address returned was a free page, the free pages are the others, and NULL is returned exactly if no page was free |
| `Frames.FrameAllocator.FrameFree` | mm/frame_alloc.c:121-124 | over all zones: the page freed was not free, and the free pages are the old ones and it |
| `Frames.NewAllocator` | mm/frame_alloc.c:126-179 | the zones of any disjoint regions, with bitmaps sized per order and cleared, make a valid allocator in which nothing is allocated |
| `Paging.DecodeEncode` | mm/paging.h:7-17 | an entry written as a word is read back as the same entry |
| `Paging.EncodeDecode` | mm/paging.h:7-17 | every word is exactly one entry: no bits overlap, none are dropped |
| `Paging.BitNumbers` | mm/paging.h:7-17 | the bits of an entry are those of the Intel SDM, by number: present 0, writable 1, user 2, page size 7, address 12 to 47; and 10 for allocated pages |
| `Paging.FlagNumbers` | mm/vmem.h:8-13 | the flags 1, 2 and 4 of a caller are user, write and allocated |
| `Paging.FlagsRoundTrip` | mm/vmem.c:299-327 | user, write and allocation flags survive vmem_unconvert_flags followed by vmem_convert_flags |
| `Paging.LeafWord` | mm/vmem.c:225-263 | the words the mapping functions write decode to the entries of the model |
| `Paging.OrWord` | mm/vmem.c:377 | or-ing converted flags into an entry raises just these flags |
| `Paging.UnmapTest` | mm/vmem.c:364 | the test against VMEM_ALLOC is a test of the user bit |
| `Paging.FieldsApart` | mm/paging.h:29-30 | the fields MAKE_ADDR joins with `|` do not overlap, so that their sum, used in the model, is the same word |
| `Paging.IndexBits` | mm/paging.h:21-24 | the shifts and masks of the index macros are the divisions and remainders of the model |
| `Paging.IndicesOfMadeAddr` | mm/paging.h:21-30 | MAKE_ADDR of four indices gives a canonical address with just these indices |
| `Paging.MadeAddrOfIndices` | mm/paging.h:21-30 | a canonical address is MAKE_ADDR of its indices and offset |
| `Paging.PagesApart` | mm/paging.h:21-24 | two canonical addresses have the same indices if and only if they are in the same page |
| `Paging.Conversions` | mm/paging.h:26-27 | the direct-map conversions are inverse, and that of NULL is not NULL |
| `Tables.WayDown` | mm/vmem.c:205-265 | in every sound state the present entries on the way to a page lead to the space's own tables |
| `Tables.EffectiveRights` | mm/vmem.c:370-390 | the user and write rights the processor grants, the AND over all entries passed, are those of the leaf entry |
| `TableSteps.OrKeeps` | mm/vmem.c:374-378 | raising flags of a present entry keeps the trees sound; if it points to a table no translation of any space changes, and if it is a large page exactly its range gets the flags |
| `TableSteps.LinkKeeps` | mm/vmem.c:379-387 | entering a new, cleared table keeps the trees sound and every translation of every space |
| `TableSteps.LeafSound` | mm/vmem.c:225 | writing a leaf keeps the trees sound: frames have one place, rights shrink on the way down |
| `TableSteps.LeafRemaps` | mm/vmem.c:225 | writing a leaf changes the translation of its own range in its own space, and no other |
| `Vmem.PhysMem.FrameAlloc` | mm/frame_alloc.c:116-119 | contract used by the address spaces: some free frame, cleared and no longer free; None exactly if none is free |
| `Vmem.PhysMem.FrameFree` | mm/frame_alloc.c:121-124 | contract used by the address spaces: an allocated frame outside all spaces is free again, all other owned frames keep their contents |
| `Vmem.PhysMem.EnsureNextTable` | mm/vmem.c:370-390 | the entry gets just the given flags more, or points to a new cleared table with these flags, and no other entry changes; no translation changes, unless the entry is a large page: then its range gets the flags and its frame is returned for a table; fails only without a free frame |
| `Vmem.PhysMem.MapPage` | mm/vmem.c:205-227 | on success exactly the page `va` of the space is remapped; the assertion fails exactly if the page is present; a large page on the way is taken for a table exactly if there is one, and then its whole range has the new page's flags, all else as before; an error changes no translation |
| `Vmem.PhysMem.MapPage2M` | mm/vmem.c:229-248 | the same for the 2 MB range |
| `Vmem.PhysMem.MapPage1G` | mm/vmem.c:250-265 | the same for the 1 GB range; a 1 GB page already there is replaced |
| `Vmem.HoldFrame` | mm/vmem.c:458-462 | a free frame may be taken and written without any space noticing |
| `Vmem.DropFrame` | mm/vmem.c:190-202 | a frame outside the spaces may be freed without any space noticing |
| `Clone.InitSpace` | mm/vmem.c:68-72 | a new space takes one frame and maps nothing; it fails exactly without a free frame |
| `Clone.EmptyMappable` | mm/vmem.c:224-262 | the assertions of the mapping functions hold for a path at which nothing is mapped |
| `Clone.CloneAllocPage` | mm/vmem.c:455-467 | an allocated page gets a frame of its own with the same contents; fails only without a free frame |
| `Clone.ClonePage` | mm/vmem.c:445-475 | a 4 KB leaf is copied or shared, with size and flags, the rest of the space and all other spaces unchanged |
| `Clone.CloneLargePage` | mm/vmem.c:407-442 | a 2 MB or 1 GB leaf is shared, with size and flags |
| `Clone.ClonePages` | mm/vmem.c:392-481 | after the four nested loops every page of the copy means what the page of the source meant; no assertion fires; failure only without a free frame |
| `Clone.CloneSpace` | mm/vmem.c:96-126 | on success the copy means the source, allocated pages in fresh frames with equal contents; a failure loses exactly the frames that were free; in any case every existing space is intact, table for table and page for page |
| `Destroy.BelowEntry` | mm/vmem.c:149-200 | a frame of the space below an entry is there only because the entry points to it: the loops miss none |
| `Destroy.OnlyPage` | mm/vmem.c:184-190 | below an entry of a page table is its own allocated page or nothing |
| `Destroy.DestroyTable` | mm/vmem.c:181-193 | frees the page table and its allocated pages, each once, reading no freed table |
| `Destroy.DestroyTables` | mm/vmem.c:148-202 | frees every frame of the space once and nothing else |
| `Destroy.DestroySpace` | mm/vmem.c:134-203 | refused exactly for the space in use; otherwise the free set grows by exactly the space's frames and every other space is intact |
| `Destroy.SpaceLifetime` | mm/vmem.c:68-203 | if between creation and destruction only the space took frames, the free set is what it was |
| `Destroy.CloneThenDestroy` | mm/vmem.c:96-203 | cloning and destroying the copy restores the free set and all owners, and leaves every space intact |
| `Unmap.UnmapPage` | mm/vmem.c:346-368 | the page is absent afterwards and no other translation changes; a frame is freed exactly if the user bit is set; with the user bit but not allocated, it is a frame the space does not own; with a large page on the way its frame is read as a table |
| `Unmap.UnmapIsRight` | mm/vmem.c:364-367 | unless a large page is in the way: no foreign frame is freed, the page's frame is freed exactly if it was allocated, and nothing is lost, if and only if user and allocation bit agree |
| `LargePages.DirectOpened` | mm/vmem.c:209-219 | in the first task's space, mapping any small page inside the direct mapping ends in the use of a large page as a table, and gives the page's flags to the whole gigabyte around it |
| `LargePages.CodeStolen` | mm/vmem.c:363-365 | in the first task's space, unmapping the code page frees a frame that no space owns |
| `LargePages.MapInside` | mm/vmem.c:205-222 | with any six frames: a user page is mapped inside a large kernel page, and the large page is a user page afterwards |
| `LargePages.UnmapInside` | mm/vmem.c:352-363 | with any six frames: a page is unmapped inside a large page, whose frame is read as a table |
| `LargePages.UnmapForeign` | mm/vmem.c:363-367 | with any six frames: a user page that is not an allocated one is mapped and unmapped, and a frame is freed that the space does not own |
| `Areas.LookupUnique` | mm/vmem.c:267-280 | with disjoint areas the one that covers an address is found, wherever it is in the list |
| `Areas.MeetsExactly` | mm/vmem.c:329-344 | the test in plain inequalities for every region, also one that wraps around: an area meets it exactly if it ends after the region's start and starts before its start plus the number of pages |
| `Areas.TestIsRight` | mm/vmem.c:18-35 | the test finds an overlap just if there is one, if and only if one of the first bytes is taken or neither an area without pages lies among them nor another area starts after them |
| `Areas.ClearAccepted` | mm/vmem.c:18-35 | a region with pages that shares no byte with any area, none of them empty, is accepted, and the areas stay in order |
| `Areas.MatchesExactly` | mm/vmem.c:37-52 | a release finds an area exactly if it has the given start and number of pages, the number taken modulo 2^52 |
| `Areas.PlacedOk` | mm/vmem.c:18-35 | a region that passes vmem_intersects keeps the areas proper and disjoint if and only if it is proper and no area starts in the part the test does not look at |
| `Areas.OverlapAccepted` | mm/vmem.c:329-344 | two pages at 0x1000 are accepted although 0x2000 is taken |
| `Areas.ReversedSame` | mm/vmem.c:102-118 | the reversed list of disjoint areas answers every lookup as the original |
| `Areas.ReversedDiffers` | mm/vmem.c:102-118 | if two areas cover an address the copied list finds the other one |
| `Areas.WithoutLookup` | mm/vmem.c:61-62 | without an area its addresses are not found, all others as before |
| `AreaRing.AreaList.constructor` | mm/vmem.c:78-79 | the list of a new space is its head alone |
| `AreaRing.AreaList.Push` | mm/vmem.c:30-34 | on the ring of list nodes: the new area is first, the others follow as before |
| `AreaRing.AreaList.Find` | mm/vmem.c:267-280 | on the ring: the walk from node to node finds what the lookup in the sequence of areas finds |
| `AreaRing.AreaList.Intersects` | mm/vmem.c:329-344 | on the ring: the test of the sequence of areas, of which Areas.MeetsExactly says what it finds |
| `AreaRing.AreaList.Extract` | mm/vmem.c:44-61 | on the ring: the first area with these bounds leaves, its node is the one returned, the others keep their order; none leaves exactly if none matches |
| `AreaRing.AreaList.Copy` | mm/vmem.c:102-118 | on the rings: inserting each copy after the head makes the reversed sequence, and the source list is untouched; it ends early exactly if the objects run out |
| `AreaRing.AreaList.Drain` | mm/vmem.c:138-146 | every area leaves the ring and is freed, then the head: of all these objects only the head stays on the free chain, the areas and what was free before are lost |
| `Spaces.Create` | mm/vmem.c:68-80 | a new space has no areas and no pages and satisfies the invariant of spaces |
| `Spaces.Space.IsMapped` | mm/vmem.c:267-280 | returns the first area that covers the address |
| `Spaces.Space.Intersects` | mm/vmem.c:329-344 | the literal test: some area meets the region counted with its number of pages for its number of bytes |
| `Spaces.Space.AllocPages` | mm/vmem.c:18-35 | panics exactly if the test says so; a region clear of all areas is accepted; an accepted area is first in the list, and the areas are in order if and only if the region is proper and no area starts in its unexamined part |
| `Spaces.PlacedFits` | mm/vmem.c:18-35 | a new area keeps pages and areas in agreement if and only if nothing is mapped in it |
| `Spaces.Space.MapBogus` | mm/vmem.c:288-294 | with no frame left the NULL test never fires: if the page table exists exactly the faulting page is mapped, to a frame that does not exist, and the tables are not sound any more; only otherwise is there a panic, and no translation changes |
| `Spaces.BogusIsNull` | mm/vmem.c:288 | the NULL of frame_alloc becomes the frame number that the model names |
| `Spaces.Space.HandlePf` | mm/vmem.c:282-297 | false exactly outside all areas; otherwise the page is mapped to a fresh zeroed frame with the area's flags, or one of the panics happens exactly as stated, or the page is mapped to the bogus frame; nothing else changes, all owners stay, and the invariant is kept if and only if no bogus frame was mapped |
| `Spaces.FaultSpares` | mm/vmem.c:282-297 | however a fault in one space ends, every page of every other space translates as before and suits its areas |
| `Spaces.Space.FreePages` | mm/vmem.c:37-66 | panics exactly without a matching area; otherwise area and pages are gone, nothing outside changes, and the frames are freed if the area has the user flag and lost if not |
| `Spaces.ReleaseIsRight` | mm/vmem.c:64-65 | exactly the area's frames are given back if and only if it is a user area or no page of it was touched |
| `Spaces.DataWalk` | mm/vmem.c:455-467 | every allocated page of a space is what its place translates to |
| `Spaces.Space.CloneInto` | mm/vmem.c:96-126 | areas reversed with the same lookups, pages with the same meaning, both spaces satisfy the invariant, no other space changes |
| `Spaces.Space.TearDown` | mm/vmem.c:134-203 | areas and frames of the space are given back, unless it is in use |
| `Spaces.Lifetime` | mm/vmem.c:18-297 | create, add an area, serve any page faults, destroy: unless a fault finds no frame the free set and all owners are as before |
| `SpaceRuns.IntactWalks` | mm/vmem.c:134-203 | a space all of whose tables and pages are as before translates every page as before |
| `SpaceRuns.System.DoNew` | mm/vmem.c:68-80 | with any number of spaces: a new one without pages joins exactly if a frame is free, no page of another changes, and no frame is lost |
| `SpaceRuns.System.DoPlace` | mm/vmem.c:18-35 | with any number of spaces: at low addresses, and with no area in the part the test does not see, a region is accepted exactly if the test finds no area, and then all spaces stay in order |
| `SpaceRuns.System.DoTouch` | mm/vmem.c:282-297 | with any number of spaces: how a fault in one ends, in all cases; all others are as before, the areas and pages of all are in order, and memory is sound if and only if no bogus frame was mapped; no frame is lost unless there is a panic |
| `SpaceRuns.System.DoRelease` | mm/vmem.c:37-66 | with any number of spaces: a panic exactly without an area with these bounds; otherwise its pages and no others are unmapped, all spaces stay in order, and lost are exactly the frames of the area if it has no user flag, and none otherwise |
| `SpaceRuns.System.DoCopy` | mm/vmem.c:96-126 | with any number of spaces: the copy joins with the areas reversed and the pages of the original, no page of another space changes, and nothing is lost; a copy that fails loses exactly the frames that were free |
| `SpaceRuns.System.DoEnd` | mm/vmem.c:134-203 | with any number of spaces: one is gone and its frames are free, the pages of all others are as before, and no frame is lost |
| `SpaceRuns.System.Run` | mm/vmem.c:18-297 | every run of these operations that only a new area, a fault or a release can end: as long as it goes on all spaces stay in order, what is lost stays lost, and when no space is left all else is free; with user areas only and no failing copy nothing is lost |
| `SpaceRuns.WholeRun` | mm/vmem.c:18-297 | from empty memory, any run over any number of spaces that ends without one, with user areas only and no failing copy, gives every frame back |
| `FaultCases.EnoughFrames` | mm/vmem.c:282-297 | a fault on an unmapped page of an area is served whenever five frames are free: it takes the page and at most three tables |
| `FaultCases.KernelPageLost` | mm/vmem.c:37-66 | with any six frames: a page of an area without the user flag is touched, the area is released, and the frame is neither free nor any space's |
| `FaultCases.BogusPage` | mm/vmem.c:288-294 | with any six frames: a fault next to a mapped page, when no frame is left, maps the page to a frame that does not exist, and the tables are not sound afterwards |
| `Boot.MapDirect` | sched/sched.c:20-31 | after the loop the direct mapping is there, the rest still empty; no assertion fires |
| `Boot.MapSections` | sched/sched.c:33-45 | after the loop the kernel sections are mapped, covering them to the end; no assertion fires |
| `Boot.SetupVmem` | sched/sched.c:18-53 | the space means exactly the three regions; fails only for lack of memory |
| `Boot.DirectMapping` | mm/mem_layout.h:11-12 | every physical address below 64 TB is reached, writable and not for users, at its direct-map address |
| `Boot.SectionMapping` | mm/mem_layout.h:8-9 | every byte of the kernel sections is reached at its link address 0xffffffff80000000 + x, writable and not for users |
| `Boot.UserMapping` | sched/sched.c:47-50 | every byte of the first task's code is reached at 0x10000 + x, for users and not writable |
| `InitTask.StackFits` | sched/sched.c:69-72 | the stack area is clear of all that setup_vmem maps, so that areas and pages agree |
| `InitTask.SetupSpace` | sched/sched.c:61-72 | the first task's space satisfies the invariant of spaces; users may read and write at 0x70000000 to 0x70003fff, and no other address is in an area; the three regions are its only pages; fails only without a free frame |
| `InitTask.TouchStack` | sched/sched.c:69-72 | a fault on the stack in that space, with five frames free, maps a page of zeros that users may read and write |
| `InitTask.KernelRun` | sched/sched.c:61-72 | from the first task's space on, in every run that the kernel survives all spaces stay in order; with user areas only and no failing copy no frame is lost |
| `Slab.StrideFits` | mm/obj.c:24 | from one object to the next it is the size rounded up to whole cache lines of 64 bytes |
| `Slab.PerPage` | mm/obj.c:15-25 | exactly (4096 - size) / stride + 1 objects fit in a page, for every size from 1 to 4096 |
| `Slab.SlotsApart` | mm/obj.c:19-25 | objects are 64-byte aligned, inside their page and do not overlap |
| `Slab.CarvedSlots` | mm/obj.c:19-25 | carving until nothing fits gives exactly the slots of the page |
| `Slab.ObjAlloc.Carve` | mm/obj.c:10-28 | the loop chains all objects of the page, none of which existed before |
| `Slab.ObjAlloc.ObjectAlloc` | mm/obj.c:5-33 | never returns an object that is live or lost; and never NULL; takes a page only if the chain is empty; faults exactly if it then gets none; live objects keep their contents |
| `Slab.ObjAlloc.ObjectFree` | mm/obj.c:35-42 | the chain becomes the freed object alone and all it held is lost: nothing is lost if and only if it was empty |
| `Slab.FreeTwo` | mm/obj.c:35-42 | of two live objects freed one after the other the first is lost |
| `Tasks.FreeSlot` | sched/sched.c:169-180 | the slot found is the first free one from 1 on, None exactly if there is none |
| `TaskSafety.StepKeeps` | kernel/syscall.c:32-127 | every step keeps the invariant of tasks and resources; a step crashes exactly if it forks with a full table or waits for a slot beyond its end |
| `TaskSafety.InitialInv` | sched/sched.c:55-81 | the table with the first task satisfies the invariant |
| `TaskSafety.RunKeeps` | kernel/syscall.c:32-127 | the invariant holds after every run |
| `TaskSafety.CleanFrees` | sched/sched.c:124-132 | what is freed of a zombie exists, is nobody else's, and is not in use |
| `TaskTheorems.StuckForever` | kernel/syscall.c:92-107 | a task that waits for a free slot, or for another's child, waits forever |
| `TaskTheorems.GoodStep` | kernel/syscall.c:78-81 | a waiting task whose child lives is woken in the step in which the child dies, with the child a zombie of its own, and not before |
| `TaskTheorems.NoLostWakeUp` | kernel/syscall.c:73-108 | in every run all waiting tasks wait for a living child of their own if and only if nobody has waited for a free slot |
| `TaskTheorems.WakeUpCanBeLost` | kernel/syscall.c:92-107 | a run from the start in which a task reaps its child and then waits for it again waits forever |
| `TaskTheorems.CrashIsPossible` | kernel/syscall.c:92-95 | a run from the start ends in a wait for a slot beyond the table |
| `TaskTheorems.ForkCrashIsPossible` | kernel/syscall.c:55-57 | a run from the start in which every fork succeeds reaches a fork that goes on without a slot |
| `TaskTheorems.WaiterFindsZombie` | kernel/syscall.c:106-107 | in every run a task that comes back into sys_wait finds its child a zombie: the assertion holds |
| `TaskTheorems.GoneForever` | sched/sched.c:124-132 | an address space or kernel stack once destroyed never exists again in any run |
| `TaskTheorems.GoneStep` | sched/sched.c:124-132 | spaces are destroyed only by the scheduler back from a task that died, after leaving that space |
| `TaskTheorems.OneEach` | kernel/syscall.c:51-127 | in every run with successful forks the spaces and stacks that exist are exactly those of the tasks neither free nor zombie, one each |
| `TaskTheorems.FailedForksLeak` | kernel/syscall.c:57-65 | in every run each fork that fails after it has a PML4 leaves one more address space that exists for ever and is no task's |
| `WaitStatus.StatusTest` | kernel/syscall.c:110-124 | for a space in order: a zombie child is reaped just if there is no status address or users may write to it, if and only if the address is not in an area that has one of the two flags only |
| `WaitStatus.AllFourBytes` | kernel/syscall.c:113-120 | an aligned status address is in an area if and only if all four bytes of the status are |
| `WaitStatus.BytesBeyond` | kernel/syscall.c:113-120 | an address that is not aligned passes the lookup at the end of an area with bytes beyond it |
| `TaskProgress.DispatchedIffReady` | sched/sched.c:108-121 | the task whose slot is looked at is dispatched, for ten ticks, if and only if it is runnable or asleep with its time come; otherwise the next of 65536 slots is looked at |
| `TaskProgress.ReadyStep` | sched/sched.c:108-134 | until dispatched a ready task stays ready, each slot the scheduler looks at brings it one closer, and at its own slot it is dispatched |
| `TaskProgress.BoundedWaiting` | sched/sched.c:108-134 | in every run in which a ready task is not dispatched fewer than MAX_TASK_COUNT slots are looked at and no more tasks dispatched |
| `TaskProgress.QuantumIsOneTick` | sched/sched.c:152-167 | as the comparison is written, no run keeps a task on the processor over a tick; the first tick sends it back, runnable |
| `TaskProgress.TimerCounts` | sched/sched.c:152-154 | over every run the timer grows by the number of ticks |
| `TaskProgress.SleepAsked` | kernel/syscall.c:32-43 | the caller of sys_sleep sleeps for the milliseconds it asked for, in whole ticks of ten, rounded down |
| `TaskProgress.SleepsLongEnough` | kernel/syscall.c:32-43 | in every run a sleeping task is not dispatched before its time, and sleeps on unchanged until it is dispatched |
| `TaskProgress.SleepTime` | kernel/syscall.c:32-43 | a task that asks for ms is not dispatched in any run of fewer than ms / 10 ticks, and in every run after them fewer than 65536 slots are looked at before it is dispatched |
| `TaskProgress.SleepsAndReturns` | kernel/syscall.c:32-43 | from the start the first task can sleep and be dispatched again after exactly ms / 10 ticks |
| `ExitCodes.ExitCodeStored` | kernel/syscall.c:73-76 | sys_exit with a 32-bit number, sign-extended in the register, leaves a zombie with that number |
| `ExitCodes.ZombieStep` | kernel/syscall.c:73-127 | nothing in a zombie's slot changes but by its parent's sys_wait, which only frees it |
| `ExitCodes.ParentGetsCode` | kernel/syscall.c:73-127 | in every run after a task's exit its slot keeps the number until its parent reaps it, and the parent is given the number passed to sys_exit if it asks for it |
| `ExitCodes.WaiterGetsCode` | kernel/syscall.c:92-127 | a parent that waits for a living child is runnable from its exit on, in every run, and on its return finds the number passed to sys_exit to be stored at an accepted address |
| `Kernel.TaskTable.constructor` | sched/sched.c:55-81 | the table starts as the initial state |
| `Kernel.TaskTable.ScanSlot` | sched/sched.c:111-121 | the body of the scan loop up to the switch is the step of the specification; it dispatches exactly a task that is runnable or has slept long enough |
| `Kernel.TaskTable.ComeBack` | sched/sched.c:122-132 | the rest of the body is the step of the specification |
| `Kernel.TaskTable.TimerTick` | sched/sched.c:152-167 | the tick is the step of the specification, with the comparison as written; the timer is one more |
| `Kernel.TaskTable.AllocateTask` | sched/sched.c:169-180 | the first free slot from 1 on, whatever is read past the end of the table |
| `Kernel.TaskTable.SysSleep` | kernel/syscall.c:32-43 | sys_sleep up to its switch: the caller sleeps until ms / 10 ticks from now |
| `Kernel.TaskTable.SysFork` | kernel/syscall.c:51-71 | sys_fork with each way to fail; it crashes exactly without a free slot, and returns an error or the number of the slot that was free and now is the caller's runnable child |
| `Kernel.TaskTable.SysExit` | kernel/syscall.c:73-90 | sys_exit up to its switch, keeping the exit code and waking the parent |
| `Kernel.TaskTable.SysWait` | kernel/syscall.c:92-127 | sys_wait up to its switch or its end; a slot number beyond the table is an access outside it; -ECHILD exactly for a slot that is not the caller's child, no return exactly if the child is not dead, -EINVAL exactly for a refused status; the exit code is stored exactly with 0 and a status address |
| `Kernel.TaskTable.FinishWait` | kernel/syscall.c:110-126 | the end of sys_wait: a refused status argument leaves the zombie and returns -EINVAL, otherwise the exit code is stored, the slot is free and 0 is returned |

## Left out

- Boot code, linker script, descriptor tables, model-specific registers and all assembly: hardware
  state without an algorithm. A change of context is a step of the scheduler.
- Firmware tables, timers, Multiboot and the region filter of `frame_alloc_init`: the zones are given.
- Console, framebuffer, `printk` and the text of panics. A panic or a failed `kassert` is an outcome or
  is proved not to happen; the alignment asked for by `kassert_dbg` is a precondition.
- TLB contents, accessed and dirty bits, and interrupts in the middle of a system call
  (`arch/x86/syscall.asm:98` allows them): the step machine takes a system call up to its switch as
  one step. `vmem_switch_to` is only the choice of the space in use.
- `vmem_init_from_current`: the boot page tables it copies are not part of this model; the copying
  itself is `Clone.ClonePages`.
- Wrap-around of the 64-bit timer and of pids; the address arithmetic of areas does wrap.
- `sys_getpid` and the dispatch of system calls by number, which would only add easy members.
- The register frame of a new thread, and the idle `hlt` of the scheduler, which changes no state.
- Cycles of tasks waiting for each other, which the reuse of pids makes possible.
- Address spaces keep their areas in a sequence, and the elements are taken to be allocated: the list in
  memory is `AreaRing`, the failing `object_alloc` is in `Slab`, where it is a fault and not a NULL. That
  the objects take frames from the same allocator is not modelled.
- Zones.Zone.constructor: the memory of the zone is given as objects, one list node and one content
  number for each page; that writing a node overwrites the page is not modelled, and a page is
  cleared when it is handed out.
- Zones.Zone.ZoneAlloc: what the write through a NULL bitmap does to memory is not modelled; the
  lists are as if it had done nothing.
- Vmem.PhysMem.FrameAlloc: the address spaces use the allocator through this contract, which names
  frames by number. `Frames.FrameAllocator.FrameAlloc` and `FrameFree` promise the same of the set of
  free pages, by address; the two classes are not joined into one.
- Vmem.PhysMem.FrameFree: the allocator links the free frames through their own memory; here the freed
  frame alone changes, and no contract speaks of what a free frame holds before it is cleared.
- Vmem.PhysMem.MapPage: the state of `Wild` is the one in which the large page's frame is first used as a
  table. What the code then reads there, writes there and allocates is not modelled.
- Vmem.PhysMem.MapPage2M: the same for `Wild`.
- Unmap.UnmapPage: nothing happens in the model after `Wild` and `Stolen`.
- Unmap.ClearEntry: clears the entry before the free, the code after it; the two touch different frames.
- Spaces.Space.AllocPages: the object for the area is taken to be there; `object_alloc` has no failing
  return, only the fault of `Slab.ObjAlloc.ObjectAlloc`.
- Spaces.Space.CloneInto: the objects for the copied areas are taken to be there; `AreaRing.AreaList.Copy`
  is the loop with objects that run out.
- Spaces.Space.TearDown: the objects of the areas are not tracked; `AreaRing.AreaList.Drain` tracks them.
- Clone.CloneSpace: a failure loses all frames that were free; how many of them are tables of the
  half-built space and how many pages is not stated.
- Kernel.TaskTable.SysFork: space and stack are names, and how the copying of the address space ends is a
  parameter; the copying is `Spaces.Space.CloneInto`.
- Kernel.TaskTable.SysWait: the outcome of the status lookup is a parameter, which
  `WaitStatus.StatusAt` computes from the areas; what is stored is an out-parameter, and the store in the
  memory of the caller, with the page fault it may cause, is not modelled.
- Kernel.TaskTable.FinishWait: the same.
- SpaceRuns.System.Run: a run ends where the kernel panics or maps the bogus frame, and at an area
  outside the low addresses or over another one that the test does not see.
- Frames.NewAllocator: the memory of bitmaps and of zones is given as separate objects, also for regions
  where `BitmapsInZone` says that they meet.
- Tasks.Forked: a failing fork leaks what it has; only whole address spaces are counted
  (`TaskTheorems.FailedForksLeak`).
