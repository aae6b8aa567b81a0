# Memory management of the extron kernel, verified

The kernel's memory stack has four layers, each built on the one below: a frame allocator over the
boot loader's memory map, four-level page tables, a next-fit allocator of virtual page ranges, and
the heap behind `kmalloc`, `kfree`, `krealloc` and `kcalloc`. This project models all four as
imperative Dafny classes with the source's fields, loops and branches, and proves what each promises
and what they keep together. The text console is a fifth, separate part.

| file | what it models |
|---|---|
| `Words.dfy`, `Bitmaps.dfy` | C's bit operators on words, bit-packed bitmaps |
| `Machine.dfy` | the outcomes of a call: a value, or a halt in `panic` with its reason |
| `Pmm.dfy` | the frame allocator and its construction at boot |
| `PageTable.dfy` | page tables in memory: the processor's walk and the tree of tables |
| `Demand.dfy` | how many page tables a set of pages calls for |
| `Paging.dfy`, `BootMap.dfy` | mapping and unmapping pages; the map built at boot |
| `Vmm.dfy`, `Boot.dfy` | the virtual range allocator and the kernel stack; the boot sequence |
| `HeapLayout.dfy` | runs, blocks and gaps, as values |
| `HeapLinks.dfy` | the linked headers that record a layout |
| `HeapSteps.dfy` | what each single step of the heap computes and keeps, as values |
| `BestBet.dfy` | which run the heap takes for the one with the most free bytes |
| `Outcomes.dfy` | what a request makes of the heap as a whole |
| `KHeap.dfy` | the heap itself |
| `HeapClient.dfy` | any run of heap requests, against an ideal heap |
| `Console.dfy` | the console |

The main results:

- **Every run.** From power-on through any sequence of `kmalloc`, `kcalloc`, `krealloc`, `kfree` and
  stores into blocks, the heap behaves like an ideal one in which every block is a private array
  (`HeapClient.KernelRun`). In every state reached, pointers are aligned, blocks share no byte, known
  bytes are found where they were put, and all layers agree; each step puts blocks, runs, pages,
  frames and tables just where the rules for that request have them; once every block is given back,
  no page is held and all totals are zero (`BlocksAreArrays`, `AllGivenBack`).
- **Every halt.** A run stops exactly where it must, and the number of frames is exact: boot halts if
  and only if boot data or bitmap would lie above 1 GiB, or the frames left by `init_pmm` are fewer
  than the pages of bitmap and stack and the page tables on the way to all that is mapped; later a run
  halts at the first request for new memory for which no gap of the heap fits and the range allocator
  either has no such run of pages or too few free frames for its pages and the tables missing on their
  way. Frees, stores and shrinking never halt.
- **The heap.** `kmalloc` takes the lowest fitting gap of the first run that has one, going round
  from its starting point, and obtains a new run exactly when no gap anywhere fits. Both header
  lists stay doubly linked, blocks ordered and disjoint, books balanced. The search ends. Every byte
  of a run has memory of its own behind it, and `kfree` faults exactly where there is none.
- **Pages and frames.** Over every run the frames in use are the disjoint union of those reserved by
  `init_pmm`, the page tables, and the frames behind the bitmap, heap and stack pages. No table exists
  but on the way to a page that boot mapped or the heap has held. The heap bitmap says exactly which
  heap pages are mapped; pages held keep their frames; no page outside these ranges ever changes its
  translation from the boot map; the page below the stack stays unmapped.
- **Boot.** A frame is free after `init_pmm` exactly when an available region holds all of it and
  nothing reserved touches it; `init_paging` builds exactly the intended map.

Each layer's invariant is established by its constructor or boot step, and `KernelRun` calls through
all of them, so every precondition used there is met by real states.

Physical frames are natural numbers; physical memory is one array of 64-bit words. A virtual page is
the number formed by bits 12 to 47 of its addresses. The page-table format is that of x86-64
four-level paging (Intel SDM volume 3A, section 4.5), the boot information that of Multiboot2
(sections 3.6.2 and 3.6.8).

Where the code does not do what a comment or a caller would have it do, the model follows the code
and an exact condition is proved:

- The frame bitmap has a bit for every page except when the number of pages exceeds a multiple of
  32768 by one to seven (`Pmm.BitmapCoverage`, `Pmm.BitmapTooShort`); kernel/mm/pmm.c:158 promises
  one bit a page.
- A new major is large enough for the request it is made for exactly when the request stays a page
  away from 4 GiB (`HeapSteps.NewMajorHolds`, `NewMajorTooSmall`); kernel/mm/kheap.c:384 calls it
  okay without condition. A request beyond that fits no other run either (`NoRunHolds`), so the
  bound asked of callers of `kmalloc` is exactly this one.
- The size `kcalloc` works with is the product of its arguments exactly when that is below 2^31
  (`HeapSteps.CallocSizeExact`, `CallocTruncates`). For every product that truncates to a number not
  negative it returns a cleared block of the truncated size (`KHeap.Heap.Kcalloc`); the others are
  not modelled.
- Freeing a block twice is noticed, as kernel/mm/kheap.c:657-665 means it to be, exactly when the
  block's run held another block; otherwise the second `kfree` faults on the page given back
  (`KHeap.Heap.DoubleFree`).
- The bounds check of `vmm_free_pages` is right exactly when the end of the range does not wrap to an
  address at or below the end of the heap (`Vmm.AcceptsExact`, `BoundsCheckFooled`).
- `map_page` writes the frame asked for exactly when the flags carry no address bit of their own
  (`PageTable.LeafFrameExact`, `LeafFrameMoved`). On a page already mapped to the same frame it
  succeeds without looking at the flags, which stay what they were; its contract says so.
- `l_bestBet` need not be the major with the most free memory (kernel/mm/kheap.c:107). Where it is,
  `BestBet.BetServed` says exactly when it still is after a `kmalloc`, `BestBet.BetKept` after a
  `kfree`; `BestBet.BetOutgrown` gives a request after which it is not.

The field `size` of a major holds bytes, not pages as kernel/mm/kheap.c:85 has it, and is modelled so.

## Model

| member | source | states |
|---|---|---|
| Words.AlignUpPage | kernel/include/kernel/mm/pmm.h:21-23 | rounding up to a page gives the least multiple of 4096 that is not below, exactly when the sum does not wrap |
| Words.AlignDownPage | kernel/include/kernel/mm/pmm.h:24-26 | rounding down gives the greatest multiple of 4096 that is not above |
| Bitmaps.SetAt | kernel/mm/pmm.c:31-34 | the byte operation of setting a bit adds exactly that index to the set of set bits |
| Bitmaps.ClearAt | kernel/mm/pmm.c:36-39 | clearing a bit removes exactly that index |
| Bitmaps.ByteTest | kernel/mm/pmm.c:41-44 | the masked byte is non-zero exactly when the bit is set |
| Bitmaps.ShiftAndMask | kernel/mm/vmm.c:12-22 | the shift and mask of the range allocator address the same bit as division and remainder |
| Pmm.Mb2NextRoundsUp | kernel/mm/pmm.c:65-68 | the next tag starts at the next multiple of eight after this one's size |
| Pmm.BitmapBytesIs | kernel/mm/pmm.c:159-160 | the bitmap has the fewest whole pages that hold an eighth of the page count, rounded down, in bytes |
| Pmm.BitmapCoverage | kernel/mm/pmm.c:159-160 | the bitmap has a bit for every page if and only if the page count modulo 32768 is not 1 to 7 |
| Pmm.BitmapTooShort | kernel/mm/pmm.c:159-160 | with 32769 pages the last page has no bit |
| Pmm.FrameAllocator.BitmapSet | kernel/mm/pmm.c:31-34 | the frames in use gain exactly one |
| Pmm.FrameAllocator.BitmapClear | kernel/mm/pmm.c:36-39 | the frames in use lose exactly one |
| Pmm.FrameAllocator.BitmapTest | kernel/mm/pmm.c:41-44 | says whether the frame is in use |
| Pmm.FrameAllocator.MarkUsedRegion | kernel/mm/pmm.c:48-54 | exactly the frames that share a byte with the region become used |
| Pmm.FrameAllocator.MarkFreeRegion | kernel/mm/pmm.c:57-63 | exactly the frames wholly inside the region become free |
| Pmm.FrameAllocator.AllocPage | kernel/mm/pmm.c:244-260 | hands out the lowest free frame, none in use before, leaving one fewer; halts exactly when no managed frame is free |
| Pmm.FrameAllocator.FreePage | kernel/mm/pmm.c:262-276 | frees an aligned frame in use; halts on an unaligned address, and on a frame not in use, changing nothing |
| Pmm.GetBitmapLocation | kernel/mm/pmm.c:71-148 | finds the end of everything the boot loader placed and the highest end of an available region; halts exactly when the boot data lies too high; the tag walk ends |
| Pmm.RaiseTop | kernel/mm/pmm.c:115-138 | over one memory map, the highest end of an available region |
| Pmm.FreeAvailable | kernel/mm/pmm.c:176-192 | from a full bitmap, free are exactly the frames that some single available region holds whole |
| Pmm.FreeEntries | kernel/mm/pmm.c:178-190 | the same for the entries of one tag, on top of what was free |
| Pmm.ReserveModules | kernel/mm/pmm.c:213-221 | exactly the frames that a module touches become used as well |
| Pmm.PaddingUnavailable | kernel/mm/pmm.c:128-132 | no available region holds a frame at or above the page count |
| Pmm.OneEnd | kernel/mm/pmm.c:153-163 | the boot information determines where the bitmap would end |
| Pmm.InitPmm | kernel/mm/pmm.c:150-229 | a frame is free if and only if an available region holds all of it and none of the first MiB, the kernel, the boot information, a module or the bitmap touches it; padding bits stay used; the bitmap is aligned, below 1 GiB and above all boot data; halts exactly when the boot data starts at or above 1 GiB or the bitmap would end above it |
| PageTable.IndicesAre | kernel/include/kernel/mm/paging.h:26-29 | the four index macros are bits 39 to 47, 30 to 38, 21 to 29 and 12 to 20 of the address, the virtual page number's base-512 digits |
| PageTable.DigitsDetermine | kernel/include/kernel/mm/paging.h:26-29 | two pages with the same four indices are the same page |
| PageTable.TestPresent | kernel/mm/paging.c:46 | the masked entry is non-zero exactly when the entry is odd |
| PageTable.AddrOf | kernel/include/kernel/mm/paging.h:23-24 | the address mask yields the address of the entry's frame |
| PageTable.LeafWord | kernel/mm/paging.c:87 | with flags outside the address field, the entry is the frame's address plus the flags |
| PageTable.LeafFrameExact | kernel/mm/paging.c:87 | the entry points to the frame asked for if and only if the flags add no address bit |
| PageTable.LeafFrameMoved | kernel/mm/paging.c:87 | flags with an address bit send a page to another frame |
| PageTable.TableWord | kernel/mm/paging.c:55 | a table's entry is its address, present, writable and open to users |
| PageTable.WalkIsLookup | kernel/mm/paging.c:94-111 | on a well-formed tree the processor's walk is a look-up in the last table; without that table the page is unmapped |
| PageTable.LeafDecides | kernel/mm/paging.c:43-57 | every upper entry on the way to a mapped page permits everything, so the page's own entry alone decides |
| PageTable.RootAlone | kernel/mm/paging.c:174-185 | a zeroed top table is a well-formed tree that maps nothing |
| PageTable.NewTableKeepsWalks | kernel/mm/paging.c:43-57 | hanging a zeroed frame that is no table yet into a free upper entry keeps the tree and every translation |
| PageTable.WriteLeaf | kernel/mm/paging.c:76-88 | writing one entry of a last table keeps the tree, changes that page's translation and no other's |
| Paging.AddressSpace.constructor | kernel/mm/paging.c:184-185 | a fresh address space is well formed and maps nothing |
| Paging.ZeroFrame | kernel/mm/paging.c:178-179 | empties exactly the words of one frame |
| Paging.WriteTable | kernel/mm/paging.c:52-55 | empties the new frame, points one entry at it with the table flags, and changes no other word |
| Paging.AddressSpace.GetNextTable | kernel/mm/paging.c:43-57 | returns the table at the path, made from an unused frame exactly when missing; tree kept, tables always counted as used, every translation kept, no word outside the tables written; halts, changing nothing, exactly when the table is missing and every frame is in use |
| Paging.AddressSpace.LinkTable | kernel/mm/paging.c:49-56 | the new table joins the tree at its path; every translation kept |
| Paging.AddressSpace.LinkHere | kernel/mm/paging.c:46-47 | an upper entry is present exactly when the tree has a table at that path, and then holds its address |
| Paging.AddressSpace.GetTableIfPresent | kernel/mm/paging.c:59-64 | 0 exactly when the tree has no table at that path, else its address |
| Paging.AddressSpace.AllocFrame | kernel/mm/paging.c:49-50 | a frame not in use, and never frame 0, leaves every translation and table alone; halts exactly when every frame is in use |
| Paging.AddressSpace.FreeFrame | kernel/mm/pmm.c:262-276 | freeing a used frame that is no table never halts and leaves every translation alone |
| Paging.AddressSpace.ReachTable | kernel/mm/paging.c:67-74 | after the three table steps exactly the tables of the path have been added, a free frame gone for each that was missing; halts exactly when the free frames are fewer than those; every translation kept either way |
| Paging.AddressSpace.SetEntry | kernel/mm/paging.c:76-88 | fills the entry if it was free, succeeds without a change on the same frame, returns -2 on another; all other pages keep theirs |
| Paging.AddressSpace.MapPage | kernel/mm/paging.c:66-89 | an unmapped page gets exactly the entry asked for, every other page keeps its translation even when up to three tables are made; a mapped page is left alone, with the result saying whether the frame is the same; exactly the missing tables of the path are made, and it halts exactly when there are too few frames for them, and then no translation has changed; no word outside the tables is written |
| Paging.MapResult | kernel/mm/paging.c:79-88 | 0 exactly for an unmapped page and one mapped to the same frame, else -2 |
| Demand.CostOneMore | kernel/mm/paging.c:67-74 | the tables that a set of pages with one page more calls for are those of the set, and those of the page still missing then |
| Demand.CostSplit | kernel/mm/paging.c:43-57 | mapping two sets of pages in turn calls for as many tables as mapping them together |
| Paging.AddressSpace.UnmapPage | kernel/mm/paging.c:113-132 | exactly that page loses its translation; -1 exactly when it had none; no word outside the tables is written |
| Paging.AddressSpace.ClearEntry | kernel/mm/paging.c:123-131 | the same, for the last step alone |
| Paging.AddressSpace.VirtToPhys | kernel/mm/paging.c:94-111 | the frame's address for a mapped page, 0 for an unmapped one |
| Paging.AddressSpace.ReadEntry | kernel/mm/paging.c:104-110 | the same, for the last step alone |
| Paging.AddressSpace.MapThenUnmap | kernel/mm/paging.c:66-132 | mapping an unmapped page and unmapping it again leaves every translation as before and succeeds exactly when the flags made the page present; halts exactly when there are too few frames for the missing tables of its path |
| BootMap.FlagsOf | kernel/mm/paging.c:160-162 | present, writable exactly for writable sections, no-execute exactly for non-executable ones, and no other bit |
| BootMap.FirstSectionWins | kernel/mm/paging.c:153-171 | a kernel page gets its entry from the first section in the table that covers it, and none without such a section |
| BootMap.SectionBits | kernel/mm/paging.c:155-162 | bits 0, 1 and 2 of a section's flags say whether it is writable, occupies memory and is executable |
| BootMap.KernelEntryIs | kernel/mm/paging.c:160-166 | that entry is the page's own address less the kernel offset, with bit 0 set, bit 1 exactly if the section is writable, bit 63 exactly if it is not executable, and no other flag |
| BootMap.KernelFrames | kernel/mm/paging.c:165 | whatever section decides, a kernel page is mapped to its own address less the kernel offset |
| BootMap.PartlyStep | kernel/mm/paging.c:164-169 | the next page of a section is unmapped or mapped to the very frame wanted, so mapping it cannot fail |
| BootMap.MapSection | kernel/mm/paging.c:157-169 | adds exactly the pages that the section covers and no earlier one does, with the entries of KernelEntryIs; the mapping panic is not reached; exactly the missing tables on their way are made, nothing but tables is written, and it halts exactly when there are too few frames for them |
| BootMap.MapKernelElfSections | kernel/mm/paging.c:147-172 | maps exactly the pages covered by sections that occupy memory, with the entries of KernelEntryIs; makes exactly the missing tables on their way, and halts exactly when there are too few frames for them |
| BootMap.DirectStep | kernel/mm/paging.c:191-196 | each page of the direct map lies below the kernel image and is still free when its turn comes |
| BootMap.DirectEntryIs | kernel/mm/paging.c:191-195 | each entry of the direct map is the frame's address with bits 0, 1 and 63 set: present, writable, not executable |
| BootMap.MapPhysicalMemory | kernel/mm/paging.c:189-197 | adds exactly one page for every physical page, to that frame, with the entries of DirectEntryIs; the panic is not reached; makes exactly the missing tables on their way, and halts exactly when there are too few frames for them |
| BootMap.InitPaging | kernel/mm/paging.c:184-197 | the new address space has exactly the direct map and the kernel image, with the entries of DirectEntryIs and KernelEntryIs, and exactly the tables these call for; nothing but tables is written; it halts exactly when the free frames are fewer than those tables |
| BootMap.BootPagesAre | kernel/mm/paging.c:174-198 | the pages with an entry in the boot map are those of the sections that occupy memory and those of the direct map |
| Vmm.PageNumbers | kernel/include/kernel/mm/vmm.h:12-21 | where bitmap, heap and stack lie among the virtual pages |
| Vmm.RangeAllocator.constructor | kernel/mm/vmm.c:7-8 | the partition of frames holds with nothing mapped yet |
| Vmm.RangeAllocator.BitmapSet | kernel/mm/vmm.c:12-14 | the heap pages in use gain exactly one |
| Vmm.RangeAllocator.BitmapClear | kernel/mm/vmm.c:16-18 | they lose exactly one |
| Vmm.RangeAllocator.BitmapTest | kernel/mm/vmm.c:20-22 | says whether the heap page is in use |
| Vmm.RangeAllocator.MapFresh | kernel/mm/vmm.c:65-72 | one managed page gets a frame not in use before, exactly the missing tables of its path are made, and nothing else changes; halts exactly when there are too few frames for both, with all but at most one of those in use reserved, a table or behind a managed page, and every page as it was |
| Vmm.RangeAllocator.MapNext | kernel/mm/vmm.c:62-75 | in a run of pages mapped one by one, so many of them take one frame each and the tables missing on their way; a halt in between means that the frames were too few for the run |
| Vmm.RangeAllocator.UnmapManaged | kernel/mm/vmm.c:108-117 | one managed page gives its own frame back; halts exactly when it is not mapped; never a double free |
| Vmm.VmmInit | kernel/mm/vmm.c:26-39 | backs the bitmap's pages, makes exactly the missing tables on their way, and establishes the invariant of the allocator with an empty heap; halts exactly when there are too few frames for that |
| Vmm.RangeAllocator.BackBitmap | kernel/mm/vmm.c:27-34 | backs exactly the bitmap's pages |
| Vmm.RangeAllocator.FindRun | kernel/mm/vmm.c:46-84 | the lowest free run in [last, total), else the lowest in [0, last); none exactly when neither window has one |
| Vmm.NoRunGrows | kernel/mm/vmm.c:57-82 | the counter of free pages misses no run when the window grows by a page |
| Vmm.RangeAllocator.ClaimPage | kernel/mm/vmm.c:62-75 | one round of the claiming loop keeps bitmap and page tables in agreement and takes a frame for the page and for each missing table of its path; a halt means that the frames were too few for the run |
| Vmm.RangeAllocator.ClaimRun | kernel/mm/vmm.c:62-75 | every page of the run is claimed with a frame of its own, none in use before, exactly the missing tables on its way are made, and nothing else changes; halts exactly when there are too few frames for pages and tables, with no page outside the run newly mapped and no table off its way |
| Vmm.RangeAllocator.AllocPages | kernel/mm/vmm.c:46-88 | takes the run that next fit prescribes, with a frame for each page and for each table missing on its way and no other; halts for exhaustion exactly when there is no such run, changing nothing, and for want of frames exactly when there is one and the free frames are fewer than its pages and missing tables; keeps the partition of frames, bitmap agreement, all other translations and the stack; no word outside the tables is written |
| Vmm.AcceptsExact | kernel/mm/vmm.c:99-101 | the bounds check accepts exactly the ranges inside the heap, unless the end wraps to at or below the heap's end |
| Vmm.BoundsCheckFooled | kernel/mm/vmm.c:99-101 | a range that starts in the stack and wraps is accepted |
| Vmm.RangeAllocator.ReleasePage | kernel/mm/vmm.c:105-120 | frees one heap page if it is in use, and halts exactly if it is not |
| Vmm.RangeAllocator.FreePages | kernel/mm/vmm.c:97-124 | -1 exactly on what the bounds check refuses; 0 exactly when every page of the range is in use, and then exactly those pages and their frames are free; keeps all else, page tables and all memory outside them included |
| Vmm.RangeAllocator.AllocThenFree | kernel/mm/vmm.c:46-124 | restores the heap and every translation; left are only the page tables made on the way and the place where next fit goes on; halts exactly when there is no run, or too few frames for it |
| Vmm.GrownSteady | kernel/mm/vmm.c:46-88 | taking pages makes exactly the tables on the way to the pages then held, and moves nothing |
| Vmm.DroppedSteady | kernel/mm/vmm.c:97-124 | that stays so when pages held from the start are given up in the end |
| Vmm.RangeAllocator.BooksBalanced | kernel/mm/vmm.c:7-8 | in every state each frame in use is reserved, a table or behind one page, and exactly the heap pages in use are backed |
| Vmm.RangeAllocator.HeldReached | kernel/mm/paging.c:67-74 | in every state the tables on the way to the heap pages in use exist |
| Vmm.RangeAllocator.HeapUnmapped | kernel/mm/vmm.c:58-74 | a heap page whose bit is clear is unmapped, so mapping it cannot fail |
| Vmm.RangeAllocator.HeapByte | kernel/mm/vmm.c:58-74 | a heap address is mapped exactly when its page is in use, then writable and to a frame neither reserved nor a table; the page below the heap is not mapped |
| Vmm.RangeAllocator.HeapBytesApart | kernel/mm/vmm.c:62-75 | different mapped heap addresses are different bytes of physical memory |
| Vmm.RangeAllocator.SetupStack | kernel/mm/vmm.c:132-150 | maps exactly the 1024 stack pages, makes exactly the missing tables on their way, and returns their end; nothing else changes; halts exactly when there are too few frames for that |
| Vmm.RangeAllocator.StackIsGuarded | kernel/mm/vmm.c:132-145 | in every state from then on the guard page is unmapped and the stack pages are mapped to distinct frames in use |
| Boot.ManagedUnmapped | kernel/include/kernel/mm/vmm.h:9-21 | the managed ranges are free in the boot map |
| Boot.BootTakes | kernel/kernel.c:22-37 | the frames that the three steps of boot take in turn are one for the top table, one for each page of bitmap and stack, and one for each table on the way to any page mapped |
| Boot.KernelStage1 | kernel/kernel.c:22-37 | boot establishes the allocator's invariant, with exactly the frames of init_pmm reserved, an empty heap, a guarded stack, the boot map elsewhere, and exactly the tables that the pages mapped call for; it halts exactly when boot data or bitmap would lie above 1 GiB, or the frames that init_pmm leaves free are fewer than boot takes; no word outside the tables is written |
| HeapLayout.FreeIsGaps | kernel/mm/kheap.c:348 | size less usage is the sum of all gaps of a run |
| HeapLayout.SkipMissesNothing | kernel/mm/kheap.c:361-374 | a run that CASE 1 skips has no fitting gap |
| HeapLayout.InsertOk | kernel/mm/kheap.c:396-551 | a block placed at the start of a fitting gap keeps the run ordered, disjoint and in bounds |
| HeapLayout.InsertExact | kernel/mm/kheap.c:430-551 | it does so if and only if it fits |
| HeapLayout.RemoveInsert | kernel/mm/kheap.c:689-699 | removing the block just inserted restores the run |
| HeapLayout.BlockLayout | kernel/mm/kheap.c:38-51 | header, alignment byte and payload follow each other inside the block, with room to spare; the payload starts at the first multiple of 16 that leaves 16 bytes after the header |
| HeapLayout.BlocksApart | kernel/mm/kheap.c:396-551 | no two blocks of the heap overlap |
| HeapLayout.Isolation | kernel/mm/kheap.c:38-51 | a payload shares no byte with any header, any alignment byte or any other payload |
| HeapLinks.MinorLinksInverse | kernel/mm/kheap.c:95-103 | next and prev of blocks are inverse, and block names the owner |
| HeapLinks.MajorLinksInverse | kernel/mm/kheap.c:80-88 | next and prev of runs are inverse |
| HeapLinks.RepInsert | kernel/mm/kheap.c:396-551 | linking a block into a gap turns headers that describe a layout into headers that describe the layout with the block |
| HeapLinks.RepRemove | kernel/mm/kheap.c:689-699 | the same for unlinking a block |
| HeapLinks.RepAppend | kernel/mm/kheap.c:384-387 | the same for hanging a new run at the end |
| HeapLinks.RepDrop | kernel/mm/kheap.c:706-711 | the same for taking an empty run out |
| HeapSteps.NewMajorHolds | kernel/mm/kheap.c:203-242 | a new run has room for its block if and only if the 32-bit sizes do not come within a page of wrapping |
| HeapSteps.NewMajorPages | kernel/mm/kheap.c:208-221 | a new run has the fewest pages that hold the block and both headers, but at least sixteen |
| HeapSteps.NewMajorTooSmall | kernel/mm/kheap.c:203-242 | two requests near 4 GiB for which it has not |
| HeapSteps.NoRunHolds | kernel/mm/kheap.c:346-586 | such a request fits no run at all |
| HeapSteps.UnalignInverts | kernel/mm/kheap.c:54-62 | from a client's pointer, UNALIGN finds the body of the client's block |
| HeapSteps.OwnPointer | kernel/mm/kheap.c:628-636 | following a client's own pointer never faults and leads to the client's block and no other |
| HeapSteps.ResidentPages | kernel/mm/kheap.c:13-19 | a byte lies in a run exactly when its page is held |
| HeapSteps.PlaceKeeps | kernel/mm/kheap.c:396-551 | placing a block keeps headers, alignment bytes, totals and the known runs |
| HeapSteps.UnlinkKeeps | kernel/mm/kheap.c:689-699 | so does unlinking one |
| HeapSteps.ReleaseKeeps | kernel/mm/kheap.c:706-712 | so does taking an empty run out of the list |
| HeapSteps.FreshRun | kernel/mm/kheap.c:223 | pages not held before form a run apart from all others |
| HeapSteps.DropPages | kernel/mm/kheap.c:714 | the pages held after a run is released are exactly those of the other runs |
| HeapSteps.ProgressFull | kernel/mm/kheap.c:369-379 | after a full run the search goes on, restarts once, or has found every old run full |
| HeapSteps.ServedUndone | kernel/mm/kheap.c:396-716 | taking the block just placed away again gives the layout from before |
| HeapSteps.ServedListed | kernel/mm/kheap.c:268-274 | the block has the size asked for and 32 bytes more |
| HeapSteps.ServedLive | kernel/mm/kheap.c:396-551 | a served request adds exactly one live block, not live before |
| HeapSteps.WithoutLive | kernel/mm/kheap.c:689-716 | freeing takes exactly one block from the live ones |
| HeapSteps.DumpEffect | kernel/mm/kheap.c:694 | once dead, a header is bytes that spell the dead magic, and nothing else has changed |
| HeapSteps.DumpFields | kernel/mm/kheap.c:694 | its size and the size asked for stay in those bytes |
| HeapSteps.FreedIsGone | kernel/mm/kheap.c:689-716 | freeing takes one block from the live ones and changes no live payload |
| HeapSteps.SecondFree | kernel/mm/kheap.c:628-636 | right after a free, the same pointer leads to no live block, and faults exactly when the run is gone |
| HeapSteps.PayloadsKeep | kernel/mm/kheap.c:396-551 | neither placing a block, even in a new run, nor writing inside it changes a byte of any other live payload |
| HeapSteps.WordCopy | kernel/mm/kheap.c:140-144 | storing a loaded word copies its four bytes and no other |
| HeapSteps.ShrinkKeeps | kernel/mm/kheap.c:831-836 | asking for less in place keeps headers, alignment bytes and totals |
| HeapSteps.CallocSizeExact | kernel/mm/kheap.c:746 | the truncated product is the product if and only if that is below 2^31 |
| HeapSteps.CallocSizeWraps | kernel/mm/kheap.c:746 | otherwise it is the signed 32-bit number with the product's low 32 bits |
| HeapSteps.Int32Is | kernel/mm/kheap.c:720-721 | the conversion to int gives the signed 32-bit number with the same low bits |
| HeapSteps.CallocTruncates | kernel/mm/kheap.c:746 | a request for 4 GiB becomes one for nothing |
| KHeap.Heap.constructor | kernel/mm/kheap.c:106-117 | the empty heap satisfies the invariant |
| KHeap.Heap.ListsAreLinked | kernel/mm/kheap.c:80-103 | in every state both lists are doubly linked from their roots and every block names its run |
| KHeap.Heap.BooksBalance | kernel/mm/kheap.c:84-112 | in every state usage is 40 plus the blocks with their headers, size less usage is the sum of the gaps, and the running totals are those of the listed runs |
| KHeap.Heap.Align | kernel/mm/kheap.c:38-51 | the pointer moves to the first multiple of 16 that is 16 bytes on or more, and only the alignment byte is written, with the distance moved |
| KHeap.Heap.AllocateNewPage | kernel/mm/kheap.c:203-253 | a run with room for the block, apart from every run listed, of the fewest pages that hold the block and both headers but at least sixteen, on exactly the pages that next fit prescribes, backed and reached by exactly the frames and tables these call for, with no byte of another run changed; halts exactly when the range allocator has no such run of pages, changing nothing, or too few frames for it |
| KHeap.Heap.GrowChain | kernel/mm/kheap.c:384-387 | that run joins the end of the list; the invariant holds; halts exactly as the step before, with the heap as it was |
| KHeap.Heap.FirstRun | kernel/mm/kheap.c:304 | the same for the first run |
| KHeap.Heap.StartPoint | kernel/mm/kheap.c:331-344 | the search starts at the best bet exactly when its free bytes exceed the size and a header, else at the root; bestSize is the free bytes of the best bet |
| KHeap.Heap.LookAt | kernel/mm/kheap.c:348-357 | the best bet becomes the run looked at exactly when that has more free bytes |
| KHeap.Heap.PlaceOnly | kernel/mm/kheap.c:397-423 | CASE 2 fills the one gap, and only the alignment byte among the bytes changes |
| KHeap.Heap.PlaceFront | kernel/mm/kheap.c:435-459 | CASE 3 fills the first gap, likewise |
| KHeap.Heap.PlaceBack | kernel/mm/kheap.c:483-506 | CASE 4.1 fills the last gap, likewise |
| KHeap.Heap.PlaceBetween | kernel/mm/kheap.c:522-549 | CASE 4.2 fills the gap after a block, likewise |
| KHeap.Heap.SqueezeIn | kernel/mm/kheap.c:430-554 | takes the lowest gap of the run that fits, and fails exactly when none does |
| KHeap.Heap.TryRun | kernel/mm/kheap.c:397-554 | the same, an empty run included |
| KHeap.Heap.NextRun | kernel/mm/kheap.c:369-390 | moves on, restarts once at the root, or adds a run, on the pages next fit prescribes, only after every old one was found full; halts only then, and when there are no pages for a new run or too few frames; carries on what is known of the best bet |
| KHeap.Heap.AddRun | kernel/mm/kheap.c:383-387 | once every old run was found full, the run on the pages next fit prescribes joins the end of the list, with room for the block; the best bet is as it was |
| KHeap.Heap.Kmalloc | kernel/mm/kheap.c:259-602 | the block is in the lowest fitting gap of the first run with one, going round from where the search starts; a run is added exactly when no gap anywhere fits, and then one, on the pages next fit prescribes, and no page, frame or table is taken otherwise; the pointer is the block's; of the bytes of the old runs only the alignment byte changes; the best bet is the old one, or a run looked at that has more free bytes than it and no fewer than any other looked at; the search ends; halts exactly when no gap fits and there are no pages for a new run, or too few frames for them, with runs, blocks and bytes as they were |
| KHeap.Heap.FillRun | kernel/mm/kheap.c:396-551 | the same for the run that the search has reached: served from its lowest fitting gap, or found full |
| BestBet.BetServed | kernel/mm/kheap.c:107 | a best bet that is the run with the most free bytes is so after kmalloc if and only if, when a gap was found, the block went to another run or leaves this one with no fewer than any other, and, when a run was added, the run then named has no fewer than the other of the two; that is the new one exactly if it was looked at and was larger |
| BestBet.BetOutgrown | kernel/mm/kheap.c:107 | two runs, and a request that goes to the larger and leaves it the smaller |
| BestBet.BetKept | kernel/mm/kheap.c:706-725 | after kfree it is so if and only if its run is not the one released, and comparing as signed 32-bit numbers agrees with comparing the numbers |
| KHeap.Heap.UnlinkBlock | kernel/mm/kheap.c:689-699 | exactly that block leaves its run |
| KHeap.Heap.UnlinkRunAt | kernel/mm/kheap.c:706-712 | exactly that run leaves the list, root and best bet with it |
| KHeap.Heap.ReleaseRun | kernel/mm/kheap.c:706-714 | and exactly its pages go back; giving them back never fails, and page tables, frames of other pages and translations elsewhere are kept |
| KHeap.Heap.RetargetBet | kernel/mm/kheap.c:718-724 | the best bet stays NULL, or becomes the run just freed from exactly when that has more free, both taken as signed 32-bit numbers |
| KHeap.Heap.Kfree | kernel/mm/kheap.c:612-735 | NULL counts a warning; a pointer whose alignment byte or magic word lies in no run faults, and no other does; a pointer to no live header counts an error; nothing else changes then; otherwise exactly the block found leaves, and its run with exactly its pages and their frames if and only if it was the last one there, only its header's bytes change, and the best bet is cleared with its run or compared with the run freed from; no page table and no other translation changes |
| KHeap.Heap.LiveIffMagic | kernel/mm/kheap.c:636 | the word 0xC001C0DE is found exactly in the headers of live blocks, unless other bytes spell it |
| KHeap.Heap.Accessible | kernel/arch/x86_64/irh/page_fault.c:13-38 | the page tables let the processor reach a heap address exactly when a run holds it |
| KHeap.Heap.FindMagic | kernel/mm/kheap.c:628-636 | following a pointer faults exactly when its alignment byte or magic word lies in no run; else it leads 40 bytes before the place the alignment byte says, if that is below 32, or before the pointer |
| KHeap.Heap.Retire | kernel/mm/kheap.c:694 | the header becomes plain bytes that spell 0xDEADDEAD; the invariant holds |
| KHeap.Heap.FreeAt | kernel/mm/kheap.c:689-726 | from a live header on, exactly that block is freed, likewise |
| KHeap.Heap.Settle | kernel/mm/kheap.c:703-726 | its last part: an empty run goes with exactly its pages, any other is compared with the best bet |
| KHeap.Heap.DoubleFree | kernel/mm/kheap.c:612-735 | the second of two frees of a block in a row counts an error if and only if the run held another block, and else faults; pages given back are those of the run, once, and the best bet is what the first free makes it |
| KHeap.Heap.BackedByMemory | kernel/mm/kheap.c:13-19 | every byte of a run is mapped and writable, to a frame in use that is neither reserved nor a table |
| KHeap.Heap.NoAliasing | kernel/mm/kheap.c:13-19 | no two bytes of the runs are the same byte of physical memory |
| KHeap.Heap.MallocThenFree | kernel/mm/kheap.c:259-735 | restores runs, blocks, the pages held and their frames, and every byte of a run but one header and one alignment byte; left are only, if a run was made, the page tables on its way and the place where next fit goes on, and what kmalloc and kfree make of the best bet; halts exactly when no gap fits and there are no pages for a new run, or too few frames for them |
| KHeap.Heap.Memcpy | kernel/mm/kheap.c:133-156 | the word-then-byte copy is a copy of the byte sequence and writes nothing else |
| KHeap.Heap.MemsetZero | kernel/mm/kheap.c:125-132 | exactly the given bytes become zero |
| KHeap.Heap.Krealloc | kernel/mm/kheap.c:757-846 | size 0 frees, NULL allocates, a bad pointer counts an error or faults as in kfree; otherwise the block is asked for less in its place, or replaced by one that begins with all that was asked for before; a new block goes where kmalloc puts it from the runs and the best bet found, and an old one goes as kfree has it; runs, best bet, pages, frames and tables end as those two leave them; of the bytes of the old runs only the new payload, its alignment byte and the old header change; it halts for want of memory exactly when the block is new or grows and no gap fits and there are no pages for a new run, or too few frames |
| KHeap.Heap.FreeBlock | kernel/mm/kheap.c:764-768 | exactly the block pointed to is gone, with its run and pages if it was alone there; of the bytes only its header's change, and the best bet is as kfree leaves it |
| KHeap.Heap.Resize | kernel/mm/kheap.c:829-845 | the last of these cases: asked for less, the block stays and nothing else changes; to grow, it moves; it halts exactly when the block grows and no gap fits and there are no pages for a new run, or too few frames |
| KHeap.Heap.ShrinkInPlace | kernel/mm/kheap.c:831-836 | the same block, asked for less |
| KHeap.Heap.MoveBlock | kernel/mm/kheap.c:841-845 | a new block where kmalloc puts it from the runs and the best bet found, with a copy, and then the old one freed, with its run if it was alone there; the best bet is what the two leave; halts exactly when no gap fits and there are no pages for a new run, or too few frames for them |
| KHeap.Heap.Kcalloc | kernel/mm/kheap.c:741-753 | a new block of the truncated product, all zero, where kmalloc puts it from the runs and the best bet found, which becomes what kmalloc makes it; of the other bytes of the old runs only its alignment byte changes; halts exactly when no gap fits and there are no pages for a new run, or too few frames for them |
| HeapClient.Client.ServeMalloc | kernel/mm/kheap.c:259-602 | the caller gains a block of undetermined bytes and keeps all it had; halts exactly when no gap fits and there are no pages for a new run, or too few frames for them; the block is where kmalloc puts it |
| HeapClient.Client.ServeCalloc | kernel/mm/kheap.c:741-753 | the caller gains a block of zeros and keeps all it had; halts exactly then; the block is where kmalloc puts it |
| HeapClient.Client.ServeRealloc | kernel/mm/kheap.c:757-846 | the caller's block is cut or extended, contents kept, and the others are untouched; halts exactly then, if it is to extend; it is trimmed or moved as krealloc has it |
| HeapClient.Client.ServeFree | kernel/mm/kheap.c:612-735 | the caller loses that block only, and its run and pages go as kfree has it; never halts |
| HeapClient.Client.ServeStore | kernel/mm/kheap.c:259-846 | one byte of the caller's block changes and nothing else; never halts |
| HeapClient.Client.Serve | kernel/mm/kheap.c:259-846 | every request is served as on the ideal heap, unless it asks for new memory and there is none, and exactly then the kernel halts; runs, best bet, pages, frames and tables change as that request alone has them change |
| HeapClient.Client.BlocksAreArrays | kernel/mm/kheap.c:259-846 | between requests, pointers are 16-byte aligned, blocks share no byte, and known bytes are in memory |
| HeapClient.Client.AllGivenBack | kernel/mm/kheap.c:612-735 | once the callers hold nothing, the heap holds no run and no page and its totals are zero |
| HeapClient.Client.Run | kernel/mm/kheap.c:259-846 | any sequence of requests ends as on the ideal heap, or stops, having come that far as on the ideal heap, at the first request for new memory when there is none; every state on the way is in the trace: it follows from the one before by the placement rules of that request, its runs hold just the callers' blocks, the heap just the pages of its runs, each frame in use serves one purpose, and from one to the next tables are made exactly on the way to the pages held and nothing mapped moves; no page outside the managed ranges changes its translation |
| HeapClient.KernelRun | kernel/kernel.c:22-37 | so does any sequence from power-on, in a state in which all layers agree and the stack is guarded; boot found the frames it needs, exactly the frames of init_pmm stay reserved, every page outside the managed ranges keeps its translation of the boot map; no word of memory outside tables is written by boot; it stops only where boot must halt, or at the first request refused |
| Console.Screen.constructor | kernel/console/console.c:7-10 | from any cursor on the screen, the screen is the end of a terminal |
| Console.Screen.PutcAt | kernel/console/console.c:18-22 | writes one cell and nothing else |
| Console.Screen.Scroll | kernel/console/console.c:36-51 | every row moves up one, the last is blank, the cursor is on it |
| Console.Screen.Putc | kernel/console/console.c:54-75 | newline goes to the start of the next row, return to the start of this one, tab to the next multiple of 8 or, past column 71, the next row; any other character fills its one cell with its colour and advances, wrapping after column 79; below the last row all rows move up and the last is blank; no other cell changes; the screen is the last 25 rows of an unbounded terminal that got the same character |
| Console.PutIs | kernel/console/console.c:54-75 | the same of the terminal: where the cursor goes, and the one cell that changes |
| Console.Screen.PutsCol | kernel/console/console.c:77-81 | the same for a string up to its terminating zero |
| Console.FeedConcat | kernel/console/console.c:77-81 | two strings in turn are their concatenation |
| Console.HistoryKept | kernel/console/console.c:36-75 | rows above the cursor never change again, and rows are only added |
| Console.Screen.FillDigits | kernel/console/console.c:93-97 | the buffer of 32 is large enough and holds the digits, last first |
| Console.Screen.PutBack | kernel/console/console.c:99-101 | the characters of the buffer go out last first |
| Console.Screen.PrintUint | kernel/console/console.c:84-102 | prints the numeral of the number: the one of NumeralRoundTrip and OneNumeral |
| Console.Screen.PrintInt | kernel/console/console.c:104-112 | prints sign and numeral, for the least 64-bit number too |
| Console.Screen.PrintHex | kernel/console/console.c:114-120 | prints the low nibbles, highest first |
| Console.NumeralRoundTrip | kernel/console/console.c:84-102 | the numeral consists of digits 0 to 9 and a to z below the base, has no needless leading zero, and decoding it gives the number back, in every base |
| Console.OneNumeral | kernel/console/console.c:84-102 | no other such string denotes the number |
| Console.DigitChars | kernel/console/console.c:95 | the digits are 0 to 9 and then a to z |
| Console.IntRoundTrip | kernel/console/console.c:104-112 | what print_int prints is such a numeral, after a minus sign exactly for a negative number; decoding gives the number back |
| Console.HexRoundTrip | kernel/console/console.c:114-120 | decoding sixteen nibbles, hexadecimal digits all, gives the word back |
| Console.HexValue | kernel/console/console.c:114-120 | print_hex prints as many digits as the width, leading zeros included, for the number's remainder |

## Left out

- Pmm.InitPmm: assumes that the bitmap has a bit for every page and for all it reserves, the bitmap included; `Pmm.BitmapCoverage` says exactly when the first part holds, and without it the code writes past the bitmap. Tags are well formed and terminated and no region's end overflows.
- Pmm.FrameAllocator.FreePage: the frame has a bit; the code does not check this.
- BootMap.InitPaging: assumes that sections that occupy memory lie in the top 2 GiB, as the linker script places them, and that memory ends below the kernel image; the section table is taken as given, so the look-up of its tag and the panic when there is none are not part of this model.
- Vmm.RangeAllocator.FreePages: not for a range that starts above the heap and whose end wraps to at or below its end; `Vmm.AcceptsExact` shows that the bounds check is wrong there.
- KHeap.Heap.Kmalloc: asks that the request be at least a page, both headers and the alignment slack short of 4 GiB; `HeapSteps.NewMajorHolds` and `HeapSteps.NoRunHolds` show that no run can hold a larger one.
- KHeap.Heap.Kfree: for pointers into the heap's range whose alignment byte lies in no header, and which, unless they lead to a live block, do not find the live magic among other bytes; the code would take those for live headers. The count of possible overruns is not kept.
- KHeap.Heap.FindMagic: for pointers into the heap's range; the code follows any other pointer as well, wherever it leads.
- KHeap.Heap.Krealloc: as for `Kfree`; and a pointer from which UNALIGN reaches a live header is that block's own pointer, as it is for every pointer handed out.
- KHeap.Heap.Kcalloc: not for products that truncate to a negative number, which kmalloc would see as a size near 2^64.
- Console.Screen.PrintUint: bases 4 to 36; the code prints in base 10 only, and smaller bases would not fit its buffer.
- Console.Screen.PrintHex: at most the sixteen nibbles of a word, as its callers ask.
- Headers in use are records found by address, all other heap memory is bytes, so a client that overwrites a header in use is not modelled.
- Page tables, the range allocator's bitmap and heap bytes are kept in separate stores; `KHeap.Heap.NoAliasing` shows that no two heap bytes share memory, and mapping, unmapping and boot write no word outside the tables.
- Running out of frames or of heap pages halts the kernel, so the NULL returns of allocate_new_page, kmalloc and map_page's -1 cannot occur and are not modelled.
- Loading the page-table base, TLB invalidation and the switch of the direct-map offset are hardware effects; frames are addressed directly throughout, and that tables made before the switch lie in the identity-mapped first GiB is not modelled.
- Locks are empty in the source, so the heap is sequential.
- Raw parsing of Multiboot2 and ELF bytes: tags, memory-map entries and sections are taken decoded; the walk over the tags is modelled.
- kvprintf and its variable arguments, clear_screen, set_cursor, the address of the video memory, and diagnostics.
- Boot assembly, descriptor tables, interrupt controller and keyboard; huge pages and user mappings, which the code never makes.
