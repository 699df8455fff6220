# A verified model of the kernel's memory, tasks, console and initial ram disk

The project models the stateful core of a small 32-bit x86 kernel and proves what its parts promise together.
`dafny verify dfyconfig.toml` checks all of it.

**Memory.** `pmm.dfy` is the frame allocator: a bitmap array with a cached counter, filled from the Multiboot memory map.
`paging.dfy` is the two-level page walk (Intel SDM Vol. 3A, section 4.3) over physical memory and the effect of one map;
`vmm.dfy` is the object that makes those changes with loads and stores through the recursive slot 1023 only.
`heap_blocks.dfy` is the heap as a list of blocks, `heap_canon.dfy` its canonical form, `heap_memory.dfy` that list as
16-byte headers linked by address. `heap_space.dfy` puts those words behind the page walk, and `heap.dfy` is the allocator
itself: every header read and write is a translated access to physical memory, growth calls the other two layers.
`boot.dfy`, `heap_runs.dfy` and `heap_promises.dfy` state what holds from boot on, over whole runs, and for a caller.

**Tasks.** `switch.dfy` is the context switch instruction by instruction, `tasks.dfy` the control blocks and stacks in
memory, `scheduler.dfy` the scheduler object, `ring.dfy` the round robin, `task_runs.dfy` whole runs. `task_heap.dfy` takes
control blocks and stacks from the heap, `kernel_runs.dfy` runs tasks and heap over one memory, and `task_ticks.dfy` takes
the stores of `task_create` and `tasking_init` apart, with timer ticks in between.

**Console.** `page.dfy` is an unbounded page, `terminal.dfy` the scrolling screen that is always its last 25 rows,
`readline.dfy` the line editor, `keyboard.dfy` the interrupt-fed ring buffer, `spinlock.dfy` the lock under every interleaving,
`console.dfy` keyboard and editor together, as lemma and as one loop.

**Initial ram disk.** `initrd_image.dfy` is the format, `initrd.dfy` the writer, the reader and their round trip, also
run as one chain.

A class follows each piece of state the kernel updates in place; its methods are proved against pure functions, and the
theorems about whole runs are lemmas about those functions. Ghost state in a class (block list, frames, page, history)
is tied to the real fields by its `Valid` predicate.

## Results worth knowing

- The block list of the heap is a function of the live allocations and the heap end alone. So frees commute, freeing all
  leaves one block, and an allocation followed by its free restores the list it was served from.
- Over any run of `kmalloc`, `kfree` and stores by clients, a block that is neither freed nor written keeps its place and
  every byte (`HeapRuns.PerformAll`), and all memory invariants hold in every state reached.
- Every heap byte has a physical byte of its own, in a frame that is used, was not reserved at boot, and holds no paging
  structure. The frame count is exact: used pages are those after `pmm_init`, plus 2, plus P, plus ceil(P/1024).
- A task switched away from in `schedule()` comes back to its call of `switch_to` with its registers and its stack, within
  d switches plus one per creation; blocks and stacks from `kmalloc` are apart as the scheduler needs them. This holds on
  one memory with the heap, whatever the tasks allocate, free and store meanwhile (`KernelRuns.ResumesAmongCalls`).
- No word of the kernel, the bitmap or unavailable memory is ever written by paging or heap, and the kernel's 4 MB stay
  mapped at both places in every state reached (`Boot.KernelStaysMapped`).
- Both entries that translate a heap byte, or a byte of the first 4 MB, are open to user code in every state reached; the
  recursive window is not (`Boot.HeapOpenToUsers`, `Boot.KernelOpenToUsers`, `Boot.WindowClosedToUsers`).
- Whatever tasks interleave on the terminal, every string entered is written whole, once, in the order of its task
  (`Spinlock.CallsNeverMix`, `Spinlock.EveryStringAccounted`).
- The screen is a window of an unbounded page, and the line editor's echo agrees with its buffer exactly when start column
  plus `max_len` is at most 2001.

## Where the code falls short, exactly

- A null page address is returned iff memory is exhausted or page 0 is free (`PmmRuns.NullResult`); the heap's test is sound
  because paging takes a page first and allocation is lowest-first (`Heap.PageTaken`).
- `size + 7` in `kmalloc` can wrap to 0; the payload holds the request iff it does not (`HeapPromises.ServedPayload`). The
  list stays well formed all the same, and its sizes stay positive iff the block taken is not split
  (`HeapCanon.AllocatePositive`).
- `vmm_map_page` does not test its frame for null; it comes back null during a growth exactly when one frame was left where
  a page needed a table too (`Heap.StrandedIff`). 513 frames left right after `kheap_init` and a request of 513 pages meet
  it (`Heap.TrapInstance`).
- An available memory range that starts inside a page frees that whole page; every freed page lies inside its range iff the
  range starts on a page or holds no whole page (`Pmm.CoversInsideIff`).
- `shell_readline` takes a `max_len` of 0 for 2^32: a buffer of `max_len` bytes is enough for every key stream iff
  `max_len` is not 0 (`Readline.BufferIsEnoughIff`).
- `tasking_init` runs with interrupts on (`kernel/kernel/kernel.cpp:83` before `:107`). A tick between the store of
  `current_task` and the store of its `next` link follows whatever the fresh block holds there; the window is exact in
  `TaskTicks.StartupWindow`. `task_create` has no such window of its own, but two creations can lose one
  (`TaskTicks.LostCreation`).
- The page count of a growth is right iff its addition does not wrap (`HeapCanon.PagesComputedIff`).
- Page addresses are distinct iff at most 2^20 pages are managed (`PmmRuns.AddressesDistinctIff`).
- `offset + size` in `initrd_read` can wrap; the read stays inside the file iff it does not (`Initrd.ClampedIff`).
- `make_initrd` cuts names at 63 characters without a word; lookup by basename works iff the name was not cut, is no dot
  name and is the first of its kind (`Initrd.FindIff`).
- A line longer than the screen parts from its echo (`Readline.OverlongLineParts`), with the exact limit in
  `Readline.LimitIsExact`.
- The comment at `kernel/arch/i386/drivers/tty.cpp:74` says light grey is the default colour; the code sets magenta, and the
  model follows the code.

## Model

| member | source | states |
|---|---|---|
| `Pmm.MaskIsShift` | kernel/arch/i386/mm/pmm.cpp:41-60 | the bit masks of the model are the shifts of the code |
| `Pmm.BitAfter` | kernel/arch/i386/mm/pmm.cpp:41-60 | setting or clearing the bit of page k changes the flag of page k and of no other page |
| `Pmm.FrameAllocator.Set` | kernel/arch/i386/mm/pmm.cpp:41-43 | page flags afterwards: exactly that page becomes used |
| `Pmm.FrameAllocator.Unset` | kernel/arch/i386/mm/pmm.cpp:49-51 | page flags afterwards: exactly that page becomes free |
| `Pmm.FrameAllocator.Test` | kernel/arch/i386/mm/pmm.cpp:58-60 | answers the flag of the page |
| `Pmm.FrameAllocator.HighestEnd` | kernel/arch/i386/mm/pmm.cpp:76-86 | the least bound on the ends of all available entries, whatever their order or overlap |
| `Pmm.GuardNeverDecides` | kernel/arch/i386/mm/pmm.cpp:117-122 | every page an available entry covers is below the page count, so the bounds test while freeing never decides |
| `Pmm.CoversInsideIff` | kernel/arch/i386/mm/pmm.cpp:117-128 | every page an available entry frees lies wholly inside it iff the entry starts on a page or counts no whole page |
| `Pmm.CoversBytes` | kernel/arch/i386/mm/pmm.cpp:117-122 | in bytes: an available entry frees a page iff the page, shifted by the offset of the entry into its first page, lies inside the entry |
| `Pmm.FrameAllocator.FillBitmap` | kernel/arch/i386/mm/pmm.cpp:89-110 | every page starts used, the counter equals the number of pages, and the bitmap has the fewest bytes that hold a bit for each |
| `Pmm.FrameAllocator.ReleaseEntry` | kernel/arch/i386/mm/pmm.cpp:116-129 | frees exactly the pages the entry covers, the counter following |
| `Pmm.FrameAllocator.ReserveRange` | kernel/arch/i386/mm/pmm.cpp:146-153 | marks exactly the range used, the counter following |
| `Pmm.FrameAllocator.ReserveImage` | kernel/arch/i386/mm/pmm.cpp:137-153 | a page becomes used iff one of its bytes is a byte of the kernel image or of the bitmap behind it |
| `Pmm.FrameAllocator.Init` | kernel/arch/i386/mm/pmm.cpp:73-153 | a page is free iff some available entry covers it and no byte of it is one of kernel or bitmap; the counter is the number of used pages |
| `Pmm.CountUsedUpdate` | kernel/arch/i386/mm/pmm.cpp:122-126 | changing one flag changes the number of used pages by exactly that page |
| `Pmm.FrameAllocator.AllocPage` | kernel/arch/i386/mm/pmm.cpp:185-195 | takes the lowest free page; with none free returns 0 and changes nothing; the counter stays exact |
| `Pmm.FrameAllocator.FreePage` | kernel/arch/i386/mm/pmm.cpp:204-210 | frees exactly a managed used page; any other address changes nothing; the counter stays exact |
| `Pmm.FrameAllocator.GetFreeMemory` | kernel/arch/i386/mm/pmm.cpp:164-166 | 4096 bytes for every page whose bit is clear, without wrap-around |
| `PmmRuns.OutstandingPagesAreDistinct` | kernel/arch/i386/mm/pmm.cpp:185-210 | over any run of allocations and frees, pages handed out and not freed are pairwise distinct and marked used |
| `PmmRuns.ReturnedPageIsHeld` | kernel/arch/i386/mm/pmm.cpp:185-195 | a returned address is that of a page not held before and held from then on |
| `PmmRuns.FreeUndoesAlloc` | kernel/arch/i386/mm/pmm.cpp:185-210 | freeing the page just allocated restores every flag |
| `PmmRuns.NullResult` | kernel/arch/i386/mm/pmm.cpp:185-195 | a null result is the answer iff memory is exhausted or page 0 is free |
| `PmmRuns.NullMeansExhausted` | kernel/arch/i386/mm/pmm.cpp:185-195 | after one successful allocation and while page 0 is not freed, null means exactly that no page is free, over any run |
| `PmmRuns.UsedPagesConserved` | kernel/arch/i386/mm/pmm.cpp:185-210 | over any run that frees only held pages, used pages minus held pages is constant |
| `PmmRuns.AddressesDistinctIff` | kernel/arch/i386/mm/pmm.cpp:191 | 32-bit page addresses are pairwise distinct iff at most 2^20 pages are managed |
| `PmmRuns.Execute` | kernel/arch/i386/mm/pmm.cpp:185-210 | the allocator object carries out any run as the page flags prescribe, and returns exactly the prescribed addresses |
| `Paging.WindowReachesPte` | kernel/arch/i386/mm/vmm.cpp:84 | the page-table window address of (pd, pt) walks to the word of that very entry |
| `Paging.WindowReachesPde` | kernel/arch/i386/mm/vmm.cpp:69-76 | the directory window address of pd walks to the directory word of pd |
| `Paging.PteValueBits` | kernel/arch/i386/mm/vmm.cpp:84 | bit for bit, the entry of the model is phys | (flags & 0xFFF) | 1 |
| `Paging.PdeValueBits` | kernel/arch/i386/mm/vmm.cpp:76 | bit for bit, the directory entry of the model is table | 1 | 2 | (flags & 4) |
| `Paging.MapTranslates` | kernel/arch/i386/mm/vmm.cpp:65-88 | after a map the page and its twin in slots 0 and 768 translate to phys and every other page outside the window as before; directory soundness is kept |
| `Paging.MapMovesOnePage` | kernel/arch/i386/mm/vmm.cpp:65-88 | for slots other than 0, 768 and 1023 the mapped page is the only one whose translation changes |
| `Paging.EntryAfterMap` | kernel/arch/i386/mm/vmm.cpp:73-84 | exactly which words of physical memory one map changes, and to what |
| `Paging.AddTableTranslatesAlike` | kernel/arch/i386/mm/vmm.cpp:73-81 | linking a fresh empty table changes no translation outside the window |
| `Vmm.FreeFrameIsFresh` | kernel/arch/i386/mm/vmm.cpp:75 | a free frame is neither the directory nor any table |
| `Vmm.MapHoldsFrames` | kernel/arch/i386/mm/vmm.cpp:65-88 | a map keeps the recursive slot, distinct tables, and all paging frames marked used |
| `Vmm.AddressSpace.ClearTable` | kernel/arch/i386/mm/vmm.cpp:79-80 | the memset through the window wipes exactly the new table |
| `Vmm.AddressSpace.EnsureTable` | kernel/arch/i386/mm/vmm.cpp:72-81 | a missing table costs the lowest free frame and is linked and wiped; a present one costs nothing |
| `Vmm.AddressSpace.MapPage` | kernel/arch/i386/mm/vmm.cpp:65-88 | the stores through the window leave exactly the memory and page flags prescribed, and keep the address space sound |
| `Vmm.AddressSpace.Init` | kernel/arch/i386/mm/vmm.cpp:16-41 | directory and first table are the two lowest free frames, filled as the boot tables; nothing outside them changes |
| `Vmm.BootTablesSound` | kernel/arch/i386/mm/vmm.cpp:27-38 | the boot tables satisfy the recursive invariant, with slots 0 and 768 sharing one table |
| `Vmm.BootTablesTranslate` | kernel/arch/i386/mm/vmm.cpp:25-38 | after boot the first 4 MB are mapped at 0 and at 3 GB, and nothing else outside the window |
| `HeapSpace.WalkInHeap` | kernel/arch/i386/mm/heap.cpp:29-39 | every heap word walks, writable, into the frame of its page |
| `HeapSpace.StoreChangesOneWord` | kernel/arch/i386/mm/heap.cpp:29-39 | a store to one heap address changes the value read at that address and at no other |
| `HeapSpace.StoreInHeap` | kernel/arch/i386/mm/heap.cpp:29-39 | a store to a heap word disturbs no translation and no paging frame |
| `HeapSpace.MapExtendsHeap` | kernel/arch/i386/mm/heap.cpp:31-37 | mapping a held frame at the heap end gives one more page with its own frame and the tables needed, no more |
| `HeapSpace.MapNewEntries` | kernel/arch/i386/mm/heap.cpp:36 | both entries of a page just mapped have the present, writable and user bits and no other, and the second names its frame |
| `HeapSpace.MapKeepsWords` | kernel/arch/i386/mm/heap.cpp:31-37 | no word of the old heap pages reads differently after the map |
| `Heap.PageTaken` | kernel/arch/i386/mm/heap.cpp:31-35 | with frames left the one taken is never page 0, so the null test means exhaustion, and it backs nothing else |
| `Heap.StrandedIff` | kernel/arch/i386/mm/vmm.cpp:73-76 | the unchecked second allocation of a map is null exactly when the page takes the last frame and needs a table |
| `Heap.TrapInstance` | kernel/arch/i386/mm/heap.cpp:29-39 | 513 frames spare right after kheap_init and a growth of 513 pages or more meet that trap |
| `Heap.PanicsInTime` | kernel/arch/i386/mm/heap.cpp:31-35 | with no more frames than the window has pages left, a growth of any size is safe but for the trap: the panic comes before the window |
| `Heap.KernelHeap.AddPage` | kernel/arch/i386/mm/heap.cpp:30-38 | one round of growth: one more page at the end, all old words kept, both its entries open to user code, every frame accounted for; the panic exactly when no frame is left |
| `Heap.KernelHeap.Expand` | kernel/arch/i386/mm/heap.cpp:29-39 | that many pages more at the end, all old words kept, every frame accounted for; the panic exactly when frames do not suffice |
| `HeapBlocks.FirstFit` | kernel/arch/i386/mm/heap.cpp:77-79 | the lowest fitting block, or none |
| `HeapBlocks.TakeAtWellFormed` | kernel/arch/i386/mm/heap.cpp:79-94 | taking a fitting block, split or not, keeps the list well formed and leaves n to n+23 bytes |
| `HeapBlocks.FreeAtTiles` | kernel/arch/i386/mm/heap.cpp:131-148 | freeing a block keeps the blocks tiling the heap |
| `HeapBlocks.FreeAtCoalesced` | kernel/arch/i386/mm/heap.cpp:137-147 | a list coalesced except around the freed block is coalesced afterwards: kfree repairs the breach of an expansion |
| `HeapBlocks.GrowWellFormed` | kernel/arch/i386/mm/heap.cpp:98-113 | the list grown and coalesced backwards is well formed up to the new end |
| `HeapBlocks.GrowFits` | kernel/arch/i386/mm/heap.cpp:98-118 | the extension, merged or not, is the last block, at least as large as the request, and the first that fits |
| `HeapBlocks.PreparedFits` | kernel/arch/i386/mm/heap.cpp:77-118 | after at most one growth a fitting block exists |
| `HeapCanon.WellFormedIsCanonical` | kernel/arch/i386/mm/heap.cpp:131-148 | a well-formed list is the canonical list of its live blocks and the heap end |
| `HeapCanon.SameLiveSameList` | kernel/arch/i386/mm/heap.cpp:131-148 | equal live blocks and equal end force equal lists |
| `HeapCanon.LiveFreeAt` | kernel/arch/i386/mm/heap.cpp:131-148 | freeing removes exactly the freed block from the live ones |
| `HeapCanon.FreesCommute` | kernel/arch/i386/mm/heap.cpp:131-148 | two frees give the same list in either order |
| `HeapCanon.NothingLiveOneBlock` | kernel/arch/i386/mm/heap.cpp:137-147 | with nothing allocated the heap is a single free block |
| `HeapCanon.AllocateThenFree` | kernel/arch/i386/mm/heap.cpp:72-148 | kmalloc followed by kfree restores the exact list the request was served from: the old one when no expansion was needed |
| `HeapCanon.AllocateLive` | kernel/arch/i386/mm/heap.cpp:79-95 | an allocation adds exactly one live block; all others keep address and size |
| `HeapCanon.AllocateWellFormed` | kernel/arch/i386/mm/heap.cpp:72-118 | every served request leaves a well-formed list and a block of n to n+23 bytes where it was found |
| `HeapCanon.RoundUpHolds` | kernel/arch/i386/mm/heap.cpp:75 | the rounded size covers the request iff size + 7 does not wrap, and is 0 otherwise |
| `HeapCanon.RoundUpBits` | kernel/arch/i386/mm/heap.cpp:75 | bit for bit, the rounding of the model is (size + 7) & ~7 |
| `HeapCanon.AllocatePositive` | kernel/arch/i386/mm/heap.cpp:75-95 | block sizes stay positive iff the rounded size is not 0 or the block taken is too small to split |
| `HeapCanon.PagesComputedIff` | kernel/arch/i386/mm/heap.cpp:99 | the 32-bit page count is the needed one iff its addition does not wrap |
| `HeapMemory.FlagRepresents` | kernel/arch/i386/mm/heap.cpp:93 | storing the one-byte flag is the change of that block's flag in the list, no payload touched |
| `HeapMemory.MergeRepresents` | kernel/arch/i386/mm/heap.cpp:137-141 | the three stores of a merge turn memory of the list into memory of the merged list, both link directions |
| `HeapMemory.SplitRepresents` | kernel/arch/i386/mm/heap.cpp:82-90 | the stores of a split turn memory of the list into memory of the split list, both link directions |
| `HeapMemory.ExtendRepresents` | kernel/arch/i386/mm/heap.cpp:103-109 | header and link stores turn fresh pages into one more block of the list |
| `HeapMemory.LinkZero` | kernel/arch/i386/mm/heap.cpp:98 | a link is null iff the block is at that end of the list |
| `HeapMemory.FirstRepresents` | kernel/arch/i386/mm/heap.cpp:53-57 | the first header describes one free block over the initial pages |
| `Heap.KernelHeap.Absorb` | kernel/arch/i386/mm/heap.cpp:137-141 | following the links found in memory, block i swallows its successor |
| `Heap.KernelHeap.Release` | kernel/arch/i386/mm/heap.cpp:134-147 | the stores of kfree yield the list with block i freed and merged both ways; no payload byte changes |
| `Heap.KernelHeap.SplitBlock` | kernel/arch/i386/mm/heap.cpp:82-90 | the stores of a split yield the split list; no other payload byte changes |
| `Heap.KernelHeap.TakeBlock` | kernel/arch/i386/mm/heap.cpp:79-94 | the taken block is split when worthwhile; no other payload byte changes |
| `Heap.KernelHeap.GrowFor` | kernel/arch/i386/mm/heap.cpp:98-113 | the grown list, coalesced, over the pages mapped, no payload byte changed; or the panic when frames do not suffice |
| `Heap.KernelHeap.Search` | kernel/arch/i386/mm/heap.cpp:77-118 | terminates after at most one growth and two scans with the request served as first fit prescribes, or with the panic of that growth |
| `Heap.KernelHeap.Kmalloc` | kernel/arch/i386/mm/heap.cpp:72-121 | null only for size 0; the panic exactly when no block fits and frames for the growth are lacking; otherwise served from the old or grown list, no live payload byte changed, all invariants kept |
| `Heap.KernelHeap.Kfree` | kernel/arch/i386/mm/heap.cpp:131-148 | the live block is freed and coalesced, null is ignored; no payload byte changes; all invariants kept |
| `Heap.KernelHeap.Init` | kernel/arch/i386/mm/heap.cpp:47-57 | one free block over the 512 initial pages, all invariants established, or the panic when frames do not suffice |
| `HeapPromises.ServedPayload` | kernel/arch/i386/mm/heap.cpp:72-95 | the payload is 8-aligned and inside the heap; it holds size to size+23 bytes iff the rounding did not wrap |
| `HeapPromises.ServedApart` | kernel/arch/i386/mm/heap.cpp:72-95 | the payload is disjoint from every other block and from every header |
| `HeapPromises.ServedKeepsLive` | kernel/arch/i386/mm/heap.cpp:72-121 | every block live before is live after, unmoved, and disjoint from the new payload |
| `HeapPromises.ServedLowest` | kernel/arch/i386/mm/heap.cpp:77-118 | the payload is that of the lowest fitting block of the old heap if there is one, else of the grown last block |
| `HeapMemory.PayloadStoreRepresents` | kernel/arch/i386/mm/heap.cpp:94 | a client's store into its own payload leaves the list as it was and no other payload touched |
| `HeapMemory.ByteAfter` | kernel/arch/i386/mm/heap.cpp:94 | a byte store changes that byte of its word and no other |
| `Heap.KernelHeap.WritePayload` | kernel/arch/i386/mm/heap.cpp:94 | a byte stored into a live payload, through the page walk, keeps every invariant and every other payload |
| `HeapRuns.StepKeepsBlock` | kernel/arch/i386/mm/heap.cpp:72-148 | a live block that a call neither frees nor writes stays where it is |
| `HeapRuns.RunKeepsCanonicalForm` | kernel/arch/i386/mm/heap.cpp:72-148 | after any run of kmalloc, kfree and client stores the list is well formed and canonical |
| `HeapRuns.RunKeepsPositive` | kernel/arch/i386/mm/heap.cpp:72-148 | over any run without a wrapped request all block sizes stay positive |
| `HeapRuns.RunsMeet` | kernel/arch/i386/mm/heap.cpp:72-148 | runs ending with the same live blocks and heap end leave the same list |
| `HeapRuns.Perform` | kernel/arch/i386/mm/heap.cpp:72-148 | one call on the heap object is one step of the prescription, frames spent and pointer returned included |
| `HeapRuns.PointerServes` | kernel/arch/i386/mm/heap.cpp:72-121 | the prescribed pointer of an allocation is the one that serves the request |
| `HeapRuns.PerformAll` | kernel/arch/i386/mm/heap.cpp:72-148 | the heap object carries out any run, all cross-layer invariants holding in every reachable state and the pointers returned as prescribed; a live block the run neither frees nor writes is still there with every byte; no word of a frame used before paging has changed |
| `Boot.SetUp` | kernel/arch/i386/mm/heap.cpp:47-57 | paging and heap set up over an initialised allocator establish every invariant |
| `Boot.Start` | kernel/arch/i386/mm/pmm.cpp:73-153 | from the memory map on: every frame of the first heap is available memory outside kernel and bitmap |
| `Boot.HeapFramesAvailable` | kernel/arch/i386/mm/heap.cpp:29-57 | in every reachable state each heap frame is available memory outside kernel and bitmap |
| `Boot.PagingFramesAvailable` | kernel/arch/i386/mm/vmm.cpp:16-81 | so are the directory and every table |
| `Boot.ReservedWordsStay` | kernel/arch/i386/mm/pmm.cpp:133-153 | in every reachable state no word of a kernel, bitmap or unavailable page has changed since before paging |
| `Boot.KernelBytesStay` | kernel/arch/i386/mm/pmm.cpp:133-153 | byte by byte: in every reachable state no byte of the kernel image or the bitmap lies in a heap frame, the directory or a table, and none has changed |
| `Boot.HeapOpenToUsers` | kernel/arch/i386/mm/heap.cpp:36 | in every reachable state both entries that translate a heap address have exactly the present, writable and user bits among the low twelve: the kernel takes user stacks from the heap |
| `Boot.KernelOpenToUsers` | kernel/arch/i386/mm/vmm.cpp:27-35 | and so have those of the first 4 MB, at 0 and at 3 GB |
| `Boot.WindowClosedToUsers` | kernel/arch/i386/mm/vmm.cpp:37-38 | the directory names itself in its last slot, with present and writable alone |
| `Boot.KernelStaysMapped` | kernel/arch/i386/mm/vmm.cpp:25-38 | in every reachable state the first 4 MB are mapped at 0 and at 3 GB as after boot, and nothing else outside heap and window |
| `Boot.HeapPageOwnsFrame` | kernel/arch/i386/mm/heap.cpp:29-57 | every heap address walks to a present writable frame that is used, was not reserved, and is neither directory nor table |
| `Boot.HeapBytesDisjoint` | kernel/arch/i386/mm/heap.cpp:29-57 | different heap addresses are different physical bytes |
| `Boot.FrameAccounting` | kernel/arch/i386/mm/heap.cpp:29-39 | used pages are those after pmm_init, plus 2, plus P, plus ceil(P/1024) |
| `Switch.Cpu.SwitchTo` | kernel/arch/i386/process/switch.S:4-23 | pushes, stores and pops leave the saved frame in memory and the registers that the incoming frame holds |
| `Switch.SwitchSavesFrame` | kernel/arch/i386/process/switch.S:4-13 | the frame left behind is the caller's context |
| `Switch.FrameDetermines` | kernel/arch/i386/process/switch.S:18-23 | a frame determines the context resumed from it |
| `Tasks.SwitchKeepsGood` | kernel/arch/i386/process/switch.S:4-23 | a switch keeps the ring and every sleeping frame; the outgoing task sleeps where it will resume |
| `Tasks.ComputeKeepsGood` | kernel/kernel/task.cpp:49-64 | whatever a task does to its own stack and unowned memory, every other task stays resumable |
| `Tasks.CreateKeepsGood` | kernel/kernel/task.cpp:23-44 | a creation keeps the ring and all sleeping tasks and adds one behind the head |
| `Tasks.CreatedSleeps` | kernel/kernel/task.cpp:31-40 | the hand-built frame is that of a task at entry with zero registers and an empty stack |
| `Tasks.SwitchStores` | kernel/arch/i386/process/switch.S:4-13 | word by word what a switch leaves in memory: both arguments, the return address, the four registers in their order, and the saved ESP |
| `Tasks.CreationStores` | kernel/kernel/task.cpp:24-44 | word by word what a creation leaves: the fields of the new block, the five words of its frame, the link of the head, and nothing else |
| `Tasks.QueueSteps` | kernel/kernel/task.cpp:43-57 | insertion and switching in memory are the two steps of the round-robin queue |
| `Scheduler.TaskSystem.Init` | kernel/kernel/task.cpp:12-18 | one task linked to itself, with id 1 and its running byte set, the running flow and every other word unchanged |
| `Scheduler.TaskSystem.Create` | kernel/kernel/task.cpp:23-44 | the ring gains the new task behind the head; memory afterwards is given word by word, nothing else touched |
| `Scheduler.TaskSystem.Schedule` | kernel/kernel/task.cpp:49-64 | no effect before start or with one task; else the next task's saved context is running, the old one sleeps where it will resume, and memory afterwards is given word by word |
| `Scheduler.TaskSystem.ListTasks` | kernel/kernel/task.cpp:69-78 | the walk terminates and gives each task one line: ids 1, n, n-1, ..., 2, its saved stack pointer, and Running for the current one alone |
| `Ring.StepDistance` | kernel/kernel/task.cpp:43-57 | a switch brings every waiting task one nearer; a creation moves it at most one away |
| `Ring.BoundedWaiting` | kernel/kernel/task.cpp:23-64 | a task at distance d runs within d switches plus one per creation meanwhile |
| `Ring.QueueOrder` | kernel/kernel/task.cpp:42-44 | over any run the ring from its head reads 1, n, n-1, ..., 2 |
| `TaskRuns.ResumesWhereAsleep` | kernel/arch/i386/process/switch.S:4-23 | over any run, a sleeping task first runs again with exactly the context it sleeps with and with every word of its stack as it was |
| `TaskRuns.SleepsOn` | kernel/arch/i386/process/switch.S:4-23 | until then it sleeps on, its stack untouched |
| `TaskRuns.FirstResumeReached` | kernel/kernel/task.cpp:49-64 | that first resumption is the state some prefix of the run reaches |
| `TaskRuns.ResumesInTime` | kernel/kernel/task.cpp:49-64 | and it does so within d switches plus one per creation |
| `TaskRuns.SwitchIsTransparent` | kernel/kernel/task.cpp:49-64 | the call of switch_to() in schedule() returns to its return address with the EBP, EBX, ESI and EDI it had, the ESP it had once the two arguments are dropped, every word from there up as it was, and within n-1 switches plus one per creation |
| `TaskRuns.NewTaskStarts` | kernel/kernel/task.cpp:31-40 | a new task first runs at entry with zero registers and ESP at its stack top |
| `TaskRuns.Perform` | kernel/kernel/task.cpp:23-64 | every step of the machine is a step of the prescription, memory included |
| `TaskRuns.PerformAll` | kernel/kernel/task.cpp:23-64 | the machine carries out any allowed run; a task that has not run again still sleeps in its context on an untouched stack |
| `TaskHeap.HeapGivesFreshTask` | kernel/kernel/task.cpp:24-40 | two calls of kmalloc give a new task a block and a stack apart from every other task, and the tasks stay on the heap |
| `TaskHeap.StepKeepsHoused` | kernel/kernel/task.cpp:14-40 | every heap call that does not free a block of a task leaves all tasks on live allocations |
| `TaskHeap.PayloadWritesKeepList` | kernel/arch/i386/mm/heap.cpp:94 | stores of any client that stay in live payloads leave the list in memory as it was |
| `TaskHeap.StepWritesPayloads` | kernel/kernel/task.cpp:23-64 | every step of a task, switch and creation included, writes the heap in live payloads only |
| `TaskHeap.TasksKeepHeap` | kernel/kernel/task.cpp:23-64 | so the list survives it in the same memory |
| `TaskHeap.HeapKeepsTasks` | kernel/arch/i386/mm/heap.cpp:72-148 | no heap call but the free of a block of a task changes a word of any control block or stack |
| `KernelRuns.CallIsCompute` | kernel/arch/i386/mm/heap.cpp:72-148 | to the tasks a heap call is a computation of the running task that writes no word of theirs |
| `KernelRuns.RunKeepsBoth` | kernel/kernel/task.cpp:12-64 | over any interleaving of task steps and heap calls on one memory, list, headers and every task stay sound, and the tasks go through a run of the task machine |
| `KernelRuns.ResumesAmongCalls` | kernel/arch/i386/process/switch.S:4-23 | so a sleeping task first runs again in its own context on an untouched stack, whatever the others allocate, free and store |
| `KernelRuns.PerformCall` | kernel/arch/i386/mm/heap.cpp:72-148 | one call on the heap object is such an event |
| `TaskTicks.StoresAreCreation` | kernel/kernel/task.cpp:23-44 | the ten stores of task_create, one by one, are its effect |
| `TaskTicks.TickDuringCreate` | kernel/kernel/task.cpp:23-44 | a timer tick between any two of them finds the old ring in a good state |
| `TaskTicks.InterruptedCreate` | kernel/kernel/task.cpp:23-44 | interrupted after any of them and resumed with its words in place and the head unchanged, it finishes as if it had run without a break |
| `TaskTicks.LostCreation` | kernel/kernel/task.cpp:43-44 | a creation by another task between the two link stores is lost from the ring |
| `TaskTicks.StartupWindow` | kernel/kernel/task.cpp:12-18 | between the stores of tasking_init a tick is harmless iff current_task is not set yet, its next link is, or the fresh block held its own address there |
| `TaskHeap.StartTasks` | kernel/kernel/task.cpp:12-18 | tasking_init with its kmalloc: the first task on the heap, only three words of its block written |
| `TaskHeap.CreateTask` | kernel/kernel/task.cpp:23-44 | task_create with its two calls of kmalloc: heap and scheduler both keep all they keep |
| `Page.PutChar` | kernel/arch/i386/drivers/tty.cpp:128-167 | the cursor always stays inside the window of the last 25 rows |
| `Page.ScrolledOffStays` | kernel/arch/i386/drivers/tty.cpp:110-121 | what scrolled off the screen never changes |
| `Page.CellBytes` | kernel/arch/i386/drivers/tty.cpp:26-28 | a cell holds the character in its low byte and the colour in its high byte |
| `Page.FreshIsBlank` | kernel/arch/i386/drivers/tty.cpp:77-88 | a page starts as 25 rows of 80 spaces in its colour, cursor home |
| `Page.NewlineMoves` | kernel/arch/i386/drivers/tty.cpp:130-137 | a newline goes to the start of the next row, changes no old cell, and a row begun is spaces in the current colour |
| `Page.GlyphMoves` | kernel/arch/i386/drivers/tty.cpp:156-165 | a character fills the cursor cell, moves one on, and changes no other cell; a row begun is spaces |
| `Page.BackspaceMoves` | kernel/arch/i386/drivers/tty.cpp:141-154 | off the top-left corner a backspace moves one back, blanks that cell and changes no other |
| `Page.BackspaceHeld` | kernel/arch/i386/drivers/tty.cpp:142-147 | at the top-left corner a backspace does not move, blanks the cell there and changes no other |
| `Terminal.ScrolledShows` | kernel/arch/i386/drivers/tty.cpp:110-121 | a scroll shows the same page with one more blank row |
| `Terminal.Tty.Initialize` | kernel/arch/i386/drivers/tty.cpp:77-88 | the screen shows a blank page, cursor home |
| `Terminal.Tty.SetColors` | kernel/arch/i386/drivers/tty.cpp:100-102 | foreground in the low half of the colour, background in the high one, nothing on the screen changed |
| `Terminal.Tty.Scroll` | kernel/arch/i386/drivers/tty.cpp:110-121 | in place, each row takes the next one and the last is blanked |
| `Terminal.Tty.PutCharUnlocked` | kernel/arch/i386/drivers/tty.cpp:128-167 | the screen stays the last 25 rows of the unbounded page, the cursor the page cursor |
| `Terminal.Tty.WriteUnlocked` | kernel/arch/i386/drivers/tty.cpp:185-187 | the same over a whole string |
| `Readline.ReadLine` | kernel/arch/i386/drivers/shell.cpp:29-48 | buffer, count and screen are those of the line session over the keys taken, for every max_len, 0 standing for 2^32, in any buffer that has room for the line as typed; the line is terminated |
| `Readline.BufferIsEnoughIff` | kernel/arch/i386/drivers/shell.cpp:29-47 | a buffer of max_len bytes has room for every key stream iff max_len is not 0 |
| `Readline.ZeroOverruns` | kernel/arch/i386/drivers/shell.cpp:31 | with max_len 0 a line of any length up to 2^32 - 2 is stored |
| `Readline.LineEnds` | kernel/arch/i386/drivers/shell.cpp:31-46 | the line ends at the first Enter or with max_len - 1 characters, and until then every key is taken |
| `Readline.SessionEdits` | kernel/arch/i386/drivers/shell.cpp:31-46 | the buffer is the backspace-edited key stream |
| `Readline.SessionKeepsLine` | kernel/arch/i386/drivers/shell.cpp:31-46 | at every step the echo spells the buffer; the cursor stands behind it, across wraps and scrolls, and after Enter at the start of the next row |
| `Readline.LimitIsExact` | kernel/arch/i386/drivers/shell.cpp:29-48 | cursor and buffer agree for all key streams iff start column + max_len is at most 2001 |
| `Readline.OverlongLineParts` | kernel/arch/i386/drivers/shell.cpp:37-41 | beyond that limit a concrete key stream parts them |
| `Readline.LineStaysVisible` | kernel/arch/i386/drivers/shell.cpp:29-48 | up to 2000, so for max_len up to 1921 at any column, the whole line stays on the screen |
| `Readline.ScreenSpells` | kernel/arch/i386/drivers/shell.cpp:42-45 | the screen cells of a visible line spell the buffer |
| `Readline.LineLength` | kernel/arch/i386/drivers/shell.cpp:47 | with keys other than NUL the C string length of the result is i |
| `Console.TypedLine` | kernel/arch/i386/drivers/shell.cpp:29-48 | after any interleaving of interrupts and reads, a line read from the keyboard is the edit of the decoded keys and its C string length is its length |
| `Console.TypeLine` | kernel/arch/i386/drivers/shell.cpp:29-48 | the line loop run over keyboard_getchar while scancodes arrive: buffer, screen and count are those of the session over the keys fetched, which are what this line added to the characters returned; the result is a C string |
| `Keyboard.PlainKeys` | kernel/arch/i386/drivers/keyboard.cpp:43-55 | the plain table, key by key as text |
| `Keyboard.ShiftedKeys` | kernel/arch/i386/drivers/keyboard.cpp:62-74 | the shifted table, key by key as text |
| `Keyboard.RowsInOrder` | kernel/arch/i386/drivers/keyboard.cpp:43-74 | the rows stand one after the other from scancode 0 on, and no other scancode has a character |
| `Keyboard.ShiftedLetter` | kernel/arch/i386/drivers/keyboard.cpp:43-74 | shift makes a letter the capital of the same letter, and nothing else a capital |
| `Keyboard.DecodedKey` | kernel/arch/i386/drivers/keyboard.cpp:89-117 | a letter key gives its own letter, a capital iff exactly one of shift and caps lock is on; other keys what is printed on them; releases and modifiers nothing |
| `Keyboard.ModifiersAreHistory` | kernel/arch/i386/drivers/keyboard.cpp:89-105 | over any history each shift is down iff it was pressed after its last release, and caps lock has flipped iff it was pressed an odd number of times |
| `Keyboard.DecodedUnderHistory` | kernel/arch/i386/drivers/keyboard.cpp:81-117 | so every scancode is decoded under the modifiers its history leaves |
| `Keyboard.DecodeMeaning` | kernel/arch/i386/drivers/keyboard.cpp:110-117 | a letter is a capital iff exactly one of shift and caps lock is on; backspace and newline come from their own keys only |
| `Keyboard.AcceptedIsHistory` | kernel/arch/i386/drivers/keyboard.cpp:81-127 | under every interleaving the queued characters are the decoded history minus those met by a full queue |
| `Keyboard.ReturnedInOrder` | kernel/arch/i386/drivers/keyboard.cpp:139-152 | the characters returned are a prefix of those, in order, and never NUL |
| `Keyboard.InterruptQueues` | kernel/arch/i386/drivers/keyboard.cpp:115-126 | a decoded character is queued at the end unless 255 wait, and then it is lost |
| `Keyboard.QueueHolds` | kernel/arch/i386/drivers/keyboard.cpp:121-125 | a queued character never overwrites an unread slot |
| `Keyboard.Driver.Handler` | kernel/arch/i386/drivers/keyboard.cpp:81-130 | one interrupt is one step of the history model, the ring buffer holding what waits |
| `Keyboard.Driver.Enqueue` | kernel/arch/i386/drivers/keyboard.cpp:121-125 | queues unless 255 wait |
| `Keyboard.Driver.GetcharStep` | kernel/arch/i386/drivers/keyboard.cpp:141-149 | each of test, read and advance is one step of the reader |
| `Keyboard.Driver.Interleave` | kernel/arch/i386/drivers/keyboard.cpp:81-152 | the driver carries out any interleaving of interrupts and reader steps |
| `Keyboard.Driver.Getchar` | kernel/arch/i386/drivers/keyboard.cpp:139-152 | sleeps through the interrupts that bring no character, then returns the oldest waiting one |
| `Spinlock.NextHeld` | kernel/kernel/spinlock.cpp:3-13 | every atomic step keeps: lock set iff one task inside, log = whole calls + its part |
| `Spinlock.MutualExclusion` | kernel/kernel/spinlock.cpp:3-13 | under every interleaving at most one task is inside the unlocked writer |
| `Spinlock.CallsNeverMix` | kernel/arch/i386/drivers/tty.cpp:177-189 | the page shows whole calls and then a prefix of the holder's |
| `Spinlock.EveryStringAccounted` | kernel/arch/i386/drivers/tty.cpp:177-189 | under every schedule the strings of the completed calls of a task and the one it is at are, in order, exactly those it entered with: nothing lost, doubled or altered |
| `Spinlock.SharedTerminal.TestAndSet` | kernel/kernel/spinlock.cpp:6 | returns the old lock word and leaves it set |
| `Spinlock.SharedTerminal.StepTask` | kernel/arch/i386/drivers/tty.cpp:177-189 | one step on the lock word and the screen is one step of the interleaving model |
| `Spinlock.SharedTerminal.RunAll` | kernel/arch/i386/drivers/tty.cpp:177-189 | any schedule of any number of tasks, on the screen array itself |
| `InitrdImage.WordRoundTrip` | make_initrd.c:6-14 | a 32-bit field reads back as written |
| `InitrdImage.LittleEndian` | make_initrd.c:6-14 | of a 32-bit field the lowest byte comes first |
| `InitrdImage.NamePadded` | make_initrd.c:26-59 | a name field has at most the first 63 characters of the name and NULs from there on |
| `InitrdImage.NameRoundTrip` | make_initrd.c:59 | a name field reads back as the first 63 characters of the name |
| `InitrdImage.BaseName` | make_initrd.c:55-57 | a suffix of the path, and a C string when the path is one |
| `InitrdImage.BaseNameMeaning` | make_initrd.c:55-57 | no slash inside, and a slash before it unless it is the whole path |
| `InitrdImage.HeaderFound` | make_initrd.c:42-67 | header i stands 72 bytes per file further and names the offset of the data before it |
| `InitrdImage.ContentFound` | make_initrd.c:70-77 | the bytes of file i follow those of the files before it |
| `InitrdImage.ImageParts` | make_initrd.c:36-77 | count, headers and data are where the format says |
| `Initrd.WriteHeaders` | make_initrd.c:38-67 | headers of all files up to the first that cannot be opened |
| `Initrd.WriteContents` | make_initrd.c:70-77 | the bytes of all files in order |
| `Initrd.MakeInitrd` | make_initrd.c:16-82 | status 0 iff there is a file and all can be opened, with the whole image; else the exact partial output |
| `Initrd.Reader.constructor` | kernel/kernel/fs/initrd.cpp:78-98 | one node per header, with its name, length and index |
| `Initrd.Reader.FindDir` | kernel/kernel/fs/initrd.cpp:43-53 | the root for dot names, else the first node of that name, else none |
| `Initrd.Reader.ReadDir` | kernel/kernel/fs/initrd.cpp:24-41 | the directory entry of that index |
| `Initrd.Reader.Read` | kernel/kernel/fs/initrd.cpp:13-22 | fills the buffer's front with the clamped part and touches nothing behind it |
| `Initrd.FindMeaning` | kernel/kernel/fs/initrd.cpp:43-53 | for every name: the root iff it is one of the two dot names, nothing iff it is neither and no node has it, else the first node that has it |
| `Initrd.ClampedIff` | kernel/kernel/fs/initrd.cpp:15-16 | a read stays inside the file iff it starts past its end or offset + size does not wrap |
| `Initrd.ParsedImage` | kernel/kernel/fs/initrd.cpp:55-100 | parsing a written image gives every name, length, index and place |
| `Initrd.FindIff` | kernel/kernel/fs/initrd.cpp:43-53 | a basename is found iff it has at most 63 characters, is no dot entry, and no earlier file is known by it |
| `Initrd.ReadAtIs` | kernel/kernel/fs/initrd.cpp:13-22 | a read of a written image returns exactly that part of the file |
| `Initrd.ReadsRebuild` | kernel/kernel/fs/initrd.cpp:13-22 | any sequence of chunks, none of which wraps at its own offset, rebuilds the file from the offset on, as far as they reach |
| `Initrd.InRangeNeverWraps` | kernel/kernel/fs/initrd.cpp:15-16 | chunks that stay inside the file never wrap, whatever its length |
| `Initrd.RoundTrip` | kernel/kernel/fs/initrd.cpp:13-53 | write, parse, look up and read in chunks, none of which wraps, gives back the file byte for byte |
| `Initrd.ReadChunks` | kernel/kernel/fs/initrd.cpp:13-22 | a loop of reads, each where the last one ended, returns the file as far as the chunks reach |
| `Initrd.ReadBack` | kernel/kernel/fs/initrd.cpp:13-100 | writer, parser, lookup and a loop of reads run in a row: the file comes back as it was on disk |
| `Initrd.ListingIsComplete` | kernel/kernel/fs/initrd.cpp:24-41 | readdir lists the dot entries and then every file once, in order |

## Left out

- TLB contents and `invlpg`, the accessed and dirty bits, and the faults of user code: the entry bits that decide them are `Boot.HeapOpenToUsers`, `Boot.KernelOpenToUsers` and `Boot.WindowClosedToUsers`.
- Vmm.AddressSpace.Init: leaves out enabling paging (CR0) and the boot code before it; it stores by physical address below 4 MB and requires its two frames to be there.
- Vmm.AddressSpace.MapPage: requires a page-aligned frame address, a page outside the recursive window and a free frame when a table is missing, because the code tests for none of these.
- Holes and devices in the physical address space: the model's RAM answers at all 2^30 word addresses.
- The bitmap lives in RAM behind the kernel; the model keeps it as an array of its own. That no store of paging or heap reaches the pages it lies in is `Boot.ReservedWordsStay`.
- Pmm.FrameAllocator.HighestEnd: requires entries that advance below 4 GB and available ranges whose ends do not wrap 64 bits; other entries may lie anywhere.
- Pmm.FrameAllocator.Init: requires available ranges that end below 2^44 besides, the last end whose page count fits the 32-bit counter. With an end at or above 2^32 the flags and the counter are as stated, but page addresses repeat (`PmmRuns.AddressesDistinctIff`), so the calls after it are modelled below 2^32.
- Heap.KernelHeap.Kmalloc: requires, when no block fits, that every page of the growth for which a frame is left lies below the recursive window and does not meet the trap of `Heap.StrandedIff`, where the code would install a table in frame 0, and that the page count does not wrap, which leaves out sizes from 2^32 - 4111 to 2^32 - 8. The panic is a result; the endless loop after it is not modelled.
- Heap.KernelHeap.Expand: requires the same of the pages it is asked for; so do Heap.KernelHeap.GrowFor and Heap.KernelHeap.Search.
- Heap.KernelHeap.Kfree: requires null or a live payload pointer: what a foreign pointer does is not modelled.
- Concurrent use of the heap: `kmalloc` and `kfree` take no lock and are sequential here; a timer tick inside one of them, and so inside `task_create` before its stores, is not modelled.
- Scheduler.TaskSystem.Create: atomic, as are Init and Schedule; ticks between the stores are in `TaskTicks`. Takes its control block and stack as fresh addresses; `TaskHeap.CreateTask` gets them from the heap. The two objects keep a memory each; `KernelRuns` joins them over one memory on values.
- Scheduler.TaskSystem.Init: claims nothing of the stack bounds or the saved stack pointer of the initial task, nor of the running flag of new tasks: the code does not set them. The TSS stack is stated for all other tasks.
- TaskRuns.Perform: a running task may write its own stack and memory no task owns, and needs 28 bytes of stack to call `schedule()`.
- Cursor hardware, port I/O, interrupt controller, GDT, IDT, timer and system-call dispatch.
- Spinlock.MutualExclusion: safety only; that a spinning task gets on is not stated.
- Readline.ReadLine: requires a buffer with room for the line as these keys make it, which `max_len` bytes give iff `max_len` is not 0, and no other writer on the terminal; it stops where the keys it is given run out.
- Console.TypeLine: requires a buffer of `max_len` bytes, 2^32 for a `max_len` of 0, as it does not know the keys in advance.
- Keyboard.Driver.Getchar: interrupts arrive while it waits, none between its test, read and advance; those are in `Keyboard.Driver.Interleave`.
- The extended scancodes with prefix 0xE0, which the code does not treat apart either.
- Initrd.MakeInitrd: requires at most 64 paths that are C strings and a total below 2^32: the code's header table has 64 entries and it checks neither. Usage and error messages, failure to create the output, and files that change between the two passes are not modelled.
- Initrd.Reader.Read: requires the part it copies to lie inside the image and the buffer; the image is an immutable byte sequence of its own, not RAM the allocator might hand out.
- Initrd.Reader.constructor: requires the headers to lie inside the image and keeps of a node its name, length and index; other fields are constants. Node calls on other nodes than the root and the shared `dirent` are not modelled.
- The sign of `char`: characters are bytes from 0 to 255, as `vga_entry` takes them.
- The rest of the shell, the vfs wrappers, `printf` and the string library are not modelled.
