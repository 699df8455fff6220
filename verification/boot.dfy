/** From the memory map to a working heap, and what the three layers promise together. */
module Boot {
  import opened Words
  import opened Pmm
  import opened Paging
  import opened Vmm
  import opened HeapSpace
  import opened HeapBlocks
  import opened Heap

  /** Right after paging is set up the heap owns no page, and no table serves its range. */
  lemma EmptyHeapBacked(m: Ram, d: int, t: int, flags: seq<bool>)
    requires IsFrame(d) && IsFrame(t) && d != t && BootTables(m, d, t)
    requires |flags| < FRAMES && d < |flags| && t < |flags| && flags[d] && flags[t] && flags[0]
    ensures Backed(m, d, flags, []) && MapsBoot(m, d, 0)
  {
    BootTablesHeld(m, d, t, flags);
    BootTablesSound(m, d, t);
    forall s | HEAP_SLOT <= s < RECURSIVE_SLOT
      ensures TableExact(m, d, 0, s)
    {
    }
    forall v: u32 | Elsewhere(v, 0)
      ensures Walk(m, d, v) == BootWalk(v)
    {
      BootTablesTranslate(m, d, t, v);
    }
    forall p | 0 <= p < 1024
      ensures BootPlain(m, d, p)
    {
      BootSlots(p);
      BootEntryParts(d, t, 0);
      BootEntryParts(d, t, HIGHER_HALF_SLOT);
      assert Entry(m, d, 0) == BootPde(d, t, 0) && Entry(m, d, HIGHER_HALF_SLOT) == BootPde(d, t, HIGHER_HALF_SLOT);
      assert Entry(m, t, p) == IdentityEntry(p);
    }
  }

  /** Lowest-first allocation puts page 0 among the used ones. */
  lemma FirstPageUsed(flags: seq<bool>)
    requires flags != [] && LowestFree(flags, 0) < |flags|
    ensures flags[LowestFree(flags, 0) := true][0]
  {
  }

  lemma TwoTaken(flags: seq<bool>, d: int, t: int)
    requires flags != [] && d == LowestFree(flags, 0) < |flags|
    requires t == LowestFree(flags[d := true], 0) < |flags|
    ensures var flags' := flags[d := true][t := true];
      CountUsed(flags') == CountUsed(flags) + 2 && BaseKept(flags, flags', []) && flags'[0]
  {
    CountUsedUpdate(flags, d, true);
    CountUsedUpdate(flags[d := true], t, true);
    FirstPageUsed(flags);
  }

  /** Directory and first table take free frames, and nothing else is written. */
  lemma BootKernelKept(m0: Ram, m: Ram, d: int, t: int, base: seq<bool>)
    requires IsFrame(d) && IsFrame(t) && d != t && BootTables(m, d, t) && SameOutside(m0, m, d, t)
    requires d < |base| && t < |base| && !base[d] && !base[t]
    ensures KernelKept(m0, m, d, base)
  {
    BootTablesSound(m, d, t);
    forall f, k | Foreign(base, f) && IsSlot(k)
      ensures Entry(m, f, k) == Entry(m0, f, k)
    {
    }
  }

  /** The two lowest free pages lie below 4 MB, and there are frames for paging and the first heap. */
  ghost predicate CanBoot(flags: seq<bool>) {
    var d := LowestFree(flags, 0);
    d < 1024 && d < |flags| &&
    (var t := LowestFree(flags[d := true], 0); t < 1024 && t < |flags|) &&
    |flags| - CountUsed(flags) >= 2 + FramesNeeded(0, KHEAP_INITIAL_SIZE / PAGE_SIZE)
  }

  /** Paging and the heap set up in the order of the kernel's entry point, over an initialised allocator. */
  method SetUp(pmm: FrameAllocator, ram: Ram) returns (heap: KernelHeap)
    requires pmm.Valid() && CanBoot(pmm.Pages())
    modifies pmm`usedBlocks, pmm.bitmap
    ensures fresh(heap) && fresh(heap.space) && heap.space.pmm == pmm && heap.Valid()
    ensures heap.base == old(pmm.Pages()) && heap.origin == ram
    ensures heap.blocks == [Block(KHEAP_START, KHEAP_INITIAL_SIZE - HEADER, true)]
    ensures heap.end == KHEAP_START + KHEAP_INITIAL_SIZE
  {
    hide Bits, CountUsed, Backed, BootTables, BaseKept, SameOutside, KernelKept, MapsBoot;
    ghost var flags := pmm.Pages();
    ghost var d := LowestFree(flags, 0);
    ghost var t := LowestFree(flags[d := true], 0);
    var space := new AddressSpace(pmm, ram);
    TwoTaken(flags, d, t);
    space.Init();
    EmptyHeapBacked(space.ram, d, t, pmm.Pages());
    BootKernelKept(ram, space.ram, d, t, flags);
    heap := new KernelHeap(space, flags, ram);
    SufficeIsSafe(heap.Spare(), 0, KHEAP_INITIAL_SIZE / PAGE_SIZE);
    var panic := heap.Init();
  }

  /** The page flags the memory map prescribes: available pages outside kernel and bitmap are free, all others used. */
  ghost function MapFlags(es: seq<MmapEntry>, kernelStart: int, kernelEnd: int, pages: nat): (flags: seq<bool>)
    ensures |flags| == pages
  {
    seq(pages, p requires 0 <= p < pages => !(Covered(es, p) && !Reserved(kernelStart, kernelEnd, pages, p)))
  }

  /** Bytes that hold one bit for each page. */
  function BitmapBytes(pages: nat): (bytes: nat)
    ensures pages <= 8 * bytes < pages + 8
  {
    (pages + 7) / 8
  }

  /** Page p holds part of the kernel image or of the bitmap behind it. */
  ghost predicate Reserved(kernelStart: int, kernelEnd: int, pages: nat, p: int) {
    Meets(p, kernelStart - KERNEL_VIRT_BASE, kernelEnd - KERNEL_VIRT_BASE + BitmapBytes(pages))
  }

  /** With as many pages as the available entries reach, the kernel can boot. */
  ghost predicate Bootable(es: seq<MmapEntry>, kernelStart: int, kernelEnd: int) {
    forall highest: nat :: IsHighestEnd(es, highest) ==>
      CanBoot(MapFlags(es, kernelStart, kernelEnd, highest / PAGE_SIZE))
  }

  lemma BootableAt(es: seq<MmapEntry>, kernelStart: int, kernelEnd: int, highest: nat)
    requires Bootable(es, kernelStart, kernelEnd) && IsHighestEnd(es, highest)
    ensures CanBoot(MapFlags(es, kernelStart, kernelEnd, highest / PAGE_SIZE))
  {
  }

  /** Every frame of the heap, in every reachable state, is available memory outside kernel and bitmap. */
  lemma HeapFramesAvailable(heap: KernelHeap, es: seq<MmapEntry>, kernelStart: int, kernelEnd: int)
    requires heap.SpaceValid()
    requires heap.base == MapFlags(es, kernelStart, kernelEnd, heap.space.pmm.maxBlocks)
    ensures forall k :: 0 <= k < |heap.frames| ==>
      Covered(es, heap.frames[k]) && !Reserved(kernelStart, kernelEnd, heap.space.pmm.maxBlocks, heap.frames[k])
  {
    assert BaseKept(heap.base, heap.space.pmm.Pages(), heap.frames);
  }

  /** The heap stands on the pages of that memory map, and none of its frames is reserved or unavailable. */
  ghost predicate BootedFrom(heap: KernelHeap, es: seq<MmapEntry>, kernelStart: int, kernelEnd: int, highest: nat)
    reads heap, heap.space.pmm
  {
    IsHighestEnd(es, highest) && heap.space.pmm.maxBlocks == highest / PAGE_SIZE &&
    heap.base == MapFlags(es, kernelStart, kernelEnd, highest / PAGE_SIZE) &&
    forall k :: 0 <= k < |heap.frames| ==>
      Covered(es, heap.frames[k]) && !Reserved(kernelStart, kernelEnd, highest / PAGE_SIZE, heap.frames[k])
  }

  /** From the memory map to a working heap, every page of which lies in available memory outside kernel and bitmap. */
  method Start(mmap: map<int, MmapEntry>, mmapAddr: u32, mmapLength: u32, kernelStart: u32, kernelEnd: u32, ram: Ram)
    returns (heap: KernelHeap, highest: nat)
    requires mmapAddr + mmapLength < TWO_32 && WellFormedMap(mmap, mmapAddr, mmapAddr + mmapLength)
    requires EndsBelow(Entries(mmap, mmapAddr, mmapAddr + mmapLength), TWO_32)
    requires KERNEL_VIRT_BASE <= kernelStart <= kernelEnd
    requires Bootable(Entries(mmap, mmapAddr, mmapAddr + mmapLength), kernelStart, kernelEnd)
    ensures fresh(heap) && heap.Valid() && heap.origin == ram
    ensures heap.blocks == [Block(0xD000_0000, 0x20_0000 - 16, true)] && heap.end == 0xD020_0000
    ensures BootedFrom(heap, Entries(mmap, mmapAddr, mmapAddr + mmapLength), kernelStart, kernelEnd, highest)
  {
    hide CanBoot, Bootable, CountUsed, WellFormedMap, Entries, IsHighestEnd, EndsBelow, Covered;
    hide KernelHeap.Valid, KernelHeap.SpaceValid;
    ghost var es := Entries(mmap, mmapAddr, mmapAddr + mmapLength);
    var pmm := new FrameAllocator();
    RaisedIsHighest(es);
    HighestBelow(es, Raised(0, es), TWO_32);
    highest := pmm.Init(mmap, mmapAddr, mmapLength, kernelStart, kernelEnd);
    HighestBelow(es, highest, TWO_32);
    assert pmm.Pages() == MapFlags(es, kernelStart, kernelEnd, highest / PAGE_SIZE);
    BootableAt(es, kernelStart, kernelEnd, highest);
    heap := SetUp(pmm, ram);
    ValidSpace(heap);
    HeapFramesAvailable(heap, es, kernelStart, kernelEnd);
  }

  lemma ValidSpace(heap: KernelHeap)
    requires heap.Valid()
    ensures heap.SpaceValid() && |heap.base| == heap.space.pmm.maxBlocks
  {
  }

  /** So are the directory and every table. */
  lemma PagingFramesAvailable(heap: KernelHeap, es: seq<MmapEntry>, kernelStart: int, kernelEnd: int, s: nat)
    requires heap.SpaceValid() && s < RECURSIVE_SLOT && HasTable(heap.space.ram, heap.space.Dir(), s)
    requires heap.base == MapFlags(es, kernelStart, kernelEnd, heap.space.pmm.maxBlocks)
    ensures forall f :: f in {heap.space.Dir(), TableFrame(heap.space.ram, heap.space.Dir(), s)} ==>
      Covered(es, f) && !Reserved(kernelStart, kernelEnd, heap.space.pmm.maxBlocks, f)
  {
    assert KernelKept(heap.origin, heap.space.ram, heap.space.Dir(), heap.base);
    assert SlotOwned(heap.space.ram, heap.space.Dir(), heap.base, s);
    assert IsFrame(TableFrame(heap.space.ram, heap.space.Dir(), s));
  }

  /** No word of a kernel, bitmap or unavailable page has changed since before paging was set up. */
  lemma ReservedWordsStay(heap: KernelHeap, es: seq<MmapEntry>, kernelStart: int, kernelEnd: int, f: nat, k: int)
    requires heap.SpaceValid() && IsFrame(f) && IsSlot(k)
    requires heap.base == MapFlags(es, kernelStart, kernelEnd, heap.space.pmm.maxBlocks)
    requires Reserved(kernelStart, kernelEnd, heap.space.pmm.maxBlocks, f) || !Covered(es, f)
    ensures Entry(heap.space.ram, f, k) == Entry(heap.origin, f, k)
  {
    assert ForeignKept(heap.origin, heap.space.ram, heap.base);
    assert Foreign(heap.base, f);
  }

  /** Byte by byte: no byte of the kernel image or of the bitmap behind it lies in a heap frame, the directory or a
      table, and none has changed. */
  lemma KernelBytesStay(heap: KernelHeap, es: seq<MmapEntry>, kernelStart: int, kernelEnd: int, b: u32)
    requires heap.SpaceValid() && heap.base == MapFlags(es, kernelStart, kernelEnd, heap.space.pmm.maxBlocks)
    requires KERNEL_VIRT_BASE <= kernelStart <= KERNEL_VIRT_BASE + b
    requires KERNEL_VIRT_BASE + b < kernelEnd + BitmapBytes(heap.space.pmm.maxBlocks)
    ensures var f := b / PAGE_SIZE;
      f !in heap.frames && f != heap.space.Dir() &&
      (forall s :: 0 <= s < RECURSIVE_SLOT && HasTable(heap.space.ram, heap.space.Dir(), s) ==>
        TableFrame(heap.space.ram, heap.space.Dir(), s) != f) &&
      Entry(heap.space.ram, f, b % PAGE_SIZE / 4) == Entry(heap.origin, f, b % PAGE_SIZE / 4)
  {
    var f, pages := b / PAGE_SIZE, heap.space.pmm.maxBlocks;
    assert Within(b, kernelStart - KERNEL_VIRT_BASE, kernelEnd - KERNEL_VIRT_BASE + BitmapBytes(pages));
    assert Reserved(kernelStart, kernelEnd, pages, f);
    hide KernelHeap.SpaceValid, Reserved;
    HeapFramesAvailable(heap, es, kernelStart, kernelEnd);
    HasFirstTable(heap);
    PagingFramesAvailable(heap, es, kernelStart, kernelEnd, 0);
    forall s | 0 <= s < RECURSIVE_SLOT && HasTable(heap.space.ram, heap.space.Dir(), s)
      ensures TableFrame(heap.space.ram, heap.space.Dir(), s) != f
    {
      PagingFramesAvailable(heap, es, kernelStart, kernelEnd, s);
    }
    ReservedWordsStay(heap, es, kernelStart, kernelEnd, f, b % PAGE_SIZE / 4);
  }

  lemma HasFirstTable(heap: KernelHeap)
    requires heap.SpaceValid()
    ensures HasTable(heap.space.ram, heap.space.Dir(), 0)
  {
  }

  /** Heap pages own their frames: present, writable, used, outside every paging structure and reserved page. */
  lemma HeapPageOwnsFrame(heap: KernelHeap, v: u32)
    requires heap.SpaceValid() && KHEAP_START <= v < heap.end
    ensures var k := PageOf(v);
      var m, dir, flags := heap.space.ram, heap.space.Dir(), heap.space.pmm.Pages();
      0 <= k < |heap.frames| && IsFrame(heap.frames[k]) &&
      Walk(m, dir, v) == At(heap.frames[k] * PAGE_SIZE + v % PAGE_SIZE, true) &&
      heap.frames[k] < |flags| && flags[heap.frames[k]] && !heap.base[heap.frames[k]] &&
      heap.frames[k] != dir &&
      forall s :: 0 <= s < RECURSIVE_SLOT && HasTable(m, dir, s) ==> TableFrame(m, dir, s) != heap.frames[k]
  {
    var k := PageOf(v);
    var m, dir, flags := heap.space.ram, heap.space.Dir(), heap.space.pmm.Pages();
    PageOfBounds(v, |heap.frames|);
    assert PageGood(m, dir, flags, heap.frames, k);
    var f := heap.frames[k];
    forall s | 0 <= s < RECURSIVE_SLOT && HasTable(m, dir, s)
      ensures TableFrame(m, dir, s) != f
    {
      assert NotTable(m, dir, s, f);
    }
    SamePageWalk(m, dir, v, k, f);
  }

  /** In every reachable state the first 4 MB are mapped at both places, and else nothing outside heap and window. */
  lemma KernelStaysMapped(heap: KernelHeap, v: u32)
    requires heap.SpaceValid() && PdIndex(v) != RECURSIVE_SLOT && !(KHEAP_START <= v < heap.end)
    ensures Walk(heap.space.ram, heap.space.Dir(), v) == BootWalk(v)
  {
    heap.SpaceCovers();
    assert Elsewhere(v, |heap.frames|);
  }

  /** The low twelve bits of a plain entry: present, writable, user, and nothing else. */
  lemma PlainBits(entry: u32, j: nat)
    requires entry % PAGE_SIZE == 7 && j < 12
    ensures Bit(entry, j) <==> j < 3
  {
    LowBits(entry, j);
    SmallBits(j);
  }

  /** v is translated by two entries with exactly the present, writable and user bits set, the second naming frame f. */
  ghost predicate OpenToUsers(m: Ram, dir: int, v: u32, f: int)
    requires IsFrame(dir)
  {
    var pde := Entry(m, dir, v / 0x40_0000);
    var pte := Entry(m, pde / 4096, v / 4096 % 1024);
    pte / 4096 == f && (forall j: nat :: j < 12 ==> (Bit(pde, j) <==> j < 3)) &&
    (forall j: nat :: j < 12 ==> (Bit(pte, j) <==> j < 3))
  }

  lemma PlainIsOpen(m: Ram, dir: int, v: u32, f: int)
    requires IsFrame(dir) && PlainEntries(m, dir, f, v)
    ensures OpenToUsers(m, dir, v, f)
  {
    var pde := Entry(m, dir, PdIndex(v));
    var pte := Entry(m, FrameOf(pde), PtIndex(v));
    forall j: nat | j < 12
      ensures Bit(pde, j) <==> j < 3
      ensures Bit(pte, j) <==> j < 3
    {
      PlainBits(pde, j);
      PlainBits(pte, j);
    }
  }

  lemma SamePageEntries(m: Ram, dir: int, v: u32, v': u32, f: int)
    requires IsFrame(dir) && PlainEntries(m, dir, f, v') && v / PAGE_SIZE == v' / PAGE_SIZE
    ensures PlainEntries(m, dir, f, v)
  {
    assert PdIndex(v) == v / PAGE_SIZE / 1024 && PdIndex(v') == v' / PAGE_SIZE / 1024;
  }

  /** In every reachable state user code may read and write the whole heap, where the kernel takes user stacks from. */
  lemma HeapOpenToUsers(heap: KernelHeap, v: u32)
    requires heap.SpaceValid() && KHEAP_START <= v < heap.end
    ensures 0 <= PageOf(v) < |heap.frames|
    ensures OpenToUsers(heap.space.ram, heap.space.Dir(), v, heap.frames[PageOf(v)])
  {
    var k := PageOf(v);
    var m, dir := heap.space.ram, heap.space.Dir();
    PageOfBounds(v, |heap.frames|);
    assert PageGood(m, dir, heap.space.pmm.Pages(), heap.frames, k);
    HeapSlotsPlain(k);
    SamePageEntries(m, dir, v, PageStart(k), heap.frames[k]);
    PlainIsOpen(m, dir, v, heap.frames[k]);
  }

  /** And so the first 4 MB at both places. */
  lemma KernelOpenToUsers(heap: KernelHeap, v: u32)
    requires heap.SpaceValid() && v < 0x40_0000
    ensures OpenToUsers(heap.space.ram, heap.space.Dir(), v, v / 4096)
    ensures OpenToUsers(heap.space.ram, heap.space.Dir(), 0xC000_0000 + v, v / 4096)
  {
    var p := v / PAGE_SIZE;
    var m, dir := heap.space.ram, heap.space.Dir();
    assert BootPlain(m, dir, p);
    BootSlots(p);
    SamePageEntries(m, dir, v, PAGE_SIZE * p, p);
    SamePageEntries(m, dir, 0xC000_0000 + v, KERNEL_VIRT_BASE + PAGE_SIZE * p, p);
    PlainIsOpen(m, dir, v, p);
    PlainIsOpen(m, dir, 0xC000_0000 + v, p);
  }

  /** But not the recursive window: its directory entry has present and writable alone, over the directory itself. */
  lemma WindowClosedToUsers(heap: KernelHeap, j: nat)
    requires heap.SpaceValid() && j < 12
    ensures var pde := Entry(heap.space.ram, heap.space.Dir(), 1023);
      pde / 4096 == heap.space.Dir() && (Bit(pde, j) <==> j < 2)
  {
    var pde := Entry(heap.space.ram, heap.space.Dir(), RECURSIVE_SLOT);
    assert pde == heap.space.Dir() * PAGE_SIZE + 3;
    LowBits(pde, j);
    SmallBits(j);
  }

  lemma PageOfBounds(v: int, pages: nat)
    requires KHEAP_START <= v < KHEAP_START + PAGE_SIZE * pages
    ensures 0 <= PageOf(v) < pages
    ensures KHEAP_START + PAGE_SIZE * PageOf(v) <= v < KHEAP_START + PAGE_SIZE * PageOf(v) + PAGE_SIZE
  {
  }

  lemma SamePageWalk(m: Ram, dir: int, v: u32, k: nat, f: nat)
    requires IsFrame(dir) && IsFrame(f) && k < MAX_HEAP_PAGES && PageStart(k) <= v < PageStart(k) + PAGE_SIZE
    requires Walk(m, dir, PageStart(k)) == At(f * PAGE_SIZE, true)
    ensures Walk(m, dir, v) == At(f * PAGE_SIZE + v % PAGE_SIZE, true)
  {
    var p := KHEAP_START / PAGE_SIZE + k;
    assert PageStart(k) == PAGE_SIZE * p + 0;
    AddressParts(p, 0);
    AddressParts(p, v - PageStart(k));
  }

  /** Different heap pages never share a frame, so different heap addresses never share a physical byte. */
  lemma HeapBytesDisjoint(heap: KernelHeap, v: u32, v': u32)
    requires heap.SpaceValid() && KHEAP_START <= v < heap.end && KHEAP_START <= v' < heap.end && v != v'
    ensures Walk(heap.space.ram, heap.space.Dir(), v).At? && Walk(heap.space.ram, heap.space.Dir(), v').At?
    ensures Walk(heap.space.ram, heap.space.Dir(), v).address != Walk(heap.space.ram, heap.space.Dir(), v').address
  {
    hide KernelHeap.SpaceValid, Walk;
    HeapPageOwnsFrame(heap, v);
    HeapPageOwnsFrame(heap, v');
    FramesDistinct(heap);
    heap.SpaceCovers();
    PageOfBounds(v, |heap.frames|);
    PageOfBounds(v', |heap.frames|);
    OffsetParts(v);
    OffsetParts(v');
  }

  lemma OffsetParts(v: int)
    ensures v == KHEAP_START + PAGE_SIZE * PageOf(v) + v % PAGE_SIZE
  {
  }

  lemma FramesDistinct(heap: KernelHeap)
    requires heap.SpaceValid()
    ensures Distinct(heap.frames)
  {
  }

  /** Frame accounting in terms of the heap's size: two for paging, one a page, one table per 1024 pages. */
  lemma FrameAccounting(heap: KernelHeap)
    requires heap.SpaceValid()
    ensures var p := (heap.end - KHEAP_START) / PAGE_SIZE;
      heap.space.pmm.usedBlocks == CountUsed(heap.base) + 2 + p + (p + 1023) / 1024
  {
    heap.SpaceCovers();
    heap.SpareCount();
    hide KernelHeap.SpaceValid;
    assert (heap.end - KHEAP_START) / PAGE_SIZE == |heap.frames|;
  }
}
