/** The kernel heap: headers kept in the very memory they manage, reached through the page walk. */
module Heap {
  import opened Words
  import opened Pmm
  import opened Paging
  import opened Vmm
  import opened HeapSpace
  import opened HeapBlocks
  import opened HeapMemory
  import opened HeapCanon

  /** The recursive window starts where the heap must end. */
  const HEAP_LIMIT: int := 0xFFC0_0000
  const KHEAP_INITIAL_SIZE: int := 2 * 1024 * 1024

  lemma SomeFreeLeft(flags: seq<bool>)
    requires CountUsed(flags) < |flags|
    ensures !Exhausted(flags)
  {
  }

  /** Marking one more page used keeps every claim about used pages. */
  lemma MoreUsed(m: Ram, dir: int, flags: seq<bool>, frames: seq<nat>, f: nat)
    requires Mapped(m, dir, flags, frames) && FramesHeld(m, dir, flags) && f < |flags| && !flags[f]
    ensures Mapped(m, dir, flags[f := true], frames) && FramesHeld(m, dir, flags[f := true])
    ensures FreshFrame(m, dir, f) && forall k :: 0 <= k < |frames| ==> frames[k] != f
  {
    var flags' := flags[f := true];
    FreeFrameIsFresh(m, dir, flags, f);
    forall k | 0 <= k < |frames|
      ensures PageGood(m, dir, flags', frames, k) && frames[k] != f
    {
      assert PageGood(m, dir, flags, frames, k);
    }
    forall s | 0 <= s < RECURSIVE_SLOT
      ensures SlotHeld(m, dir, flags', s)
    {
      assert SlotHeld(m, dir, flags, s);
    }
  }

  /** The whole memory state below the block list: paging, frames, and the pages of the heap. */
  ghost predicate Backed(m: Ram, dir: int, flags: seq<bool>, frames: seq<nat>) {
    Mapped(m, dir, flags, frames) && FramesHeld(m, dir, flags) && flags != [] && flags[0]
  }

  /** Where the page walk lands for heap word a, as an index into physical memory. */
  ghost predicate Lands(m: Ram, dir: int, frames: seq<nat>, a: u32) {
    IsFrame(dir) && Walk(m, dir, a).At? && Walk(m, dir, a).writable &&
    0 <= PageOf(a) < |frames| && IsFrame(frames[PageOf(a)]) &&
    Walk(m, dir, a).address / 4 == frames[PageOf(a)] * 1024 + WordOf(a)
  }

  lemma HeapWordLands(m: Ram, dir: int, flags: seq<bool>, frames: seq<nat>, a: u32)
    requires Backed(m, dir, flags, frames) && InHeap(a, |frames|)
    ensures Lands(m, dir, frames, a)
    ensures View(m, frames)[a] == m[Walk(m, dir, a).address / 4]
  {
    WalkInHeap(m, dir, flags, frames, a);
  }

  lemma StoreBacked(m: Ram, dir: int, flags: seq<bool>, frames: seq<nat>, a: u32, value: u32)
    requires Backed(m, dir, flags, frames) && InHeap(a, |frames|) && Lands(m, dir, frames, a)
    ensures Backed(m[Walk(m, dir, a).address / 4 := value], dir, flags, frames)
    ensures View(m[Walk(m, dir, a).address / 4 := value], frames) == View(m, frames)[a := value]
  {
    MappedFrames(m, dir, flags, frames);
    StoreInHeap(m, dir, flags, frames, a, value);
    StoreChangesOneWord(m, frames, a, value);
  }

  /** After i more pages one frame would be left, just where a page needs a table as well. */
  predicate Stranded(spare: int, p: nat, i: nat) {
    (p + i) % 1024 == 0 && spare - FramesNeeded(p, p + i) == 1
  }

  /** If a frame is left for page i of a growth, it lies below the window and is no trap. */
  predicate RoundSafe(spare: int, p: nat, i: nat) {
    spare > FramesNeeded(p, p + i) ==> p + i < MAX_HEAP_PAGES && !Stranded(spare, p, i)
  }

  ghost predicate SafeRounds(spare: int, p: nat, pages: nat) {
    forall i :: 0 <= i < pages ==> RoundSafe(spare, p, i)
  }

  /** With room and frames for the whole growth every round is safe. */
  lemma SufficeIsSafe(spare: int, p: nat, pages: nat)
    requires spare >= FramesNeeded(p, p + pages) && p + pages <= MAX_HEAP_PAGES
    ensures SafeRounds(spare, p, pages)
  {
    forall i | 0 <= i < pages
      ensures RoundSafe(spare, p, i)
    {
      ExpandBudget(p, i, pages);
      TablesStep(p + i);
    }
  }

  /** With no more frames than the window has pages left, any growth is safe but for the trap: it panics in time. */
  lemma PanicsInTime(spare: int, p: nat, pages: nat)
    requires p + spare <= MAX_HEAP_PAGES
    requires forall i :: 0 <= i < pages ==> !Stranded(spare, p, i)
    ensures SafeRounds(spare, p, pages)
  {
    forall i | 0 <= i < pages
      ensures RoundSafe(spare, p, i)
    {
      MoreThanPages(p, i);
    }
  }

  lemma MoreThanPages(p: nat, i: nat)
    ensures FramesNeeded(p, p + i) >= i
  {
  }

  /** The trap exists: 513 frames left after kheap_init, and a request of 513 pages or more. */
  lemma TrapInstance(pages: nat)
    requires pages >= 513
    ensures Stranded(513, KHEAP_INITIAL_SIZE / PAGE_SIZE, 512)
    ensures !SafeRounds(513, KHEAP_INITIAL_SIZE / PAGE_SIZE, pages)
  {
    assert FramesNeeded(512, 1024) == 512;
    assert !RoundSafe(513, 512, 512);
  }

  lemma StrandedLater(spare: int, p: nat, i: nat)
    ensures Stranded(spare - FramesNeeded(p, p + i), p + i, 0) == Stranded(spare, p, i)
  {
    hide Tables;
    assert (p + i) + 0 == p + i;
  }

  lemma SpareForNext(spare: int, p: nat)
    requires spare > 0 && !Stranded(spare, p, 0)
    ensures spare >= FramesNeeded(p, p + 1)
  {
    TablesStep(p);
  }

  lemma NoneLeft(flags: seq<bool>)
    requires CountUsed(flags) == |flags|
    ensures Exhausted(flags)
  {
    CountUsedFull(flags);
  }

  /** The second allocation of a map comes back null exactly in that trap: the page takes the last frame, and has no
      table. */
  lemma StrandedIff(m: Ram, dir: int, flags: seq<bool>, frames: seq<nat>)
    requires Backed(m, dir, flags, frames) && |frames| < MAX_HEAP_PAGES && !Exhausted(flags)
    ensures (!HasTable(m, dir, PdIndex(PageStart(|frames|))) && Exhausted(flags[LowestFree(flags, 0) := true])) <==>
      Stranded(|flags| - CountUsed(flags), |frames|, 0)
  {
    var f := LowestFree(flags, 0);
    NextPageSlot(|frames|);
    TablesStep(|frames|);
    assert TableExact(m, dir, |frames|, PdIndex(PageStart(|frames|)));
    CountUsedUpdate(flags, f, true);
    CountUsedFull(flags[f := true]);
  }

  /** With the frames counted in advance, the next page finds its table or a frame for one. */
  lemma TableOrFrame(m: Ram, dir: int, flags: seq<bool>, frames: seq<nat>)
    requires Mapped(m, dir, flags, frames) && |frames| < MAX_HEAP_PAGES
    requires |frames| % 1024 == 0 ==> CountUsed(flags) < |flags|
    ensures PdIndex(PageStart(|frames|)) < RECURSIVE_SLOT
    ensures HasTable(m, dir, PdIndex(PageStart(|frames|))) || !Exhausted(flags)
    ensures HasTable(m, dir, PdIndex(PageStart(|frames|))) <==> |frames| % 1024 != 0
  {
    NextPageSlot(|frames|);
    TablesStep(|frames|);
    assert TableExact(m, dir, |frames|, PdIndex(PageStart(|frames|)));
    if |frames| % 1024 == 0 {
      SomeFreeLeft(flags);
    }
  }

  /** Frame f is held, backs no heap page and no paging structure, and the next page can be mapped. */
  ghost predicate NextFrame(m: Ram, dir: int, flags: seq<bool>, frames: seq<nat>, f: nat)
    requires IsFrame(dir)
  {
    |frames| < MAX_HEAP_PAGES && f < |flags| && flags[f] && FreshFrame(m, dir, f) &&
    (forall k :: 0 <= k < |frames| ==> frames[k] != f) &&
    PdIndex(PageStart(|frames|)) < RECURSIVE_SLOT &&
    (HasTable(m, dir, PdIndex(PageStart(|frames|))) || !Exhausted(flags))
  }

  /** Every word readable before reads the same. */
  ghost predicate Extends(w: Words32, w': Words32) {
    forall a :: a in w ==> a in w' && w'[a] == w[a]
  }

  lemma MappedSound(m: Ram, dir: int, flags: seq<bool>, frames: seq<nat>)
    requires Backed(m, dir, flags, frames)
    ensures Sound(m, dir) && FramesHeld(m, dir, flags) && |flags| < FRAMES
  {
  }

  /** The frame taken for the next heap page. */
  lemma PageTaken(m: Ram, dir: int, flags: seq<bool>, frames: seq<nat>)
    requires Backed(m, dir, flags, frames) && |frames| < MAX_HEAP_PAGES
    requires |flags| - CountUsed(flags) >= FramesNeeded(|frames|, |frames| + 1)
    ensures var f := LowestFree(flags, 0);
      0 < f < |flags| && Backed(m, dir, flags[f := true], frames) && NextFrame(m, dir, flags[f := true], frames, f)
  {
    var f := LowestFree(flags, 0);
    TablesStep(|frames|);
    SomeFreeLeft(flags);
    MoreUsed(m, dir, flags, frames, f);
    CountUsedUpdate(flags, f, true);
    TableOrFrame(m, dir, flags[f := true], frames);
  }

  /** The state after the next heap page is mapped, from the state with its frame taken. */
  lemma PageMapsBacked(m: Ram, dir: int, flags: seq<bool>, frames: seq<nat>, f: nat)
    requires Backed(m, dir, flags, frames) && NextFrame(m, dir, flags, frames, f)
    ensures var m' := RamAfterMap(m, dir, flags, f * PAGE_SIZE, PageStart(|frames|), HEAP_FLAGS);
      var flags' := PagesAfterMap(m, dir, flags, PageStart(|frames|));
      Backed(m', dir, flags', frames + [f]) &&
      CountUsed(flags') + 1 == CountUsed(flags) + FramesNeeded(|frames|, |frames| + 1) &&
      Extends(View(m, frames), View(m', frames + [f]))
  {
    MapHoldsFrames(m, dir, flags, f * PAGE_SIZE, PageStart(|frames|), HEAP_FLAGS);
    MapExtendsHeap(m, dir, flags, frames, f);
    MappedFrames(m, dir, flags, frames);
    MapKeepsWords(m, dir, flags, frames, f);
    PageCounts(m, dir, flags, frames);
  }

  lemma PageCounts(m: Ram, dir: int, flags: seq<bool>, frames: seq<nat>)
    requires Mapped(m, dir, flags, frames) && |frames| < MAX_HEAP_PAGES
    requires HasTable(m, dir, PdIndex(PageStart(|frames|))) || !Exhausted(flags)
    ensures CountUsed(PagesAfterMap(m, dir, flags, PageStart(|frames|))) + 1 ==
      CountUsed(flags) + FramesNeeded(|frames|, |frames| + 1)
  {
    NextPageSlot(|frames|);
    TablesStep(|frames|);
    assert TableExact(m, dir, |frames|, PdIndex(PageStart(|frames|)));
    if !Exhausted(flags) {
      CountUsedUpdate(flags, LowestFree(flags, 0), true);
    }
  }

  /** A request of n bytes was served: the list, the end and the pointer after it. */
  ghost predicate Served(bs: seq<Block>, end: int, n: nat, bs': seq<Block>, end': int, ptr: int) {
    Taken(bs, end, n) < |Prepared(bs, end, n)| &&
    bs' == Allocate(bs, end, n) && end' == EndAfter(bs, end, n) &&
    ptr == bs'[Taken(bs, end, n)].addr + HEADER
  }

  /** No payload byte of a live block changed. */
  ghost predicate LiveKept(bs: seq<Block>, w: Words32, w': Words32) {
    forall j :: 0 <= j < |bs| && !bs[j].free ==> PayloadKept(w, w', bs[j])
  }

  /** The search has passed over k blocks of the old list, or of the grown one after a full miss. */
  ghost predicate Searching(bs0: seq<Block>, end0: int, n: nat, bs: seq<Block>, end: int, k: int, grown: bool) {
    0 <= k < |bs| && (forall j :: 0 <= j < k ==> !Fits(bs[j], n)) &&
    if grown then FirstFit(bs0, n, 0) == |bs0| && bs == Prepared(bs0, end0, n) && end == EndAfter(bs0, end0, n) &&
                  FirstFit(bs, n, 0) < |bs|
    else bs == bs0 && end == end0
  }

  /** Pages used at the start are still used, and none of them backs the heap. */
  ghost predicate BaseKept(base: seq<bool>, flags: seq<bool>, frames: seq<nat>) {
    |base| == |flags| && (forall p :: 0 <= p < |base| && base[p] ==> flags[p]) &&
    (forall k :: 0 <= k < |frames| ==> frames[k] < |base| && !base[frames[k]])
  }

  ghost predicate MorePages(flags: seq<bool>, flags': seq<bool>) {
    |flags| == |flags'| && forall p :: 0 <= p < |flags| && flags[p] ==> flags'[p]
  }

  /** Frame f was in use before paging was set up, or is not managed at all. */
  predicate Foreign(base: seq<bool>, f: int) {
    IsFrame(f) && (f >= |base| || base[f])
  }

  /** No word of a foreign frame differs. */
  ghost predicate ForeignKept(m: Ram, m': Ram, base: seq<bool>) {
    forall f, k :: Foreign(base, f) && IsSlot(k) ==> Entry(m', f, k) == Entry(m, f, k)
  }

  predicate SlotOwned(m: Ram, dir: int, base: seq<bool>, s: int)
    requires IsFrame(dir) && IsSlot(s)
  {
    HasTable(m, dir, s) ==> !Foreign(base, TableFrame(m, dir, s))
  }

  /** The directory and all tables took frames that were free, and every foreign word is as it was. */
  ghost predicate KernelKept(m0: Ram, m: Ram, dir: int, base: seq<bool>) {
    IsFrame(dir) && !Foreign(base, dir) && (forall s :: 0 <= s < RECURSIVE_SLOT ==> SlotOwned(m, dir, base, s)) &&
    ForeignKept(m0, m, base)
  }

  lemma StoreKernelKept(m0: Ram, m: Ram, dir: int, base: seq<bool>, f: int, k: int, value: u32)
    requires KernelKept(m0, m, dir, base) && IsFrame(f) && IsSlot(k) && f != dir && !Foreign(base, f)
    ensures KernelKept(m0, SetEntry(m, f, k, value), dir, base)
  {
    var m' := SetEntry(m, f, k, value);
    forall f', k' | IsFrame(f') && IsSlot(k')
      ensures Entry(m', f', k') == if f' == f && k' == k then value else Entry(m, f', k')
    {
      EntryAfterSet(m, f, k, value, f', k');
    }
    forall s | 0 <= s < RECURSIVE_SLOT
      ensures SlotOwned(m', dir, base, s)
    {
      assert SlotOwned(m, dir, base, s);
    }
  }

  lemma HeapStoreKernelKept(m0: Ram, m: Ram, dir: int, flags: seq<bool>, base: seq<bool>, frames: seq<nat>,
                            a: u32, value: u32)
    requires Backed(m, dir, flags, frames) && BaseKept(base, flags, frames) && KernelKept(m0, m, dir, base)
    requires InHeap(a, |frames|) && Lands(m, dir, frames, a)
    ensures KernelKept(m0, m[Walk(m, dir, a).address / 4 := value], dir, base)
  {
    hide Walk, KernelKept;
    var k := PageOf(a);
    assert PageGood(m, dir, flags, frames, k);
    StoreKernelKept(m0, m, dir, base, frames[k], WordOf(a), value);
  }

  lemma MapKernelKept(m0: Ram, m: Ram, dir: int, flags: seq<bool>, base: seq<bool>, phys: u32, virt: u32)
    requires KernelKept(m0, m, dir, base) && Sound(m, dir) && FramesHeld(m, dir, flags)
    requires |flags| < FRAMES && phys % PAGE_SIZE == 0 && PdIndex(virt) < RECURSIVE_SLOT
    requires MorePages(base, flags) && (HasTable(m, dir, PdIndex(virt)) || !Exhausted(flags))
    ensures KernelKept(m0, RamAfterMap(m, dir, flags, phys, virt, HEAP_FLAGS), dir, base)
  {
    hide RamAfterMap;
    var g := LowestFree(flags, 0);
    var m' := RamAfterMap(m, dir, flags, phys, virt, HEAP_FLAGS);
    assert SlotOwned(m, dir, base, PdIndex(virt));
    forall s | 0 <= s < RECURSIVE_SLOT
      ensures SlotOwned(m', dir, base, s)
    {
      MapSlotOwned(m, dir, flags, base, phys, virt, s);
    }
    forall f, k | Foreign(base, f) && IsSlot(k)
      ensures Entry(m', f, k) == Entry(m, f, k)
    {
      MapForeignEntry(m, dir, flags, base, phys, virt, f, k);
    }
  }

  /** v lies neither in the recursive window nor in a heap of that many pages. */
  predicate Elsewhere(v: u32, pages: nat) {
    PdIndex(v) != RECURSIVE_SLOT && !(KHEAP_START <= v < KHEAP_START + PAGE_SIZE * pages)
  }

  /** The entries of boot page p, at 0 and at 3 GB. */
  predicate BootPlain(m: Ram, dir: int, p: int)
    requires IsFrame(dir) && 0 <= p < 1024
  {
    PlainEntries(m, dir, p, PAGE_SIZE * p) && PlainEntries(m, dir, p, KERNEL_VIRT_BASE + PAGE_SIZE * p)
  }

  /** Everything elsewhere is mapped, or not, as after boot. */
  ghost predicate MapsBoot(m: Ram, dir: int, pages: nat) {
    IsFrame(dir) && (forall v: u32 :: Elsewhere(v, pages) ==> Walk(m, dir, v) == BootWalk(v)) &&
    forall p :: 0 <= p < 1024 ==> BootPlain(m, dir, p)
  }

  lemma BootSlots(p: int)
    requires 0 <= p < 1024
    ensures PdIndex(PAGE_SIZE * p) == 0 && PdIndex(KERNEL_VIRT_BASE + PAGE_SIZE * p) == HIGHER_HALF_SLOT
    ensures PtIndex(PAGE_SIZE * p) == p && PtIndex(KERNEL_VIRT_BASE + PAGE_SIZE * p) == p
  {
  }

  lemma HeapStoreMapsBoot(m: Ram, dir: int, flags: seq<bool>, frames: seq<nat>, a: u32, value: u32)
    requires Backed(m, dir, flags, frames) && MapsBoot(m, dir, |frames|)
    requires InHeap(a, |frames|) && Lands(m, dir, frames, a)
    ensures MapsBoot(m[Walk(m, dir, a).address / 4 := value], dir, |frames|)
  {
    hide Walk, Elsewhere;
    var k := PageOf(a);
    assert PageGood(m, dir, flags, frames, k);
    var m' := SetEntry(m, frames[k], WordOf(a), value);
    forall v: u32 | Elsewhere(v, |frames|)
      ensures Walk(m', dir, v) == BootWalk(v)
    {
      OutsideStoreTranslates(m, dir, frames[k], WordOf(a), value, v);
    }
    forall p | 0 <= p < 1024
      ensures BootPlain(m', dir, p)
    {
      BootSlots(p);
      assert BootPlain(m, dir, p);
      OutsideStoreEntries(m, dir, frames[k], WordOf(a), value, p, PAGE_SIZE * p);
      OutsideStoreEntries(m, dir, frames[k], WordOf(a), value, p, KERNEL_VIRT_BASE + PAGE_SIZE * p);
    }
  }

  lemma MapMapsBoot(m: Ram, dir: int, flags: seq<bool>, frames: seq<nat>, f: nat)
    requires Backed(m, dir, flags, frames) && MapsBoot(m, dir, |frames|) && NextFrame(m, dir, flags, frames, f)
    ensures MapsBoot(RamAfterMap(m, dir, flags, f * PAGE_SIZE, PageStart(|frames|), HEAP_FLAGS), dir, |frames| + 1)
  {
    hide Walk, MapResult;
    var virt := PageStart(|frames|);
    HeapSlotsPlain(|frames|);
    MapReady(m, dir, flags, virt);
    forall v: u32 | Elsewhere(v, |frames| + 1)
      ensures Walk(RamAfterMap(m, dir, flags, f * PAGE_SIZE, virt, HEAP_FLAGS), dir, v) == BootWalk(v)
    {
      MapMovesOnePage(m, dir, LowestFree(flags, 0), f * PAGE_SIZE, virt, HEAP_FLAGS, v);
      OtherPage(v, |frames|);
      assert Elsewhere(v, |frames|);
    }
    forall p | 0 <= p < 1024
      ensures BootPlain(RamAfterMap(m, dir, flags, f * PAGE_SIZE, virt, HEAP_FLAGS), dir, p)
    {
      BootSlots(p);
      assert BootPlain(m, dir, p);
      MapKeepsEntries(m, dir, flags, f * PAGE_SIZE, virt, p, PAGE_SIZE * p);
      MapKeepsEntries(m, dir, flags, f * PAGE_SIZE, virt, p, KERNEL_VIRT_BASE + PAGE_SIZE * p);
    }
  }

  lemma OtherPage(v: u32, p: nat)
    requires p < MAX_HEAP_PAGES && Elsewhere(v, p + 1)
    ensures v / PAGE_SIZE != PageStart(p) / PAGE_SIZE
  {
    HeapSlotsPlain(p);
  }

  lemma MapSlotOwned(m: Ram, dir: int, flags: seq<bool>, base: seq<bool>, phys: u32, virt: u32, s: int)
    requires Sound(m, dir) && FramesHeld(m, dir, flags) && |flags| < FRAMES && phys % PAGE_SIZE == 0
    requires PdIndex(virt) < RECURSIVE_SLOT && MorePages(base, flags)
    requires HasTable(m, dir, PdIndex(virt)) || !Exhausted(flags)
    requires 0 <= s < RECURSIVE_SLOT && SlotOwned(m, dir, base, s) && SlotOwned(m, dir, base, PdIndex(virt))
    ensures SlotOwned(RamAfterMap(m, dir, flags, phys, virt, HEAP_FLAGS), dir, base, s)
  {
    var g := LowestFree(flags, 0);
    MapReady(m, dir, flags, virt);
    PdeValueParts(g * PAGE_SIZE, HEAP_FLAGS);
    assert GoodSlot(m, dir, PdIndex(virt));
    EntryAfterMap(m, dir, g, phys, virt, HEAP_FLAGS, dir, s);
  }

  lemma MapForeignEntry(m: Ram, dir: int, flags: seq<bool>, base: seq<bool>, phys: u32, virt: u32, f: int, k: int)
    requires Sound(m, dir) && FramesHeld(m, dir, flags) && |flags| < FRAMES && phys % PAGE_SIZE == 0
    requires PdIndex(virt) < RECURSIVE_SLOT && MorePages(base, flags)
    requires HasTable(m, dir, PdIndex(virt)) || !Exhausted(flags)
    requires SlotOwned(m, dir, base, PdIndex(virt)) && !Foreign(base, dir) && Foreign(base, f) && IsSlot(k)
    ensures Entry(RamAfterMap(m, dir, flags, phys, virt, HEAP_FLAGS), f, k) == Entry(m, f, k)
  {
    MapReady(m, dir, flags, virt);
    EntryAfterMap(m, dir, LowestFree(flags, 0), phys, virt, HEAP_FLAGS, f, k);
  }

  /** Byte `offset` of the live block before ptr. */
  predicate InPayload(bs: seq<Block>, ptr: int, offset: int) {
    IsLive(bs, ptr - HEADER) && 0 <= offset < bs[IndexOf(bs, ptr - HEADER)].size
  }

  /** The word that holds it. */
  function WordHolding(ptr: int, offset: int): int {
    ptr + offset / 4 * 4
  }

  class KernelHeap {
    const space: AddressSpace
    var head: u32
    var end: u32
    /** The frame of each heap page, lowest page first. */
    ghost var frames: seq<nat>
    /** The list as the headers spell it. */
    ghost var blocks: seq<Block>
    /** The heap words as the kernel reads them through the page walk. */
    ghost var words: Words32
    /** The page flags before paging was set up. */
    ghost var base: seq<bool>
    /** Physical memory before paging was set up. */
    ghost const origin: Ram

    constructor (space: AddressSpace, ghost base: seq<bool>, ghost origin: Ram)
      ensures this.space == space && head == 0 && end == KHEAP_START && frames == [] && blocks == [] && words == map[]
      ensures this.base == base && this.origin == origin
    {
      this.space := space;
      head, end := 0, KHEAP_START;
      frames, blocks, words := [], [], map[];
      this.base := base;
      this.origin := origin;
    }

    /** Every heap page has its own used, writable frame, every used page is accounted for, all memory in use before
        paging was set up is as it was, and nothing but the heap is mapped that was not mapped after boot. */
    ghost predicate SpaceValid()
      reads `end, `frames, `words, `base, space, space.pmm, space.pmm.bitmap
    {
      space.pmm.Valid() &&
      Backed(space.ram, space.Dir(), space.pmm.Pages(), frames) &&
      words == HeapSpace.View(space.ram, frames) &&
      end == KHEAP_START + PAGE_SIZE * |frames| &&
      BaseKept(base, space.pmm.Pages(), frames) &&
      KernelKept(origin, space.ram, space.Dir(), base) && MapsBoot(space.ram, space.Dir(), |frames|) &&
      space.pmm.usedBlocks == CountUsed(base) + 2 + |frames| + Tables(|frames|)
    }

    method ReadWord(a: u32) returns (value: u32)
      requires SpaceValid() && a in words
      ensures value == words[a]
    {
      HeapWordLands(space.ram, space.Dir(), space.pmm.Pages(), frames, a);
      value := space.Load(a);
    }

    method WriteWord(a: u32, value: u32)
      requires SpaceValid() && a in words
      modifies `words, space`ram
      ensures SpaceValid() && words == old(words)[a := value]
    {
      HeapWordLands(space.ram, space.Dir(), space.pmm.Pages(), frames, a);
      StoreBacked(space.ram, space.Dir(), space.pmm.Pages(), frames, a, value);
      HeapStoreKernelKept(origin, space.ram, space.Dir(), space.pmm.Pages(), base, frames, a, value);
      HeapStoreMapsBoot(space.ram, space.Dir(), space.pmm.Pages(), frames, a, value);
      hide KernelKept, BaseKept, MapsBoot;
      space.Store(a, value);
      words := words[a := value];
    }

    /** Frames still free. */
    ghost function Spare(): int
      reads space.pmm
    {
      space.pmm.maxBlocks - space.pmm.usedBlocks
    }

    /** Takes the frame of the next heap page; null exactly when there is none, and then nothing changes. */
    method TakeFrame() returns (phys: u32)
      requires SpaceValid() && RoundSafe(Spare(), |frames|, 0)
      modifies space.pmm`usedBlocks, space.pmm.bitmap
      ensures phys == 0 <==> old(Spare()) == 0
      ensures phys == 0 ==> SpaceValid()
      ensures phys != 0 ==> space.pmm.Valid() && Backed(space.ram, space.Dir(), space.pmm.Pages(), frames)
      ensures phys != 0 ==> space.pmm.usedBlocks == old(space.pmm.usedBlocks) + 1
      ensures phys != 0 ==> MorePages(old(space.pmm.Pages()), space.pmm.Pages())
      ensures phys != 0 ==>
        phys % PAGE_SIZE == 0 && phys / PAGE_SIZE < space.pmm.maxBlocks && !old(space.pmm.Pages()[phys / PAGE_SIZE])
      ensures phys != 0 ==> NextFrame(space.ram, space.Dir(), space.pmm.Pages(), frames, phys / PAGE_SIZE)
    {
      hide Bits, CountUsed, Mapped, FramesHeld, NextFrame, HeapSpace.View, KernelKept, BaseKept, MapsBoot;
      if Spare() > 0 {
        NoGrowth(|frames|, words);
        SpareForNext(Spare(), |frames|);
        PageTaken(space.ram, space.Dir(), space.pmm.Pages(), frames);
      } else {
        NoneLeft(space.pmm.Pages());
      }
      phys := space.pmm.AllocPage();
    }

    /** Maps the frame to the page at the end of the heap. */
    method MapNext(phys: u32)
      requires space.pmm.Valid() && Backed(space.ram, space.Dir(), space.pmm.Pages(), frames)
      requires phys % PAGE_SIZE == 0
      requires NextFrame(space.ram, space.Dir(), space.pmm.Pages(), frames, phys / PAGE_SIZE)
      requires end == KHEAP_START + PAGE_SIZE * |frames| && words == HeapSpace.View(space.ram, frames)
      requires MorePages(base, space.pmm.Pages()) && KernelKept(origin, space.ram, space.Dir(), base)
      requires MapsBoot(space.ram, space.Dir(), |frames|)
      modifies `frames, `words, space`ram, space.pmm`usedBlocks, space.pmm.bitmap
      ensures space.pmm.Valid() && Backed(space.ram, space.Dir(), space.pmm.Pages(), frames)
      ensures frames == old(frames) + [phys / PAGE_SIZE] && words == HeapSpace.View(space.ram, frames)
      ensures space.pmm.usedBlocks + 1 == old(space.pmm.usedBlocks) + FramesNeeded(|old(frames)|, |old(frames)| + 1)
      ensures Extends(old(words), words) && MorePages(old(space.pmm.Pages()), space.pmm.Pages())
      ensures KernelKept(origin, space.ram, space.Dir(), base) && MapsBoot(space.ram, space.Dir(), |frames|)
    {
      hide Bits, CountUsed, Mapped, HeapSpace.View, Extends, KernelKept, MapsBoot;
      MappedSound(space.ram, space.Dir(), space.pmm.Pages(), frames);
      PageMapsBacked(space.ram, space.Dir(), space.pmm.Pages(), frames, phys / PAGE_SIZE);
      assert phys / PAGE_SIZE * PAGE_SIZE == phys && end == PageStart(|frames|);
      MapKernelKept(origin, space.ram, space.Dir(), space.pmm.Pages(), base, phys, end);
      MapMapsBoot(space.ram, space.Dir(), space.pmm.Pages(), frames, phys / PAGE_SIZE);
      ghost var ram' := RamAfterMap(space.ram, space.Dir(), space.pmm.Pages(), phys, end, HEAP_FLAGS);
      space.MapPage(phys, end, HEAP_FLAGS);
      assert space.ram == ram';
      frames := frames + [phys / PAGE_SIZE];
      words := HeapSpace.View(space.ram, frames);
    }

    /** One round of the growth loop; without a frame the kernel panics. */
    method AddPage() returns (panic: bool)
      requires SpaceValid() && RoundSafe(Spare(), |frames|, 0)
      modifies `end, `frames, `words, space`ram, space.pmm`usedBlocks, space.pmm.bitmap
      ensures SpaceValid() && (panic <==> old(Spare()) == 0)
      ensures panic ==> frames == old(frames) && words == old(words)
      ensures !panic ==> |frames| == |old(frames)| + 1 && frames[..|old(frames)|] == old(frames)
      ensures !panic ==> Extends(old(words), words)
    {
      hide Bits, CountUsed, Backed, NextFrame, HeapSpace.View, Extends, KernelKept, MapsBoot;
      var phys := TakeFrame();
      if phys == 0 {
        return true;
      }
      MapNext(phys);
      end := end + PAGE_SIZE;
      panic := false;
    }

    /** Virtual room for all pages there are frames for, and never one frame left where a page needs a table too. */
    ghost predicate CanGrow(pages: nat)
      reads this, space.pmm
    {
      SafeRounds(Spare(), |frames|, pages)
    }

    /** Frames for that many pages and their tables. */
    ghost predicate Suffice(pages: nat)
      reads this, space.pmm
    {
      Spare() >= FramesNeeded(|frames|, |frames| + pages)
    }

    /** kheap_expand: that many more pages, or the panic, exactly when the frames do not suffice. */
    method Expand(pages: nat) returns (panic: bool)
      requires SpaceValid() && CanGrow(pages)
      modifies `end, `frames, `words, space`ram, space.pmm`usedBlocks, space.pmm.bitmap
      ensures SpaceValid() && Extends(old(words), words) && (panic <==> !old(Suffice(pages)))
      ensures !panic ==> |frames| == |old(frames)| + pages && frames[..|old(frames)|] == old(frames)
    {
      hide KernelHeap.SpaceValid, FramesNeeded, Tables, RoundSafe, SafeRounds, Extends;
      ghost var p, spare := |frames|, Spare();
      SpareCount();
      NoGrowth(p, words);
      for i := 0 to pages
        invariant SpaceValid() && |frames| == p + i && frames[..p] == old(frames)
        invariant Spare() == spare - FramesNeeded(p, p + i) && Spare() >= 0
        invariant Extends(old(words), words)
      {
        SafeAt(spare, p, pages, i);
        ExpandBudget(p, i, pages);
        ghost var w := words;
        SpareCount();
        panic := AddPage();
        SpareCount();
        if panic {
          return true;
        }
        AddedSpare(p, i);
        ExtendsThrough(old(words), w, words);
      }
      panic := false;
    }

    // -------------------------------------------------------------------
    // The block list
    // -------------------------------------------------------------------

    ghost predicate ListValid()
      reads this, space, space.pmm, space.pmm.bitmap
    {
      SpaceValid() && head == KHEAP_START && end <= HEAP_LIMIT && Represents(words, blocks, KHEAP_START, end)
    }

    /** What holds between heap operations. */
    ghost predicate Valid()
      reads this, space, space.pmm, space.pmm.bitmap
    {
      ListValid() && Coalesced(blocks)
    }

    method ReadFree(node: u32) returns (free: bool)
      requires SpaceValid() && node + 4 in words
      ensures free == FreeByte(words[node + 4])
    {
      var word := ReadWord(node + 4);
      free := FreeByte(word);
    }

    method WriteFree(node: u32, free: bool)
      requires SpaceValid() && node + 4 in words
      modifies `words, space`ram
      ensures SpaceValid() && words == FlagWord(old(words), node, free)
    {
      var word := ReadWord(node + 4);
      WriteWord(node + 4, WithByte(word, free));
    }

    /** node->free = free. */
    method SetFlag(node: u32, free: bool, ghost i: int)
      requires ListValid() && 0 <= i < |blocks| && node == blocks[i].addr
      modifies `words, `blocks, space`ram
      ensures ListValid() && blocks == SetFree(old(blocks), i, free)
      ensures forall b: Block :: OutsidePayload(node, b) ==> PayloadKept(old(words), words, b)
    {
      hide KernelHeap.SpaceValid;
      HeaderCovered(words, blocks, KHEAP_START, end, i);
      FlagRepresents(words, blocks, KHEAP_START, end, i, free);
      WriteFree(node, free);
      blocks := SetFree(blocks, i, free);
    }

    /** The merge of a block with its successor, as written twice in the source. */
    method Absorb(node: u32, ghost i: int)
      requires ListValid() && 0 <= i < |blocks| - 1 && node == blocks[i].addr
      modifies `words, `blocks, space`ram
      ensures ListValid() && blocks == Merge(old(blocks), i)
      ensures forall b: Block :: OutsidePayload(node, b) && OutsidePayload(AfterNext(old(blocks), i), b) ==>
        PayloadKept(old(words), words, b)
    {
      hide KernelHeap.SpaceValid;
      ghost var next, nextNext := blocks[i + 1].addr, NextOf(blocks, i + 1);
      ghost var size := blocks[i].size + HEADER + blocks[i + 1].size;
      MergeReady(words, blocks, KHEAP_START, end, i);
      MergeRepresents(words, blocks, KHEAP_START, end, i, size, node, nextNext);
      MergeStores(node, next, nextNext, size);
      blocks := Merge(blocks, i);
    }

    /** The stores of one merge, following the links found in memory. */
    method MergeStores(node: u32, ghost next: int, ghost nextNext: u32, ghost size: u32)
      requires SpaceValid()
      requires node in words && node + 8 in words && words[node + 8] == next
      requires next in words && next + 8 in words && words[next + 8] == nextNext
      requires words[node] + words[next] + HEADER == size
      requires nextNext != 0 ==> nextNext + 12 in words && nextNext + 12 < TWO_32
      requires node + 8 < TWO_32 && next + 8 < TWO_32
      modifies `words, space`ram
      ensures SpaceValid() && words == MergeWords(old(words), node, size, nextNext)
    {
      hide KernelHeap.SpaceValid;
      var nextNode := ReadWord(node + 8);
      var nodeSize := ReadWord(node);
      var nextSize := ReadWord(nextNode);
      var following := ReadWord(nextNode + 8);
      WriteWord(node, nodeSize + nextSize + HEADER);
      WriteWord(node + 8, following);
      if following != 0 {
        WriteWord(following + 12, node);
      }
    }

    /** kfree of block i, whatever its neighbours: flag, merge forward, merge backward. */
    method Release(ptr: u32, ghost i: int)
      requires ListValid() && 0 <= i < |blocks| && ptr == blocks[i].addr + HEADER
      modifies `words, `blocks, space`ram
      ensures ListValid() && blocks == FreeAt(old(blocks), i)
      ensures forall j :: 0 <= j < |old(blocks)| ==> PayloadKept(old(words), words, old(blocks)[j])
    {
      hide KernelHeap.SpaceValid;
      ghost var bs, w0 := blocks, words;
      HeaderCovered(words, blocks, KHEAP_START, end, i);
      var node := ptr - HEADER;
      SetFlag(node, true, i);
      ghost var w1 := words;
      MergeForward(node, i);
      ghost var w2 := words;
      MergeBackward(node, i);
      forall j | 0 <= j < |bs|
        ensures PayloadKept(w0, words, bs[j])
      {
        FreeHeaders(bs, KHEAP_START, end, i, j);
        assert PayloadKept(w0, w1, bs[j]) && PayloadKept(w1, w2, bs[j]) && PayloadKept(w2, words, bs[j]);
      }
    }

    /** if (node->next && node->next->free) the successor is absorbed. */
    method MergeForward(node: u32, ghost i: int)
      requires ListValid() && 0 <= i < |blocks| && node == blocks[i].addr
      modifies `words, `blocks, space`ram
      ensures ListValid()
      ensures blocks == if i + 1 < |old(blocks)| && old(blocks)[i + 1].free then Merge(old(blocks), i) else old(blocks)
      ensures forall b: Block ::
        OutsidePayload(node, b) && (i + 1 < |old(blocks)| ==> OutsidePayload(AfterNext(old(blocks), i), b)) ==>
        PayloadKept(old(words), words, b)
    {
      hide KernelHeap.SpaceValid;
      var next := ReadNext(node, i);
      if next != 0 {
        var nextFree := ReadFlag(next, i + 1);
        if nextFree {
          Absorb(node, i);
        }
      }
    }

    /** if (node->prev && node->prev->free) the block is absorbed by its predecessor. */
    method MergeBackward(node: u32, ghost i: int)
      requires ListValid() && 0 <= i < |blocks| && node == blocks[i].addr
      modifies `words, `blocks, space`ram
      ensures ListValid()
      ensures blocks == if i > 0 && old(blocks)[i - 1].free then Merge(old(blocks), i - 1) else old(blocks)
      ensures forall b: Block ::
        (i > 0 ==> OutsidePayload(old(blocks)[i - 1].addr, b) && OutsidePayload(AfterNext(old(blocks), i - 1), b)) ==>
        PayloadKept(old(words), words, b)
    {
      hide KernelHeap.SpaceValid;
      var prev := ReadPrev(node, i);
      if prev != 0 {
        var prevFree := ReadFlag(prev, i - 1);
        if prevFree {
          Absorb(prev, i - 1);
        }
      }
    }

    /** node->next, 0 exactly at the last block. */
    method ReadNext(node: u32, ghost i: int) returns (next: u32)
      requires ListValid() && 0 <= i < |blocks| && node == blocks[i].addr
      ensures next == NextOf(blocks, i) && (next == 0 <==> i == |blocks| - 1)
    {
      hide KernelHeap.SpaceValid;
      assert NodeAt(words, blocks, i);
      LinkZero(words, blocks, KHEAP_START, end, i);
      Placement(blocks, KHEAP_START, end, i);
      assert Sized(blocks[i]);
      next := ReadWord(node + 8);
    }

    /** node->prev, 0 exactly at the first block. */
    method ReadPrev(node: u32, ghost i: int) returns (prev: u32)
      requires ListValid() && 0 <= i < |blocks| && node == blocks[i].addr
      ensures prev == PrevOf(blocks, i) && (prev == 0 <==> i == 0)
    {
      hide KernelHeap.SpaceValid;
      assert NodeAt(words, blocks, i);
      LinkZero(words, blocks, KHEAP_START, end, i);
      Placement(blocks, KHEAP_START, end, i);
      assert Sized(blocks[i]);
      prev := ReadWord(node + 12);
    }

    method ReadFlag(node: u32, ghost i: int) returns (free: bool)
      requires ListValid() && 0 <= i < |blocks| && node == blocks[i].addr
      ensures free == blocks[i].free
    {
      hide KernelHeap.SpaceValid;
      HeaderCovered(words, blocks, KHEAP_START, end, i);
      assert NodeAt(words, blocks, i);
      free := ReadFree(node);
    }

    /** A whole header of a free block. */
    method WriteHeader(node: u32, size: u32, next: u32, prev: u32)
      requires SpaceValid() && node + 12 < TWO_32
      requires node in words && node + 4 in words && node + 8 in words && node + 12 in words
      modifies `words, space`ram
      ensures SpaceValid() && words == HeaderWords(old(words), node, size, next, prev)
    {
      hide KernelHeap.SpaceValid;
      WriteWord(node, size);
      WriteFree(node, true);
      WriteWord(node + 8, next);
      WriteWord(node + 12, prev);
    }

    /** The stores of one split, in the order of the source. */
    method SplitStores(curr: u32, n: u32, newNode: u32, ghost rest: u32, ghost next: u32)
      requires SpaceValid()
      requires curr + 8 < TWO_32 && newNode + 12 < TWO_32
      requires curr in words && curr + 8 in words && words[curr + 8] == next
      requires newNode in words && newNode + 4 in words && newNode + 8 in words && newNode + 12 in words
      requires curr + HEADER <= newNode && 0 <= n && words[curr] == n + rest + HEADER
      requires next != 0 ==> next + 12 in words && next + 12 < TWO_32
      modifies `words, space`ram
      ensures SpaceValid() && words == SplitWords(old(words), curr, n, newNode, rest, next)
    {
      hide KernelHeap.SpaceValid;
      var size := ReadWord(curr);
      var following := ReadWord(curr + 8);
      WriteHeader(newNode, size - n - HEADER, following, curr);
      if following != 0 {
        WriteWord(following + 12, newNode);
      }
      WriteWord(curr + 8, newNode);
      WriteWord(curr, n);
    }

    /** Cuts block i to n bytes and links the rest after it. */
    method SplitBlock(curr: u32, n: u32, ghost i: int)
      requires ListValid() && 0 <= i < |blocks| && curr == blocks[i].addr
      requires n >= 0 && n % 8 == 0 && blocks[i].size >= n + SPLIT_REST
      modifies `words, `blocks, space`ram
      ensures ListValid() && blocks == Split(old(blocks), i, n)
      ensures forall j :: 0 <= j < |old(blocks)| && j != i ==> PayloadKept(old(words), words, old(blocks)[j])
    {
      hide KernelHeap.SpaceValid;
      ghost var rest, next := blocks[i].size - n - HEADER, NextOf(blocks, i);
      SplitReady(words, blocks, KHEAP_START, end, i, n);
      SplitFits(words, blocks, KHEAP_START, end, i, n);
      var newNode := curr + HEADER + n;
      forall j | 0 <= j < |blocks| && j != i
        ensures PayloadKept(words, SplitWords(words, curr, n, newNode, rest, next), blocks[j])
      {
        SplitKeepsPayload(words, blocks, KHEAP_START, end, i, curr, n, newNode, rest, next, j);
      }
      SplitRepresents(words, blocks, KHEAP_START, end, i, curr, n, newNode, rest, next);
      SplitStores(curr, n, newNode, rest, next);
      blocks := Split(blocks, i, n);
    }

    /** The fitting branch of kmalloc: block i is split when worthwhile and marked taken. */
    method TakeBlock(curr: u32, n: u32, ghost i: int) returns (ptr: u32)
      requires Valid() && 0 <= i < |blocks| && curr == blocks[i].addr && Fits(blocks[i], n)
      requires n >= 0 && n % 8 == 0
      modifies `words, `blocks, space`ram
      ensures Valid() && blocks == TakeAt(old(blocks), i, n) && ptr == curr + HEADER
      ensures forall j :: 0 <= j < |old(blocks)| && j != i ==> PayloadKept(old(words), words, old(blocks)[j])
    {
      hide KernelHeap.SpaceValid;
      ghost var bs, w0 := blocks, words;
      TakeAtWellFormed(blocks, KHEAP_START, end, i, n);
      var size := ReadSize(curr, i);
      if size >= n + HEADER + 8 {
        SplitBlock(curr, n, i);
      }
      ghost var w1 := words;
      SetFlag(curr, false, i);
      forall j | 0 <= j < |bs| && j != i
        ensures PayloadKept(w0, words, bs[j])
      {
        HeadersSeparate(bs, KHEAP_START, end, i, j);
        PayloadThrough(w0, w1, words, bs[j]);
      }
      PayloadWord(words, blocks, KHEAP_START, end, i);
      ptr := curr + HEADER;
    }

    method ReadSize(node: u32, ghost i: int) returns (size: u32)
      requires ListValid() && 0 <= i < |blocks| && node == blocks[i].addr
      ensures size == blocks[i].size && size + SPLIT_REST < TWO_32
    {
      hide KernelHeap.SpaceValid;
      HeaderCovered(words, blocks, KHEAP_START, end, i);
      assert NodeAt(words, blocks, i);
      Placement(blocks, KHEAP_START, end, i);
      size := ReadWord(node);
    }

    /** The spare frames are a function of the heap's size, and never fewer than none. */
    lemma SpareCount()
      requires SpaceValid()
      ensures Spare() == space.pmm.maxBlocks - (CountUsed(base) + 2 + |frames| + Tables(|frames|)) && Spare() >= 0
    {
    }

    /** The readable words are those of the mapped pages. */
    lemma SpaceCovers()
      requires SpaceValid()
      ensures SpansWords(words, KHEAP_START, end) && end <= HEAP_LIMIT
      ensures |frames| <= MAX_HEAP_PAGES && end == KHEAP_START + PAGE_SIZE * |frames|
    {
    }

    /** Maps the pages and turns them into a free block linked after the last one. */
    method Extend(last: u32, pages: nat) returns (panic: bool)
      requires Valid() && last == blocks[|blocks| - 1].addr && pages > 0 && CanGrow(pages)
      modifies `end, `frames, `words, `blocks, space`ram, space.pmm`usedBlocks, space.pmm.bitmap
      ensures panic <==> !old(Suffice(pages))
      ensures !panic ==> ListValid() && end == old(end) + pages * PAGE_SIZE
      ensures !panic ==> |frames| == |old(frames)| + pages && frames[..|old(frames)|] == old(frames)
      ensures !panic ==> blocks == old(blocks) + [Block(old(end), pages * PAGE_SIZE - HEADER, true)]
      ensures !panic ==> forall j :: 0 <= j < |old(blocks)| ==> PayloadKept(old(words), words, old(blocks)[j])
    {
      hide KernelHeap.SpaceValid, SpansWords, ListIn, Tiles, PayloadKept, Extends;
      ghost var w0, bs := words, blocks;
      var oldEnd := end;
      SpaceCovers();
      panic := Expand(pages);
      if panic {
        return;
      }
      SpaceCovers();
      assert end == oldEnd + pages * PAGE_SIZE;
      ExtendsList(w0, words, bs);
      ghost var w1 := words;
      var size := pages * PAGE_SIZE - HEADER;
      ExtensionSize(oldEnd, pages, end, size);
      LinkExtension(last, oldEnd, size);
      forall j | 0 <= j < |bs|
        ensures PayloadKept(w0, words, bs[j])
      {
        PayloadThrough(w0, w1, words, bs[j]);
      }
    }

    /** The new pages get the header of a free block, linked after the last one. */
    method LinkExtension(last: u32, extension: u32, size: u32)
      requires SpaceValid() && head == KHEAP_START && end <= HEAP_LIMIT
      requires RepresentsBelow(words, blocks, KHEAP_START, extension, end) && end == extension + HEADER + size
      requires last == blocks[|blocks| - 1].addr && size > 0 && size % 8 == 0
      modifies `words, `blocks, space`ram
      ensures ListValid() && blocks == old(blocks) + [Block(extension, size, true)]
      ensures forall j :: 0 <= j < |old(blocks)| ==> PayloadKept(old(words), words, old(blocks)[j])
    {
      hide KernelHeap.SpaceValid, ListIn, Tiles;
      ghost var bs, w0 := blocks, words;
      ExtendReady(words, bs, KHEAP_START, extension, size);
      ExtendRepresents(words, bs, KHEAP_START, extension, last, extension, size);
      Placement(bs, KHEAP_START, extension, |bs| - 1);
      forall j | 0 <= j < |bs|
        ensures PayloadKept(w0, ExtendWords(w0, last, extension, size), bs[j])
      {
        ExtendKeepsPayload(w0, bs, KHEAP_START, extension, last, extension, size, j);
      }
      WriteHeader(extension, size, 0, last);
      WriteWord(last + 8, extension);
      blocks := bs + [Block(extension, size, true)];
    }

    /** The growing branch of kmalloc, ended by the kfree of the extension. */
    method GrowFor(last: u32, n: u32) returns (panic: bool)
      requires Valid() && last == blocks[|blocks| - 1].addr && n + HEADER + PAGE_SIZE - 1 < TWO_32
      requires CanGrow(PagesNeeded(n))
      modifies `end, `frames, `words, `blocks, space`ram, space.pmm`usedBlocks, space.pmm.bitmap
      ensures panic <==> !old(Suffice(PagesNeeded(n)))
      ensures !panic ==> Valid() && blocks == Grow(old(blocks), old(end), PagesNeeded(n) * PAGE_SIZE)
      ensures !panic ==> end == old(end) + PagesNeeded(n) * PAGE_SIZE
      ensures !panic ==> |frames| == |old(frames)| + PagesNeeded(n) && frames[..|old(frames)|] == old(frames)
      ensures !panic ==> forall j :: 0 <= j < |old(blocks)| ==> PayloadKept(old(words), words, old(blocks)[j])
    {
      hide KernelHeap.SpaceValid, PayloadKept, Represents;
      ghost var w0, bs := words, blocks;
      ListWellFormed(words, blocks, KHEAP_START, end);
      PagesHold(n);
      PagesComputedIff(n);
      var pagesNeeded := PagesComputed(n);
      GrowWellFormed(blocks, KHEAP_START, end, pagesNeeded * PAGE_SIZE);
      var extension := end;
      panic := Extend(last, pagesNeeded);
      if panic {
        return;
      }
      ghost var w1 := words;
      PayloadWord(words, blocks, KHEAP_START, end, |bs|);
      Release(extension + HEADER, |bs|);
      forall j | 0 <= j < |bs|
        ensures PayloadKept(w0, words, bs[j])
      {
        assert blocks == Grow(bs, extension, pagesNeeded * PAGE_SIZE);
        assert (bs + [Block(extension, pagesNeeded * PAGE_SIZE - HEADER, true)])[j] == bs[j];
        PayloadThrough(w0, w1, words, bs[j]);
      }
    }

    /** What a request may need: nothing when a block fits, else a page count that does not wrap and safe rounds. */
    ghost predicate Provided(n: nat)
      reads this, space.pmm
    {
      FirstFit(blocks, n, 0) < |blocks| || (n + HEADER + PAGE_SIZE - 1 < TWO_32 && CanGrow(PagesNeeded(n)))
    }

    /** The request needs a growth there are no frames for. */
    ghost predicate Starved(n: nat)
      reads this, space.pmm
    {
      FirstFit(blocks, n, 0) == |blocks| && !Suffice(PagesNeeded(n))
    }

    /** kmalloc: null for an empty request, else the rounded size is searched for; it panics exactly when starved. */
    method Kmalloc(size: u32) returns (ptr: u32, panic: bool)
      requires Valid() && (size != 0 ==> Provided(RoundUp(size)))
      modifies this, space`ram, space.pmm`usedBlocks, space.pmm.bitmap
      ensures panic <==> size != 0 && old(Starved(RoundUp(size)))
      ensures size == 0 ==> ptr == 0 && blocks == old(blocks) && words == old(words) && end == old(end)
      ensures !panic ==> Valid() && base == old(base) && head == old(head)
      ensures !panic && size != 0 ==> Served(old(blocks), old(end), RoundUp(size), blocks, end, ptr)
      ensures !panic ==> |frames| >= |old(frames)| && frames[..|old(frames)|] == old(frames)
      ensures !panic ==> LiveKept(old(blocks), old(words), words)
    {
      hide KernelHeap.SpaceValid, KernelHeap.Starved;
      if size == 0 {
        return 0, false;
      }
      RoundUpHolds(size);
      ptr, panic := Search(RoundUp(size));
    }

    /** First fit over the links; at the last block the heap grows once and the search starts over. */
    method Search(n: u32) returns (ptr: u32, panic: bool)
      requires Valid() && n % 8 == 0 && Provided(n)
      modifies this, space`ram, space.pmm`usedBlocks, space.pmm.bitmap
      ensures panic <==> old(Starved(n))
      ensures !panic ==> Valid() && base == old(base) && head == old(head)
      ensures !panic ==> Served(old(blocks), old(end), n, blocks, end, ptr)
      ensures !panic ==> |frames| >= |old(frames)| && frames[..|old(frames)|] == old(frames)
      ensures !panic ==> LiveKept(old(blocks), old(words), words)
    {
      hide KernelHeap.SpaceValid, Represents, Coalesced, WellFormed, FirstFit, Grow, Served, Searching, LiveKept;
      ghost var bs, end0 := blocks, end;
      SearchStart(words, blocks, end, n);
      var curr := head;
      ghost var k, grown := 0, false;
      while curr != 0
        invariant Valid() && base == old(base) && head == old(head)
        invariant Searching(bs, end0, n, blocks, end, k, grown)
        invariant 0 <= k < |blocks| && curr == blocks[k].addr && curr != 0
        invariant !grown ==> Provided(n) && (Suffice(PagesNeeded(n)) <==> old(Suffice(PagesNeeded(n))))
        invariant grown ==> !old(Starved(n))
        invariant |frames| >= |old(frames)| && frames[..|old(frames)|] == old(frames)
        invariant LiveKept(bs, old(words), words)
        decreases if grown then 0 else 1, |blocks| - k
      {
        var free := ReadFlag(curr, k);
        var currSize := ReadSize(curr, k);
        ghost var before, w := blocks, words;
        if free && currSize >= n {
          SearchHit(bs, end0, n, blocks, end, k, grown);
          ptr := TakeBlock(curr, n, k);
          panic := false;
          SearchServed(bs, old(words), end0, n, before, w, end, k, grown, words, ptr);
          return;
        }
        var next := ReadNext(curr, k);
        if next == 0 {
          SearchMissed(bs, end0, n, blocks, end, k, grown);
          panic := GrowFor(curr, n);
          if panic {
            ptr := 0;
            return;
          }
          SearchAgain(bs, end0, n, words, blocks, end);
          LiveKeptGrown(bs, old(words), w, words);
          grown := true;
          curr := head;
          k := 0;
          continue;
        }
        SearchNext(bs, end0, n, blocks, end, k, grown);
        curr := next;
        k := k + 1;
      }
      assert false;
    }

    /** kfree of null does nothing; otherwise the live block before ptr is freed. */
    method Kfree(ptr: u32)
      requires Valid() && (ptr != 0 ==> IsLive(blocks, ptr - HEADER))
      modifies `words, `blocks, space`ram
      ensures Valid()
      ensures ptr == 0 ==> blocks == old(blocks) && words == old(words)
      ensures ptr != 0 ==> blocks == FreeBlock(old(blocks), ptr - HEADER)
      ensures forall j :: 0 <= j < |old(blocks)| ==> PayloadKept(old(words), words, old(blocks)[j])
    {
      hide KernelHeap.SpaceValid;
      if ptr == 0 {
        return;
      }
      FreeAtWellFormed(blocks, KHEAP_START, end, IndexOf(blocks, ptr - HEADER));
      Release(ptr, IndexOf(blocks, ptr - HEADER));
    }

    /** A client stores a byte into its own live block; the heap does not notice. */
    method WritePayload(ptr: u32, offset: u32, value: Byte)
      requires Valid() && InPayload(blocks, ptr, offset)
      modifies `words, space`ram
      ensures Valid() && WordHolding(ptr, offset) in old(words)
      ensures words == old(words)[WordHolding(ptr, offset) :=
        WithByteAt(old(words)[WordHolding(ptr, offset)], offset % 4, value)]
      ensures forall j :: 0 <= j < |blocks| && j != IndexOf(blocks, ptr - HEADER) ==>
        PayloadKept(old(words), words, blocks[j])
    {
      hide KernelHeap.SpaceValid, WithByteAt;
      ghost var i := IndexOf(blocks, ptr - HEADER);
      PayloadReady(words, blocks, KHEAP_START, end, ptr, offset);
      var a := WordHolding(ptr, offset);
      hide WordHolding;
      var word := ReadWord(a);
      PayloadStoreRepresents(words, blocks, KHEAP_START, end, i, a, WithByteAt(word, offset % 4, value));
      WriteWord(a, WithByteAt(word, offset % 4, value));
    }

    /** kheap_init: 512 pages made one free block. */
    method Init() returns (panic: bool)
      requires SpaceValid() && frames == [] && CanGrow(KHEAP_INITIAL_SIZE / PAGE_SIZE)
      modifies this, space`ram, space.pmm`usedBlocks, space.pmm.bitmap
      ensures panic <==> !old(Suffice(KHEAP_INITIAL_SIZE / PAGE_SIZE))
      ensures !panic ==> Valid() && end == KHEAP_START + KHEAP_INITIAL_SIZE && base == old(base)
      ensures !panic ==> blocks == [Block(KHEAP_START, KHEAP_INITIAL_SIZE - HEADER, true)]
    {
      hide KernelHeap.SpaceValid;
      SpaceCovers();
      var initialPages := KHEAP_INITIAL_SIZE / PAGE_SIZE;
      panic := Expand(initialPages);
      if panic {
        return;
      }
      SpaceCovers();
      head := KHEAP_START;
      FirstReady(words, KHEAP_START, end);
      FirstRepresents(words, KHEAP_START, KHEAP_INITIAL_SIZE - HEADER);
      WriteHeader(head, KHEAP_INITIAL_SIZE - HEADER, 0, 0);
      blocks := [Block(KHEAP_START, KHEAP_INITIAL_SIZE - HEADER, true)];
    }
  }

  lemma SearchStart(w: Words32, bs: seq<Block>, end: int, n: nat)
    requires Represents(w, bs, KHEAP_START, end) && Coalesced(bs)
    ensures Searching(bs, end, n, bs, end, 0, false) && LiveKept(bs, w, w)
    ensures WellFormed(bs, KHEAP_START, end) && 0 < |bs| && bs[0].addr == KHEAP_START
  {
  }

  /** A block that fits in the old list means none was lacking. */
  lemma SearchHit(bs0: seq<Block>, end0: int, n: nat, bs: seq<Block>, end: int, k: int, grown: bool)
    requires Searching(bs0, end0, n, bs, end, k, grown) && Fits(bs[k], n)
    ensures !grown ==> FirstFit(bs0, n, 0) < |bs0|
  {
    FirstFitIs(bs, n, 0, k);
  }

  /** Growing can be needed only once: in the grown list the search always finds a block. */
  lemma SearchMissed(bs0: seq<Block>, end0: int, n: nat, bs: seq<Block>, end: int, k: int, grown: bool)
    requires Searching(bs0, end0, n, bs, end, k, grown) && k == |bs| - 1 && !Fits(bs[k], n)
    ensures !grown && bs == bs0 && end == end0 && FirstFit(bs0, n, 0) == |bs0|
  {
  }

  lemma SearchNext(bs0: seq<Block>, end0: int, n: nat, bs: seq<Block>, end: int, k: int, grown: bool)
    requires Searching(bs0, end0, n, bs, end, k, grown) && k < |bs| - 1 && !Fits(bs[k], n)
    ensures Searching(bs0, end0, n, bs, end, k + 1, grown)
  {
  }

  lemma SearchAgain(bs0: seq<Block>, end0: int, n: nat, w: Words32, bs: seq<Block>, end: int)
    requires WellFormed(bs0, KHEAP_START, end0) && FirstFit(bs0, n, 0) == |bs0|
    requires bs == Grow(bs0, end0, PagesNeeded(n) * PAGE_SIZE) && end == end0 + PagesNeeded(n) * PAGE_SIZE
    requires Represents(w, bs, KHEAP_START, end) && Coalesced(bs)
    ensures Searching(bs0, end0, n, bs, end, 0, true) && 0 < |bs| && bs[0].addr == KHEAP_START
  {
  }

  lemma LiveKeptGrown(bs: seq<Block>, w0: Words32, w1: Words32, w2: Words32)
    requires LiveKept(bs, w0, w1)
    requires forall j :: 0 <= j < |bs| ==> PayloadKept(w1, w2, bs[j])
    ensures LiveKept(bs, w0, w2)
  {
  }

  /** The block taken where the search stopped is the one first fit prescribes. */
  lemma SearchServed(bs0: seq<Block>, w0: Words32, end0: int, n: nat, bs: seq<Block>, w: Words32, end: int,
                     k: int, grown: bool, w': Words32, ptr: int)
    requires Searching(bs0, end0, n, bs, end, k, grown) && Fits(bs[k], n)
    requires LiveKept(bs0, w0, w)
    requires ptr == TakeAt(bs, k, n)[k].addr + HEADER
    requires forall j :: 0 <= j < |bs| && j != k ==> PayloadKept(w, w', bs[j])
    ensures Served(bs0, end0, n, TakeAt(bs, k, n), end, ptr) && LiveKept(bs0, w0, w')
  {
    FirstFitIs(bs, n, 0, k);
    forall j | 0 <= j < |bs0| && !bs0[j].free
      ensures PayloadKept(w0, w', bs0[j])
    {
      if grown {
        GrowKeepsLive(bs0, end0, PagesNeeded(n) * PAGE_SIZE, j);
      }
      assert PayloadKept(w0, w, bs0[j]) && PayloadKept(w, w', bs[j]);
    }
  }

  lemma PayloadReady(w: Words32, bs: seq<Block>, start: int, end: int, ptr: int, offset: int)
    requires Represents(w, bs, start, end) && end <= HEAP_LIMIT && InPayload(bs, ptr, offset)
    ensures var a := WordHolding(ptr, offset);
      a in w && a % 4 == 0 && 0 <= a < TWO_32 && ptr <= a && a + 4 <= EndOf(bs[IndexOf(bs, ptr - HEADER)])
  {
    var b := bs[IndexOf(bs, ptr - HEADER)];
    Placement(bs, start, end, IndexOf(bs, ptr - HEADER));
    assert Sized(b);
    var q, r, t := b.addr / 8, offset / 4, b.size / 8;
    assert r < 2 * t;
    assert WordHolding(ptr, offset) == 4 * (2 * q + 4 + r);
    Fourfold(2 * q + 4 + r);
  }

  lemma ExtensionSize(end: int, pages: nat, end': int, size: int)
    requires pages > 0 && end' == end + pages * PAGE_SIZE && size == pages * PAGE_SIZE - HEADER
    ensures size > 0 && size % 8 == 0 && end' == end + HEADER + size && end < end'
  {
    var q := 512 * pages - 2;
    assert size == 8 * q;
    assert (8 * q) % 8 == 0;
  }

  lemma ListWellFormed(w: Words32, bs: seq<Block>, start: int, end: int)
    requires Represents(w, bs, start, end) && Coalesced(bs)
    ensures WellFormed(bs, start, end) && 0 < |bs| && bs[0].addr == start
  {
  }

  lemma FirstReady(w: Words32, start: int, end: int)
    requires SpansWords(w, start, end) && start % 8 == 0 && 0 < start && start + HEADER <= end
    ensures start in w && start + 4 in w && start + 8 in w && start + 12 in w
  {
    HeaderAligned(start, start, end);
  }

  lemma ExtendsList(w: Words32, w': Words32, bs: seq<Block>)
    requires Extends(w, w') && ListIn(w, bs)
    ensures ListIn(w', bs)
    ensures forall b: Block :: PayloadKept(w, w', b)
  {
    forall i | 0 <= i < |bs|
      ensures NodeAt(w', bs, i)
    {
      assert NodeAt(w, bs, i);
    }
  }

  lemma ExpandBudget(p: nat, i: nat, pages: nat)
    requires i < pages
    ensures FramesNeeded(p, p + i) < FramesNeeded(p, p + pages)
    ensures FramesNeeded(p + i, p + i + 1) <= FramesNeeded(p, p + pages) - FramesNeeded(p, p + i)
  {
  }

  lemma SafeAt(spare: int, p: nat, pages: nat, i: nat)
    requires SafeRounds(spare, p, pages) && i < pages
    ensures RoundSafe(spare - FramesNeeded(p, p + i), p + i, 0)
  {
    StrandedLater(spare, p, i);
    assert RoundSafe(spare, p, i);
    NoGrowth(p + i, map[]);
    assert (p + i) + 0 == p + i;
  }

  lemma NoGrowth(p: nat, w: Words32)
    ensures FramesNeeded(p, p + 0) == 0 && Extends(w, w)
  {
  }

  lemma ExtendsThrough(w: Words32, w1: Words32, w2: Words32)
    requires Extends(w, w1) && Extends(w1, w2)
    ensures Extends(w, w2)
  {
  }

  lemma AddedSpare(p: nat, i: nat)
    ensures FramesNeeded(p, p + i + 1) == FramesNeeded(p, p + i) + FramesNeeded(p + i, p + i + 1)
    ensures FramesNeeded(p + i, p + i + 1) == 1 + Tables(p + i + 1) - Tables(p + i)
  {
  }
}
