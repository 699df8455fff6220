/** The virtual memory manager: one kernel directory, edited only through its recursive window. */
module Vmm {
  import opened Words
  import opened Pmm
  import opened Paging

  const BOOT_MAPPED: int := 0x40_0000

  predicate SlotHeld(m: Ram, dir: int, pages: seq<bool>, s: int)
    requires IsFrame(dir) && IsSlot(s)
  {
    HasTable(m, dir, s) ==> TableFrame(m, dir, s) < |pages| && pages[TableFrame(m, dir, s)]
  }

  /** The directory and every table sit in managed frames marked used. */
  ghost predicate FramesHeld(m: Ram, dir: int, pages: seq<bool>)
    requires IsFrame(dir)
  {
    dir < |pages| && pages[dir] &&
    forall s :: 0 <= s < RECURSIVE_SLOT ==> SlotHeld(m, dir, pages, s)
  }

  /** A free frame is neither the directory nor a table. */
  lemma FreeFrameIsFresh(m: Ram, dir: int, pages: seq<bool>, f: int)
    requires IsFrame(dir) && FramesHeld(m, dir, pages) && |pages| <= FRAMES
    requires 0 <= f < |pages| && !pages[f]
    ensures FreshFrame(m, dir, f)
  {
    forall s | 0 <= s < RECURSIVE_SLOT
      ensures NotTable(m, dir, s, f)
    {
      assert SlotHeld(m, dir, pages, s);
    }
  }

  /** The page flags after a map: a missing table costs the lowest free page. */
  function PagesAfterMap(m: Ram, dir: int, pages: seq<bool>, virt: u32): (pages': seq<bool>)
    requires IsFrame(dir)
    requires HasTable(m, dir, PdIndex(virt)) || !Exhausted(pages)
    ensures |pages'| == |pages|
  {
    if HasTable(m, dir, PdIndex(virt)) then pages else pages[LowestFree(pages, 0) := true]
  }

  /** Physical memory after a map, given the page flags before it. */
  function RamAfterMap(m: Ram, dir: int, pages: seq<bool>, phys: u32, virt: u32, flags: u32): Ram
    requires IsFrame(dir) && |pages| < FRAMES && phys % PAGE_SIZE == 0
  {
    MapResult(m, dir, LowestFree(pages, 0), phys, virt, flags)
  }

  lemma MapReady(m: Ram, dir: int, pages: seq<bool>, virt: u32)
    requires IsFrame(dir) && FramesHeld(m, dir, pages) && |pages| < FRAMES
    requires HasTable(m, dir, PdIndex(virt)) || !Exhausted(pages)
    ensures HasTable(m, dir, PdIndex(virt)) || FreshFrame(m, dir, LowestFree(pages, 0))
  {
    if !HasTable(m, dir, PdIndex(virt)) {
      FreeFrameIsFresh(m, dir, pages, LowestFree(pages, 0));
    }
  }

  lemma MapHoldsFrames(m: Ram, dir: int, pages: seq<bool>, phys: u32, virt: u32, flags: u32)
    requires Sound(m, dir) && FramesHeld(m, dir, pages) && |pages| < FRAMES
    requires phys % PAGE_SIZE == 0 && PdIndex(virt) != RECURSIVE_SLOT
    requires HasTable(m, dir, PdIndex(virt)) || !Exhausted(pages)
    ensures Sound(RamAfterMap(m, dir, pages, phys, virt, flags), dir)
    ensures FramesHeld(RamAfterMap(m, dir, pages, phys, virt, flags), dir, PagesAfterMap(m, dir, pages, virt))
  {
    var f := LowestFree(pages, 0);
    var pages' := PagesAfterMap(m, dir, pages, virt);
    MapReady(m, dir, pages, virt);
    PdeValueParts(f * PAGE_SIZE, flags);
    MapTranslates(m, dir, f, phys, virt, flags, 0);
    var m' := RamAfterMap(m, dir, pages, phys, virt, flags);
    assert GoodSlot(m, dir, PdIndex(virt));
    forall s | 0 <= s < RECURSIVE_SLOT
      ensures SlotHeld(m', dir, pages', s)
    {
      assert SlotHeld(m, dir, pages, s);
      EntryAfterMap(m, dir, f, phys, virt, flags, dir, s);
    }
  }

  /** Entry k of the first page table: the k-th frame, present, writable, user. */
  function IdentityEntry(k: int): u32
    requires IsSlot(k)
  {
    k * PAGE_SIZE + PRESENT + WRITABLE + USER
  }

  function BootPde(d: int, t: int, k: int): u32
    requires IsFrame(d) && IsFrame(t) && IsSlot(k)
  {
    if k == 0 || k == HIGHER_HALF_SLOT then t * PAGE_SIZE + PRESENT + WRITABLE + USER
    else if k == RECURSIVE_SLOT then d * PAGE_SIZE + PRESENT + WRITABLE
    else 0
  }

  /** Directory d and first table t exactly as the initialisation leaves them. */
  ghost predicate BootTables(m: Ram, d: int, t: int)
    requires IsFrame(d) && IsFrame(t)
  {
    (forall k :: 0 <= k < 1024 ==> Entry(m, d, k) == BootPde(d, t, k)) &&
    (forall k :: 0 <= k < 1024 ==> Entry(m, t, k) == IdentityEntry(k))
  }

  lemma BootEntryParts(d: int, t: int, k: int)
    requires IsFrame(d) && IsFrame(t) && IsSlot(k)
    ensures IsPresent(BootPde(d, t, k)) == (k in {0, HIGHER_HALF_SLOT, RECURSIVE_SLOT})
    ensures k in {0, HIGHER_HALF_SLOT} ==> FrameOf(BootPde(d, t, k)) == t && IsWritable(BootPde(d, t, k))
    ensures IsPresent(IdentityEntry(k)) && FrameOf(IdentityEntry(k)) == k && IsWritable(IdentityEntry(k))
  {
    EntryParts(t, PRESENT + WRITABLE + USER);
    EntryParts(d, PRESENT + WRITABLE);
    EntryParts(k, PRESENT + WRITABLE + USER);
  }

  lemma BootTablesSound(m: Ram, d: int, t: int)
    requires IsFrame(d) && IsFrame(t) && d != t && BootTables(m, d, t)
    ensures Sound(m, d)
    ensures forall s :: 0 <= s < RECURSIVE_SLOT ==> (HasTable(m, d, s) <==> s in {0, HIGHER_HALF_SLOT})
    ensures TableFrame(m, d, 0) == t && TableFrame(m, d, HIGHER_HALF_SLOT) == t
  {
    forall s | 0 <= s < 1024
      ensures Entry(m, d, s) == BootPde(d, t, s)
      ensures HasTable(m, d, s) <==> s in {0, HIGHER_HALF_SLOT, RECURSIVE_SLOT}
      ensures s in {0, HIGHER_HALF_SLOT} ==> TableFrame(m, d, s) == t && IsWritable(Entry(m, d, s))
    {
      BootEntryParts(d, t, s);
    }
    forall s | 0 <= s < RECURSIVE_SLOT
      ensures GoodSlot(m, d, s)
    {
    }
    forall s, s' | 0 <= s < RECURSIVE_SLOT && 0 <= s' < RECURSIVE_SLOT
      ensures Apart(m, d, s, s')
    {
    }
  }

  lemma BootTablesHeld(m: Ram, d: int, t: int, pages: seq<bool>)
    requires IsFrame(d) && IsFrame(t) && d != t && BootTables(m, d, t)
    requires d < |pages| && t < |pages| && pages[d] && pages[t]
    ensures Sound(m, d) && FramesHeld(m, d, pages)
  {
    BootTablesSound(m, d, t);
  }

  /** The first 4 MB are mapped at 0 and at 3 GB; nothing else is. */
  function BootWalk(v: u32): Translation {
    if v < BOOT_MAPPED then At(v, true)
    else if KERNEL_VIRT_BASE <= v < KERNEL_VIRT_BASE + BOOT_MAPPED then At(v - KERNEL_VIRT_BASE, true)
    else Fault
  }

  /** So the boot tables translate, outside the window. */
  lemma BootTablesTranslate(m: Ram, d: int, t: int, v: u32)
    requires IsFrame(d) && IsFrame(t) && d != t && BootTables(m, d, t)
    requires PdIndex(v) != RECURSIVE_SLOT
    ensures Walk(m, d, v) == BootWalk(v)
  {
    BootTablesSound(m, d, t);
    BootEntryParts(d, t, PdIndex(v));
    BootEntryParts(d, t, PtIndex(v));
    assert Entry(m, d, PdIndex(v)) == BootPde(d, t, PdIndex(v));
    assert Entry(m, t, PtIndex(v)) == IdentityEntry(PtIndex(v));
  }

  /** Every word outside frames d and t is the same. */
  ghost predicate SameOutside(m: Ram, m': Ram, d: int, t: int) {
    forall f, k :: IsFrame(f) && IsSlot(k) && f != d && f != t ==> Entry(m', f, k) == Entry(m, f, k)
  }

  /** The three stores that fill the directory. */
  function Linked(m: Ram, d: int, t: int): Ram
    requires IsFrame(d) && IsFrame(t)
  {
    SetEntry(SetEntry(SetEntry(m, d, 0, BootPde(d, t, 0)),
                      d, HIGHER_HALF_SLOT, BootPde(d, t, HIGHER_HALF_SLOT)),
             d, RECURSIVE_SLOT, BootPde(d, t, RECURSIVE_SLOT))
  }

  lemma LinkedEntry(m: Ram, d: int, t: int, f: int, k: int)
    requires IsFrame(d) && IsFrame(t) && IsFrame(f) && IsSlot(k)
    ensures Entry(Linked(m, d, t), f, k) ==
      if f == d && k in {0, HIGHER_HALF_SLOT, RECURSIVE_SLOT} then BootPde(d, t, k) else Entry(m, f, k)
  {
  }

  class AddressSpace {
    var ram: Ram
    var cr3: u32
    const pmm: FrameAllocator

    constructor (pmm: FrameAllocator, ram: Ram)
      ensures this.pmm == pmm && this.ram == ram
    {
      this.pmm := pmm;
      this.ram := ram;
      cr3 := 0;
    }

    function Dir(): (dir: nat)
      reads this
      ensures IsFrame(dir)
    {
      cr3 / PAGE_SIZE
    }

    ghost predicate Valid()
      reads this, pmm, pmm.bitmap
    {
      pmm.Valid() && Sound(ram, Dir()) && FramesHeld(ram, Dir(), pmm.Pages())
    }

    /** A word store by virtual address, through the page walk. */
    method Store(virt: u32, value: u32)
      requires Walk(ram, Dir(), virt).At? && Walk(ram, Dir(), virt).writable && virt % 4 == 0
      modifies `ram
      ensures ram == old(ram)[old(Walk(ram, Dir(), virt)).address / 4 := value]
    {
      ram := ram[Walk(ram, Dir(), virt).address / 4 := value];
    }

    /** A word load by virtual address, through the page walk. */
    method Load(virt: u32) returns (value: u32)
      requires Walk(ram, Dir(), virt).At? && virt % 4 == 0
      ensures value == ram[Walk(ram, Dir(), virt).address / 4]
    {
      value := ram[Walk(ram, Dir(), virt).address / 4];
    }

    method StorePde(pd: int, value: u32)
      requires Sound(ram, Dir()) && IsSlot(pd)
      modifies `ram
      ensures ram == SetEntry(old(ram), Dir(), pd, value)
    {
      WindowReachesPde(ram, Dir(), pd);
      Store(PdeAddress(pd), value);
    }

    method StorePte(pd: int, pt: int, value: u32)
      requires Sound(ram, Dir()) && 0 <= pd < RECURSIVE_SLOT && IsSlot(pt) && HasTable(ram, Dir(), pd)
      modifies `ram
      ensures ram == PutPte(old(ram), Dir(), pd, pt, value)
    {
      WindowReachesPte(ram, Dir(), pd, pt);
      Store(PteAddress(pd, pt), value);
    }

    /** memset of one page table through the window. */
    method ClearTable(pd: int)
      requires Sound(ram, Dir()) && 0 <= pd < RECURSIVE_SLOT && HasTable(ram, Dir(), pd)
      modifies `ram
      ensures ram == ZeroPrefix(old(ram), old(TableFrame(ram, Dir(), pd)), 1024)
    {
      ghost var f := TableFrame(ram, Dir(), pd);
      ghost var m := ram;
      assert GoodSlot(m, Dir(), pd);
      ZeroPrefixStep(m, f, 0);
      for k := 0 to 1024
        invariant ram == ZeroPrefix(m, f, k) && Dir() == old(Dir())
      {
        ZeroPrefixSound(m, Dir(), f, k);
        assert Entry(ram, Dir(), pd) == Entry(m, Dir(), pd);
        StorePte(pd, k, 0);
        ZeroPrefixStep(m, f, k);
      }
    }

    /** Links a fresh frame into an empty slot and wipes it through the window. */
    method InstallTable(pd: int, ptPhys: u32, flags: u32)
      requires Sound(ram, Dir()) && 0 <= pd < RECURSIVE_SLOT && !HasTable(ram, Dir(), pd)
      requires ptPhys % PAGE_SIZE == 0 && FreshFrame(ram, Dir(), ptPhys / PAGE_SIZE)
      modifies `ram
      ensures ram == AddTable(old(ram), Dir(), pd, ptPhys / PAGE_SIZE, flags)
      ensures Sound(ram, Dir()) && HasTable(ram, Dir(), pd)
    {
      LinkTableSound(ram, Dir(), pd, ptPhys / PAGE_SIZE, flags);
      AddTableSound(ram, Dir(), pd, ptPhys / PAGE_SIZE, flags);
      StorePde(pd, PdeValue(ptPhys, flags));
      ClearTable(pd);
    }

    /** A frame taken for an empty slot and installed there. */
    method NewTable(pd: int, flags: u32)
      requires pmm.Valid() && Sound(ram, Dir()) && 0 <= pd < RECURSIVE_SLOT && !HasTable(ram, Dir(), pd)
      requires !Exhausted(pmm.Pages()) && FreshFrame(ram, Dir(), LowestFree(pmm.Pages(), 0))
      modifies `ram, pmm`usedBlocks, pmm.bitmap
      ensures pmm.Valid() && Sound(ram, Dir()) && HasTable(ram, Dir(), pd)
      ensures pmm.Pages() == old(pmm.Pages())[LowestFree(old(pmm.Pages()), 0) := true]
      ensures ram == AddTable(old(ram), Dir(), pd, LowestFree(old(pmm.Pages()), 0), flags)
    {
      hide Bits, CountUsed;
      var ptPhys := pmm.AllocPage();
      InstallTable(pd, ptPhys, flags);
    }

    /** Makes sure slot pd has a table, taking a frame for it when it has none. */
    method EnsureTable(virt: u32, flags: u32)
      requires Valid() && PdIndex(virt) != RECURSIVE_SLOT
      requires HasTable(ram, Dir(), PdIndex(virt)) || !Exhausted(pmm.Pages())
      modifies `ram, pmm`usedBlocks, pmm.bitmap
      ensures pmm.Valid() && Sound(ram, Dir()) && HasTable(ram, Dir(), PdIndex(virt))
      ensures pmm.Pages() == PagesAfterMap(old(ram), Dir(), old(pmm.Pages()), virt)
      ensures ram == if old(HasTable(ram, Dir(), PdIndex(virt))) then old(ram)
                     else AddTable(old(ram), Dir(), PdIndex(virt), LowestFree(old(pmm.Pages()), 0), flags)
    {
      hide Bits, CountUsed;
      var pdIndex := PdIndex(virt);
      MapReady(ram, Dir(), pmm.Pages(), virt);
      WindowReachesPde(ram, Dir(), pdIndex);
      var pde := Load(PdeAddress(pdIndex));
      if !IsPresent(pde) {
        NewTable(pdIndex, flags);
      }
    }

    /** Maps virt to phys, first adding a table from the frame allocator when the slot has none. */
    method MapPage(phys: u32, virt: u32, flags: u32)
      requires Valid() && phys % PAGE_SIZE == 0 && PdIndex(virt) != RECURSIVE_SLOT
      requires HasTable(ram, Dir(), PdIndex(virt)) || !Exhausted(pmm.Pages())
      modifies `ram, pmm`usedBlocks, pmm.bitmap
      ensures Valid()
      ensures ram == RamAfterMap(old(ram), Dir(), old(pmm.Pages()), phys, virt, flags)
      ensures pmm.Pages() == PagesAfterMap(old(ram), Dir(), old(pmm.Pages()), virt)
    {
      MapHoldsFrames(ram, Dir(), pmm.Pages(), phys, virt, flags);
      EnsureTable(virt, flags);
      StorePte(PdIndex(virt), PtIndex(virt), PteValue(phys, flags));
    }

    /** A store by physical address, good below 4 MB while the boot tables map it to itself. */
    method BootStore(address: u32, value: u32)
      requires address < BOOT_MAPPED && address % 4 == 0
      modifies `ram
      ensures ram == old(ram)[address / 4 := value]
    {
      ram := ram[address / 4 := value];
    }

    method BootPut(f: int, k: int, value: u32)
      requires 0 <= f < 1024 && IsSlot(k)
      modifies `ram
      ensures ram == SetEntry(old(ram), f, k, value)
    {
      BootStore(f * PAGE_SIZE + 4 * k, value);
    }

    method BootClear(f: int)
      requires 0 <= f < 1024
      modifies `ram
      ensures ram == ZeroPrefix(old(ram), f, 1024)
    {
      ghost var m := ram;
      ZeroPrefixStep(m, f, 0);
      for k := 0 to 1024
        invariant ram == ZeroPrefix(m, f, k)
      {
        BootPut(f, k, 0);
        ZeroPrefixStep(m, f, k);
      }
    }

    method BootFillTable(t: int)
      requires 0 <= t < 1024
      modifies `ram
      ensures forall k :: 0 <= k < 1024 ==> Entry(ram, t, k) == IdentityEntry(k)
      ensures SameOutside(old(ram), ram, t, t)
    {
      for i := 0 to 1024
        invariant forall k :: 0 <= k < i ==> Entry(ram, t, k) == IdentityEntry(k)
        invariant SameOutside(old(ram), ram, t, t)
      {
        BootPut(t, i, IdentityEntry(i));
      }
    }

    method BootLink(d: int, t: int)
      requires 0 <= d < 1024 && 0 <= t < 1024
      modifies `ram
      ensures ram == Linked(old(ram), d, t)
    {
      BootPut(d, 0, BootPde(d, t, 0));
      BootPut(d, HIGHER_HALF_SLOT, BootPde(d, t, HIGHER_HALF_SLOT));
      BootPut(d, RECURSIVE_SLOT, BootPde(d, t, RECURSIVE_SLOT));
    }

    /** Directory and first table come from the two lowest free frames, which must lie below 4 MB. */
    method Init()
      requires pmm.Valid()
      requires var d := LowestFree(pmm.Pages(), 0);
        d < 1024 && d < pmm.maxBlocks &&
        var t := LowestFree(pmm.Pages()[d := true], 0); t < 1024 && t < pmm.maxBlocks
      modifies this, pmm`usedBlocks, pmm.bitmap
      ensures Valid()
      ensures var d := LowestFree(old(pmm.Pages()), 0);
        var t := LowestFree(old(pmm.Pages())[d := true], 0);
        Dir() == d && d != t && pmm.Pages() == old(pmm.Pages())[d := true][t := true] &&
        BootTables(ram, d, t) && SameOutside(old(ram), ram, d, t)
    {
      hide Bits, CountUsed;
      ghost var pages := pmm.Pages();
      var directory := pmm.AllocPage();
      var d := directory / PAGE_SIZE;
      BootClear(d);
      var table := pmm.AllocPage();
      var t := table / PAGE_SIZE;
      BootClear(t);
      BootFill(d, t, old(ram));
      cr3 := directory;
      BootTablesHeld(ram, d, t, pmm.Pages());
    }

    /** Steps 3 and 4: the identity table, then the three directory entries. */
    method BootFill(d: int, t: int, ghost before: Ram)
      requires 0 <= d < 1024 && 0 <= t < 1024 && d != t
      requires ram == ZeroPrefix(ZeroPrefix(before, d, 1024), t, 1024)
      modifies `ram
      ensures BootTables(ram, d, t) && SameOutside(before, ram, d, t)
    {
      ghost var cleared := ram;
      forall f, k | IsFrame(f) && IsSlot(k)
        ensures Entry(cleared, f, k) == if f == d || f == t then 0 else Entry(before, f, k)
      {
        EntryAfterZero(before, d, 1024, f, k);
        EntryAfterZero(ZeroPrefix(before, d, 1024), t, 1024, f, k);
      }
      BootFillTable(t);
      ghost var filled := ram;
      BootLink(d, t);
      forall f, k | IsFrame(f) && IsSlot(k)
        ensures Entry(ram, f, k) ==
          if f == d then BootPde(d, t, k) else if f == t then IdentityEntry(k) else Entry(before, f, k)
      {
        LinkedEntry(filled, d, t, f, k);
      }
    }
  }
}
