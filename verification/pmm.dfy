/** The physical memory manager: a bitmap of page frames with a cached counter. */
module Pmm {
  import opened Words

  // ---------------------------------------------------------------------
  // Bits of the bitmap
  // ---------------------------------------------------------------------

  /** 1 << j. */
  function Mask(j: nat): bv8
    requires j < 8
  {
    if j == 0 then 1 else if j == 1 then 2 else if j == 2 then 4 else if j == 3 then 8
    else if j == 4 then 16 else if j == 5 then 32 else if j == 6 then 64 else 128
  }

  lemma MaskIsShift(j: nat)
    requires j < 8
    ensures Mask(j) == 1 << j
  {
  }

  predicate BitOf(b: bv8, j: nat)
    requires j < 8
  {
    b & Mask(j) != 0
  }

  lemma AllOnes(j: nat)
    requires j < 8
    ensures BitOf(0xFF, j)
  {
  }

  lemma AllUsed(bytes: seq<bv8>, n: nat)
    requires n <= 8 * |bytes| && forall k :: 0 <= k < |bytes| ==> bytes[k] == 0xFF
    ensures forall p :: 0 <= p < n ==> Bits(bytes, n)[p]
    ensures CountUsed(Bits(bytes, n)) == n
  {
    forall p | 0 <= p < n
      ensures Bits(bytes, n)[p]
    {
      AllOnes(p % 8);
    }
    CountUsedFull(Bits(bytes, n));
  }

  predicate BitAt(bytes: seq<bv8>, p: nat)
    requires p < 8 * |bytes|
  {
    BitOf(bytes[p / 8], p % 8)
  }

  /** The bitmap read as one flag per page: true means used. */
  function Bits(bytes: seq<bv8>, n: nat): (pages: seq<bool>)
    requires n <= 8 * |bytes|
    ensures |pages| == n
  {
    seq(n, k requires 0 <= k < n => BitAt(bytes, k))
  }

  function WithSet(bytes: seq<bv8>, k: nat): (after: seq<bv8>)
    requires k < 8 * |bytes|
    ensures |after| == |bytes|
  {
    bytes[k / 8 := bytes[k / 8] | Mask(k % 8)]
  }

  function WithClear(bytes: seq<bv8>, k: nat): (after: seq<bv8>)
    requires k < 8 * |bytes|
    ensures |after| == |bytes|
  {
    bytes[k / 8 := bytes[k / 8] & !Mask(k % 8)]
  }

  lemma BitAfter(bytes: seq<bv8>, k: nat, p: nat)
    requires k < 8 * |bytes| && p < 8 * |bytes|
    ensures BitAt(WithSet(bytes, k), p) == (p == k || BitAt(bytes, p))
    ensures BitAt(WithClear(bytes, k), p) == (p != k && BitAt(bytes, p))
  {
  }

  lemma BitsAfter(bytes: seq<bv8>, n: nat, k: nat)
    requires n <= 8 * |bytes| && k < n
    ensures Bits(WithSet(bytes, k), n) == Bits(bytes, n)[k := true]
    ensures Bits(WithClear(bytes, k), n) == Bits(bytes, n)[k := false]
  {
    forall p | 0 <= p < n
      ensures BitAt(WithSet(bytes, k), p) == (p == k || BitAt(bytes, p))
      ensures BitAt(WithClear(bytes, k), p) == (p != k && BitAt(bytes, p))
    {
      BitAfter(bytes, k, p);
    }
  }

  // ---------------------------------------------------------------------
  // Page flags: counting and searching
  // ---------------------------------------------------------------------

  function CountUsed(pages: seq<bool>): (n: nat)
    ensures n <= |pages|
  {
    if pages == [] then 0
    else CountUsed(pages[..|pages| - 1]) + (if pages[|pages| - 1] then 1 else 0)
  }

  lemma {:induction false} CountUsedUpdate(pages: seq<bool>, k: nat, v: bool)
    requires k < |pages|
    ensures CountUsed(pages[k := v]) == CountUsed(pages) + (if v then 1 else 0) - (if pages[k] then 1 else 0)
  {
    var n := |pages| - 1;
    if k == n {
      assert pages[k := v][..n] == pages[..n];
    } else {
      assert pages[k := v][..n] == pages[..n][k := v];
      CountUsedUpdate(pages[..n], k, v);
    }
  }

  lemma {:induction false} CountUsedFull(pages: seq<bool>)
    ensures CountUsed(pages) == |pages| <==> forall k :: 0 <= k < |pages| ==> pages[k]
  {
    if pages != [] {
      var n := |pages| - 1;
      CountUsedFull(pages[..n]);
      if forall k :: 0 <= k < |pages[..n]| ==> pages[..n][k] {
        assert forall k :: 0 <= k < n ==> pages[k] == pages[..n][k];
      } else {
        var k :| 0 <= k < |pages[..n]| && !pages[..n][k];
        assert !pages[k];
      }
    }
  }

  /** The lowest free page at or above `from`, or |pages| when there is none. */
  function LowestFree(pages: seq<bool>, from: nat): (p: nat)
    requires from <= |pages|
    ensures from <= p <= |pages|
    ensures forall k :: from <= k < p ==> pages[k]
    ensures p < |pages| ==> !pages[p]
    decreases |pages| - from
  {
    if from == |pages| || !pages[from] then from else LowestFree(pages, from + 1)
  }

  lemma {:induction false} LowestFreeIs(pages: seq<bool>, from: nat, p: nat)
    requires from <= p <= |pages|
    requires forall k :: from <= k < p ==> pages[k]
    requires p < |pages| ==> !pages[p]
    ensures LowestFree(pages, from) == p
    decreases p - from
  {
  }

  predicate Exhausted(pages: seq<bool>) {
    LowestFree(pages, 0) == |pages|
  }

  // ---------------------------------------------------------------------
  // The Multiboot memory map (section 3.3 of the Multiboot Specification)
  // ---------------------------------------------------------------------

  const MULTIBOOT_MEMORY_AVAILABLE: int := 1
  const TWO_44: int := 0x1000_0000_0000
  const TWO_64: int := 0x1_0000_0000_0000_0000

  datatype MmapEntry = MmapEntry(size: nat, addr: nat, len: nat, kind: nat)

  predicate Available(e: MmapEntry) {
    e.kind == MULTIBOOT_MEMORY_AVAILABLE
  }

  /** Reading entries from `addr` on, each step stays inside `mmap` and below 4 GB; no available range wraps 64 bits. */
  predicate WellFormedMap(mmap: map<int, MmapEntry>, addr: int, end: int)
    decreases end - addr
  {
    addr >= end ||
    (addr in mmap &&
     addr + mmap[addr].size + 4 < TWO_32 &&
     (Available(mmap[addr]) ==> mmap[addr].addr + mmap[addr].len < TWO_64) &&
     WellFormedMap(mmap, addr + mmap[addr].size + 4, end))
  }

  /** The entries met from `addr` on; each records its own size without the size field itself. */
  function Entries(mmap: map<int, MmapEntry>, addr: int, end: int): (es: seq<MmapEntry>)
    requires WellFormedMap(mmap, addr, end)
    decreases end - addr
  {
    if addr >= end then []
    else [mmap[addr]] + Entries(mmap, addr + mmap[addr].size + 4, end)
  }

  lemma FirstEntry(mmap: map<int, MmapEntry>, addr: int, end: int)
    requires WellFormedMap(mmap, addr, end) && addr < end
    ensures addr in mmap && addr + mmap[addr].size + 4 < TWO_32
    ensures WellFormedMap(mmap, addr + mmap[addr].size + 4, end)
    ensures Entries(mmap, addr, end) == [mmap[addr]] + Entries(mmap, addr + mmap[addr].size + 4, end)
    ensures Available(mmap[addr]) ==> mmap[addr].addr + mmap[addr].len < TWO_64
  {
  }

  lemma NoEntry(mmap: map<int, MmapEntry>, addr: int, end: int)
    requires addr >= end
    ensures WellFormedMap(mmap, addr, end) && Entries(mmap, addr, end) == []
  {
  }

  /** No available range reaches past `bound`. */
  predicate EndsBelow(es: seq<MmapEntry>, bound: int) {
    forall k :: 0 <= k < |es| && Available(es[k]) ==> es[k].addr + es[k].len < bound
  }

  /** Page p is one of the whole pages counted from the page of e's first byte. */
  predicate Covers(e: MmapEntry, p: int) {
    Available(e) && e.addr / PAGE_SIZE <= p < e.addr / PAGE_SIZE + e.len / PAGE_SIZE
  }

  /** Page p lies wholly inside the range of e. */
  predicate Inside(e: MmapEntry, p: int) {
    e.addr <= p * PAGE_SIZE && (p + 1) * PAGE_SIZE <= e.addr + e.len
  }

  /** Every page an entry frees lies wholly inside it iff the entry starts on a page or counts no whole page. */
  lemma CoversInsideIff(e: MmapEntry)
    requires Available(e)
    ensures (forall p :: Covers(e, p) ==> Inside(e, p)) <==> e.addr % PAGE_SIZE == 0 || e.len < PAGE_SIZE
  {
    var first, count := e.addr / PAGE_SIZE, e.len / PAGE_SIZE;
    if e.addr % PAGE_SIZE != 0 && count > 0 {
      assert Covers(e, first) && !Inside(e, first);
    } else {
      forall p | Covers(e, p)
        ensures Inside(e, p)
      {
        assert (p + 1) * PAGE_SIZE <= (first + count) * PAGE_SIZE;
      }
    }
  }

  /** The pages an entry frees, in bytes: those that shifted by its offset into its first page lie inside it. */
  lemma CoversBytes(e: MmapEntry, p: int)
    ensures Covers(e, p) <==>
      e.kind == 1 && e.addr <= PAGE_SIZE * p + e.addr % PAGE_SIZE &&
      PAGE_SIZE * p + e.addr % PAGE_SIZE + PAGE_SIZE <= e.addr + e.len
  {
  }

  predicate Within(b: int, lo: int, hi: int) {
    lo <= b < hi
  }

  /** Some byte of page p lies in [lo, hi). */
  ghost predicate Meets(p: int, lo: int, hi: int) {
    exists b :: Within(b, lo, hi) && b / PAGE_SIZE == p
  }

  lemma MeetsPages(p: int, lo: int, hi: int)
    requires lo < hi
    ensures Meets(p, lo, hi) <==> lo / PAGE_SIZE <= p < (hi + PAGE_SIZE - 1) / PAGE_SIZE
  {
    if lo / PAGE_SIZE <= p < (hi + PAGE_SIZE - 1) / PAGE_SIZE {
      assert Within(if lo / PAGE_SIZE == p then lo else PAGE_SIZE * p, lo, hi);
    }
  }

  predicate Covered(es: seq<MmapEntry>, p: int) {
    exists k :: 0 <= k < |es| && Covers(es[k], p)
  }

  /** `highest` is the least bound on the ends of the available entries. */
  predicate IsHighestEnd(es: seq<MmapEntry>, highest: int) {
    (forall k :: 0 <= k < |es| && Available(es[k]) ==> es[k].addr + es[k].len <= highest) &&
    (highest == 0 || exists k :: 0 <= k < |es| && Available(es[k]) && es[k].addr + es[k].len == highest)
  }

  /** The bound after the ends of the available entries, starting from `highest`. */
  function Raised(highest: nat, es: seq<MmapEntry>): nat
    decreases |es|
  {
    if es == [] then highest else Raised(RaisedBy(highest, es[0]), es[1..])
  }

  function RaisedBy(highest: nat, e: MmapEntry): nat {
    if Available(e) && e.addr + e.len > highest then e.addr + e.len else highest
  }

  lemma RaisedFirst(highest: nat, e: MmapEntry, es: seq<MmapEntry>)
    ensures Raised(highest, [e] + es) == Raised(RaisedBy(highest, e), es)
  {
    assert ([e] + es)[1..] == es;
  }

  lemma NoneRaised(highest: nat)
    ensures Raised(highest, []) == highest
  {
  }

  lemma {:induction false} RaisedBounds(highest: nat, es: seq<MmapEntry>)
    ensures highest <= Raised(highest, es)
    ensures forall k :: 0 <= k < |es| && Available(es[k]) ==> es[k].addr + es[k].len <= Raised(highest, es)
    ensures Raised(highest, es) == highest ||
      exists k :: 0 <= k < |es| && Available(es[k]) && es[k].addr + es[k].len == Raised(highest, es)
    decreases |es|
  {
    if es != [] {
      var rest, h := es[1..], RaisedBy(highest, es[0]);
      RaisedBounds(h, rest);
      assert forall k :: 0 <= k < |rest| ==> rest[k] == es[k + 1];
      if Raised(h, rest) != h {
        var k :| 0 <= k < |rest| && Available(rest[k]) && rest[k].addr + rest[k].len == Raised(h, rest);
        assert Available(es[k + 1]) && es[k + 1].addr + es[k + 1].len == Raised(highest, es);
      } else if h != highest {
        assert Available(es[0]) && es[0].addr + es[0].len == Raised(highest, es);
      }
    }
  }

  lemma RaisedIsHighest(es: seq<MmapEntry>)
    ensures IsHighestEnd(es, Raised(0, es))
  {
    RaisedBounds(0, es);
  }

  /** The bounds test on the freeing loop never decides: every covered page is below the page count. */
  lemma GuardNeverDecides(es: seq<MmapEntry>, highest: int, p: int)
    requires IsHighestEnd(es, highest)
    requires Covered(es, p)
    ensures 0 <= p < highest / PAGE_SIZE
  {
  }

  lemma HighestBelow(es: seq<MmapEntry>, highest: int, bound: int)
    requires IsHighestEnd(es, highest) && EndsBelow(es, bound) && 0 < bound
    ensures highest < bound && (bound <= TWO_44 ==> EndsBelow(es, TWO_44))
  {
  }

  lemma CoveredSnoc(es: seq<MmapEntry>, e: MmapEntry, p: int)
    ensures Covered(es + [e], p) <==> Covered(es, p) || Covers(e, p)
  {
    if Covered(es, p) {
      var k :| 0 <= k < |es| && Covers(es[k], p);
      assert Covers((es + [e])[k], p);
    }
    if Covers(e, p) {
      assert Covers((es + [e])[|es|], p);
    }
  }

  // ---------------------------------------------------------------------
  // The allocator
  // ---------------------------------------------------------------------

  class FrameAllocator {
    var bitmap: array<bv8>
    var maxBlocks: nat
    var usedBlocks: nat

    constructor ()
      ensures fresh(bitmap) && bitmap.Length == 0 && maxBlocks == 0 && usedBlocks == 0
    {
      bitmap := new bv8[0];
      maxBlocks, usedBlocks := 0, 0;
    }

    ghost predicate Shape()
      reads this
    {
      maxBlocks < TWO_32 && maxBlocks <= 8 * bitmap.Length
    }

    /** One flag per managed page; true means used. */
    ghost function Pages(): (pages: seq<bool>)
      requires Shape()
      reads this, bitmap
      ensures |pages| == maxBlocks
    {
      Bits(bitmap[..], maxBlocks)
    }

    /** The counter is exact. */
    ghost predicate Consistent()
      reads this, bitmap
    {
      Shape() && usedBlocks == CountUsed(Pages())
    }

    /** Every managed page has a 32-bit address of its own, and the byte totals fit 32 bits. */
    ghost predicate Valid()
      reads this, bitmap
    {
      Consistent() && maxBlocks < 0x10_0000
    }

    method Set(bit: nat)
      requires Shape() && bit < maxBlocks
      modifies bitmap
      ensures Pages() == old(Pages())[bit := true]
    {
      BitsAfter(bitmap[..], maxBlocks, bit);
      bitmap[bit / 8] := bitmap[bit / 8] | Mask(bit % 8);
      assert bitmap[..] == WithSet(old(bitmap[..]), bit);
    }

    method Unset(bit: nat)
      requires Shape() && bit < maxBlocks
      modifies bitmap
      ensures Pages() == old(Pages())[bit := false]
    {
      BitsAfter(bitmap[..], maxBlocks, bit);
      bitmap[bit / 8] := bitmap[bit / 8] & !Mask(bit % 8);
      assert bitmap[..] == WithClear(old(bitmap[..]), bit);
    }

    method Test(bit: nat) returns (used: bool)
      requires Shape() && bit < maxBlocks
      ensures used == Pages()[bit]
    {
      used := bitmap[bit / 8] & Mask(bit % 8) != 0;
    }

    /** First pass of the initialisation: the end of the highest available range. */
    static method HighestEnd(mmap: map<int, MmapEntry>, mmapAddr: u32, mmapLength: u32) returns (highest: nat)
      requires mmapAddr + mmapLength < TWO_32
      requires WellFormedMap(mmap, mmapAddr, mmapAddr + mmapLength)
      ensures IsHighestEnd(Entries(mmap, mmapAddr, mmapAddr + mmapLength), highest)
      ensures highest < TWO_64
    {
      hide IsHighestEnd, WellFormedMap, Entries, Raised;
      var end := mmapAddr + mmapLength;
      RaisedIsHighest(Entries(mmap, mmapAddr, end));
      highest := 0;
      var entry := mmapAddr;
      while entry < end
        invariant WellFormedMap(mmap, entry, end)
        invariant Raised(highest, Entries(mmap, entry, end)) == Raised(0, Entries(mmap, mmapAddr, end))
        invariant highest < TWO_64
        decreases end - entry
      {
        FirstEntry(mmap, entry, end);
        var e := mmap[entry];
        RaisedFirst(highest, e, Entries(mmap, entry + e.size + 4, end));
        if e.kind == MULTIBOOT_MEMORY_AVAILABLE {
          var currentEnd := e.addr + e.len;
          if currentEnd > highest {
            highest := currentEnd;
          }
        }
        entry := entry + e.size + 4;
      }
      NoEntry(mmap, entry, end);
      NoneRaised(highest);
    }

    /** Marks one free page used and counts it. */
    method Take(page: nat)
      requires Consistent() && page < maxBlocks && !Pages()[page]
      modifies `usedBlocks, bitmap
      ensures Consistent() && Pages() == old(Pages())[page := true] && usedBlocks == old(usedBlocks) + 1
    {
      CountUsedUpdate(Pages(), page, true);
      Set(page);
      usedBlocks := usedBlocks + 1;
    }

    /** Marks one used page free and discounts it. */
    method Give(page: nat)
      requires Consistent() && page < maxBlocks && Pages()[page]
      modifies `usedBlocks, bitmap
      ensures Consistent() && Pages() == old(Pages())[page := false] && usedBlocks == old(usedBlocks) - 1
    {
      CountUsedUpdate(Pages(), page, false);
      Unset(page);
      usedBlocks := usedBlocks - 1;
    }

    /** Frees the whole pages of one available entry. */
    method ReleaseEntry(e: MmapEntry)
      requires Consistent() && Available(e) && e.addr + e.len < TWO_44
      modifies `usedBlocks, bitmap
      ensures Consistent()
      ensures forall p :: 0 <= p < maxBlocks ==> Pages()[p] == (old(Pages()[p]) && !Covers(e, p))
    {
      hide Bits, CountUsed;
      var blockStart: u32 := e.addr / PAGE_SIZE;
      var blockCount: u32 := e.len / PAGE_SIZE;
      for i := 0 to blockCount
        invariant Consistent()
        invariant forall p :: 0 <= p < maxBlocks ==>
          Pages()[p] == (old(Pages()[p]) && !(blockStart <= p < blockStart + i))
      {
        var page: u32 := blockStart + i;
        if page < maxBlocks {
          var used := Test(page);
          if used {
            Give(page);
          }
        }
      }
    }

    /** memset(bitmap, 0xFF): every page starts out used. */
    method FillBitmap(pages: nat)
      requires pages < TWO_32
      modifies this
      ensures Consistent() && fresh(bitmap) && maxBlocks == pages && pages <= 8 * bitmap.Length < pages + 8
      ensures forall p :: 0 <= p < maxBlocks ==> Pages()[p]
    {
      var bitmapSize := pages / 8;
      if pages % 8 != 0 {
        bitmapSize := bitmapSize + 1;
      }
      bitmap := new bv8[bitmapSize];
      for i := 0 to bitmapSize
        invariant fresh(bitmap) && bitmap.Length == bitmapSize
        invariant forall k :: 0 <= k < i ==> bitmap[k] == 0xFF
      {
        bitmap[i] := 0xFF;
      }
      maxBlocks := pages;
      AllUsed(bitmap[..], maxBlocks);
      usedBlocks := maxBlocks;
    }

    method Init(mmap: map<int, MmapEntry>, mmapAddr: u32, mmapLength: u32, kernelStart: u32, kernelEnd: u32)
      returns (highest: nat)
      requires mmapAddr + mmapLength < TWO_32
      requires WellFormedMap(mmap, mmapAddr, mmapAddr + mmapLength)
      requires EndsBelow(Entries(mmap, mmapAddr, mmapAddr + mmapLength), TWO_44)
      requires KERNEL_VIRT_BASE <= kernelStart <= kernelEnd
      modifies this
      ensures Consistent() && fresh(bitmap)
      ensures highest < TWO_32 ==> Valid()
      ensures IsHighestEnd(Entries(mmap, mmapAddr, mmapAddr + mmapLength), highest)
      ensures PAGE_SIZE * maxBlocks <= highest < PAGE_SIZE * (maxBlocks + 1)
      ensures maxBlocks <= 8 * bitmap.Length < maxBlocks + 8
      ensures forall p :: 0 <= p < maxBlocks ==>
        (!Pages()[p] <==>
          Covered(Entries(mmap, mmapAddr, mmapAddr + mmapLength), p) &&
          !Meets(p, kernelStart - KERNEL_VIRT_BASE, kernelEnd - KERNEL_VIRT_BASE + bitmap.Length))
    {
      var end := mmapAddr + mmapLength;
      highest := HighestEnd(mmap, mmapAddr, mmapLength);
      FillBitmap(highest / PAGE_SIZE);
      FreeAvailable(mmap, mmapAddr, end);
      ReserveImage(kernelStart, kernelEnd);
    }

    /** Kernel image and bitmap marked used, from the page of the first byte to the page of the last. */
    method ReserveImage(kernelStart: u32, kernelEnd: u32)
      requires Consistent() && KERNEL_VIRT_BASE <= kernelStart <= kernelEnd
      requires bitmap.Length <= 0x2000_0000
      modifies `usedBlocks, bitmap
      ensures Consistent()
      ensures forall p :: 0 <= p < maxBlocks ==>
        Pages()[p] == (old(Pages()[p]) ||
          Meets(p, kernelStart - KERNEL_VIRT_BASE, kernelEnd - KERNEL_VIRT_BASE + bitmap.Length))
    {
      hide Bits, CountUsed, Meets;
      var physKernelEnd := kernelEnd - KERNEL_VIRT_BASE;
      var physKernelStart := kernelStart - KERNEL_VIRT_BASE;
      var first := physKernelStart / PAGE_SIZE;
      var reservedEnd: u32 := physKernelEnd + bitmap.Length;
      var last: u32 := (reservedEnd + PAGE_SIZE - 1) / PAGE_SIZE;
      ReserveRange(first, last);
      forall p | 0 <= p < maxBlocks
        ensures Pages()[p] == (old(Pages()[p]) || Meets(p, physKernelStart, reservedEnd))
      {
        MeetsPages(p, physKernelStart, reservedEnd);
      }
    }

    /** Second pass over the memory map: every available entry frees its pages. */
    method FreeAvailable(mmap: map<int, MmapEntry>, mmapAddr: u32, end: u32)
      requires Consistent() && WellFormedMap(mmap, mmapAddr, end) && EndsBelow(Entries(mmap, mmapAddr, end), TWO_44)
      requires forall p :: 0 <= p < maxBlocks ==> Pages()[p]
      modifies `usedBlocks, bitmap
      ensures Consistent()
      ensures forall p :: 0 <= p < maxBlocks ==> Pages()[p] == !Covered(Entries(mmap, mmapAddr, end), p)
    {
      ghost var all := Entries(mmap, mmapAddr, end);
      ghost var seen: seq<MmapEntry> := [];
      var entry := mmapAddr;
      while entry < end
        invariant WellFormedMap(mmap, entry, end)
        invariant all == seen + Entries(mmap, entry, end)
        invariant Consistent()
        invariant forall p :: 0 <= p < maxBlocks ==> Pages()[p] == !Covered(seen, p)
        decreases end - entry
      {
        var e := mmap[entry];
        assert all[|seen|] == e;
        if e.kind == MULTIBOOT_MEMORY_AVAILABLE {
          ReleaseEntry(e);
        }
        forall p { CoveredSnoc(seen, e, p); }
        entry := entry + e.size + 4;
        Regroup(seen, [e], Entries(mmap, entry, end));
        seen := seen + [e];
      }
      assert seen + [] == seen;
    }

    method ReserveRange(first: nat, last: nat)
      requires Consistent()
      modifies `usedBlocks, bitmap
      ensures Consistent()
      ensures forall p :: 0 <= p < maxBlocks ==> Pages()[p] == (old(Pages()[p]) || first <= p < last)
    {
      var i := first;
      while i < last
        invariant Consistent()
        invariant first <= i
        invariant forall p :: 0 <= p < maxBlocks ==> Pages()[p] == (old(Pages()[p]) || (first <= p < i && p < last))
      {
        if i < maxBlocks {
          var used := Test(i);
          if !used {
            Take(i);
          }
        }
        i := i + 1;
      }
    }

    /** The lowest free page is taken; address 0 is both page 0 and the answer for "none". */
    method AllocPage() returns (address: u32)
      requires Valid()
      modifies `usedBlocks, bitmap
      ensures Valid()
      ensures var p := LowestFree(old(Pages()), 0);
        if p < maxBlocks
        then address == p * PAGE_SIZE && Pages() == old(Pages())[p := true] && usedBlocks == old(usedBlocks) + 1
        else address == 0 && Pages() == old(Pages()) && usedBlocks == old(usedBlocks)
    {
      hide Bits, CountUsed;
      var i := 0;
      while i < maxBlocks
        invariant 0 <= i <= maxBlocks
        invariant forall k :: 0 <= k < i ==> Pages()[k]
        modifies {}
      {
        var used := Test(i);
        if !used {
          break;
        }
        i := i + 1;
      }
      LowestFreeIs(Pages(), 0, i);
      if i == maxBlocks {
        return 0;
      }
      Take(i);
      return i * PAGE_SIZE;
    }

    /** Addresses outside the managed memory and pages already free are ignored. */
    method FreePage(address: u32)
      requires Valid()
      modifies `usedBlocks, bitmap
      ensures Valid()
      ensures var p := address / PAGE_SIZE;
        if p < maxBlocks && old(Pages()[p])
        then Pages() == old(Pages())[p := false] && usedBlocks == old(usedBlocks) - 1
        else Pages() == old(Pages()) && usedBlocks == old(usedBlocks)
    {
      var pageIndex := address / PAGE_SIZE;
      if pageIndex < maxBlocks {
        var used := Test(pageIndex);
        if used {
          Give(pageIndex);
        }
      }
    }

    /** The byte totals do not wrap, because fewer than 2^20 pages are managed. */
    method GetFreeMemory() returns (bytes: u32)
      requires Valid()
      ensures bytes == PAGE_SIZE * (maxBlocks - CountUsed(Pages()))
    {
      bytes := (maxBlocks - usedBlocks) * PAGE_SIZE;
    }

    /** Whole pages: a page is managed exactly when it lies below the total. */
    method GetTotalMemory() returns (bytes: u32)
      requires Valid()
      ensures forall p: nat :: p * PAGE_SIZE < bytes <==> p < |Pages()|
      ensures bytes % PAGE_SIZE == 0
    {
      bytes := maxBlocks * PAGE_SIZE;
    }
  }
}
