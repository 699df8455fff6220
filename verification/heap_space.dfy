/** The heap's virtual range over physical frames: which frames, and the words seen through the page walk. */
module HeapSpace {
  import opened Words
  import opened Pmm
  import opened Paging
  import opened Vmm

  const KHEAP_START: int := 0xD000_0000
  /** Directory slots from the heap start up to the recursive window. */
  const HEAP_SLOT: int := 832
  const MAX_HEAP_PAGES: int := 191 * 1024
  const HEAP_FLAGS: u32 := PRESENT + WRITABLE + USER

  predicate InHeap(a: int, pages: nat) {
    KHEAP_START <= a < KHEAP_START + PAGE_SIZE * pages && a % 4 == 0
  }

  function PageStart(k: nat): u32
    requires k < MAX_HEAP_PAGES
  {
    KHEAP_START + PAGE_SIZE * k
  }

  predicate PageMapped(m: Ram, dir: int, frames: seq<nat>, k: int)
    requires IsFrame(dir) && 0 <= k < |frames| <= MAX_HEAP_PAGES
  {
    IsFrame(frames[k]) && Walk(m, dir, PageStart(k)) == At(frames[k] * PAGE_SIZE, true)
  }

  /** Both entries that translate virt have just the present, writable and user bits, and the second names frame f. */
  predicate PlainEntries(m: Ram, dir: int, f: int, virt: u32)
    requires IsFrame(dir)
  {
    var pde := Entry(m, dir, PdIndex(virt));
    pde % PAGE_SIZE == 7 && Entry(m, FrameOf(pde), PtIndex(virt)) == PAGE_SIZE * f + 7
  }

  /** The frame of heap page k is used, mapped writable there, and no paging structure. */
  ghost predicate PageGood(m: Ram, dir: int, flags: seq<bool>, frames: seq<nat>, k: int)
    requires IsFrame(dir) && 0 <= k < |frames| <= MAX_HEAP_PAGES
  {
    PageMapped(m, dir, frames, k) && PlainEntries(m, dir, frames[k], PageStart(k)) &&
    frames[k] < |flags| && flags[frames[k]] && FreshFrame(m, dir, frames[k])
  }

  ghost predicate Distinct(frames: seq<nat>) {
    forall i, j :: 0 <= i < j < |frames| ==> frames[i] != frames[j]
  }

  predicate TableExact(m: Ram, dir: int, pages: nat, s: int)
    requires IsFrame(dir) && HEAP_SLOT <= s < RECURSIVE_SLOT
  {
    HasTable(m, dir, s) <==> (s - HEAP_SLOT) * 1024 < pages
  }

  /** Directory slots of the heap range have a table exactly when a heap page needs it. */
  ghost predicate TablesExact(m: Ram, dir: int, pages: nat)
    requires IsFrame(dir)
  {
    forall s :: HEAP_SLOT <= s < RECURSIVE_SLOT ==> TableExact(m, dir, pages, s)
  }

  /** Every heap page walks to its own used frame. */
  ghost predicate Mapped(m: Ram, dir: int, flags: seq<bool>, frames: seq<nat>) {
    Sound(m, dir) && |frames| <= MAX_HEAP_PAGES && |flags| < FRAMES && Distinct(frames) &&
    (forall k :: 0 <= k < |frames| ==> PageGood(m, dir, flags, frames, k)) &&
    TablesExact(m, dir, |frames|)
  }

  function PageOf(a: int): int {
    (a - KHEAP_START) / PAGE_SIZE
  }

  function WordOf(a: int): int {
    a / 4 % 1024
  }

  /** The heap words as the kernel reads them. */
  ghost function View(m: Ram, frames: seq<nat>): (w: map<int, u32>)
    ensures forall a :: a in w <==> InHeap(a, |frames|)
  {
    map a: int | KHEAP_START <= a < KHEAP_START + PAGE_SIZE * |frames| && InHeap(a, |frames|) ::
      FrameWord(m, frames[PageOf(a)], WordOf(a))
  }

  function FrameWord(m: Ram, f: int, k: int): u32 {
    if IsFrame(f) && IsSlot(k) then Entry(m, f, k) else 0
  }

  lemma MappedFrames(m: Ram, dir: int, flags: seq<bool>, frames: seq<nat>)
    requires Mapped(m, dir, flags, frames)
    ensures forall k :: 0 <= k < |frames| ==> IsFrame(frames[k])
  {
    forall k | 0 <= k < |frames|
      ensures IsFrame(frames[k])
    {
      assert PageGood(m, dir, flags, frames, k);
    }
  }

  lemma AddressParts(p: nat, off: nat)
    requires p < FRAMES && off < PAGE_SIZE
    ensures (PAGE_SIZE * p + off) / PAGE_SIZE == p && (PAGE_SIZE * p + off) % PAGE_SIZE == off
    ensures PdIndex(PAGE_SIZE * p + off) == p / 1024 && PtIndex(PAGE_SIZE * p + off) == p % 1024
  {
  }

  lemma WordParts4(p: nat, w: nat)
    requires p < FRAMES && w < 1024
    ensures WordOf(PAGE_SIZE * p + 4 * w) == w
  {
  }

  lemma HeapAddressParts(a: u32, k: nat)
    requires k < MAX_HEAP_PAGES && PageStart(k) <= a < PageStart(k) + PAGE_SIZE && a % 4 == 0
    ensures PageOf(a) == k
    ensures PdIndex(a) == PdIndex(PageStart(k)) == HEAP_SLOT + k / 1024
    ensures PtIndex(a) == PtIndex(PageStart(k)) == k % 1024
    ensures a % PAGE_SIZE == 4 * WordOf(a)
  {
    var w := (a - KHEAP_START) / 4 - 1024 * k;
    assert a == PageStart(k) + 4 * w;
    PlaceParts(k, w);
  }

  lemma PlaceParts(k: nat, w: nat)
    requires k < MAX_HEAP_PAGES && w < 1024
    ensures var a := PageStart(k) + 4 * w;
      PageOf(a) == k && PdIndex(a) == PdIndex(PageStart(k)) == HEAP_SLOT + k / 1024 &&
      PtIndex(a) == PtIndex(PageStart(k)) == k % 1024 && a % PAGE_SIZE == 4 * w && WordOf(a) == w
  {
    var p := KHEAP_START / PAGE_SIZE + k;
    assert PageStart(k) == PAGE_SIZE * p + 0 && p == 1024 * HEAP_SLOT + k;
    AddressParts(p, 0);
    AddressParts(p, 4 * w);
    WordParts4(p, w);
  }

  /** A heap word is reached in the frame of its page. */
  lemma WalkInHeap(m: Ram, dir: int, flags: seq<bool>, frames: seq<nat>, a: u32)
    requires Mapped(m, dir, flags, frames) && InHeap(a, |frames|)
    ensures 0 <= PageOf(a) < |frames| && IsFrame(frames[PageOf(a)])
    ensures Walk(m, dir, a) == At(frames[PageOf(a)] * PAGE_SIZE + 4 * WordOf(a), true)
  {
    var k := PageOf(a);
    HeapAddressParts(a, k);
    assert PageGood(m, dir, flags, frames, k);
    assert PageStart(k) % PAGE_SIZE == 0;
  }

  // ---------------------------------------------------------------------
  // A store to a heap word
  // ---------------------------------------------------------------------

  /** Writing a frame that is no paging structure changes no translation at all. */
  lemma OutsideStoreTranslates(m: Ram, dir: int, f: int, k: int, value: u32, v: u32)
    requires Sound(m, dir) && FreshFrame(m, dir, f) && IsSlot(k)
    ensures Walk(SetEntry(m, f, k, value), dir, v) == Walk(m, dir, v)
    ensures Entry(SetEntry(m, f, k, value), dir, PdIndex(v)) == Entry(m, dir, PdIndex(v))
  {
    var s := PdIndex(v);
    EntryAfterSet(m, f, k, value, dir, s);
    if s == RECURSIVE_SLOT {
      EntryParts(dir, PRESENT + WRITABLE);
    } else {
      assert NotTable(m, dir, s, f);
    }
    EntryAfterSet(m, f, k, value, TableFrame(m, dir, s), PtIndex(v));
  }

  lemma PlainIsPresent(entry: u32)
    requires entry % PAGE_SIZE == 7
    ensures IsPresent(entry)
  {
    assert entry == 2 * (2048 * (entry / PAGE_SIZE) + 3) + 1;
  }

  lemma PlainHasTable(m: Ram, dir: int, x: int, v: u32)
    requires IsFrame(dir) && PlainEntries(m, dir, x, v)
    ensures HasTable(m, dir, PdIndex(v))
  {
    hide Entry, IsPresent;
    PlainIsPresent(Entry(m, dir, PdIndex(v)));
  }

  lemma OutsideStoreEntries(m: Ram, dir: int, f: int, k: int, value: u32, x: int, virt: u32)
    requires Sound(m, dir) && FreshFrame(m, dir, f) && IsSlot(k)
    requires PdIndex(virt) < RECURSIVE_SLOT && PlainEntries(m, dir, x, virt)
    ensures PlainEntries(SetEntry(m, f, k, value), dir, x, virt)
  {
    var s := PdIndex(virt);
    PlainHasTable(m, dir, x, virt);
    assert NotTable(m, dir, s, f);
    EntryAfterSet(m, f, k, value, dir, s);
    EntryAfterSet(m, f, k, value, TableFrame(m, dir, s), PtIndex(virt));
  }

  lemma OutsideStoreSound(m: Ram, dir: int, f: int, k: int, value: u32)
    requires Sound(m, dir) && FreshFrame(m, dir, f) && IsSlot(k)
    ensures Sound(SetEntry(m, f, k, value), dir)
    ensures forall s :: 0 <= s < 1024 ==> Entry(SetEntry(m, f, k, value), dir, s) == Entry(m, dir, s)
  {
    forall s | 0 <= s < 1024
      ensures Entry(SetEntry(m, f, k, value), dir, s) == Entry(m, dir, s)
    {
      EntryAfterSet(m, f, k, value, dir, s);
    }
    SameDirectorySound(m, SetEntry(m, f, k, value), dir);
  }

  lemma SameDirectoryHolds(m: Ram, m': Ram, dir: int, flags: seq<bool>)
    requires IsFrame(dir) && FramesHeld(m, dir, flags)
    requires forall s :: 0 <= s < 1024 ==> Entry(m', dir, s) == Entry(m, dir, s)
    ensures FramesHeld(m', dir, flags)
  {
    forall s | 0 <= s < RECURSIVE_SLOT
      ensures SlotHeld(m', dir, flags, s)
    {
      assert SlotHeld(m, dir, flags, s);
    }
  }

  lemma SameDirectoryFresh(m: Ram, m': Ram, dir: int, f: int)
    requires IsFrame(dir) && FreshFrame(m, dir, f)
    requires forall s :: 0 <= s < 1024 ==> Entry(m', dir, s) == Entry(m, dir, s)
    ensures FreshFrame(m', dir, f)
  {
    forall s | 0 <= s < RECURSIVE_SLOT
      ensures NotTable(m', dir, s, f)
    {
      assert NotTable(m, dir, s, f);
    }
  }

  /** After a store to heap word a, the heap is mapped as before and only that word reads differently. */
  lemma StoreInHeap(m: Ram, dir: int, flags: seq<bool>, frames: seq<nat>, a: u32, value: u32)
    requires Mapped(m, dir, flags, frames) && FramesHeld(m, dir, flags) && InHeap(a, |frames|)
    requires forall k :: 0 <= k < |frames| ==> IsFrame(frames[k])
    ensures var m' := SetEntry(m, frames[PageOf(a)], WordOf(a), value);
      Mapped(m', dir, flags, frames) && FramesHeld(m', dir, flags)
  {
    var f := frames[PageOf(a)];
    var m' := SetEntry(m, f, WordOf(a), value);
    assert PageGood(m, dir, flags, frames, PageOf(a));
    OutsideStoreSound(m, dir, f, WordOf(a), value);
    SameDirectoryHolds(m, m', dir, flags);
    forall k | 0 <= k < |frames|
      ensures PageGood(m', dir, flags, frames, k)
    {
      assert PageGood(m, dir, flags, frames, k);
      OutsideStoreTranslates(m, dir, f, WordOf(a), value, PageStart(k));
      NextPageSlot(k);
      OutsideStoreEntries(m, dir, f, WordOf(a), value, frames[k], PageStart(k));
      SameDirectoryFresh(m, m', dir, frames[k]);
    }
    forall s | HEAP_SLOT <= s < RECURSIVE_SLOT
      ensures TableExact(m', dir, |frames|, s)
    {
      assert TableExact(m, dir, |frames|, s);
    }
  }

  lemma StoreChangesOneWord(m: Ram, frames: seq<nat>, a: u32, value: u32)
    requires |frames| <= MAX_HEAP_PAGES && Distinct(frames) && InHeap(a, |frames|)
    requires forall k :: 0 <= k < |frames| ==> IsFrame(frames[k])
    ensures View(SetEntry(m, frames[PageOf(a)], WordOf(a), value), frames) == View(m, frames)[a := value]
  {
    var m' := SetEntry(m, frames[PageOf(a)], WordOf(a), value);
    forall b: int | InHeap(b, |frames|)
      ensures View(m', frames)[b] == if b == a then value else View(m, frames)[b]
    {
      EntryAfterSet(m, frames[PageOf(a)], WordOf(a), value, frames[PageOf(b)], WordOf(b));
      if PageOf(b) == PageOf(a) && WordOf(b) == WordOf(a) {
        SameWord(a, b);
      }
    }
  }

  lemma SameWord(a: int, b: int)
    requires a % 4 == 0 && b % 4 == 0 && PageOf(a) == PageOf(b) && WordOf(a) == WordOf(b)
    ensures a == b
  {
    WordParts(a);
    WordParts(b);
  }

  lemma WordParts(a: int)
    requires a % 4 == 0
    ensures a == KHEAP_START + PAGE_SIZE * PageOf(a) + 4 * WordOf(a)
  {
  }

  // ---------------------------------------------------------------------
  // One more page
  // ---------------------------------------------------------------------

  /** Heap tables needed for that many pages. */
  function Tables(pages: nat): nat {
    (pages + 1023) / 1024
  }

  /** Frames spent to go from p pages to q. */
  function FramesNeeded(p: nat, q: nat): int {
    q - p + Tables(q) - Tables(p)
  }

  lemma TablesStep(p: nat)
    ensures Tables(p + 1) - Tables(p) == if p % 1024 == 0 then 1 else 0
    ensures (p / 1024) * 1024 < p <==> p % 1024 != 0
  {
  }

  lemma NextPageSlot(p: nat)
    requires p < MAX_HEAP_PAGES
    ensures PdIndex(PageStart(p)) == HEAP_SLOT + p / 1024 && PdIndex(PageStart(p)) < RECURSIVE_SLOT
  {
  }

  lemma SlotStep(t: nat, p: nat)
    ensures t * 1024 < p + 1 <==> t * 1024 < p || t == p / 1024
  {
  }

  /** After mapping the frame f to the page at the end, the heap has one more good page. */
  lemma MapExtendsHeap(m: Ram, dir: int, flags: seq<bool>, frames: seq<nat>, f: nat)
    requires Mapped(m, dir, flags, frames) && FramesHeld(m, dir, flags) && |frames| < MAX_HEAP_PAGES
    requires f < |flags| && flags[f] && FreshFrame(m, dir, f)
    requires forall k :: 0 <= k < |frames| ==> frames[k] != f
    requires HasTable(m, dir, PdIndex(PageStart(|frames|))) || !Exhausted(flags)
    ensures var m' := RamAfterMap(m, dir, flags, f * PAGE_SIZE, PageStart(|frames|), HEAP_FLAGS);
      Mapped(m', dir, PagesAfterMap(m, dir, flags, PageStart(|frames|)), frames + [f])
  {
    var virt, phys := PageStart(|frames|), f * PAGE_SIZE;
    var g := LowestFree(flags, 0);
    var m' := RamAfterMap(m, dir, flags, phys, virt, HEAP_FLAGS);
    var flags' := PagesAfterMap(m, dir, flags, virt);
    var frames' := frames + [f];
    NextPageSlot(|frames|);
    MapReady(m, dir, flags, virt);
    MapTranslates(m, dir, g, phys, virt, HEAP_FLAGS, virt);
    forall k | 0 <= k < |frames'|
      ensures PageGood(m', dir, flags', frames', k)
    {
      MapKeepsPage(m, dir, flags, frames, f, k);
    }
    MapTablesExact(m, dir, flags, frames, f);
  }

  /** Frames already used stay no paging structures after the map. */
  lemma MapKeepsFresh(m: Ram, dir: int, flags: seq<bool>, phys: u32, virt: u32, x: nat)
    requires Sound(m, dir) && FramesHeld(m, dir, flags) && |flags| < FRAMES && phys % PAGE_SIZE == 0
    requires PdIndex(virt) < RECURSIVE_SLOT
    requires HasTable(m, dir, PdIndex(virt)) || !Exhausted(flags)
    requires x < |flags| && flags[x] && FreshFrame(m, dir, x)
    ensures FreshFrame(RamAfterMap(m, dir, flags, phys, virt, HEAP_FLAGS), dir, x)
  {
    var g := LowestFree(flags, 0);
    var m' := RamAfterMap(m, dir, flags, phys, virt, HEAP_FLAGS);
    MapReady(m, dir, flags, virt);
    PdeValueParts(g * PAGE_SIZE, HEAP_FLAGS);
    assert GoodSlot(m, dir, PdIndex(virt));
    forall s | 0 <= s < RECURSIVE_SLOT
      ensures NotTable(m', dir, s, x)
    {
      EntryAfterMap(m, dir, g, phys, virt, HEAP_FLAGS, dir, s);
      assert NotTable(m, dir, s, x);
    }
  }

  lemma HeapSlotsPlain(p: nat)
    requires p < MAX_HEAP_PAGES
    ensures PdIndex(PageStart(p)) !in {0, HIGHER_HALF_SLOT, RECURSIVE_SLOT}
    ensures PageStart(p) % PAGE_SIZE == 0 && PageStart(p) / PAGE_SIZE == KHEAP_START / PAGE_SIZE + p
  {
  }

  lemma HeapFlagValues(f: nat)
    requires IsFrame(f)
    ensures PdeValue(f * PAGE_SIZE, HEAP_FLAGS) % PAGE_SIZE == 7
    ensures PteValue(f * PAGE_SIZE, HEAP_FLAGS) == PAGE_SIZE * f + 7
  {
  }

  /** The table a heap page already has is that of the page before. */
  lemma SharedTable(m: Ram, dir: int, flags: seq<bool>, frames: seq<nat>)
    requires Mapped(m, dir, flags, frames) && |frames| < MAX_HEAP_PAGES
    requires HasTable(m, dir, HEAP_SLOT + |frames| / 1024)
    ensures Entry(m, dir, HEAP_SLOT + |frames| / 1024) % PAGE_SIZE == 7
    ensures TableFrame(m, dir, HEAP_SLOT + |frames| / 1024) != dir
  {
    var n := |frames|;
    TablesStep(n);
    assert TableExact(m, dir, n, HEAP_SLOT + n / 1024) && GoodSlot(m, dir, HEAP_SLOT + n / 1024);
    NextPageSlot(n - 1);
    assert PageGood(m, dir, flags, frames, n - 1);
  }

  /** The entries of the page just mapped. */
  lemma MapNewEntries(m: Ram, dir: int, flags: seq<bool>, frames: seq<nat>, f: nat)
    requires Mapped(m, dir, flags, frames) && FramesHeld(m, dir, flags) && |frames| < MAX_HEAP_PAGES && IsFrame(f)
    requires HasTable(m, dir, PdIndex(PageStart(|frames|))) || !Exhausted(flags)
    ensures PlainEntries(RamAfterMap(m, dir, flags, f * PAGE_SIZE, PageStart(|frames|), HEAP_FLAGS), dir, f,
                         PageStart(|frames|))
  {
    hide Walk, PageGood, TablesExact, Distinct;
    var g, virt := LowestFree(flags, 0), PageStart(|frames|);
    var s := PdIndex(virt);
    NextPageSlot(|frames|);
    MapReady(m, dir, flags, virt);
    if HasTable(m, dir, s) {
      SharedTable(m, dir, flags, frames);
    }
    assert Sound(m, dir);
    hide Mapped, FramesHeld, Sound, PageStart, PdIndex, PtIndex;
    MapOneEntries(m, dir, g, f, virt);
  }

  lemma MapOneEntries(m: Ram, dir: int, g: int, f: nat, virt: u32)
    requires Sound(m, dir) && IsFrame(g) && IsFrame(f) && PdIndex(virt) < RECURSIVE_SLOT
    requires if HasTable(m, dir, PdIndex(virt))
      then Entry(m, dir, PdIndex(virt)) % PAGE_SIZE == 7 && TableFrame(m, dir, PdIndex(virt)) != dir
      else FreshFrame(m, dir, g)
    ensures PlainEntries(MapResult(m, dir, g, f * PAGE_SIZE, virt, HEAP_FLAGS), dir, f, virt)
  {
    var s := PdIndex(virt);
    PdeValueParts(g * PAGE_SIZE, HEAP_FLAGS);
    HeapFlagValues(g);
    HeapFlagValues(f);
    var table := if HasTable(m, dir, s) then TableFrame(m, dir, s) else g;
    hide PdeValue, PteValue, MapResult, Sound;
    EntryAfterMap(m, dir, g, f * PAGE_SIZE, virt, HEAP_FLAGS, dir, s);
    EntryAfterMap(m, dir, g, f * PAGE_SIZE, virt, HEAP_FLAGS, table, PtIndex(virt));
  }

  lemma PageSlots(v: u32, virt: u32)
    ensures v / PAGE_SIZE == virt / PAGE_SIZE <==> PdIndex(v) == PdIndex(virt) && PtIndex(v) == PtIndex(virt)
  {
    assert v / PAGE_SIZE == PdIndex(v) * 1024 + PtIndex(v);
    assert virt / PAGE_SIZE == PdIndex(virt) * 1024 + PtIndex(virt);
  }

  /** A map leaves the directory entry of a slot with a table, and the entries of other pages in that table. */
  lemma MapKeepsSlot(m: Ram, dir: int, flags: seq<bool>, phys: u32, virt: u32, s: int, k: int)
    requires Sound(m, dir) && FramesHeld(m, dir, flags) && |flags| < FRAMES && phys % PAGE_SIZE == 0
    requires PdIndex(virt) !in {0, HIGHER_HALF_SLOT, RECURSIVE_SLOT}
    requires HasTable(m, dir, PdIndex(virt)) || !Exhausted(flags)
    requires 0 <= s < RECURSIVE_SLOT && IsSlot(k) && HasTable(m, dir, s)
    requires s != PdIndex(virt) || k != PtIndex(virt)
    ensures Entry(RamAfterMap(m, dir, flags, phys, virt, HEAP_FLAGS), dir, s) == Entry(m, dir, s)
    ensures Entry(RamAfterMap(m, dir, flags, phys, virt, HEAP_FLAGS), TableFrame(m, dir, s), k) ==
      Entry(m, TableFrame(m, dir, s), k)
  {
    hide MapResult, PteValue, PdeValue;
    var g := LowestFree(flags, 0);
    MapReady(m, dir, flags, virt);
    assert GoodSlot(m, dir, s) && GoodSlot(m, dir, PdIndex(virt)) && Apart(m, dir, s, PdIndex(virt));
    assert !HasTable(m, dir, PdIndex(virt)) ==> NotTable(m, dir, s, g);
    hide Sound, FramesHeld;
    EntryAfterMap(m, dir, g, phys, virt, HEAP_FLAGS, dir, s);
    EntryAfterMap(m, dir, g, phys, virt, HEAP_FLAGS, TableFrame(m, dir, s), k);
  }

  lemma PlainStays(m: Ram, m': Ram, dir: int, x: int, v: u32)
    requires IsFrame(dir) && PlainEntries(m, dir, x, v)
    requires Entry(m', dir, PdIndex(v)) == Entry(m, dir, PdIndex(v))
    requires var table := TableFrame(m, dir, PdIndex(v));
      Entry(m', table, PtIndex(v)) == Entry(m, table, PtIndex(v))
    ensures PlainEntries(m', dir, x, v)
  {
  }

  /** The entries of every other page stay. */
  lemma MapKeepsEntries(m: Ram, dir: int, flags: seq<bool>, phys: u32, virt: u32, x: int, v: u32)
    requires Sound(m, dir) && FramesHeld(m, dir, flags) && |flags| < FRAMES && phys % PAGE_SIZE == 0
    requires PdIndex(virt) !in {0, HIGHER_HALF_SLOT, RECURSIVE_SLOT}
    requires HasTable(m, dir, PdIndex(virt)) || !Exhausted(flags)
    requires PdIndex(v) < RECURSIVE_SLOT && v / PAGE_SIZE != virt / PAGE_SIZE && PlainEntries(m, dir, x, v)
    ensures PlainEntries(RamAfterMap(m, dir, flags, phys, virt, HEAP_FLAGS), dir, x, v)
  {
    assert IsFrame(dir);
    hide RamAfterMap, FramesHeld, PlainEntries, Sound, Exhausted, HasTable, Entry;
    PageSlots(v, virt);
    PlainHasTable(m, dir, x, v);
    MapKeepsSlot(m, dir, flags, phys, virt, PdIndex(v), PtIndex(v));
    PlainStays(m, RamAfterMap(m, dir, flags, phys, virt, HEAP_FLAGS), dir, x, v);
  }

  lemma MapMapsPage(m: Ram, dir: int, flags: seq<bool>, frames: seq<nat>, f: nat, k: nat)
    requires Mapped(m, dir, flags, frames) && FramesHeld(m, dir, flags) && |frames| < MAX_HEAP_PAGES && IsFrame(f)
    requires HasTable(m, dir, PdIndex(PageStart(|frames|))) || !Exhausted(flags)
    requires k <= |frames|
    ensures PageMapped(RamAfterMap(m, dir, flags, f * PAGE_SIZE, PageStart(|frames|), HEAP_FLAGS), dir, frames + [f], k)
  {
    var virt, phys := PageStart(|frames|), f * PAGE_SIZE;
    HeapSlotsPlain(|frames|);
    HeapSlotsPlain(k);
    MapReady(m, dir, flags, virt);
    MapMovesOnePage(m, dir, LowestFree(flags, 0), phys, virt, HEAP_FLAGS, PageStart(k));
    if k < |frames| {
      assert PageGood(m, dir, flags, frames, k);
    }
  }

  lemma MapEntries(m: Ram, dir: int, flags: seq<bool>, frames: seq<nat>, f: nat, k: nat)
    requires Mapped(m, dir, flags, frames) && FramesHeld(m, dir, flags) && |frames| < MAX_HEAP_PAGES && IsFrame(f)
    requires HasTable(m, dir, PdIndex(PageStart(|frames|))) || !Exhausted(flags)
    requires k <= |frames|
    ensures PlainEntries(RamAfterMap(m, dir, flags, f * PAGE_SIZE, PageStart(|frames|), HEAP_FLAGS), dir,
                         (frames + [f])[k], PageStart(k))
  {
    hide RamAfterMap, PlainEntries, Walk;
    if k < |frames| {
      HeapSlotsPlain(|frames|);
      HeapSlotsPlain(k);
      NextPageSlot(k);
      assert PageGood(m, dir, flags, frames, k);
      MapKeepsEntries(m, dir, flags, f * PAGE_SIZE, PageStart(|frames|), frames[k], PageStart(k));
    } else {
      MapNewEntries(m, dir, flags, frames, f);
    }
  }

  lemma MapKeepsPage(m: Ram, dir: int, flags: seq<bool>, frames: seq<nat>, f: nat, k: nat)
    requires Mapped(m, dir, flags, frames) && FramesHeld(m, dir, flags) && |frames| < MAX_HEAP_PAGES
    requires f < |flags| && flags[f] && FreshFrame(m, dir, f)
    requires HasTable(m, dir, PdIndex(PageStart(|frames|))) || !Exhausted(flags)
    requires k <= |frames|
    ensures var m' := RamAfterMap(m, dir, flags, f * PAGE_SIZE, PageStart(|frames|), HEAP_FLAGS);
      PageGood(m', dir, PagesAfterMap(m, dir, flags, PageStart(|frames|)), frames + [f], k)
  {
    hide RamAfterMap, PageMapped, PlainEntries;
    MapMapsPage(m, dir, flags, frames, f, k);
    MapEntries(m, dir, flags, frames, f, k);
    NextPageSlot(|frames|);
    if k < |frames| {
      assert PageGood(m, dir, flags, frames, k);
    }
    MapKeepsFresh(m, dir, flags, f * PAGE_SIZE, PageStart(|frames|), (frames + [f])[k]);
  }

  lemma MapTablesExact(m: Ram, dir: int, flags: seq<bool>, frames: seq<nat>, f: nat)
    requires Mapped(m, dir, flags, frames) && FramesHeld(m, dir, flags) && |frames| < MAX_HEAP_PAGES
    requires IsFrame(f)
    requires HasTable(m, dir, PdIndex(PageStart(|frames|))) || !Exhausted(flags)
    ensures TablesExact(RamAfterMap(m, dir, flags, f * PAGE_SIZE, PageStart(|frames|), HEAP_FLAGS), dir, |frames| + 1)
  {
    var virt, phys := PageStart(|frames|), f * PAGE_SIZE;
    var g := LowestFree(flags, 0);
    var m' := RamAfterMap(m, dir, flags, phys, virt, HEAP_FLAGS);
    NextPageSlot(|frames|);
    MapReady(m, dir, flags, virt);
    PdeValueParts(g * PAGE_SIZE, HEAP_FLAGS);
    assert GoodSlot(m, dir, PdIndex(virt));
    var pages := |frames| + 1;
    forall s | HEAP_SLOT <= s < RECURSIVE_SLOT
      ensures TableExact(m', dir, pages, s)
    {
      assert TableExact(m, dir, |frames|, s);
      SlotStep(s - HEAP_SLOT, |frames|);
      EntryAfterMap(m, dir, g, phys, virt, HEAP_FLAGS, dir, s);
    }
  }

  /** The words of the old pages read the same after the map. */
  lemma MapKeepsWords(m: Ram, dir: int, flags: seq<bool>, frames: seq<nat>, f: nat)
    requires Mapped(m, dir, flags, frames) && FramesHeld(m, dir, flags) && |frames| < MAX_HEAP_PAGES
    requires forall k :: 0 <= k < |frames| ==> IsFrame(frames[k])
    requires IsFrame(f)
    requires HasTable(m, dir, PdIndex(PageStart(|frames|))) || !Exhausted(flags)
    ensures var m' := RamAfterMap(m, dir, flags, f * PAGE_SIZE, PageStart(|frames|), HEAP_FLAGS);
      forall a :: InHeap(a, |frames|) ==> View(m', frames + [f])[a] == View(m, frames)[a]
  {
    var m' := RamAfterMap(m, dir, flags, f * PAGE_SIZE, PageStart(|frames|), HEAP_FLAGS);
    NextPageSlot(|frames|);
    forall a: int | InHeap(a, |frames|)
      ensures View(m', frames + [f])[a] == View(m, frames)[a]
    {
      var k := PageOf(a);
      assert PageGood(m, dir, flags, frames, k);
      MapKeepsEntry(m, dir, flags, f * PAGE_SIZE, PageStart(|frames|), frames[k], WordOf(a));
    }
  }

  lemma MapKeepsEntry(m: Ram, dir: int, flags: seq<bool>, phys: u32, virt: u32, x: nat, w: int)
    requires Sound(m, dir) && FramesHeld(m, dir, flags) && |flags| < FRAMES && phys % PAGE_SIZE == 0
    requires PdIndex(virt) < RECURSIVE_SLOT
    requires HasTable(m, dir, PdIndex(virt)) || !Exhausted(flags)
    requires x < |flags| && flags[x] && FreshFrame(m, dir, x) && IsSlot(w)
    ensures Entry(RamAfterMap(m, dir, flags, phys, virt, HEAP_FLAGS), x, w) == Entry(m, x, w)
  {
    MapReady(m, dir, flags, virt);
    EntryAfterMap(m, dir, LowestFree(flags, 0), phys, virt, HEAP_FLAGS, x, w);
    assert NotTable(m, dir, PdIndex(virt), x);
  }
}
