/** The 32-bit page walk (Intel SDM Vol. 3A, section 4.3) over physical memory, and what one map does to it. */
module Paging {
  import opened Words

  const FRAMES: int := 0x10_0000
  const RECURSIVE_SLOT: int := 1023
  const PAGE_TABLES: int := 0xFFC0_0000
  const PAGE_DIRECTORY: int := 0xFFFF_F000
  const HIGHER_HALF_SLOT: int := 768

  const PRESENT: int := 1
  const WRITABLE: int := 2
  const USER: int := 4

  /** All 4 GB of physical memory, as 2^20 frames of 1024 words. */
  type Ram = m: seq<u32> | |m| == 0x4000_0000 witness seq(0x4000_0000, i => 0)

  /** Where a virtual address lands, and whether both levels allow writing. */
  datatype Translation = Fault | At(address: u32, writable: bool)

  function PdIndex(v: u32): nat {
    v / 0x40_0000
  }

  function PtIndex(v: u32): nat {
    v / PAGE_SIZE % 1024
  }

  predicate IsPresent(entry: u32) {
    entry % 2 == 1
  }

  predicate IsWritable(entry: u32) {
    entry / 2 % 2 == 1
  }

  function FrameOf(entry: u32): nat {
    entry / PAGE_SIZE
  }

  predicate IsFrame(f: int) {
    0 <= f < FRAMES
  }

  predicate IsSlot(k: int) {
    0 <= k < 1024
  }

  function Entry(m: Ram, frame: int, k: int): u32
    requires IsFrame(frame) && IsSlot(k)
  {
    m[frame * 1024 + k]
  }

  function SetEntry(m: Ram, frame: int, k: int, v: u32): Ram
    requires IsFrame(frame) && IsSlot(k)
  {
    m[frame * 1024 + k := v]
  }

  lemma EntryAfterSet(m: Ram, frame: int, k: int, v: u32, frame': int, k': int)
    requires IsFrame(frame) && IsSlot(k) && IsFrame(frame') && IsSlot(k')
    ensures Entry(SetEntry(m, frame, k, v), frame', k') ==
      if frame' == frame && k' == k then v else Entry(m, frame', k')
  {
  }

  function Walk(m: Ram, dir: int, v: u32): Translation
    requires IsFrame(dir)
  {
    var pde := Entry(m, dir, PdIndex(v));
    if !IsPresent(pde) then Fault else
    var pte := Entry(m, FrameOf(pde), PtIndex(v));
    if !IsPresent(pte) then Fault
    else At(FrameOf(pte) * PAGE_SIZE + v % PAGE_SIZE, IsWritable(pde) && IsWritable(pte))
  }

  predicate HasTable(m: Ram, dir: int, s: int)
    requires IsFrame(dir) && IsSlot(s)
  {
    IsPresent(Entry(m, dir, s))
  }

  function TableFrame(m: Ram, dir: int, s: int): nat
    requires IsFrame(dir) && IsSlot(s)
  {
    FrameOf(Entry(m, dir, s))
  }

  /** The two directory slots that share the first page table. */
  predicate Twins(s: int, t: int) {
    s == t || (s == 0 && t == HIGHER_HALF_SLOT) || (s == HIGHER_HALF_SLOT && t == 0)
  }

  predicate GoodSlot(m: Ram, dir: int, s: int)
    requires IsFrame(dir) && IsSlot(s)
  {
    HasTable(m, dir, s) ==> TableFrame(m, dir, s) != dir && IsWritable(Entry(m, dir, s))
  }

  predicate Apart(m: Ram, dir: int, s: int, t: int)
    requires IsFrame(dir) && IsSlot(s) && IsSlot(t)
  {
    HasTable(m, dir, s) && HasTable(m, dir, t) ==>
      (TableFrame(m, dir, s) == TableFrame(m, dir, t) <==> Twins(s, t))
  }

  /** The directory maps itself in its last slot, and all other slots name distinct writable tables. */
  ghost predicate Sound(m: Ram, dir: int) {
    IsFrame(dir) &&
    Entry(m, dir, RECURSIVE_SLOT) == dir * PAGE_SIZE + PRESENT + WRITABLE &&
    HasTable(m, dir, 0) && HasTable(m, dir, HIGHER_HALF_SLOT) &&
    (forall s :: 0 <= s < RECURSIVE_SLOT ==> GoodSlot(m, dir, s)) &&
    (forall s, t :: 0 <= s < RECURSIVE_SLOT && 0 <= t < RECURSIVE_SLOT ==> Apart(m, dir, s, t))
  }

  // ---------------------------------------------------------------------
  // The recursive window
  // ---------------------------------------------------------------------

  function PdeAddress(pd: int): u32
    requires IsSlot(pd)
  {
    PAGE_DIRECTORY + 4 * pd
  }

  function PteAddress(pd: int, pt: int): u32
    requires IsSlot(pd) && IsSlot(pt)
  {
    PAGE_TABLES + 4 * (pd * 1024 + pt)
  }

  lemma PteAddressParts(pd: int, pt: int)
    requires IsSlot(pd) && IsSlot(pt)
    ensures PdIndex(PteAddress(pd, pt)) == RECURSIVE_SLOT
    ensures PtIndex(PteAddress(pd, pt)) == pd
    ensures PteAddress(pd, pt) % PAGE_SIZE == 4 * pt
  {
  }

  /** The page-table window lands on the very entry that translates (pd, pt). */
  lemma WindowReachesPte(m: Ram, dir: int, pd: int, pt: int)
    requires Sound(m, dir) && 0 <= pd < RECURSIVE_SLOT && IsSlot(pt) && HasTable(m, dir, pd)
    ensures Walk(m, dir, PteAddress(pd, pt)) == At(TableFrame(m, dir, pd) * PAGE_SIZE + 4 * pt, true)
  {
    PteAddressParts(pd, pt);
    EntryParts(dir, PRESENT + WRITABLE);
    assert GoodSlot(m, dir, pd);
  }

  /** The directory window lands on the directory entry of slot pd. */
  lemma WindowReachesPde(m: Ram, dir: int, pd: int)
    requires Sound(m, dir) && IsSlot(pd)
    ensures Walk(m, dir, PdeAddress(pd)) == At(dir * PAGE_SIZE + 4 * pd, true)
  {
  }

  // ---------------------------------------------------------------------
  // What one map writes
  // ---------------------------------------------------------------------

  /** phys | (flags & 0xFFF) | PRESENT for a page-aligned phys. */
  function PteValue(phys: u32, flags: u32): u32
    requires phys % PAGE_SIZE == 0
  {
    phys + flags % PAGE_SIZE + (if IsPresent(flags) then 0 else PRESENT)
  }

  /** table | PRESENT | WRITABLE | (flags & USER) for a page-aligned table. */
  function PdeValue(table: u32, flags: u32): u32
    requires table % PAGE_SIZE == 0
  {
    table + PRESENT + WRITABLE + (if flags / USER % 2 == 1 then USER else 0)
  }

  lemma EntryParts(q: nat, low: nat)
    requires q < FRAMES && low < PAGE_SIZE
    ensures FrameOf(PAGE_SIZE * q + low) == q
    ensures IsPresent(PAGE_SIZE * q + low) == IsPresent(low)
    ensures IsWritable(PAGE_SIZE * q + low) == IsWritable(low)
  {
    assert (PAGE_SIZE * q + low) / 2 == 2048 * q + low / 2;
  }

  lemma PteValueParts(phys: u32, flags: u32)
    requires phys % PAGE_SIZE == 0
    ensures IsPresent(PteValue(phys, flags)) && FrameOf(PteValue(phys, flags)) == phys / PAGE_SIZE
    ensures IsWritable(PteValue(phys, flags)) == IsWritable(flags)
  {
    var low := flags % PAGE_SIZE;
    EntryParts(flags / PAGE_SIZE, low);
    EntryParts(phys / PAGE_SIZE, low + (if IsPresent(flags) then 0 else PRESENT));
  }

  lemma PdeValueParts(table: u32, flags: u32)
    requires table % PAGE_SIZE == 0
    ensures IsPresent(PdeValue(table, flags)) && FrameOf(PdeValue(table, flags)) == table / PAGE_SIZE
    ensures IsWritable(PdeValue(table, flags))
  {
  }

  lemma JoinBits(address: u32, low: nat, j: nat)
    requires address % PAGE_SIZE == 0 && low < PAGE_SIZE
    ensures Bit(address + low, j) == (Bit(address, j) || Bit(low, j))
    ensures j >= 12 ==> !Bit(low, j)
    ensures j < 12 ==> !Bit(address, j)
  {
    var q := address / PAGE_SIZE;
    assert Power(12) == PAGE_SIZE by {
      assert Power(4) == 16 && Power(8) == 256;
    }
    SumBits(q, low, PAGE_SIZE, 12, j);
    SumBits(q, 0, PAGE_SIZE, 12, j);
    SumBits(0, low, PAGE_SIZE, 12, j);
    NoBits(j);
    NoBits(if j >= 12 then j - 12 else 0);
  }

  lemma LowBits(flags: u32, j: nat)
    ensures Bit(flags % PAGE_SIZE, j) == (j < 12 && Bit(flags, j))
  {
    var q, low := flags / PAGE_SIZE, flags % PAGE_SIZE;
    JoinBits(q * PAGE_SIZE, low, j);
  }

  /** The entry is the bitwise phys | (flags & 0xFFF) | 1. */
  lemma PteValueBits(phys: u32, flags: u32, j: nat)
    requires phys % PAGE_SIZE == 0
    ensures Bit(PteValue(phys, flags), j) == (Bit(phys, j) || (j < 12 && Bit(flags, j)) || j == 0)
  {
    var low := flags % PAGE_SIZE;
    LowBits(flags, j);
    PresentBit(low, j);
    JoinBits(phys, low + (if IsPresent(flags) then 0 else PRESENT), j);
  }

  lemma PresentBit(low: u32, j: nat)
    requires low < PAGE_SIZE
    ensures Bit(low + (if IsPresent(low) then 0 else PRESENT), j) == (Bit(low, j) || j == 0)
  {
  }

  /** The directory entry is the bitwise table | 1 | 2 | (flags & 4). */
  lemma PdeValueBits(table: u32, flags: u32, j: nat)
    requires table % PAGE_SIZE == 0
    ensures Bit(PdeValue(table, flags), j) == (Bit(table, j) || j == 0 || j == 1 || (j == 2 && Bit(flags, 2)))
  {
    var user := flags / USER % 2 == 1;
    assert Bit(flags, 2) == Bit(flags / 2, 1) == Bit(flags / 2 / 2, 0);
    SmallBits(j);
    JoinBits(table, PRESENT + WRITABLE + (if user then USER else 0), j);
  }

  lemma SmallBits(j: nat)
    ensures Bit(PRESENT + WRITABLE, j) == (j < 2)
    ensures Bit(PRESENT + WRITABLE + USER, j) == (j < 3)
  {
    if j >= 3 {
      assert Bit(7, j) == Bit(3, j - 1) == Bit(1, j - 2) == Bit(0, j - 3);
      assert Bit(3, j) == Bit(1, j - 1) == Bit(0, j - 2);
      NoBits(j - 3);
      NoBits(j - 2);
    } else {
      assert Bit(7, 2) == Bit(3, 1) == Bit(1, 0);
      assert Bit(3, 2) == Bit(1, 1) == Bit(0, 0);
    }
  }

  /** The first n words of frame f wiped, nothing else touched. */
  function ZeroPrefix(m: Ram, f: int, n: nat): (m': Ram)
    requires IsFrame(f)
  {
    seq(0x4000_0000, i requires 0 <= i < 0x4000_0000 => if i / 1024 == f && i % 1024 < n then 0 else m[i])
  }

  lemma EntryAfterZero(m: Ram, f: int, n: nat, frame: int, k: int)
    requires IsFrame(f) && IsFrame(frame) && IsSlot(k)
    ensures Entry(ZeroPrefix(m, f, n), frame, k) == if frame == f && k < n then 0 else Entry(m, frame, k)
  {
  }

  lemma ZeroPrefixStep(m: Ram, f: int, n: nat)
    requires IsFrame(f) && n < 1024
    ensures ZeroPrefix(m, f, 0) == m
    ensures SetEntry(ZeroPrefix(m, f, n), f, n, 0) == ZeroPrefix(m, f, n + 1)
  {
  }

  /** Slot pd made to name the table in frame f. */
  function LinkTable(m: Ram, dir: int, pd: int, f: int, flags: u32): Ram
    requires IsFrame(dir) && IsSlot(pd) && IsFrame(f)
  {
    SetEntry(m, dir, pd, PdeValue(f * PAGE_SIZE, flags))
  }

  /** A new, empty table in frame f for slot pd. */
  function AddTable(m: Ram, dir: int, pd: int, f: int, flags: u32): Ram
    requires IsFrame(dir) && IsSlot(pd) && IsFrame(f)
  {
    ZeroPrefix(LinkTable(m, dir, pd, f, flags), f, 1024)
  }

  lemma EntryAfterAddTable(m: Ram, dir: int, pd: int, f: int, flags: u32, frame: int, k: int)
    requires IsFrame(dir) && IsSlot(pd) && IsFrame(f) && IsFrame(frame) && IsSlot(k) && f != dir
    ensures Entry(AddTable(m, dir, pd, f, flags), frame, k) ==
      if frame == f then 0
      else if frame == dir && k == pd then PdeValue(f * PAGE_SIZE, flags)
      else Entry(m, frame, k)
  {
  }

  predicate NotTable(m: Ram, dir: int, s: int, f: int)
    requires IsFrame(dir) && IsSlot(s)
  {
    !(HasTable(m, dir, s) && TableFrame(m, dir, s) == f)
  }

  /** Frame f is neither the directory nor any table. */
  ghost predicate FreshFrame(m: Ram, dir: int, f: int)
    requires IsFrame(dir)
  {
    IsFrame(f) && f != dir && forall s :: 0 <= s < RECURSIVE_SLOT ==> NotTable(m, dir, s, f)
  }

  lemma LinkTableSound(m: Ram, dir: int, pd: int, f: int, flags: u32)
    requires Sound(m, dir) && 0 <= pd < RECURSIVE_SLOT && !HasTable(m, dir, pd) && FreshFrame(m, dir, f)
    ensures var m' := LinkTable(m, dir, pd, f, flags);
      Sound(m', dir) && HasTable(m', dir, pd) && TableFrame(m', dir, pd) == f
  {
    var m' := LinkTable(m, dir, pd, f, flags);
    PdeValueParts(f * PAGE_SIZE, flags);
    forall s | 0 <= s < 1024
      ensures Entry(m', dir, s) == if s == pd then PdeValue(f * PAGE_SIZE, flags) else Entry(m, dir, s)
    {
      EntryAfterSet(m, dir, pd, PdeValue(f * PAGE_SIZE, flags), dir, s);
    }
    forall s | 0 <= s < RECURSIVE_SLOT
      ensures GoodSlot(m', dir, s)
    {
      assert GoodSlot(m, dir, s);
    }
    forall s, t | 0 <= s < RECURSIVE_SLOT && 0 <= t < RECURSIVE_SLOT
      ensures Apart(m', dir, s, t)
    {
      assert Apart(m, dir, s, t);
      assert NotTable(m, dir, s, f) && NotTable(m, dir, t, f);
    }
  }

  /** Wiping words of a frame other than the directory keeps the directory sound. */
  lemma ZeroPrefixSound(m: Ram, dir: int, f: int, n: nat)
    requires Sound(m, dir) && IsFrame(f) && f != dir
    ensures Sound(ZeroPrefix(m, f, n), dir)
    ensures forall s :: 0 <= s < 1024 ==> Entry(ZeroPrefix(m, f, n), dir, s) == Entry(m, dir, s)
  {
    forall s | 0 <= s < 1024
      ensures Entry(ZeroPrefix(m, f, n), dir, s) == Entry(m, dir, s)
    {
      EntryAfterZero(m, f, n, dir, s);
    }
    SameDirectorySound(m, ZeroPrefix(m, f, n), dir);
  }

  lemma AddTableSound(m: Ram, dir: int, pd: int, f: int, flags: u32)
    requires Sound(m, dir) && 0 <= pd < RECURSIVE_SLOT && !HasTable(m, dir, pd) && FreshFrame(m, dir, f)
    ensures var m' := AddTable(m, dir, pd, f, flags);
      Sound(m', dir) && HasTable(m', dir, pd) && TableFrame(m', dir, pd) == f
  {
    LinkTableSound(m, dir, pd, f, flags);
    ZeroPrefixSound(LinkTable(m, dir, pd, f, flags), dir, f, 1024);
  }

  /** An empty table changes no translation outside the recursive window. */
  lemma AddTableTranslatesAlike(m: Ram, dir: int, pd: int, f: int, flags: u32, v: u32)
    requires Sound(m, dir) && 0 <= pd < RECURSIVE_SLOT && !HasTable(m, dir, pd) && FreshFrame(m, dir, f)
    requires PdIndex(v) != RECURSIVE_SLOT
    ensures Walk(AddTable(m, dir, pd, f, flags), dir, v) == Walk(m, dir, v)
  {
    var m' := AddTable(m, dir, pd, f, flags);
    var s := PdIndex(v);
    EntryAfterAddTable(m, dir, pd, f, flags, dir, s);
    if s == pd {
      PdeValueParts(f * PAGE_SIZE, flags);
      EntryAfterAddTable(m, dir, pd, f, flags, f, PtIndex(v));
    } else if HasTable(m, dir, s) {
      EntryAfterAddTable(m, dir, pd, f, flags, TableFrame(m, dir, s), PtIndex(v));
      assert GoodSlot(m, dir, s) && NotTable(m, dir, s, f);
    }
  }

  /** The final store: the entry of (pd, pt) in its table. */
  function PutPte(m: Ram, dir: int, pd: int, pt: int, value: u32): Ram
    requires IsFrame(dir) && IsSlot(pd) && IsSlot(pt)
  {
    SetEntry(m, TableFrame(m, dir, pd), pt, value)
  }

  lemma PutPteKeepsDirectory(m: Ram, dir: int, pd: int, pt: int, value: u32)
    requires Sound(m, dir) && 0 <= pd < RECURSIVE_SLOT && IsSlot(pt) && HasTable(m, dir, pd)
    ensures forall s :: 0 <= s < 1024 ==> Entry(PutPte(m, dir, pd, pt, value), dir, s) == Entry(m, dir, s)
    ensures Sound(PutPte(m, dir, pd, pt, value), dir)
  {
    var m' := PutPte(m, dir, pd, pt, value);
    assert GoodSlot(m, dir, pd);
    forall s | 0 <= s < 1024
      ensures Entry(m', dir, s) == Entry(m, dir, s)
    {
      EntryAfterSet(m, TableFrame(m, dir, pd), pt, value, dir, s);
    }
    SameDirectorySound(m, m', dir);
  }

  lemma SameDirectorySound(m: Ram, m': Ram, dir: int)
    requires Sound(m, dir)
    requires forall s :: 0 <= s < 1024 ==> Entry(m', dir, s) == Entry(m, dir, s)
    ensures Sound(m', dir)
  {
    forall s | 0 <= s < RECURSIVE_SLOT
      ensures GoodSlot(m', dir, s)
    {
      assert GoodSlot(m, dir, s);
    }
    forall s, t | 0 <= s < RECURSIVE_SLOT && 0 <= t < RECURSIVE_SLOT
      ensures Apart(m', dir, s, t)
    {
      assert Apart(m, dir, s, t);
    }
  }

  /** v and virt are translated by the same table entry: same page, or twin pages of slots 0 and 768. */
  predicate Alias(v: u32, virt: u32) {
    Twins(PdIndex(v), PdIndex(virt)) && PtIndex(v) == PtIndex(virt)
  }

  /** After the store, the page and its alias translate to phys and every other page as before. */
  lemma PutPteTranslates(m: Ram, dir: int, virt: u32, phys: u32, flags: u32, v: u32)
    requires Sound(m, dir) && PdIndex(virt) != RECURSIVE_SLOT && HasTable(m, dir, PdIndex(virt))
    requires phys % PAGE_SIZE == 0 && PdIndex(v) != RECURSIVE_SLOT
    ensures Walk(PutPte(m, dir, PdIndex(virt), PtIndex(virt), PteValue(phys, flags)), dir, v) ==
      if Alias(v, virt) then At(phys + v % PAGE_SIZE, IsWritable(flags)) else Walk(m, dir, v)
  {
    var pd, pt, value := PdIndex(virt), PtIndex(virt), PteValue(phys, flags);
    var s := PdIndex(v);
    PutPteKeepsDirectory(m, dir, pd, pt, value);
    PteValueParts(phys, flags);
    assert Entry(PutPte(m, dir, pd, pt, value), dir, s) == Entry(m, dir, s);
    assert GoodSlot(m, dir, s) && Apart(m, dir, s, pd);
    EntryAfterSet(m, TableFrame(m, dir, pd), pt, value, TableFrame(m, dir, s), PtIndex(v));
  }

  // ---------------------------------------------------------------------
  // The whole of one map
  // ---------------------------------------------------------------------

  /** Physical memory after mapping virt to phys; frame f becomes the table when the slot has none. */
  function MapResult(m: Ram, dir: int, f: int, phys: u32, virt: u32, flags: u32): Ram
    requires IsFrame(dir) && IsFrame(f) && phys % PAGE_SIZE == 0
  {
    var pd, pt := PdIndex(virt), PtIndex(virt);
    var m1 := if HasTable(m, dir, pd) then m else AddTable(m, dir, pd, f, flags);
    PutPte(m1, dir, pd, pt, PteValue(phys, flags))
  }

  /** The frame condition of one map, over every page outside the recursive window. */
  lemma MapTranslates(m: Ram, dir: int, f: int, phys: u32, virt: u32, flags: u32, v: u32)
    requires Sound(m, dir) && IsFrame(f) && phys % PAGE_SIZE == 0
    requires PdIndex(virt) != RECURSIVE_SLOT && PdIndex(v) != RECURSIVE_SLOT
    requires HasTable(m, dir, PdIndex(virt)) || FreshFrame(m, dir, f)
    ensures Sound(MapResult(m, dir, f, phys, virt, flags), dir)
    ensures Walk(MapResult(m, dir, f, phys, virt, flags), dir, v) ==
      if Alias(v, virt) then At(phys + v % PAGE_SIZE, IsWritable(flags)) else Walk(m, dir, v)
  {
    var pd, pt := PdIndex(virt), PtIndex(virt);
    if HasTable(m, dir, pd) {
      PutPteKeepsDirectory(m, dir, pd, pt, PteValue(phys, flags));
      PutPteTranslates(m, dir, virt, phys, flags, v);
    } else {
      var m1 := AddTable(m, dir, pd, f, flags);
      AddTableSound(m, dir, pd, f, flags);
      AddTableTranslatesAlike(m, dir, pd, f, flags, v);
      PutPteKeepsDirectory(m1, dir, pd, pt, PteValue(phys, flags));
      PutPteTranslates(m1, dir, virt, phys, flags, v);
    }
  }

  /** Outside slots 0, 768 and 1023 nothing else moves: only the mapped page itself translates anew. */
  lemma MapMovesOnePage(m: Ram, dir: int, f: int, phys: u32, virt: u32, flags: u32, v: u32)
    requires Sound(m, dir) && IsFrame(f) && phys % PAGE_SIZE == 0
    requires PdIndex(virt) !in {0, HIGHER_HALF_SLOT, RECURSIVE_SLOT} && PdIndex(v) != RECURSIVE_SLOT
    requires HasTable(m, dir, PdIndex(virt)) || FreshFrame(m, dir, f)
    ensures Walk(MapResult(m, dir, f, phys, virt, flags), dir, v) ==
      if v / PAGE_SIZE == virt / PAGE_SIZE then At(phys + v % PAGE_SIZE, IsWritable(flags)) else Walk(m, dir, v)
  {
    MapTranslates(m, dir, f, phys, virt, flags, v);
    assert v / PAGE_SIZE == PdIndex(v) * 1024 + PtIndex(v);
    assert virt / PAGE_SIZE == PdIndex(virt) * 1024 + PtIndex(virt);
  }

  /** The words one map writes: at most one directory entry, one fresh table, one table entry. */
  lemma EntryAfterMap(m: Ram, dir: int, f: int, phys: u32, virt: u32, flags: u32, frame: int, k: int)
    requires Sound(m, dir) && IsFrame(f) && phys % PAGE_SIZE == 0 && IsFrame(frame) && IsSlot(k)
    requires PdIndex(virt) != RECURSIVE_SLOT
    requires HasTable(m, dir, PdIndex(virt)) || FreshFrame(m, dir, f)
    ensures var had := HasTable(m, dir, PdIndex(virt));
      var table := if had then TableFrame(m, dir, PdIndex(virt)) else f;
      Entry(MapResult(m, dir, f, phys, virt, flags), frame, k) ==
        if frame == table && k == PtIndex(virt) then PteValue(phys, flags)
        else if !had && frame == f then 0
        else if !had && frame == dir && k == PdIndex(virt) then PdeValue(f * PAGE_SIZE, flags)
        else Entry(m, frame, k)
  {
    var pd, pt := PdIndex(virt), PtIndex(virt);
    if HasTable(m, dir, pd) {
      EntryAfterSet(m, TableFrame(m, dir, pd), pt, PteValue(phys, flags), frame, k);
    } else {
      AddTableSound(m, dir, pd, f, flags);
      EntryAfterAddTable(m, dir, pd, f, flags, frame, k);
      EntryAfterSet(AddTable(m, dir, pd, f, flags), f, pt, PteValue(phys, flags), frame, k);
    }
  }
}
