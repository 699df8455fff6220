/** What a served kmalloc promises its caller. */
module HeapPromises {
  import opened Words
  import opened HeapBlocks
  import opened HeapCanon
  import opened HeapSpace
  import opened Heap

  /** [a, a + n) and the whole of block b, header included, share no byte. */
  predicate ClearOf(a: int, n: int, b: Block) {
    a + n <= b.addr || EndOf(b) <= a
  }

  lemma BlocksClear(bs: seq<Block>, start: int, end: int, i: int, j: int)
    requires Tiles(bs, start, end) && 0 <= i < |bs| && 0 <= j < |bs| && i != j
    ensures ClearOf(bs[i].addr + HEADER, bs[i].size, bs[j])
  {
    assert Sized(bs[i]) && Sized(bs[j]);
    if i < j {
      Order(bs, start, end, i, j);
    } else {
      Order(bs, start, end, j, i);
    }
  }

  /** The payload is aligned and one of the heap's blocks. It holds the request, with less than 24 bytes to spare,
      exactly when the rounding of the size did not wrap. */
  lemma ServedPayload(bs: seq<Block>, end: int, size: u32, bs': seq<Block>, end': int, ptr: int)
    requires WellFormed(bs, KHEAP_START, end)
    requires Served(bs, end, RoundUp(size), bs', end', ptr)
    ensures WellFormed(bs', KHEAP_START, end') && 0 <= Taken(bs, end, RoundUp(size)) < |bs'|
    ensures var b := bs'[Taken(bs, end, RoundUp(size))];
      !b.free && b.addr == ptr - 16 && ptr % 8 == 0 && KHEAP_START < ptr && ptr + b.size <= end' &&
      (b.size >= size <==> size + 7 < TWO_32) && (size + 7 < TWO_32 ==> b.size <= size + 23) &&
      (size + 7 >= TWO_32 ==> b.size < 24)
  {
    var n := RoundUp(size);
    RoundUpHolds(size);
    AllocateWellFormed(bs, KHEAP_START, end, n);
    var i := Taken(bs, end, n);
    Placement(bs', KHEAP_START, end', i);
    assert Sized(bs'[i]);
    PayloadSize(size, n, bs'[i].size);
  }

  /** The payload keeps clear of every other block, and of the headers of all blocks. */
  lemma ServedApart(bs: seq<Block>, end: int, size: u32, bs': seq<Block>, end': int, ptr: int, j: int)
    requires WellFormed(bs, KHEAP_START, end)
    requires Served(bs, end, RoundUp(size), bs', end', ptr) && 0 <= j < |bs'|
    ensures var i := Taken(bs, end, RoundUp(size));
      if j == i then bs'[j].addr + HEADER <= ptr else ClearOf(ptr, bs'[i].size, bs'[j])
  {
    ServedPayload(bs, end, size, bs', end', ptr);
    var i := Taken(bs, end, RoundUp(size));
    if j != i {
      BlocksClear(bs', KHEAP_START, end', i, j);
    }
  }

  /** Every block live before is live after, with the same address and size, and clear of the new payload. */
  lemma ServedKeepsLive(bs: seq<Block>, end: int, size: u32, bs': seq<Block>, end': int, ptr: int, j: int)
    requires WellFormed(bs, KHEAP_START, end)
    requires Served(bs, end, RoundUp(size), bs', end', ptr) && 0 <= j < |bs| && !bs[j].free
    ensures exists j' :: 0 <= j' < |bs'| && bs'[j'] == bs[j] && j' != Taken(bs, end, RoundUp(size))
    ensures ClearOf(ptr, bs'[Taken(bs, end, RoundUp(size))].size, bs[j])
  {
    hide WellFormed, FirstFit, RoundUp, ClearOf;
    var n := RoundUp(size);
    var i := Taken(bs, end, n);
    var p := Prepared(bs, end, n);
    if p != bs {
      GrowKeepsLive(bs, end, PagesNeeded(n) * PAGE_SIZE, j);
    }
    assert p[j] == bs[j] && j != i;
    var j' := if j < i || |bs'| == |p| then j else j + 1;
    assert bs'[j'] == p[j];
    ServedApart(bs, end, size, bs', end', ptr, j');
  }

  /** First fit: the lowest fitting block of the old heap when there is one, else the last block of the grown heap. */
  lemma ServedLowest(bs: seq<Block>, end: int, size: u32, bs': seq<Block>, end': int, ptr: int)
    requires WellFormed(bs, KHEAP_START, end)
    requires Served(bs, end, RoundUp(size), bs', end', ptr)
    ensures (exists j :: 0 <= j < |bs| && Fits(bs[j], RoundUp(size))) ==>
      end' == end && (exists j :: 0 <= j < |bs| && Fits(bs[j], RoundUp(size)) && bs[j].addr == ptr - HEADER)
    ensures forall j :: 0 <= j < |bs| && Fits(bs[j], RoundUp(size)) ==> ptr - HEADER <= bs[j].addr
    ensures !(exists j :: 0 <= j < |bs| && Fits(bs[j], RoundUp(size))) ==>
      end' == end + PagesNeeded(RoundUp(size)) * PAGE_SIZE && ptr > bs[|bs| - 1].addr
  {
    var n := RoundUp(size);
    var i := Taken(bs, end, n);
    RoundUpHolds(size);
    AllocateWellFormed(bs, KHEAP_START, end, n);
    PreparedFits(bs, KHEAP_START, end, n);
    var k := FirstFit(bs, n, 0);
    forall j | 0 <= j < |bs| && Fits(bs[j], n)
      ensures k < |bs| && ptr - HEADER == bs[k].addr && bs[k].addr <= bs[j].addr
    {
      if k < j {
        Order(bs, KHEAP_START, end, k, j);
        assert Sized(bs[k]);
      }
    }
    if k == |bs| {
      var p := Prepared(bs, end, n);
      assert Sized(bs[|bs| - 1]);
      if |p| == |bs| + 1 {
        assert p[i].addr == end;
      } else {
        assert p[i].addr == bs[|bs| - 1].addr;
      }
    } else {
      assert Fits(bs[k], n) && bs[k].addr == ptr - HEADER;
    }
  }
}
