/** The kernel heap as a sequence of blocks: search, split, coalesce and growth, without memory. */
module HeapBlocks {
  import opened Words

  const HEADER: int := 16
  /** A block is split only when the rest can hold a header and 8 bytes. */
  const SPLIT_REST: int := 24

  datatype Block = Block(addr: int, size: int, free: bool)

  function EndOf(b: Block): int {
    b.addr + HEADER + b.size
  }

  predicate Sized(b: Block) {
    b.size >= 0 && b.size % 8 == 0
  }

  predicate Adjoins(bs: seq<Block>, i: int)
    requires 0 <= i < |bs| - 1
  {
    bs[i + 1].addr == EndOf(bs[i])
  }

  predicate NotBothFree(bs: seq<Block>, i: int)
    requires 0 <= i < |bs| - 1
  {
    !(bs[i].free && bs[i + 1].free)
  }

  /** The blocks fill [start, end) back to back. */
  ghost predicate Tiles(bs: seq<Block>, start: int, end: int) {
    (if bs == [] then start == end else bs[0].addr == start && EndOf(bs[|bs| - 1]) == end) &&
    (forall i :: 0 <= i < |bs| ==> Sized(bs[i])) &&
    (forall i :: 0 <= i < |bs| - 1 ==> Adjoins(bs, i))
  }

  ghost predicate Coalesced(bs: seq<Block>) {
    forall i :: 0 <= i < |bs| - 1 ==> NotBothFree(bs, i)
  }

  /** What every completed heap operation keeps. */
  ghost predicate WellFormed(bs: seq<Block>, start: int, end: int) {
    bs != [] && Tiles(bs, start, end) && Coalesced(bs)
  }

  lemma {:induction false} Order(bs: seq<Block>, start: int, end: int, i: int, j: int)
    requires Tiles(bs, start, end) && 0 <= i < j < |bs|
    ensures EndOf(bs[i]) <= bs[j].addr
    decreases j - i
  {
    assert Adjoins(bs, j - 1) && Sized(bs[j - 1]);
    if i < j - 1 {
      Order(bs, start, end, i, j - 1);
    }
  }

  lemma AlignedEnd(b: Block)
    requires b.addr % 8 == 0 && b.size % 8 == 0
    ensures EndOf(b) % 8 == 0
  {
    assert EndOf(b) == 8 * (b.addr / 8 + 2 + b.size / 8);
  }

  /** Addresses stay inside the tiled range and keep the alignment of its start. */
  lemma {:induction false} Placement(bs: seq<Block>, start: int, end: int, i: int)
    requires Tiles(bs, start, end) && 0 <= i < |bs| && start % 8 == 0
    ensures start <= bs[i].addr && EndOf(bs[i]) <= end && bs[i].addr % 8 == 0
  {
    if i > 0 {
      Placement(bs, start, end, i - 1);
      assert Adjoins(bs, i - 1) && Sized(bs[i - 1]);
      AlignedEnd(bs[i - 1]);
    }
    if i < |bs| - 1 {
      Order(bs, start, end, i, |bs| - 1);
      assert Sized(bs[|bs| - 1]);
    }
  }

  // ---------------------------------------------------------------------
  // Primitive list edits
  // ---------------------------------------------------------------------

  function SetFree(bs: seq<Block>, i: int, free: bool): (bs': seq<Block>)
    requires 0 <= i < |bs|
    ensures |bs'| == |bs|
  {
    bs[i := bs[i].(free := free)]
  }

  /** Block i swallows block i + 1. */
  function Merge(bs: seq<Block>, i: int): (bs': seq<Block>)
    requires 0 <= i < |bs| - 1
    ensures |bs'| == |bs| - 1
  {
    bs[..i] + [Block(bs[i].addr, bs[i].size + HEADER + bs[i + 1].size, bs[i].free)] + bs[i + 2..]
  }

  /** Block i keeps n bytes; the rest becomes a free block after it. */
  function Split(bs: seq<Block>, i: int, n: int): (bs': seq<Block>)
    requires 0 <= i < |bs|
    ensures |bs'| == |bs| + 1
  {
    bs[..i] +
    [Block(bs[i].addr, n, bs[i].free), Block(bs[i].addr + HEADER + n, bs[i].size - n - HEADER, true)] +
    bs[i + 1..]
  }

  lemma SetFreeTiles(bs: seq<Block>, start: int, end: int, i: int, free: bool)
    requires Tiles(bs, start, end) && 0 <= i < |bs|
    ensures Tiles(SetFree(bs, i, free), start, end)
  {
    var bs' := SetFree(bs, i, free);
    forall k | 0 <= k < |bs'|
      ensures Sized(bs'[k])
    {
      assert Sized(bs[k]);
    }
    forall k | 0 <= k < |bs'| - 1
      ensures Adjoins(bs', k)
    {
      assert Adjoins(bs, k);
    }
  }

  lemma MergeTiles(bs: seq<Block>, start: int, end: int, i: int)
    requires Tiles(bs, start, end) && 0 <= i < |bs| - 1
    ensures Tiles(Merge(bs, i), start, end)
  {
    var bs' := Merge(bs, i);
    assert Adjoins(bs, i) && Sized(bs[i]) && Sized(bs[i + 1]);
    forall k | 0 <= k < |bs'|
      ensures Sized(bs'[k])
    {
      assert Sized(bs[if k <= i then k else k + 1]);
    }
    forall k | 0 <= k < |bs'| - 1
      ensures Adjoins(bs', k)
    {
      assert Adjoins(bs, if k < i then k else k + 1);
    }
  }

  lemma SplitTiles(bs: seq<Block>, start: int, end: int, i: int, n: int)
    requires Tiles(bs, start, end) && 0 <= i < |bs|
    requires n >= 0 && n % 8 == 0 && bs[i].size >= n + SPLIT_REST
    ensures Tiles(Split(bs, i, n), start, end)
  {
    var bs' := Split(bs, i, n);
    assert Sized(bs[i]);
    forall k | 0 <= k < |bs'|
      ensures Sized(bs'[k])
    {
      if k != i && k != i + 1 {
        assert Sized(bs[if k < i then k else k - 1]);
      }
    }
    forall k | 0 <= k < |bs'| - 1
      ensures Adjoins(bs', k)
    {
      if k != i {
        assert Adjoins(bs, if k < i then k else k - 1);
      }
    }
  }

  lemma AppendTiles(bs: seq<Block>, start: int, end: int, b: Block)
    requires Tiles(bs, start, end) && b.addr == end && Sized(b)
    ensures Tiles(bs + [b], start, EndOf(b))
  {
    var bs' := bs + [b];
    forall k | 0 <= k < |bs'|
      ensures Sized(bs'[k])
    {
      assert k < |bs| ==> Sized(bs[k]);
    }
    forall k | 0 <= k < |bs'| - 1
      ensures Adjoins(bs', k)
    {
      assert k < |bs| - 1 ==> Adjoins(bs, k);
    }
  }

  /** Every block has room for something. */
  ghost predicate Positive(bs: seq<Block>) {
    forall i :: 0 <= i < |bs| ==> bs[i].size > 0
  }

  // ---------------------------------------------------------------------
  // kfree
  // ---------------------------------------------------------------------

  /** Block i made free and merged with a free successor. */
  function FreeForward(bs: seq<Block>, i: int): (bs': seq<Block>)
    requires 0 <= i < |bs|
    ensures i < |bs'|
  {
    var freed := SetFree(bs, i, true);
    if i + 1 < |freed| && freed[i + 1].free then Merge(freed, i) else freed
  }

  /** Block i made free and merged with free neighbours on either side. */
  function FreeAt(bs: seq<Block>, i: int): (bs': seq<Block>)
    requires 0 <= i < |bs|
  {
    var forward := FreeForward(bs, i);
    if i > 0 && forward[i - 1].free then Merge(forward, i - 1) else forward
  }

  lemma FreeAtTiles(bs: seq<Block>, start: int, end: int, i: int)
    requires Tiles(bs, start, end) && 0 <= i < |bs|
    ensures Tiles(FreeAt(bs, i), start, end) && FreeAt(bs, i) != []
  {
    SetFreeTiles(bs, start, end, i, true);
    var freed := SetFree(bs, i, true);
    if i + 1 < |freed| && freed[i + 1].free {
      MergeTiles(freed, start, end, i);
    }
    var forward := FreeForward(bs, i);
    if i > 0 && forward[i - 1].free {
      MergeTiles(forward, start, end, i - 1);
    }
  }

  /** Only neighbours of i may both be free before; none are after. */
  ghost predicate CoalescedBut(bs: seq<Block>, i: int) {
    forall k :: 0 <= k < |bs| - 1 && k != i && k + 1 != i ==> NotBothFree(bs, k)
  }

  lemma FreeAtCoalesced(bs: seq<Block>, i: int)
    requires 0 <= i < |bs| && CoalescedBut(bs, i)
    requires i > 1 ==> NotBothFree(bs, i - 2)
    ensures Coalesced(FreeAt(bs, i))
  {
    var freed := SetFree(bs, i, true);
    var forward := FreeForward(bs, i);
    var bs' := FreeAt(bs, i);
    var merged := |bs| - |forward|;
    forall k | 0 <= k < |forward| - 1 && k + 1 != i
      ensures NotBothFree(forward, k)
    {
      if k < i {
        assert NotBothFree(bs, k);
      } else if k == i {
        if merged == 1 && i + 2 < |bs| {
          assert NotBothFree(bs, i + 1);
        }
      } else {
        assert NotBothFree(bs, k + merged);
      }
    }
    forall k | 0 <= k < |bs'| - 1
      ensures NotBothFree(bs', k)
    {
      if |bs'| == |forward| {
        assert k + 1 != i ==> NotBothFree(forward, k);
      } else {
        assert k + 1 < i ==> NotBothFree(forward, k);
        assert k + 1 >= i ==> NotBothFree(forward, k + 1);
      }
    }
  }

  // ---------------------------------------------------------------------
  // kmalloc
  // ---------------------------------------------------------------------

  predicate Fits(b: Block, n: int) {
    b.free && b.size >= n
  }

  /** The first fitting block at or after index i, or |bs|. */
  function FirstFit(bs: seq<Block>, n: int, i: int): (k: int)
    requires 0 <= i <= |bs|
    ensures i <= k <= |bs|
    ensures forall j :: i <= j < k ==> !Fits(bs[j], n)
    ensures k < |bs| ==> Fits(bs[k], n)
    decreases |bs| - i
  {
    if i == |bs| || Fits(bs[i], n) then i else FirstFit(bs, n, i + 1)
  }

  lemma {:induction false} FirstFitIs(bs: seq<Block>, n: int, i: int, k: int)
    requires 0 <= i <= k <= |bs|
    requires forall j :: i <= j < k ==> !Fits(bs[j], n)
    requires k < |bs| ==> Fits(bs[k], n)
    ensures FirstFit(bs, n, i) == k
    decreases k - i
  {
  }

  /** Block i taken for a request of n bytes, split when the rest is large enough. */
  function TakeAt(bs: seq<Block>, i: int, n: int): (bs': seq<Block>)
    requires 0 <= i < |bs|
    ensures i < |bs'|
  {
    SetFree(if bs[i].size >= n + SPLIT_REST then Split(bs, i, n) else bs, i, false)
  }

  lemma TakeAtWellFormed(bs: seq<Block>, start: int, end: int, i: int, n: int)
    requires WellFormed(bs, start, end) && 0 <= i < |bs| && Fits(bs[i], n) && n >= 0 && n % 8 == 0
    ensures WellFormed(TakeAt(bs, i, n), start, end)
    ensures TakeAt(bs, i, n)[i].addr == bs[i].addr && n <= TakeAt(bs, i, n)[i].size < n + 24
  {
    var bs' := TakeAt(bs, i, n);
    var split := bs[i].size >= n + SPLIT_REST;
    if split {
      SplitTiles(bs, start, end, i, n);
      SetFreeTiles(Split(bs, i, n), start, end, i, false);
    } else {
      SetFreeTiles(bs, start, end, i, false);
    }
    forall k | 0 <= k < |bs'| - 1
      ensures NotBothFree(bs', k)
    {
      if k < i - 1 || (k > i && !split) {
        assert NotBothFree(bs, k);
      } else if k > i && split {
        assert NotBothFree(bs, k - 1);
      }
    }
  }

  /** Taking a block leaves all sizes positive, unless an empty request splits its block. */
  lemma TakeAtPositive(bs: seq<Block>, i: int, n: int)
    requires Positive(bs) && 0 <= i < |bs| && Fits(bs[i], n) && n >= 0
    ensures Positive(TakeAt(bs, i, n)) <==> n > 0 || bs[i].size < SPLIT_REST
  {
    var bs' := TakeAt(bs, i, n);
    if bs[i].size >= n + SPLIT_REST {
      assert bs'[i].size == n;
      forall k | 0 <= k < |bs'| && k != i
        ensures bs'[k].size > 0
      {
        assert k > i + 1 ==> bs'[k] == bs[k - 1];
      }
    }
  }

  lemma FreeAtPositive(bs: seq<Block>, i: int)
    requires Positive(bs) && 0 <= i < |bs|
    ensures Positive(FreeAt(bs, i))
  {
  }

  lemma GrowPositive(bs: seq<Block>, end: int, bytes: int)
    requires Positive(bs) && bytes > HEADER
    ensures Positive(Grow(bs, end, bytes))
  {
    FreeAtPositive(bs + [Block(end, bytes - HEADER, true)], |bs|);
  }

  /** The heap grown by one free extension at its end, coalesced backwards. */
  function Grow(bs: seq<Block>, end: int, bytes: int): seq<Block> {
    FreeAt(bs + [Block(end, bytes - HEADER, true)], |bs|)
  }

  lemma GrowWellFormed(bs: seq<Block>, start: int, end: int, bytes: int)
    requires WellFormed(bs, start, end) && bytes > HEADER && bytes % 8 == 0
    ensures WellFormed(Grow(bs, end, bytes), start, end + bytes)
  {
    var b := Block(end, bytes - HEADER, true);
    AppendTiles(bs, start, end, b);
    FreeAtTiles(bs + [b], start, end + bytes, |bs|);
    forall k | 0 <= k < |bs + [b]| - 1 && k + 1 != |bs|
      ensures NotBothFree(bs + [b], k)
    {
      assert NotBothFree(bs, k);
    }
    FreeAtCoalesced(bs + [b], |bs|);
  }

  /** The extension, coalesced or not, is the last block, free, and the first that fits. */
  lemma GrowFits(bs: seq<Block>, end: int, bytes: int, n: int)
    requires FirstFit(bs, n, 0) == |bs| && 0 <= n <= bytes - HEADER
    requires forall k :: 0 <= k < |bs| ==> Sized(bs[k])
    ensures var grown := Grow(bs, end, bytes);
      grown != [] && FirstFit(grown, n, 0) == |grown| - 1 &&
      grown[|grown| - 1].size >= bytes - HEADER
  {
    var grown := Grow(bs, end, bytes);
    var k := |grown| - 1;
    if grown != bs + [Block(end, bytes - HEADER, true)] {
      assert Sized(bs[|bs| - 1]);
    }
    forall j | 0 <= j < k
      ensures !Fits(grown[j], n)
    {
      assert grown[j] == bs[j];
    }
    FirstFitIs(grown, n, 0, k);
  }

  /** Whole pages that hold n bytes and a header. */
  function PagesNeeded(n: nat): nat {
    (n + HEADER + PAGE_SIZE - 1) / PAGE_SIZE
  }

  lemma PagesHold(n: nat)
    ensures n + HEADER <= PagesNeeded(n) * PAGE_SIZE < n + HEADER + PAGE_SIZE
    ensures PagesNeeded(n) * PAGE_SIZE % 8 == 0
  {
    var q := PagesNeeded(n);
    assert q * PAGE_SIZE == 8 * (512 * q);
  }

  /** The list in which the request is finally served: the old one, or the grown one. */
  function Prepared(bs: seq<Block>, end: int, n: nat): seq<Block> {
    if FirstFit(bs, n, 0) < |bs| then bs else Grow(bs, end, PagesNeeded(n) * PAGE_SIZE)
  }

  function EndAfter(bs: seq<Block>, end: int, n: nat): int {
    if FirstFit(bs, n, 0) < |bs| then end else end + PagesNeeded(n) * PAGE_SIZE
  }

  lemma PreparedFits(bs: seq<Block>, start: int, end: int, n: nat)
    requires WellFormed(bs, start, end)
    ensures var p := Prepared(bs, end, n);
      WellFormed(p, start, EndAfter(bs, end, n)) && FirstFit(p, n, 0) < |p| &&
      (FirstFit(bs, n, 0) == |bs| ==> FirstFit(p, n, 0) == |p| - 1)
  {
    if FirstFit(bs, n, 0) == |bs| {
      PagesHold(n);
      GrowWellFormed(bs, start, end, PagesNeeded(n) * PAGE_SIZE);
      GrowFits(bs, end, PagesNeeded(n) * PAGE_SIZE, n);
    }
  }

  /** kmalloc of an already rounded size. */
  function Allocate(bs: seq<Block>, end: int, n: nat): seq<Block>
    requires FirstFit(Prepared(bs, end, n), n, 0) < |Prepared(bs, end, n)|
  {
    TakeAt(Prepared(bs, end, n), FirstFit(Prepared(bs, end, n), n, 0), n)
  }
}
