/** The block list is a function of the live allocations and the heap end alone. */
module HeapCanon {
  import opened Words
  import opened HeapBlocks

  function Kept(b: Block): seq<Block> {
    if b.free then [] else [b]
  }

  /** The allocations, lowest first. */
  function Live(bs: seq<Block>): seq<Block> {
    if bs == [] then [] else Kept(bs[0]) + Live(bs[1..])
  }

  /** The only coalesced list with these allocations between start and end. */
  function Canon(live: seq<Block>, start: int, end: int): seq<Block> {
    var gapEnd := if live == [] then end else live[0].addr;
    var gap := if start == gapEnd then [] else [Block(start, gapEnd - start - HEADER, true)];
    if live == [] then gap else gap + [live[0]] + Canon(live[1..], EndOf(live[0]), end)
  }

  lemma TailTiles(bs: seq<Block>, start: int, end: int)
    requires Tiles(bs, start, end) && bs != []
    ensures Tiles(bs[1..], EndOf(bs[0]), end)
  {
    forall i | 0 <= i < |bs[1..]|
      ensures Sized(bs[1..][i])
    {
      assert Sized(bs[i + 1]);
    }
    forall i | 0 <= i < |bs[1..]| - 1
      ensures Adjoins(bs[1..], i)
    {
      assert Adjoins(bs, i + 1);
    }
    assert |bs| > 1 ==> Adjoins(bs, 0);
  }

  lemma TailCoalesced(bs: seq<Block>)
    requires Coalesced(bs) && bs != []
    ensures Coalesced(bs[1..])
  {
    forall i | 0 <= i < |bs[1..]| - 1
      ensures NotBothFree(bs[1..], i)
    {
      assert NotBothFree(bs, i + 1);
    }
  }

  /** Every well-formed list is the canonical one of its own allocations. */
  lemma {:induction false} WellFormedIsCanonical(bs: seq<Block>, start: int, end: int)
    requires Tiles(bs, start, end) && Coalesced(bs)
    ensures bs == Canon(Live(bs), start, end)
    decreases |bs|
  {
    if bs != [] {
      TailTiles(bs, start, end);
      TailCoalesced(bs);
      WellFormedIsCanonical(bs[1..], EndOf(bs[0]), end);
      assert bs == [bs[0]] + bs[1..];
      assert Sized(bs[0]);
      if bs[0].free {
        FreeHead(bs, start, end);
      } else {
        assert Live(bs) == [bs[0]] + Live(bs[1..]);
        assert Live(bs)[1..] == Live(bs[1..]);
      }
    }
  }

  lemma FreeHead(bs: seq<Block>, start: int, end: int)
    requires Tiles(bs, start, end) && Coalesced(bs) && bs != [] && bs[0].free
    requires bs[1..] == Canon(Live(bs[1..]), EndOf(bs[0]), end)
    ensures bs == Canon(Live(bs), start, end)
  {
    var rest := bs[1..];
    assert Sized(bs[0]);
    assert Live(bs) == Live(rest);
    if rest == [] {
      assert bs == [bs[0]];
    } else {
      assert NotBothFree(bs, 0) && Adjoins(bs, 0);
      assert Live(rest) == [rest[0]] + Live(rest[1..]);
      CanonGap(Live(rest), bs[0], end);
      assert bs == [bs[0]] + rest;
    }
  }

  lemma CanonGap(live: seq<Block>, gap: Block, end: int)
    requires live != [] && gap.free && gap.size >= 0 && live[0].addr == EndOf(gap)
    ensures Canon(live, gap.addr, end) == [gap] + Canon(live, EndOf(gap), end)
  {
  }

  /** Two well-formed lists with the same allocations and the same end are the same list. */
  lemma SameLiveSameList(bs: seq<Block>, bs': seq<Block>, start: int, end: int)
    requires WellFormed(bs, start, end) && WellFormed(bs', start, end) && Live(bs) == Live(bs')
    ensures bs == bs'
  {
    WellFormedIsCanonical(bs, start, end);
    WellFormedIsCanonical(bs', start, end);
  }

  // ---------------------------------------------------------------------
  // What the operations do to the allocations
  // ---------------------------------------------------------------------

  lemma {:induction false} LiveConcat(a: seq<Block>, b: seq<Block>)
    ensures Live(a + b) == Live(a) + Live(b)
  {
    if a == [] {
      assert a + b == b;
    } else {
      assert (a + b)[1..] == a[1..] + b;
      LiveConcat(a[1..], b);
      assert Kept(a[0]) + (Live(a[1..]) + Live(b)) == Kept(a[0]) + Live(a[1..]) + Live(b);
    }
  }

  lemma LiveCons(b: Block, rest: seq<Block>)
    ensures Live([b] + rest) == Kept(b) + Live(rest)
  {
  }

  /** The allocations around one block of the list. */
  lemma LiveParts(left: seq<Block>, b: Block, right: seq<Block>)
    ensures Live(left + [b] + right) == Live(left) + Kept(b) + Live(right)
  {
    assert left + [b] + right == left + ([b] + right);
    LiveConcat(left, [b] + right);
    LiveCons(b, right);
  }

  lemma Around<T>(s: seq<T>, i: int)
    requires 0 <= i < |s|
    ensures s == s[..i] + [s[i]] + s[i + 1..]
  {
  }

  lemma AroundTwo<T>(s: seq<T>, i: int)
    requires 0 <= i < |s| - 1
    ensures s == s[..i] + [s[i]] + ([s[i + 1]] + s[i + 2..])
  {
  }

  lemma LiveAround(bs: seq<Block>, i: int)
    requires 0 <= i < |bs|
    ensures Live(bs) == Live(bs[..i]) + Kept(bs[i]) + Live(bs[i + 1..])
  {
    Around(bs, i);
    LiveParts(bs[..i], bs[i], bs[i + 1..]);
  }

  lemma LiveMerge(bs: seq<Block>, i: int)
    requires 0 <= i < |bs| - 1 && bs[i].free && bs[i + 1].free
    ensures Live(Merge(bs, i)) == Live(bs)
  {
    var left, right := bs[..i], bs[i + 2..];
    var merged := Block(bs[i].addr, bs[i].size + HEADER + bs[i + 1].size, true);
    AroundTwo(bs, i);
    assert Merge(bs, i) == left + [merged] + right;
    LiveParts(left, merged, right);
    LiveParts(left, bs[i], [bs[i + 1]] + right);
    LiveCons(bs[i + 1], right);
    assert Kept(merged) == [] && Kept(bs[i]) == [] && Kept(bs[i + 1]) == [];
    assert [] + Live(right) == Live(right);
  }

  lemma LiveSetFree(bs: seq<Block>, i: int, free: bool)
    requires 0 <= i < |bs|
    ensures Live(SetFree(bs, i, free)) == Live(bs[..i]) + Kept(bs[i].(free := free)) + Live(bs[i + 1..])
  {
    LiveParts(bs[..i], bs[i].(free := free), bs[i + 1..]);
    assert SetFree(bs, i, free) == bs[..i] + [bs[i].(free := free)] + bs[i + 1..];
  }

  lemma LiveSplit(bs: seq<Block>, i: int, n: int)
    requires 0 <= i < |bs|
    ensures Split(bs, i, n)[..i] == bs[..i]
    ensures Live(Split(bs, i, n)[i + 1..]) == Live(bs[i + 1..])
  {
  }

  lemma LiveMadeFree(bs: seq<Block>, i: int)
    requires 0 <= i < |bs|
    ensures Live(SetFree(bs, i, true)) == Live(bs[..i]) + Live(bs[i + 1..])
  {
    LiveSetFree(bs, i, true);
    assert Live(bs[..i]) + [] == Live(bs[..i]);
  }

  lemma LiveFreeForward(bs: seq<Block>, i: int)
    requires 0 <= i < |bs|
    ensures Live(FreeForward(bs, i)) == Live(SetFree(bs, i, true))
  {
    var freed := SetFree(bs, i, true);
    if i + 1 < |freed| && freed[i + 1].free {
      LiveMerge(freed, i);
    }
  }

  /** Freeing block i removes exactly that block from the allocations. */
  lemma LiveFreeAt(bs: seq<Block>, i: int)
    requires 0 <= i < |bs|
    ensures Live(FreeAt(bs, i)) == Live(bs[..i]) + Live(bs[i + 1..])
  {
    LiveMadeFree(bs, i);
    LiveFreeForward(bs, i);
    var forward := FreeForward(bs, i);
    if i > 0 && forward[i - 1].free {
      LiveMerge(forward, i - 1);
    }
  }

  /** Growing the heap changes no allocation. */
  lemma LiveGrow(bs: seq<Block>, end: int, bytes: int)
    ensures Live(Grow(bs, end, bytes)) == Live(bs)
  {
    var ext := bs + [Block(end, bytes - HEADER, true)];
    LiveFreeAt(ext, |bs|);
    assert ext[..|bs|] == bs && ext[|bs| + 1..] == [];
  }

  /** Taking free block i adds exactly one allocation, at its address. */
  lemma LiveTakeAt(bs: seq<Block>, i: int, n: int)
    requires 0 <= i < |bs| && bs[i].free
    ensures Live(TakeAt(bs, i, n)) == Live(bs[..i]) + [TakeAt(bs, i, n)[i]] + Live(bs[i + 1..])
  {
    if bs[i].size >= n + SPLIT_REST {
      LiveSplit(bs, i, n);
      LiveSetFree(Split(bs, i, n), i, false);
    } else {
      LiveSetFree(bs, i, false);
    }
  }

  // ---------------------------------------------------------------------
  // Frees by address
  // ---------------------------------------------------------------------

  function Other(b: Block, a: int): seq<Block> {
    if b.addr == a then [] else [b]
  }

  /** The allocations other than the one at address a. */
  function Without(live: seq<Block>, a: int): seq<Block> {
    if live == [] then [] else Other(live[0], a) + Without(live[1..], a)
  }

  lemma {:induction false} WithoutConcat(x: seq<Block>, y: seq<Block>, a: int)
    ensures Without(x + y, a) == Without(x, a) + Without(y, a)
  {
    if x == [] {
      assert x + y == y;
    } else {
      assert (x + y)[1..] == x[1..] + y;
      WithoutConcat(x[1..], y, a);
      Regroup(Other(x[0], a), Without(x[1..], a), Without(y, a));
    }
  }

  lemma WithoutOne(b: Block, a: int)
    ensures Without([b], a) == Other(b, a)
  {
  }

  lemma {:induction false} WithoutCommutes(live: seq<Block>, a: int, b: int)
    ensures Without(Without(live, a), b) == Without(Without(live, b), a)
  {
    if live != [] {
      var rest := live[1..];
      WithoutCommutes(rest, a, b);
      WithoutConcat(Other(live[0], a), Without(rest, a), b);
      WithoutConcat(Other(live[0], b), Without(rest, b), a);
      WithoutOne(live[0], a);
      WithoutOne(live[0], b);
    }
  }

  lemma {:induction false} WithoutAbsent(bs: seq<Block>, a: int)
    requires forall k :: 0 <= k < |bs| ==> bs[k].addr != a
    ensures Without(Live(bs), a) == Live(bs)
  {
    if bs != [] {
      assert bs[0].addr != a;
      assert forall k :: 0 <= k < |bs[1..]| ==> bs[1..][k].addr == bs[k + 1].addr;
      WithoutAbsent(bs[1..], a);
      WithoutConcat(Kept(bs[0]), Live(bs[1..]), a);
      WithoutOne(bs[0], a);
    }
  }

  lemma {:induction false} LiveHas(bs: seq<Block>, b: Block)
    ensures b in Live(bs) <==> b in bs && !b.free
  {
    if bs != [] {
      LiveHas(bs[1..], b);
      assert bs == [bs[0]] + bs[1..];
    }
  }

  lemma {:induction false} WithoutHas(live: seq<Block>, a: int, b: Block)
    ensures b in Without(live, a) <==> b in live && b.addr != a
  {
    if live != [] {
      WithoutHas(live[1..], a, b);
      assert live == [live[0]] + live[1..];
    }
  }

  /** The index of the block at address a, or |bs|. */
  function IndexOf(bs: seq<Block>, a: int): (k: int)
    ensures 0 <= k <= |bs|
    ensures k < |bs| ==> bs[k].addr == a
    ensures k == |bs| ==> forall j :: 0 <= j < |bs| ==> bs[j].addr != a
  {
    if bs == [] then 0 else if bs[0].addr == a then 0 else 1 + IndexOf(bs[1..], a)
  }

  predicate IsLive(bs: seq<Block>, a: int) {
    var k := IndexOf(bs, a);
    k < |bs| && !bs[k].free
  }

  lemma AddressesDistinct(bs: seq<Block>, start: int, end: int, i: int, j: int)
    requires Tiles(bs, start, end) && 0 <= i < |bs| && 0 <= j < |bs| && bs[i].addr == bs[j].addr
    ensures i == j
  {
    assert Sized(bs[i]) && Sized(bs[j]);
    if i < j {
      Order(bs, start, end, i, j);
    } else if j < i {
      Order(bs, start, end, j, i);
    }
  }

  /** kfree of the block at address a, a live one. */
  function FreeBlock(bs: seq<Block>, a: int): seq<Block>
    requires IsLive(bs, a)
  {
    FreeAt(bs, IndexOf(bs, a))
  }

  lemma FreeAtWellFormed(bs: seq<Block>, start: int, end: int, i: int)
    requires WellFormed(bs, start, end) && 0 <= i < |bs|
    ensures WellFormed(FreeAt(bs, i), start, end)
  {
    FreeAtTiles(bs, start, end, i);
    forall k | 0 <= k < |bs| - 1
      ensures NotBothFree(bs, k)
    {
    }
    FreeAtCoalesced(bs, i);
  }

  lemma FreeBlockLive(bs: seq<Block>, start: int, end: int, a: int)
    requires WellFormed(bs, start, end) && IsLive(bs, a)
    ensures WellFormed(FreeBlock(bs, a), start, end)
    ensures Live(FreeBlock(bs, a)) == Without(Live(bs), a)
  {
    var i := IndexOf(bs, a);
    FreeAtWellFormed(bs, start, end, i);
    LiveFreeAt(bs, i);
    LiveAround(bs, i);
    forall k | 0 <= k < |bs| && k != i
      ensures bs[k].addr != a
    {
      if bs[k].addr == a {
        AddressesDistinct(bs, start, end, i, k);
      }
    }
    WithoutAbsent(bs[..i], a);
    WithoutAbsent(bs[i + 1..], a);
    WithoutThree(Live(bs[..i]), bs[i], Live(bs[i + 1..]), a);
  }

  lemma WithoutThree(left: seq<Block>, b: Block, right: seq<Block>, a: int)
    requires Without(left, a) == left && Without(right, a) == right && b.addr == a
    ensures Without(left + [b] + right, a) == left + right
  {
    WithoutConcat(left + [b], right, a);
    WithoutConcat(left, [b], a);
    WithoutOne(b, a);
    assert left + [] == left;
  }

  predicate Holds(live: seq<Block>, a: int) {
    live != [] && (live[0].addr == a || Holds(live[1..], a))
  }

  lemma {:induction false} HoldsConcat(x: seq<Block>, y: seq<Block>, a: int)
    ensures Holds(x + y, a) <==> Holds(x, a) || Holds(y, a)
  {
    if x == [] {
      assert x + y == y;
    } else {
      assert (x + y)[1..] == x[1..] + y;
      HoldsConcat(x[1..], y, a);
    }
  }

  lemma HoldsOne(b: Block, a: int)
    ensures Holds([b], a) <==> b.addr == a
  {
  }

  lemma {:induction false} HoldsAbsent(bs: seq<Block>, a: int)
    requires forall k :: 0 <= k < |bs| ==> bs[k].addr != a
    ensures !Holds(Live(bs), a)
  {
    if bs != [] {
      assert bs[0].addr != a;
      assert forall k :: 0 <= k < |bs[1..]| ==> bs[1..][k].addr == bs[k + 1].addr;
      HoldsAbsent(bs[1..], a);
      HoldsConcat(Kept(bs[0]), Live(bs[1..]), a);
      HoldsOne(bs[0], a);
    }
  }

  /** An address is live exactly when the allocations hold it. */
  lemma IsLiveIff(bs: seq<Block>, start: int, end: int, a: int)
    requires Tiles(bs, start, end)
    ensures IsLive(bs, a) <==> Holds(Live(bs), a)
  {
    var i := IndexOf(bs, a);
    if i == |bs| {
      HoldsAbsent(bs, a);
    } else {
      forall k | 0 <= k < |bs| && k != i
        ensures bs[k].addr != a
      {
        if bs[k].addr == a {
          AddressesDistinct(bs, start, end, i, k);
        }
      }
      HoldsAbsent(bs[..i], a);
      HoldsAbsent(bs[i + 1..], a);
      LiveAround(bs, i);
      HoldsConcat(Live(bs[..i]) + Kept(bs[i]), Live(bs[i + 1..]), a);
      HoldsConcat(Live(bs[..i]), Kept(bs[i]), a);
      HoldsOne(bs[i], a);
    }
  }

  lemma {:induction false} WithoutKeeps(live: seq<Block>, a: int, b: int)
    requires a != b
    ensures Holds(Without(live, a), b) <==> Holds(live, b)
  {
    if live != [] {
      WithoutKeeps(live[1..], a, b);
      HoldsConcat(Other(live[0], a), Without(live[1..], a), b);
      HoldsOne(live[0], b);
    }
  }

  /** Frees commute. */
  lemma FreesCommute(bs: seq<Block>, start: int, end: int, a: int, b: int)
    requires WellFormed(bs, start, end) && IsLive(bs, a) && IsLive(bs, b) && a != b
    ensures IsLive(FreeBlock(bs, a), b) && IsLive(FreeBlock(bs, b), a)
    ensures FreeBlock(FreeBlock(bs, a), b) == FreeBlock(FreeBlock(bs, b), a)
  {
    StillLive(bs, start, end, a, b);
    StillLive(bs, start, end, b, a);
    FreeBlockLive(bs, start, end, a);
    FreeBlockLive(bs, start, end, b);
    FreeBlockLive(FreeBlock(bs, a), start, end, b);
    FreeBlockLive(FreeBlock(bs, b), start, end, a);
    WithoutCommutes(Live(bs), a, b);
    SameLiveSameList(FreeBlock(FreeBlock(bs, a), b), FreeBlock(FreeBlock(bs, b), a), start, end);
  }

  lemma StillLive(bs: seq<Block>, start: int, end: int, a: int, b: int)
    requires WellFormed(bs, start, end) && IsLive(bs, a) && IsLive(bs, b) && a != b
    ensures IsLive(FreeBlock(bs, a), b)
  {
    FreeBlockLive(bs, start, end, a);
    IsLiveIff(bs, start, end, b);
    IsLiveIff(FreeBlock(bs, a), start, end, b);
    WithoutKeeps(Live(bs), a, b);
  }

  /** With nothing allocated the heap is one free block. */
  lemma NothingLiveOneBlock(bs: seq<Block>, start: int, end: int)
    requires WellFormed(bs, start, end) && Live(bs) == []
    ensures bs == [Block(start, end - start - HEADER, true)]
  {
    WellFormedIsCanonical(bs, start, end);
  }

  // ---------------------------------------------------------------------
  // Allocation against the canonical form
  // ---------------------------------------------------------------------

  /** The block an allocation takes. */
  function Taken(bs: seq<Block>, end: int, n: nat): int {
    FirstFit(Prepared(bs, end, n), n, 0)
  }

  lemma AllocateWellFormed(bs: seq<Block>, start: int, end: int, n: nat)
    requires WellFormed(bs, start, end) && n >= 0 && n % 8 == 0
    ensures Taken(bs, end, n) < |Prepared(bs, end, n)|
    ensures WellFormed(Allocate(bs, end, n), start, EndAfter(bs, end, n))
    ensures n <= Allocate(bs, end, n)[Taken(bs, end, n)].size < n + SPLIT_REST
    ensures Allocate(bs, end, n)[Taken(bs, end, n)].addr == Prepared(bs, end, n)[Taken(bs, end, n)].addr
  {
    PreparedFits(bs, start, end, n);
    TakeAtWellFormed(Prepared(bs, end, n), start, EndAfter(bs, end, n), Taken(bs, end, n), n);
  }

  lemma LivePrepared(bs: seq<Block>, end: int, n: nat)
    ensures Live(Prepared(bs, end, n)) == Live(bs)
  {
    LiveGrow(bs, end, PagesNeeded(n) * PAGE_SIZE);
  }

  /** kmalloc then kfree gives back the very list the request was served from: the old one when it fitted. */
  lemma AllocateThenFree(bs: seq<Block>, start: int, end: int, n: nat)
    requires WellFormed(bs, start, end) && n >= 0 && n % 8 == 0
    requires Taken(bs, end, n) < |Prepared(bs, end, n)|
    ensures var a := Prepared(bs, end, n)[Taken(bs, end, n)].addr;
      IsLive(Allocate(bs, end, n), a) && FreeBlock(Allocate(bs, end, n), a) == Prepared(bs, end, n)
  {
    var p := Prepared(bs, end, n);
    var i := Taken(bs, end, n);
    var a := p[i].addr;
    var bs' := Allocate(bs, end, n);
    var end' := EndAfter(bs, end, n);
    AllocateWellFormed(bs, start, end, n);
    PreparedFits(bs, start, end, n);
    AddressFound(bs', start, end', i);
    FreeAtWellFormed(bs', start, end', i);
    LiveFreeAt(bs', i);
    LiveTakeAt(p, i, n);
    LiveAround(p, i);
    TakenParts(p, i, n);
    SameLiveSameList(FreeAt(bs', i), p, start, end');
  }

  lemma AddressFound(bs: seq<Block>, start: int, end: int, i: int)
    requires Tiles(bs, start, end) && 0 <= i < |bs|
    ensures IndexOf(bs, bs[i].addr) == i
  {
    var k := IndexOf(bs, bs[i].addr);
    if k < |bs| {
      AddressesDistinct(bs, start, end, i, k);
    }
  }

  lemma TakenParts(p: seq<Block>, i: int, n: int)
    requires 0 <= i < |p| && p[i].free
    ensures Live(TakeAt(p, i, n)[..i]) + Live(TakeAt(p, i, n)[i + 1..]) == Live(p)
    ensures !TakeAt(p, i, n)[i].free
  {
    LiveAround(p, i);
    assert Live(p[..i]) + [] == Live(p[..i]);
    var split := if p[i].size >= n + SPLIT_REST then Split(p, i, n) else p;
    LiveSplit(p, i, n);
    assert TakeAt(p, i, n)[..i] == split[..i] && TakeAt(p, i, n)[i + 1..] == split[i + 1..];
  }

  /** An allocation is added at its place; all others keep address and size. */
  lemma AllocateLive(bs: seq<Block>, start: int, end: int, n: nat)
    requires WellFormed(bs, start, end) && n >= 0 && n % 8 == 0
    requires Taken(bs, end, n) < |Prepared(bs, end, n)|
    ensures var i := Taken(bs, end, n);
      var bs' := Allocate(bs, end, n);
      Live(bs') == Live(bs'[..i]) + [bs'[i]] + Live(bs'[i + 1..]) &&
      Live(bs) == Live(bs'[..i]) + Live(bs'[i + 1..])
  {
    var p, i := Prepared(bs, end, n), Taken(bs, end, n);
    PreparedFits(bs, start, end, n);
    TakenParts(p, i, n);
    LiveAround(Allocate(bs, end, n), i);
    LivePrepared(bs, end, n);
  }

  /** Live blocks keep their index, address and size when the heap grows. */
  lemma GrowKeepsLive(bs: seq<Block>, end: int, bytes: int, j: int)
    requires 0 <= j < |bs| && !bs[j].free
    ensures var grown := Grow(bs, end, bytes); j < |grown| - 1 && grown[j] == bs[j]
  {
  }

  // ---------------------------------------------------------------------
  // Request sizes
  // ---------------------------------------------------------------------

  /** (size + 7) & ~7 in 32-bit arithmetic. */
  function RoundUp(size: u32): (n: u32)
    ensures n % 8 == 0
  {
    Wrap(size + 7) / 8 * 8
  }

  /** RoundUp is the mask of the code: all bits of the 32-bit sum but the lowest three. */
  lemma RoundUpBits(size: u32, j: nat)
    ensures Bit(RoundUp(size), j) == (j >= 3 && Bit(Wrap(size + 7), j))
  {
    var x := Wrap(size + 7);
    assert Power(3) == 8 && x == 8 * (x / 8) + x % 8;
    SumBits(x / 8, 0, 8, 3, j);
    SumBits(x / 8, x % 8, 8, 3, j);
    NoBits(j);
  }

  /** The rounded size holds the request exactly when the addition does not wrap; otherwise it is 0. */
  lemma RoundUpHolds(size: u32)
    ensures RoundUp(size) >= size <==> size + 7 < TWO_32
    ensures size + 7 < TWO_32 ==> size <= RoundUp(size) <= size + 7
    ensures size + 7 >= TWO_32 ==> RoundUp(size) == 0
  {
  }

  /** An allocation leaves all sizes positive iff it asks for something or takes a block too small to split. */
  lemma AllocatePositive(bs: seq<Block>, start: int, end: int, n: nat)
    requires WellFormed(bs, start, end) && Positive(bs) && n % 8 == 0
    ensures Positive(Prepared(bs, end, n)) && Taken(bs, end, n) < |Prepared(bs, end, n)|
    ensures Positive(Allocate(bs, end, n)) <==> n > 0 || Prepared(bs, end, n)[Taken(bs, end, n)].size < SPLIT_REST
  {
    PagesHold(n);
    PreparedFits(bs, start, end, n);
    if FirstFit(bs, n, 0) == |bs| {
      GrowPositive(bs, end, PagesNeeded(n) * PAGE_SIZE);
    }
    TakeAtPositive(Prepared(bs, end, n), Taken(bs, end, n), n);
  }

  /** The page count of a growth, computed in 32-bit arithmetic. */
  function PagesComputed(n: u32): u32 {
    Wrap(n + HEADER + PAGE_SIZE - 1) / PAGE_SIZE
  }

  /** The computed page count is the needed one exactly when that addition does not wrap. */
  lemma PagesComputedIff(n: u32)
    ensures PagesComputed(n) == PagesNeeded(n) <==> n + HEADER + PAGE_SIZE - 1 < TWO_32
  {
  }

  /** A block of n rounded bytes that was too small to split wastes less than 24 bytes in all. */
  lemma PayloadSize(size: u32, n: int, held: int)
    requires n == RoundUp(size) && n <= held < n + SPLIT_REST && held % 8 == 0
    ensures size + 7 < TWO_32 ==> size <= held <= size + 23
    ensures size + 7 >= TWO_32 ==> held < SPLIT_REST
  {
  }
}
