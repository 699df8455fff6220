/** Whole runs of page allocations and frees, over the flags of the managed pages. */
module PmmRuns {
  import opened Words
  import opened Pmm

  datatype Op = Alloc | Free(address: u32)

  /** `out` lists the pages handed out and not freed since, oldest first. */
  datatype State = State(pages: seq<bool>, out: seq<nat>)

  function PageOf(address: u32): nat {
    address / PAGE_SIZE
  }

  function Without(pages: seq<nat>, p: nat): (rest: seq<nat>)
    ensures forall q :: q in rest <==> q in pages && q != p
  {
    if pages == [] then []
    else if pages[0] == p then Without(pages[1..], p)
    else [pages[0]] + Without(pages[1..], p)
  }

  function Step(s: State, op: Op): (s': State)
    ensures |s'.pages| == |s.pages|
  {
    match op
    case Alloc =>
      var p := LowestFree(s.pages, 0);
      if p < |s.pages| then State(s.pages[p := true], s.out + [p]) else s
    case Free(address) =>
      var p := PageOf(address);
      if p < |s.pages| && s.pages[p] then State(s.pages[p := false], Without(s.out, p)) else s
  }

  function Run(s: State, ops: seq<Op>): State
    decreases |ops|
  {
    if ops == [] then s else Run(Step(s, ops[0]), ops[1..])
  }

  /** The address `AllocPage` returns in state `pages`. */
  function AllocAddress(pages: seq<bool>): u32
    requires |pages| < 0x10_0000
  {
    var p := LowestFree(pages, 0);
    if p < |pages| then p * PAGE_SIZE else 0
  }

  predicate NoDuplicates(s: seq<nat>) {
    forall i, j :: 0 <= i < j < |s| ==> s[i] != s[j]
  }

  /** The pages handed out are pairwise distinct and all marked used. */
  predicate Owned(s: State) {
    NoDuplicates(s.out) && forall k :: 0 <= k < |s.out| ==> s.out[k] < |s.pages| && s.pages[s.out[k]]
  }

  lemma {:induction false} WithoutNoDuplicates(s: seq<nat>, p: nat)
    requires NoDuplicates(s)
    ensures NoDuplicates(Without(s, p))
    ensures |Without(s, p)| == |s| - (if p in s then 1 else 0)
  {
    if s != [] {
      assert forall i, j :: 0 <= i < j < |s[1..]| ==> s[1..][i] == s[i + 1] && s[1..][j] == s[j + 1];
      WithoutNoDuplicates(s[1..], p);
      assert s[0] !in s[1..];
    }
  }

  lemma StepKeepsOwned(s: State, op: Op)
    requires Owned(s)
    ensures Owned(Step(s, op))
  {
    if op.Free? {
      var p := PageOf(op.address);
      WithoutNoDuplicates(s.out, p);
      var rest := Without(s.out, p);
      forall k | 0 <= k < |rest|
        ensures rest[k] in s.out && rest[k] != p
      {
        assert rest[k] in rest;
      }
    }
  }

  /** Two pages handed out and still held are never the same page, after any run. */
  lemma {:induction false} OutstandingPagesAreDistinct(s: State, ops: seq<Op>)
    requires Owned(s)
    ensures Owned(Run(s, ops)) && |Run(s, ops).pages| == |s.pages|
    decreases |ops|
  {
    if ops != [] {
      StepKeepsOwned(s, ops[0]);
      OutstandingPagesAreDistinct(Step(s, ops[0]), ops[1..]);
    }
  }

  /** Freeing the page just allocated restores every flag and every holding. */
  lemma FreeUndoesAlloc(s: State)
    requires |s.pages| < 0x10_0000 && Owned(s) && !Exhausted(s.pages)
    ensures Step(Step(s, Alloc), Free(AllocAddress(s.pages))) == s
  {
    var p := LowestFree(s.pages, 0);
    assert PageOf(AllocAddress(s.pages)) == p;
    assert s.pages[p := true][p := false] == s.pages;
    assert p !in s.out;
    WithoutSnoc(s.out, p);
  }

  lemma {:induction false} WithoutSnoc(s: seq<nat>, p: nat)
    requires p !in s
    ensures Without(s + [p], p) == s
  {
    if s == [] {
      assert [p][1..] == [];
    } else {
      assert (s + [p])[1..] == s[1..] + [p];
      WithoutSnoc(s[1..], p);
    }
  }

  /** A null result is ambiguous exactly when page 0 is free. */
  lemma NullResult(pages: seq<bool>)
    requires |pages| < 0x10_0000
    ensures AllocAddress(pages) == 0 <==> Exhausted(pages) || !pages[0]
  {
  }

  /** After one successful allocation and while page 0 is not freed, null means no free page. */
  lemma {:induction false} NullMeansExhausted(s: State, ops: seq<Op>)
    requires 0 < |s.pages| < 0x10_0000
    requires s.pages[0] || !Exhausted(s.pages)
    requires forall k :: 0 <= k < |ops| && ops[k].Free? ==> PageOf(ops[k].address) != 0
    ensures var later := Run(Step(s, Alloc), ops).pages;
      |later| == |s.pages| && (AllocAddress(later) == 0 <==> Exhausted(later))
  {
    PageZeroStaysUsed(Step(s, Alloc), ops);
    NullResult(Run(Step(s, Alloc), ops).pages);
  }

  lemma {:induction false} PageZeroStaysUsed(s: State, ops: seq<Op>)
    requires 0 < |s.pages| && s.pages[0]
    requires forall k :: 0 <= k < |ops| && ops[k].Free? ==> PageOf(ops[k].address) != 0
    ensures |Run(s, ops).pages| == |s.pages| && Run(s, ops).pages[0]
    decreases |ops|
  {
    if ops != [] {
      assert ops[0].Free? ==> PageOf(ops[0].address) != 0;
      PageZeroStaysUsed(Step(s, ops[0]), ops[1..]);
    }
  }

  /** Every free in the run names a page held at that point. */
  predicate Disciplined(s: State, ops: seq<Op>)
    decreases |ops|
  {
    ops == [] ||
    ((ops[0].Free? ==> PageOf(ops[0].address) in s.out) && Disciplined(Step(s, ops[0]), ops[1..]))
  }

  /** Conservation: the used pages are those used at the start plus those held now. */
  lemma {:induction false} UsedPagesConserved(s: State, ops: seq<Op>)
    requires Owned(s) && Disciplined(s, ops)
    ensures CountUsed(Run(s, ops).pages) - |Run(s, ops).out| == CountUsed(s.pages) - |s.out|
    decreases |ops|
  {
    if ops != [] {
      StepKeepsOwned(s, ops[0]);
      match ops[0] {
        case Alloc =>
          var p := LowestFree(s.pages, 0);
          if p < |s.pages| { CountUsedUpdate(s.pages, p, true); }
        case Free(address) =>
          var p := PageOf(address);
          CountUsedUpdate(s.pages, p, false);
          WithoutNoDuplicates(s.out, p);
      }
      UsedPagesConserved(Step(s, ops[0]), ops[1..]);
    }
  }

  /** The 32-bit address computed for a page: distinct pages keep distinct addresses iff at most 2^20 are managed. */
  function PageAddress(i: nat): u32 {
    Wrap(i * PAGE_SIZE)
  }

  lemma AddressesDistinctIff(maxBlocks: nat)
    ensures (forall i, j :: 0 <= i < j < maxBlocks ==> PageAddress(i) != PageAddress(j)) <==> maxBlocks <= 0x10_0000
  {
    if maxBlocks > 0x10_0000 {
      assert PageAddress(0) == PageAddress(0x10_0000);
    }
  }

  /** The addresses the allocations of a run return, in order. */
  function Results(s: State, ops: seq<Op>): seq<u32>
    requires |s.pages| < 0x10_0000
    decreases |ops|
  {
    if ops == [] then []
    else Result(s, ops[0]) + Results(Step(s, ops[0]), ops[1..])
  }

  function Result(s: State, op: Op): seq<u32>
    requires |s.pages| < 0x10_0000
  {
    if op.Alloc? then [AllocAddress(s.pages)] else []
  }

  method ExecuteOne(pmm: FrameAllocator, op: Op, ghost s: State) returns (result: seq<u32>)
    requires pmm.Valid() && s.pages == pmm.Pages()
    modifies pmm`usedBlocks, pmm.bitmap
    ensures pmm.Valid() && pmm.Pages() == Step(s, op).pages && |s.pages| < 0x10_0000
    ensures result == Result(s, op)
  {
    hide LowestFree, CountUsed, Bits;
    match op {
      case Alloc =>
        var address := pmm.AllocPage();
        result := [address];
      case Free(address) =>
        pmm.FreePage(address);
        result := [];
    }
  }

  /** The allocator object executes any run exactly as the page flags prescribe, and returns those addresses. */
  method Execute(pmm: FrameAllocator, ops: seq<Op>, ghost out: seq<nat>) returns (results: seq<u32>)
    requires pmm.Valid()
    modifies pmm`usedBlocks, pmm.bitmap
    ensures pmm.Valid() && |old(pmm.Pages())| < 0x10_0000
    ensures pmm.Pages() == Run(State(old(pmm.Pages()), out), ops).pages
    ensures pmm.usedBlocks == CountUsed(Run(State(old(pmm.Pages()), out), ops).pages)
    ensures results == Results(State(old(pmm.Pages()), out), ops)
  {
    hide Step, AllocAddress, CountUsed, Bits;
    ghost var start := State(pmm.Pages(), out);
    ghost var s := start;
    results := [];
    for i := 0 to |ops|
      invariant pmm.Valid() && pmm.Pages() == s.pages
      invariant Run(s, ops[i..]) == Run(start, ops)
      invariant results + Results(s, ops[i..]) == Results(start, ops)
    {
      assert ops[i..][0] == ops[i] && ops[i..][1..] == ops[i + 1..];
      ghost var rest := Results(Step(s, ops[i]), ops[i + 1..]);
      var result := ExecuteOne(pmm, ops[i], s);
      Regroup(results, result, rest);
      results := results + result;
      s := Step(s, ops[i]);
    }
    assert ops[|ops|..] == [] && results + [] == results;
  }

  predicate Holding(s: State, address: u32) {
    address % PAGE_SIZE == 0 && PageOf(address) in s.out
  }

  /** An allocation that finds a page returns the address of a page not held before and held from then on. */
  lemma ReturnedPageIsHeld(s: State)
    requires Owned(s) && |s.pages| < 0x10_0000 && !Exhausted(s.pages)
    ensures !Holding(s, AllocAddress(s.pages)) && Holding(Step(s, Alloc), AllocAddress(s.pages))
  {
    var p := LowestFree(s.pages, 0);
    assert PageOf(AllocAddress(s.pages)) == p;
    assert (s.out + [p])[|s.out|] == p;
  }
}
