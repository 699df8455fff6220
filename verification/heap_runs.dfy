/** Whole runs of kmalloc, kfree and client stores: the prescription, its invariants, and the object that follows it. */
module HeapRuns {
  import opened Words
  import opened Pmm
  import opened Paging
  import opened HeapSpace
  import opened HeapBlocks
  import opened HeapMemory
  import opened HeapCanon
  import opened HeapPromises
  import opened Heap

  datatype Call = Malloc(size: u32) | Free(ptr: u32) | Write(ptr: u32, offset: u32, value: Byte)

  /** The block list, the heap end, and the frames still free. */
  datatype State = State(blocks: seq<Block>, end: int, spare: int)

  function Pages(end: int): int {
    (end - KHEAP_START) / PAGE_SIZE
  }

  /** What a caller owes: a size with room and frames for it, a live pointer, or a byte of a live block. */
  predicate Allowed(s: State, call: Call) {
    match call
    case Malloc(size) =>
      size != 0 ==> FirstFit(s.blocks, RoundUp(size), 0) < |s.blocks| || Growable(s, PagesNeeded(RoundUp(size)))
    case Free(ptr) =>
      ptr != 0 ==> IsLive(s.blocks, ptr - HEADER)
    case Write(ptr, offset, value) =>
      InPayload(s.blocks, ptr, offset)
  }

  predicate Growable(s: State, pages: nat) {
    KHEAP_START <= s.end && Pages(s.end) + pages <= MAX_HEAP_PAGES &&
    s.spare >= FramesNeeded(Pages(s.end), Pages(s.end) + pages)
  }

  function Step(s: State, call: Call): State {
    match call
    case Malloc(size) =>
      if size == 0 then s
      else
        var n := RoundUp(size);
        if Taken(s.blocks, s.end, n) < |Prepared(s.blocks, s.end, n)| then
          var end' := EndAfter(s.blocks, s.end, n);
          State(Allocate(s.blocks, s.end, n), end', s.spare - Spent(s.end, end'))
        else s
    case Free(ptr) =>
      if ptr != 0 && IsLive(s.blocks, ptr - HEADER) then s.(blocks := FreeBlock(s.blocks, ptr - HEADER)) else s
    case Write(ptr, offset, value) => s
  }

  /** What the call returns; frees and stores return nothing. */
  function Pointer(s: State, call: Call): int {
    if !call.Malloc? || call.size == 0 then 0
    else
      var n := RoundUp(call.size);
      var k := Taken(s.blocks, s.end, n);
      if k < |Prepared(s.blocks, s.end, n)| then Allocate(s.blocks, s.end, n)[k].addr + HEADER else 0
  }

  function Pointers(s: State, calls: seq<Call>): seq<int>
    decreases |calls|
  {
    if calls == [] then [] else [Pointer(s, calls[0])] + Pointers(Step(s, calls[0]), calls[1..])
  }

  /** An allocation's pointer is one that serves the request. */
  lemma PointerServes(s: State, size: u32)
    requires WellFormed(s.blocks, KHEAP_START, s.end) && Allowed(s, Malloc(size)) && size != 0
    ensures var s' := Step(s, Malloc(size));
      Served(s.blocks, s.end, RoundUp(size), s'.blocks, s'.end, Pointer(s, Malloc(size)))
  {
    hide Allocate;
    RoundUpHolds(size);
    AllocateWellFormed(s.blocks, KHEAP_START, s.end, RoundUp(size));
  }

  /** Frames a move of the heap end costs, tables included. */
  function Spent(end: int, end': int): int {
    if KHEAP_START <= end <= end' then FramesNeeded(Pages(end), Pages(end')) else 0
  }

  function RunCalls(s: State, calls: seq<Call>): State
    decreases |calls|
  {
    if calls == [] then s else RunCalls(Step(s, calls[0]), calls[1..])
  }

  predicate RunAllowed(s: State, calls: seq<Call>)
    decreases |calls|
  {
    calls == [] || (Allowed(s, calls[0]) && RunAllowed(Step(s, calls[0]), calls[1..]))
  }

  lemma StepWellFormed(s: State, call: Call)
    requires WellFormed(s.blocks, KHEAP_START, s.end) && Allowed(s, call)
    ensures WellFormed(Step(s, call).blocks, KHEAP_START, Step(s, call).end)
  {
    match call {
      case Malloc(size) =>
        if size != 0 {
          RoundUpHolds(size);
          AllocateWellFormed(s.blocks, KHEAP_START, s.end, RoundUp(size));
        }
      case Free(ptr) =>
        if ptr != 0 {
          FreeBlockLive(s.blocks, KHEAP_START, s.end, ptr - HEADER);
        }
      case Write(ptr, offset, value) =>
    }
  }

  /** After any allowed run the list tiles the heap, is coalesced, and is the canonical list of its allocations. */
  lemma {:induction false} RunKeepsCanonicalForm(s: State, calls: seq<Call>)
    requires WellFormed(s.blocks, KHEAP_START, s.end) && RunAllowed(s, calls)
    ensures var s' := RunCalls(s, calls);
      WellFormed(s'.blocks, KHEAP_START, s'.end) && s'.blocks == Canon(Live(s'.blocks), KHEAP_START, s'.end)
    decreases |calls|
  {
    if calls == [] {
      WellFormedIsCanonical(s.blocks, KHEAP_START, s.end);
    } else {
      StepWellFormed(s, calls[0]);
      RunKeepsCanonicalForm(Step(s, calls[0]), calls[1..]);
    }
  }

  /** No request of the run is so large that its rounding wraps. */
  predicate NoWrap(calls: seq<Call>) {
    forall k :: 0 <= k < |calls| && calls[k].Malloc? ==> calls[k].size + 7 < TWO_32
  }

  /** Such a run keeps all block sizes positive. */
  lemma {:induction false} RunKeepsPositive(s: State, calls: seq<Call>)
    requires WellFormed(s.blocks, KHEAP_START, s.end) && RunAllowed(s, calls)
    requires Positive(s.blocks) && NoWrap(calls)
    ensures Positive(RunCalls(s, calls).blocks)
    decreases |calls|
  {
    hide Positive, WellFormed, Allowed, Step;
    if calls != [] {
      StepWellFormed(s, calls[0]);
      StepPositive(s, calls[0]);
      assert NoWrap(calls[1..]) by {
        assert forall k :: 0 <= k < |calls[1..]| ==> calls[1..][k] == calls[k + 1];
      }
      RunKeepsPositive(Step(s, calls[0]), calls[1..]);
    }
  }

  lemma StepPositive(s: State, call: Call)
    requires WellFormed(s.blocks, KHEAP_START, s.end) && Allowed(s, call) && Positive(s.blocks)
    requires call.Malloc? ==> call.size + 7 < TWO_32
    ensures Positive(Step(s, call).blocks)
  {
    hide Positive;
    match call {
      case Malloc(size) =>
        if size != 0 {
          RoundUpHolds(size);
          AllocatePositive(s.blocks, KHEAP_START, s.end, RoundUp(size));
        }
      case Free(ptr) =>
        if ptr != 0 {
          FreeAtPositive(s.blocks, IndexOf(s.blocks, ptr - HEADER));
        }
      case Write(ptr, offset, value) =>
    }
  }

  /** Two runs that end with the same allocations and the same heap end leave the same list. */
  lemma RunsMeet(s: State, calls: seq<Call>, calls': seq<Call>)
    requires WellFormed(s.blocks, KHEAP_START, s.end) && RunAllowed(s, calls) && RunAllowed(s, calls')
    requires Live(RunCalls(s, calls).blocks) == Live(RunCalls(s, calls').blocks)
    requires RunCalls(s, calls).end == RunCalls(s, calls').end
    ensures RunCalls(s, calls).blocks == RunCalls(s, calls').blocks
  {
    RunKeepsCanonicalForm(s, calls);
    RunKeepsCanonicalForm(s, calls');
  }

  /** The call is neither the free of block b nor a store into it. */
  predicate Spares(call: Call, b: Block) {
    match call
    case Malloc(size) => true
    case Free(ptr) => ptr - HEADER != b.addr
    case Write(ptr, offset, value) => ptr - HEADER != b.addr
  }

  predicate AllSpare(calls: seq<Call>, b: Block) {
    forall k :: 0 <= k < |calls| ==> Spares(calls[k], b)
  }

  predicate Has(bs: seq<Block>, b: Block) {
    b in bs && !b.free
  }

  /** Other calls leave a live block where it is. */
  lemma StepKeepsBlock(s: State, call: Call, b: Block)
    requires WellFormed(s.blocks, KHEAP_START, s.end) && Allowed(s, call) && Has(s.blocks, b) && Spares(call, b)
    ensures Has(Step(s, call).blocks, b)
  {
    match call {
      case Malloc(size) =>
        if size != 0 {
          MallocKeepsBlock(s.blocks, s.end, size, b);
        }
      case Free(ptr) =>
        if ptr != 0 {
          FreeBlockLive(s.blocks, KHEAP_START, s.end, ptr - HEADER);
          LiveHas(s.blocks, b);
          WithoutHas(Live(s.blocks), ptr - HEADER, b);
          LiveHas(FreeBlock(s.blocks, ptr - HEADER), b);
        }
      case Write(ptr, offset, value) =>
    }
  }

  lemma MallocKeepsBlock(bs: seq<Block>, end: int, size: u32, b: Block)
    requires WellFormed(bs, KHEAP_START, end) && Has(bs, b)
    ensures var n := RoundUp(size);
      Taken(bs, end, n) < |Prepared(bs, end, n)| && Has(Allocate(bs, end, n), b)
  {
    hide WellFormed, RoundUp, Prepared;
    var n := RoundUp(size);
    RoundUpHolds(size);
    AllocateWellFormed(bs, KHEAP_START, end, n);
    var j :| 0 <= j < |bs| && bs[j] == b;
    var bs' := Allocate(bs, end, n);
    ServedKeepsLive(bs, end, size, bs', EndAfter(bs, end, n), bs'[Taken(bs, end, n)].addr + HEADER, j);
  }

  /** The payloads of all live blocks the call spares are as before. */
  ghost predicate SparedKept(bs: seq<Block>, w: Words32, w': Words32, call: Call) {
    forall j :: 0 <= j < |bs| && !bs[j].free && Spares(call, bs[j]) ==> PayloadKept(w, w', bs[j])
  }

  /** The state of a heap object. */
  ghost function StateOf(heap: KernelHeap): State
    reads heap, heap.space.pmm
  {
    State(heap.blocks, heap.end, heap.space.pmm.maxBlocks - heap.space.pmm.usedBlocks)
  }

  /** The frames in use are a function of the heap end. */
  lemma UsedByEnd(heap: KernelHeap)
    requires heap.SpaceValid()
    ensures |heap.frames| == Pages(heap.end) && KHEAP_START <= heap.end
    ensures heap.space.pmm.usedBlocks == CountUsed(heap.base) + 2 + Pages(heap.end) + Tables(Pages(heap.end))
  {
  }

  /** One call on the object is one step of the prescription. */
  method Perform(heap: KernelHeap, call: Call) returns (ptr: u32)
    requires heap.Valid() && Allowed(StateOf(heap), call)
    modifies heap, heap.space`ram, heap.space.pmm`usedBlocks, heap.space.pmm.bitmap
    ensures heap.Valid() && heap.base == old(heap.base)
    ensures StateOf(heap) == Step(old(StateOf(heap)), call)
    ensures SparedKept(old(heap.blocks), old(heap.words), heap.words, call)
    ensures ptr == Pointer(old(StateOf(heap)), call)
  {
    hide PayloadKept, KernelHeap.SpaceValid, Allocate, Prepared, EndAfter, Taken, FreeBlock, IsLive;
    ghost var s := StateOf(heap);
    UsedByEnd(heap);
    match call {
      case Malloc(size) =>
        MallocStep(s, size);
        if size != 0 {
          EnoughForCall(heap, size);
        }
        var panic;
        ptr, panic := heap.Kmalloc(size);
        UsedByEnd(heap);
      case Free(p) =>
        heap.Kfree(p);
        ptr := 0;
      case Write(p, offset, value) =>
        heap.WritePayload(p, offset, value);
        ptr := 0;
    }
  }

  /** An allowed call has its frames, so the kernel neither panics nor is trapped. */
  lemma EnoughForCall(heap: KernelHeap, size: u32)
    requires heap.SpaceValid() && Allowed(StateOf(heap), Malloc(size)) && size != 0
    ensures heap.Provided(RoundUp(size)) && !heap.Starved(RoundUp(size))
  {
    UsedByEnd(heap);
    var n := RoundUp(size);
    if FirstFit(heap.blocks, n, 0) == |heap.blocks| {
      PagesHold(n);
      SufficeIsSafe(heap.Spare(), |heap.frames|, PagesNeeded(n));
    }
  }

  lemma MallocStep(s: State, size: u32)
    requires WellFormed(s.blocks, KHEAP_START, s.end) && Allowed(s, Malloc(size)) && KHEAP_START <= s.end
    ensures size != 0 ==>
      var n := RoundUp(size);
      Taken(s.blocks, s.end, n) < |Prepared(s.blocks, s.end, n)| &&
      Step(s, Malloc(size)) == State(Allocate(s.blocks, s.end, n), EndAfter(s.blocks, s.end, n),
        s.spare - FramesNeeded(Pages(s.end), Pages(EndAfter(s.blocks, s.end, n)))) &&
      Pointer(s, Malloc(size)) == Allocate(s.blocks, s.end, n)[Taken(s.blocks, s.end, n)].addr + HEADER
  {
    if size != 0 {
      RoundUpHolds(size);
      AllocateWellFormed(s.blocks, KHEAP_START, s.end, RoundUp(size));
    }
  }

  /** The heap object carries out every allowed run, staying valid: all that Valid says holds in every reachable state.
      A live block b that the run neither frees nor writes is still there, with its bytes. */
  method PerformAll(heap: KernelHeap, calls: seq<Call>, ghost b: Block) returns (ptrs: seq<u32>)
    requires heap.Valid() && RunAllowed(StateOf(heap), calls)
    modifies heap, heap.space`ram, heap.space.pmm`usedBlocks, heap.space.pmm.bitmap
    ensures heap.Valid() && heap.base == old(heap.base)
    ensures StateOf(heap) == RunCalls(old(StateOf(heap)), calls)
    ensures ptrs == Pointers(old(StateOf(heap)), calls)
    ensures ForeignKept(old(heap.space.ram), heap.space.ram, heap.base)
    ensures Has(old(heap.blocks), b) && AllSpare(calls, b) ==>
      Has(heap.blocks, b) && PayloadKept(old(heap.words), heap.words, b)
  {
    hide KernelHeap.Valid, Step, Allowed, PayloadKept, Pointer, ForeignKept;
    ghost var m0, base := heap.space.ram, heap.base;
    OriginKept(heap);
    ghost var watched := Has(heap.blocks, b) && AllSpare(calls, b);
    SameWords(heap.words, b);
    ptrs := [];
    for i := 0 to |calls|
      invariant heap.Valid() && heap.base == old(heap.base)
      invariant RunAllowed(StateOf(heap), calls[i..])
      invariant RunCalls(StateOf(heap), calls[i..]) == RunCalls(old(StateOf(heap)), calls)
      invariant ptrs + Pointers(StateOf(heap), calls[i..]) == Pointers(old(StateOf(heap)), calls)
      invariant watched ==> Has(heap.blocks, b) && PayloadKept(old(heap.words), heap.words, b)
    {
      assert calls[i..][0] == calls[i] && calls[i..][1..] == calls[i + 1..];
      ghost var w := heap.words;
      if watched {
        ValidWellFormed(heap);
        StepKeepsBlock(StateOf(heap), calls[i], b);
      }
      ghost var rest := Pointers(Step(StateOf(heap), calls[i]), calls[i + 1..]);
      var ptr := Perform(heap, calls[i]);
      Regroup(ptrs, [ptr], rest);
      ptrs := ptrs + [ptr];
      if watched {
        PayloadThrough(old(heap.words), w, heap.words, b);
      }
    }
    assert calls[|calls|..] == [] && ptrs + [] == ptrs;
    OriginKept(heap);
    ForeignThrough(heap.origin, m0, heap.space.ram, base);
  }

  lemma OriginKept(heap: KernelHeap)
    requires heap.Valid()
    ensures ForeignKept(heap.origin, heap.space.ram, heap.base)
  {
  }

  lemma ForeignThrough(m0: Ram, m: Ram, m': Ram, base: seq<bool>)
    requires ForeignKept(m0, m, base) && ForeignKept(m0, m', base)
    ensures ForeignKept(m, m', base)
  {
  }

  lemma WriteKeepsBlocks(s: State, call: Call)
    requires call.Write?
    ensures Step(s, call) == s
  {
  }

  lemma SameWords(w: Words32, b: Block)
    ensures PayloadKept(w, w, b)
  {
  }

  lemma ValidWellFormed(heap: KernelHeap)
    requires heap.Valid()
    ensures WellFormed(heap.blocks, KHEAP_START, heap.end)
  {
  }
}
