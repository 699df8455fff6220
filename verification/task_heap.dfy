/** Tasks on the heap: control blocks and stacks from kmalloc are exactly as far apart as the scheduler needs. */
module TaskHeap {
  import opened Words
  import opened Switch
  import opened Tasks
  import opened Scheduler
  import opened HeapBlocks
  import opened HeapCanon
  import opened HeapMemory
  import opened HeapSpace
  import opened HeapPromises
  import opened Heap
  import Runs = HeapRuns
  import Machine = TaskRuns

  predicate IsPayload(b: Block, ptr: int, n: int) {
    !b.free && b.addr + HEADER == ptr && b.size >= n
  }

  /** n bytes from ptr on are the start of a live block's payload. */
  ghost predicate Payload(bs: seq<Block>, ptr: int, n: int) {
    exists k :: 0 <= k < |bs| && IsPayload(bs[k], ptr, n)
  }

  /** The control block is a live allocation, and so is the stack, unless it lies below the heap like the boot stack. */
  ghost predicate OnHeap(bs: seq<Block>, t: Task) {
    Payload(bs, t.tcb, TCB_SIZE) &&
    (t.hi <= KHEAP_START || (t.hi == t.lo + STACK_SIZE && Payload(bs, t.lo, STACK_SIZE)))
  }

  ghost predicate Housed(bs: seq<Block>, ring: seq<Task>) {
    forall i :: 0 <= i < |ring| ==> OnHeap(bs, ring[i])
  }

  /** What kmalloc returns is a live payload inside the heap. */
  lemma ServedIsPayload(bs: seq<Block>, end: int, size: u32, bs': seq<Block>, end': int, ptr: int)
    requires WellFormed(bs, KHEAP_START, end) && size + 7 < TWO_32
    requires Served(bs, end, RoundUp(size), bs', end', ptr)
    ensures WellFormed(bs', KHEAP_START, end') && Payload(bs', ptr, size)
    ensures ptr % 4 == 0 && KHEAP_START < ptr && ptr + size <= end'
  {
    hide WellFormed, RoundUp, Served, Taken;
    ServedPayload(bs, end, size, bs', end', ptr);
    assert ptr == 4 * (2 * (ptr / 8));
    assert IsPayload(bs'[Taken(bs, end, RoundUp(size))], ptr, size);
  }

  lemma ServedEnd(bs: seq<Block>, end: int, n: nat, bs': seq<Block>, end': int, ptr: int)
    requires Served(bs, end, n, bs', end', ptr)
    ensures end <= end'
  {
    hide FirstFit, Allocate, Prepared;
    PagesHold(n);
  }

  /** It is apart from every payload live before, which stays live where it was. */
  lemma ServedIsFresh(bs: seq<Block>, end: int, size: u32, bs': seq<Block>, end': int, ptr: int, q: int, n: int)
    requires WellFormed(bs, KHEAP_START, end) && size + 7 < TWO_32
    requires Served(bs, end, RoundUp(size), bs', end', ptr) && Payload(bs, q, n)
    ensures Payload(bs', q, n) && Clear(q, n, ptr, size)
  {
    hide WellFormed, RoundUp, Served;
    var k :| 0 <= k < |bs| && IsPayload(bs[k], q, n);
    ServedPayload(bs, end, size, bs', end', ptr);
    ServedKeepsLive(bs, end, size, bs', end', ptr, k);
    var k' :| 0 <= k' < |bs'| && bs'[k'] == bs[k];
    assert IsPayload(bs'[k'], q, n);
  }

  lemma ServedApartFromTask(bs: seq<Block>, end: int, size: u32, bs': seq<Block>, end': int, ptr: int, t: Task)
    requires WellFormed(bs, KHEAP_START, end) && size + 7 < TWO_32
    requires Served(bs, end, RoundUp(size), bs', end', ptr) && OnHeap(bs, t)
    ensures OnHeap(bs', t) && Clear(t.tcb, TCB_SIZE, ptr, size) && Clear(t.lo, t.hi - t.lo, ptr, size)
  {
    hide WellFormed, RoundUp, Served;
    ServedIsPayload(bs, end, size, bs', end', ptr);
    ServedIsFresh(bs, end, size, bs', end', ptr, t.tcb, TCB_SIZE);
    if t.hi > KHEAP_START {
      ServedIsFresh(bs, end, size, bs', end', ptr, t.lo, STACK_SIZE);
    }
  }

  /** Two calls of kmalloc give a new task all the room the scheduler asks for. */
  lemma HeapGivesFreshTask(bs: seq<Block>, end: int, bs1: seq<Block>, end1: int, block: u32,
                           bs2: seq<Block>, end2: int, stack: u32, ring: seq<Task>, entry: u32)
    requires WellFormed(bs, KHEAP_START, end) && Housed(bs, ring) && ring != []
    requires Served(bs, end, RoundUp(TCB_SIZE), bs1, end1, block)
    requires Served(bs1, end1, RoundUp(STACK_SIZE), bs2, end2, stack) && end2 <= HEAP_LIMIT
    ensures stack + STACK_SIZE < TWO_32 && FreshTask(ring, NewTask(block, stack, entry))
    ensures Housed(bs2, Inserted(ring, NewTask(block, stack, entry)))
  {
    hide WellFormed, Served, RoundUp, Clear, OnHeap, Payload;
    ServedIsPayload(bs, end, TCB_SIZE, bs1, end1, block);
    ServedIsPayload(bs1, end1, STACK_SIZE, bs2, end2, stack);
    ServedIsFresh(bs1, end1, STACK_SIZE, bs2, end2, stack, block, TCB_SIZE);
    ServedEnd(bs1, end1, RoundUp(STACK_SIZE), bs2, end2, stack);
    var t := NewTask(block, stack, entry);
    PayloadsPlaced(bs2, end2, block, stack, entry);
    forall i | 0 <= i < |ring|
      ensures TasksApart(ring[i], t) && OnHeap(bs2, ring[i])
    {
      ServedApartFromTask(bs, end, TCB_SIZE, bs1, end1, block, ring[i]);
      ServedApartFromTask(bs1, end1, STACK_SIZE, bs2, end2, stack, ring[i]);
      ApartFromParts(ring[i], t);
    }
    forall i | 0 <= i < |Inserted(ring, t)|
      ensures OnHeap(bs2, Inserted(ring, t)[i])
    {
      if i != 1 {
        assert Inserted(ring, t)[i] == ring[if i == 0 then 0 else i - 1];
      }
    }
  }

  lemma PayloadsPlaced(bs: seq<Block>, end: int, block: u32, stack: u32, entry: u32)
    requires Payload(bs, block, TCB_SIZE) && Payload(bs, stack, STACK_SIZE) && Clear(block, TCB_SIZE, stack, STACK_SIZE)
    requires KHEAP_START < block && KHEAP_START < stack && block % 4 == 0 && stack % 4 == 0
    requires block + TCB_SIZE <= HEAP_LIMIT && stack + STACK_SIZE <= HEAP_LIMIT
    ensures var t := NewTask(block, stack, entry);
      OnHeap(bs, t) && Placed(t) && OwnApart(t)
  {
  }

  lemma ApartFromParts(s: Task, t: Task)
    requires Clear(s.tcb, TCB_SIZE, t.tcb, TCB_SIZE) && Clear(s.lo, s.hi - s.lo, t.tcb, TCB_SIZE)
    requires Clear(s.tcb, TCB_SIZE, t.lo, t.hi - t.lo) && Clear(s.lo, s.hi - s.lo, t.lo, t.hi - t.lo)
    ensures TasksApart(s, t)
  {
  }

  /** Every other heap call leaves the tasks housed; only freeing one of their own blocks would not. */
  lemma StepKeepsHoused(s: Runs.State, call: Runs.Call, ring: seq<Task>)
    requires WellFormed(s.blocks, KHEAP_START, s.end) && Runs.Allowed(s, call) && Housed(s.blocks, ring)
    requires call.Write? || LeavesTasks(call, ring)
    ensures Housed(Runs.Step(s, call).blocks, ring)
  {
    hide WellFormed, Runs.Allowed, Runs.Step, Payload;
    if call.Write? {
      Runs.WriteKeepsBlocks(s, call);
    } else {
      forall i | 0 <= i < |ring|
        ensures OnHeap(Runs.Step(s, call).blocks, ring[i])
      {
        assert OnHeap(s.blocks, ring[i]);
        StepKeepsPayload(s, call, ring[i].tcb, TCB_SIZE);
        if ring[i].hi > KHEAP_START {
          StepKeepsPayload(s, call, ring[i].lo, STACK_SIZE);
        }
      }
    }
  }

  lemma StepKeepsPayload(s: Runs.State, call: Runs.Call, ptr: int, n: int)
    requires WellFormed(s.blocks, KHEAP_START, s.end) && Runs.Allowed(s, call) && Payload(s.blocks, ptr, n)
    requires !call.Write? && (call.Free? ==> call.ptr != ptr)
    ensures Payload(Runs.Step(s, call).blocks, ptr, n)
  {
    hide WellFormed, Runs.Allowed, Runs.Step;
    var k :| 0 <= k < |s.blocks| && IsPayload(s.blocks[k], ptr, n);
    Runs.StepKeepsBlock(s, call, s.blocks[k]);
    var bs' := Runs.Step(s, call).blocks;
    var k' :| 0 <= k' < |bs'| && bs'[k'] == s.blocks[k];
    assert IsPayload(bs'[k'], ptr, n);
  }

  // ---------------------------------------------------------------------
  // One memory
  // ---------------------------------------------------------------------

  /** Tasks and heap see the same words. */
  ghost predicate Agrees(w: Words32, m: Memory) {
    forall a :: a in w ==> w[a] == m(a)
  }

  /** The heap words in another memory. */
  function Seen(w: Words32, m: Memory): Words32 {
    map a | a in w :: m(a)
  }

  predicate InPayloadOf(b: Block, a: int) {
    !b.free && b.addr + HEADER <= a < EndOf(b)
  }

  ghost predicate InLivePayload(bs: seq<Block>, a: int) {
    exists k :: 0 <= k < |bs| && InPayloadOf(bs[k], a)
  }

  /** All heap words that differ lie in live payloads. */
  ghost predicate PayloadWrites(w: Words32, bs: seq<Block>, m: Memory, m': Memory) {
    forall a :: a in w && m'(a) != m(a) ==> InLivePayload(bs, a)
  }

  /** Such writes leave the heap's list as it was. */
  lemma PayloadWritesKeepList(w: Words32, bs: seq<Block>, start: int, end: int, m: Memory, m': Memory)
    requires Represents(w, bs, start, end) && Agrees(w, m) && PayloadWrites(w, bs, m, m')
    ensures Represents(Seen(w, m'), bs, start, end) && Agrees(Seen(w, m'), m')
  {
    var w' := Seen(w, m');
    assert w'.Keys == w.Keys;
    CoversSame(w, w', start, end);
    forall j | 0 <= j < |bs|
      ensures NodeAt(w', bs, j)
    {
      HeaderCovered(w, bs, start, end, j);
      assert NodeAt(w, bs, j);
      HeaderInNoPayload(bs, start, end, j, bs[j].addr);
      HeaderInNoPayload(bs, start, end, j, bs[j].addr + 4);
      HeaderInNoPayload(bs, start, end, j, bs[j].addr + 8);
      HeaderInNoPayload(bs, start, end, j, bs[j].addr + 12);
    }
  }

  lemma HeaderInNoPayload(bs: seq<Block>, start: int, end: int, j: int, a: int)
    requires Tiles(bs, start, end) && 0 <= j < |bs| && bs[j].addr <= a < bs[j].addr + HEADER
    ensures !InLivePayload(bs, a)
  {
    assert Sized(bs[j]);
    forall k | 0 <= k < |bs|
      ensures !InPayloadOf(bs[k], a)
    {
      HeadersSeparate(bs, start, end, j, k);
    }
  }

  /** The words of a task on the heap lie in live payloads. */
  lemma TaskWords(w: Words32, bs: seq<Block>, start: int, end: int, t: Task, a: int)
    requires SpansWords(w, start, end) && KHEAP_START <= start && OnHeap(bs, t) && InBlockOrStack(t, a) && a in w
    ensures InLivePayload(bs, a)
  {
    if t.tcb <= a < t.tcb + TCB_SIZE {
      var k :| 0 <= k < |bs| && IsPayload(bs[k], t.tcb, TCB_SIZE);
      assert InPayloadOf(bs[k], a);
    } else {
      var k :| 0 <= k < |bs| && IsPayload(bs[k], t.lo, STACK_SIZE);
      assert InPayloadOf(bs[k], a);
    }
  }

  /** What a running task may write besides its own stack: memory outside the heap, or live payloads of its own. */
  ghost predicate HeapDiscipline(w: Words32, bs: seq<Block>, m: Memory, e: Machine.Event, t: Task) {
    e.Compute? ==> forall a :: a in w && e.m(a) != m(a) ==> t.lo <= a < t.hi || InLivePayload(bs, a)
  }

  /** Every step of the task machine writes the heap only in live payloads. */
  lemma StepWritesPayloads(s: Machine.State, e: Machine.Event, w: Words32, bs: seq<Block>, end: int)
    requires Machine.GoodState(s) && Machine.Allowed(s, e) && Machine.Enough(s, e) && SpansWords(w, KHEAP_START, end)
    requires Housed(bs, Machine.Step(s, e).ring) && HeapDiscipline(w, bs, s.mem, e, s.ring[s.cur])
    ensures PayloadWrites(w, bs, s.mem, Machine.Step(s, e).mem)
  {
    hide Good, OnHeap, OwnWrites, Switched, Created, FreshTask;
    var m' := Machine.Step(s, e).mem;
    forall a | a in w && m'(a) != s.mem(a)
      ensures InLivePayload(bs, a)
    {
      StepWord(s, e, w, bs, end, a);
    }
  }

  lemma StepWord(s: Machine.State, e: Machine.Event, w: Words32, bs: seq<Block>, end: int, a: int)
    requires Machine.GoodState(s) && Machine.Allowed(s, e) && Machine.Enough(s, e) && SpansWords(w, KHEAP_START, end)
    requires Housed(bs, Machine.Step(s, e).ring) && HeapDiscipline(w, bs, s.mem, e, s.ring[s.cur])
    requires a in w && Machine.Step(s, e).mem(a) != s.mem(a)
    ensures InLivePayload(bs, a)
  {
    hide OnHeap, Switched, Created;
    LaidAt(s.ring, s.cur);
    match e {
      case Compute(c, m) =>
        if s.ring[s.cur].lo <= a < s.ring[s.cur].hi {
          TaskWords(w, bs, KHEAP_START, end, s.ring[s.cur], a);
        }
      case Schedule(back) =>
        var next := After(|s.ring|, s.cur);
        var t := Machine.Step(s, e).ring[s.cur];
        SwitchedWords(s.mem, s.now, s.ring[s.cur].tcb, s.mem(s.ring[next].tcb + ESP), back, a);
        TaskWords(w, bs, KHEAP_START, end, t, a);
      case Create(entry, block, stack) =>
        var n := NewTask(block, stack, entry);
        assert TasksApart(s.ring[0], n);
        CreatedWords(s.mem, s.ring[0].tcb, block, stack, entry, |s.ring| + 1, a);
        assert Machine.Step(s, e).ring[0] == s.ring[0] && Machine.Step(s, e).ring[1] == n;
        if InBlockOrStack(n, a) {
          TaskWords(w, bs, KHEAP_START, end, n, a);
        } else {
          TaskWords(w, bs, KHEAP_START, end, s.ring[0], a);
        }
    }
  }

  /** So the heap's list survives whatever the tasks do. */
  lemma TasksKeepHeap(s: Machine.State, e: Machine.Event, w: Words32, bs: seq<Block>, end: int)
    requires Machine.GoodState(s) && Machine.Allowed(s, e) && Machine.Enough(s, e)
    requires Represents(w, bs, KHEAP_START, end) && Agrees(w, s.mem)
    requires Housed(bs, Machine.Step(s, e).ring) && HeapDiscipline(w, bs, s.mem, e, s.ring[s.cur])
    ensures var m' := Machine.Step(s, e).mem;
      Represents(Seen(w, m'), bs, KHEAP_START, end) && Agrees(Seen(w, m'), m')
  {
    hide Housed, HeapDiscipline, Machine.GoodState, Machine.Allowed, Machine.Step, Agrees;
    StepWritesPayloads(s, e, w, bs, end);
    PayloadWritesKeepList(w, bs, KHEAP_START, end, s.mem, Machine.Step(s, e).mem);
  }

  lemma PayloadBelow(bs: seq<Block>, end: int, ptr: int, n: int)
    requires Tiles(bs, KHEAP_START, end) && Payload(bs, ptr, n)
    ensures ptr + n <= end
  {
    var k :| 0 <= k < |bs| && IsPayload(bs[k], ptr, n);
    Placement(bs, KHEAP_START, end, k);
  }

  /** Block and stack of a task on the heap lie below its end. */
  lemma TaskBelow(bs: seq<Block>, end: int, t: Task)
    requires bs != [] && Tiles(bs, KHEAP_START, end) && OnHeap(bs, t)
    ensures t.tcb + TCB_SIZE <= end && t.hi <= end
  {
    PayloadBelow(bs, end, t.tcb, TCB_SIZE);
    if t.hi <= KHEAP_START {
      Placement(bs, KHEAP_START, end, 0);
      assert Sized(bs[0]);
    } else {
      PayloadBelow(bs, end, t.lo, STACK_SIZE);
    }
  }

  /** A call of kmalloc, or of kfree on a block that is no task's. */
  predicate LeavesTasks(call: Runs.Call, ring: seq<Task>) {
    !call.Write? && (call.Free? ==> forall i :: 0 <= i < |ring| ==> ring[i].tcb != call.ptr && ring[i].lo != call.ptr)
  }

  /** No word of a task changes when the payloads that the call spares are kept. */
  lemma TaskWordKept(w: Words32, w': Words32, bs: seq<Block>, end: int, call: Runs.Call, t: Task, a: int)
    requires SpansWords(w, KHEAP_START, end) && Runs.SparedKept(bs, w, w', call) && OnHeap(bs, t)
    requires LeavesTasks(call, [t]) && InBlockOrStack(t, a) && a in w
    ensures a in w' && w'[a] == w[a]
  {
    assert [t][0] == t;
    if t.tcb <= a < t.tcb + TCB_SIZE {
      var k :| 0 <= k < |bs| && IsPayload(bs[k], t.tcb, TCB_SIZE);
      assert PayloadKept(w, w', bs[k]);
    } else {
      var k :| 0 <= k < |bs| && IsPayload(bs[k], t.lo, STACK_SIZE);
      assert PayloadKept(w, w', bs[k]);
    }
  }

  /** And the tasks survive every heap call but the free of a block of theirs: no word of a task changes. */
  lemma HeapKeepsTasks(w: Words32, w': Words32, bs: seq<Block>, end: int, end': int, call: Runs.Call,
                       m: Memory, m': Memory, ring: seq<Task>)
    requires Housed(bs, ring) && Represents(w, bs, KHEAP_START, end) && SpansWords(w', KHEAP_START, end')
    requires Runs.SparedKept(bs, w, w', call) && LeavesTasks(call, ring)
    requires Agrees(w, m) && Agrees(w', m') && forall a :: a !in w' ==> m'(a) == m(a)
    ensures forall i, a :: 0 <= i < |ring| && InBlockOrStack(ring[i], a) ==> m'(a) == m(a)
  {
    hide OnHeap, Runs.SparedKept, Tiles, ListIn;
    forall i, a | 0 <= i < |ring| && InBlockOrStack(ring[i], a)
      ensures m'(a) == m(a)
    {
      TaskBelow(bs, end, ring[i]);
      if a in w {
        TaskWordKept(w, w', bs, end, call, ring[i], a);
      }
    }
  }

  /** One kmalloc of a run of calls, with what it promises. */
  method Allocated(heap: KernelHeap, size: u32, ghost rest: seq<Runs.Call>) returns (ptr: u32)
    requires heap.Valid() && size != 0 && Runs.RunAllowed(Runs.StateOf(heap), [Runs.Malloc(size)] + rest)
    modifies heap, heap.space`ram, heap.space.pmm`usedBlocks, heap.space.pmm.bitmap
    ensures heap.Valid() && Runs.RunAllowed(Runs.StateOf(heap), rest)
    ensures WellFormed(old(heap.blocks), KHEAP_START, old(heap.end)) && heap.end <= HEAP_LIMIT
    ensures Served(old(heap.blocks), old(heap.end), RoundUp(size), heap.blocks, heap.end, ptr)
  {
    Runs.ValidWellFormed(heap);
    hide KernelHeap.SpaceValid, Served, Runs.Allowed, Runs.Step, Runs.Pointer, WellFormed;
    assert ([Runs.Malloc(size)] + rest)[1..] == rest;
    Runs.PointerServes(Runs.StateOf(heap), size);
    ptr := Runs.Perform(heap, Runs.Malloc(size));
  }

  /** tasking_init with its kmalloc, on the boot stack. */
  method StartTasks(heap: KernelHeap, sys: TaskSystem, ghost stackLow: int, ghost stackHigh: int)
    returns (block: u32)
    requires heap.Valid() && Runs.Allowed(Runs.StateOf(heap), Runs.Malloc(20))
    requires sys.nextTid == 1 && 0 <= stackLow <= sys.cpu.esp <= stackHigh <= KHEAP_START
    requires stackLow % 4 == 0 && stackHigh % 4 == 0 && sys.cpu.esp % 4 == 0
    modifies heap, heap.space`ram, heap.space.pmm`usedBlocks, heap.space.pmm.bitmap, sys, sys.cpu`mem
    ensures heap.Valid() && sys.Valid() && |sys.ring| == 1 && Housed(heap.blocks, sys.ring)
    ensures sys.currentTask == block && FirstBlock(old(sys.cpu.mem), sys.cpu.mem, block)
  {
    hide KernelHeap.Valid, RoundUp, Served, Payload, Runs.Allowed;
    ghost var bs, end := heap.blocks, heap.end;
    block := Allocated(heap, TCB_SIZE, []);
    ServedIsPayload(bs, end, TCB_SIZE, heap.blocks, heap.end, block);
    sys.Init(block, stackLow, stackHigh);
  }

  /** The two calls of kmalloc of a creation. */
  method TwoBlocks(heap: KernelHeap, ghost ring: seq<Task>, ghost entry: u32) returns (block: u32, stack: u32)
    requires heap.Valid() && Housed(heap.blocks, ring) && ring != []
    requires Runs.RunAllowed(Runs.StateOf(heap), [Runs.Malloc(20), Runs.Malloc(4096)])
    modifies heap, heap.space`ram, heap.space.pmm`usedBlocks, heap.space.pmm.bitmap
    ensures heap.Valid() && stack + STACK_SIZE < TWO_32 && FreshTask(ring, NewTask(block, stack, entry))
    ensures Housed(heap.blocks, Inserted(ring, NewTask(block, stack, entry)))
  {
    hide KernelHeap.Valid, RoundUp, Served, Housed, FreshTask, NewTask, Inserted;
    ghost var bs, end := heap.blocks, heap.end;
    assert [Runs.Malloc(TCB_SIZE)] + [Runs.Malloc(STACK_SIZE)] == [Runs.Malloc(TCB_SIZE), Runs.Malloc(STACK_SIZE)];
    block := Allocated(heap, TCB_SIZE, [Runs.Malloc(STACK_SIZE)]);
    ghost var bs1, end1 := heap.blocks, heap.end;
    stack := Allocated(heap, STACK_SIZE, []);
    HeapGivesFreshTask(bs, end, bs1, end1, block, heap.blocks, heap.end, stack, ring, entry);
  }

  /** task_create with its two calls of kmalloc. */
  method CreateTask(heap: KernelHeap, sys: TaskSystem, entry: u32) returns (block: u32, stack: u32)
    requires heap.Valid() && sys.Valid() && Housed(heap.blocks, sys.ring) && sys.nextTid + 1 < TWO_32
    requires Runs.RunAllowed(Runs.StateOf(heap), [Runs.Malloc(20), Runs.Malloc(4096)])
    modifies heap, heap.space`ram, heap.space.pmm`usedBlocks, heap.space.pmm.bitmap
    modifies sys`nextTid, sys`ring, sys`cur, sys.cpu`mem
    ensures heap.Valid() && sys.Valid() && Housed(heap.blocks, sys.ring)
    ensures stack + STACK_SIZE < TWO_32 && old(sys.ring) != []
    ensures sys.ring == Inserted(old(sys.ring), NewTask(block, stack, entry)) && sys.cur == Shifted(old(sys.cur))
    ensures sys.cpu.mem == Created(old(sys.cpu.mem), sys.readyQueue, block, stack, entry, old(sys.nextTid))
  {
    InRing(sys.cpu.mem, sys.ring, sys.cur, sys.cpu.esp);
    hide KernelHeap.Valid, TaskSystem.Valid, Housed, FreshTask, NewTask, Created, Inserted, Shifted;
    block, stack := TwoBlocks(heap, sys.ring, entry);
    sys.Create(entry, block, stack);
  }
}
