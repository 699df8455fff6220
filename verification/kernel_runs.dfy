/** Tasks and heap over one memory: any interleaving of task steps and heap calls keeps both, and to the tasks a heap
    call is a computation of the task that makes it. */
module KernelRuns {
  import opened Words
  import opened Switch
  import opened Tasks
  import opened HeapBlocks
  import opened HeapMemory
  import opened HeapSpace
  import opened Heap
  import opened TaskHeap
  import Runs = HeapRuns
  import Machine = TaskRuns

  /** The tasks with the whole memory, the heap's list, and its words. */
  datatype Kernel = Kernel(tasks: Machine.State, heap: Runs.State, words: Words32)

  /** A step of the task machine, or a heap call of the running task, which leaves the heap with new words. */
  datatype Event =
    | Act(e: Machine.Event)
    | Call(call: Runs.Call, words: Words32)

  ghost predicate Sound(k: Kernel) {
    Machine.GoodState(k.tasks) && WellFormed(k.heap.blocks, KHEAP_START, k.heap.end) &&
    Represents(k.words, k.heap.blocks, KHEAP_START, k.heap.end) && Agrees(k.words, k.tasks.mem) &&
    Housed(k.heap.blocks, k.tasks.ring)
  }

  /** Memory with the heap's words in it. */
  function Overlaid(m: Memory, w: Words32): Memory {
    a => if a in w then w[a] else m(a)
  }

  /** What the tasks see of an event. */
  function AsTaskEvent(k: Kernel, v: Event): Machine.Event {
    match v
    case Act(e) => e
    case Call(call, words) => Machine.Compute(k.tasks.now, Overlaid(k.tasks.mem, words))
  }

  /** Tasks write their own stacks and live payloads and are created on live payloads; a heap call leaves the words that
      one call on the heap object leaves, and frees no block of a task. */
  ghost predicate Allowed(k: Kernel, v: Event) {
    match v
    case Act(e) =>
      Machine.Enough(k.tasks, e) && Machine.Allowed(k.tasks, e) &&
      Housed(k.heap.blocks, Machine.Step(k.tasks, e).ring) &&
      HeapDiscipline(k.words, k.heap.blocks, k.tasks.mem, e, k.tasks.ring[k.tasks.cur])
    case Call(call, words) =>
      k.tasks.cur < |k.tasks.ring| && Runs.Allowed(k.heap, call) && LeavesTasks(call, k.tasks.ring) &&
      Represents(words, Runs.Step(k.heap, call).blocks, KHEAP_START, Runs.Step(k.heap, call).end) &&
      Runs.SparedKept(k.heap.blocks, k.words, words, call)
  }

  function Step(k: Kernel, v: Event): Kernel
    requires Machine.Enough(k.tasks, AsTaskEvent(k, v))
  {
    var tasks := Machine.Step(k.tasks, AsTaskEvent(k, v));
    match v
    case Act(e) => Kernel(tasks, k.heap, Seen(k.words, tasks.mem))
    case Call(call, words) => Kernel(tasks, Runs.Step(k.heap, call), words)
  }

  lemma AllowedEnough(k: Kernel, v: Event)
    requires Allowed(k, v)
    ensures Machine.Enough(k.tasks, AsTaskEvent(k, v))
  {
  }

  /** To the tasks a heap call is a computation that writes no word of theirs. */
  lemma CallIsCompute(k: Kernel, call: Runs.Call, words: Words32)
    requires Sound(k) && Allowed(k, Call(call, words))
    ensures Machine.Allowed(k.tasks, AsTaskEvent(k, Call(call, words)))
    ensures var m' := Overlaid(k.tasks.mem, words);
      forall i, a :: 0 <= i < |k.tasks.ring| && InBlockOrStack(k.tasks.ring[i], a) ==> m'(a) == k.tasks.mem(a)
  {
    hide Housed, Runs.SparedKept, LeavesTasks, WellFormed, Runs.Allowed, Runs.Step, Tiles, ListIn, SpansWords;
    var m, m' := k.tasks.mem, Overlaid(k.tasks.mem, words);
    HeapKeepsTasks(k.words, words, k.heap.blocks, k.heap.end, Runs.Step(k.heap, call).end, call, m, m', k.tasks.ring);
  }

  lemma StepSound(k: Kernel, v: Event)
    requires Sound(k) && Allowed(k, v)
    ensures Machine.Enough(k.tasks, AsTaskEvent(k, v)) && Machine.Allowed(k.tasks, AsTaskEvent(k, v))
    ensures Sound(Step(k, v))
  {
    match v {
      case Act(e) =>
        ActSound(k, e);
      case Call(call, words) =>
        CallSound(k, call, words);
    }
  }

  lemma ActSound(k: Kernel, e: Machine.Event)
    requires Sound(k) && Allowed(k, Act(e))
    ensures Sound(Step(k, Act(e)))
  {
    hide Housed, HeapDiscipline, Machine.GoodState, Machine.Allowed, Machine.Step, Agrees, WellFormed, Represents;
    Machine.StepGood(k.tasks, e);
    TasksKeepHeap(k.tasks, e, k.words, k.heap.blocks, k.heap.end);
  }

  lemma CallSound(k: Kernel, call: Runs.Call, words: Words32)
    requires Sound(k) && Allowed(k, Call(call, words))
    ensures Machine.Allowed(k.tasks, AsTaskEvent(k, Call(call, words)))
    ensures Sound(Step(k, Call(call, words)))
  {
    hide Housed, Machine.GoodState, Machine.Allowed, WellFormed, Represents, Runs.Allowed, Runs.Step, LeavesTasks;
    hide Runs.SparedKept;
    CallIsCompute(k, call, words);
    Machine.StepGood(k.tasks, AsTaskEvent(k, Call(call, words)));
    Runs.StepWellFormed(k.heap, call);
    StepKeepsHoused(k.heap, call, k.tasks.ring);
  }

  ghost predicate RunAllowed(k: Kernel, vs: seq<Event>)
    decreases |vs|
  {
    vs == [] ||
    (Allowed(k, vs[0]) && Machine.Enough(k.tasks, AsTaskEvent(k, vs[0])) && RunAllowed(Step(k, vs[0]), vs[1..]))
  }

  ghost function Run(k: Kernel, vs: seq<Event>): Kernel
    requires RunAllowed(k, vs)
    decreases |vs|
  {
    if vs == [] then k else Run(Step(k, vs[0]), vs[1..])
  }

  /** The run as the tasks see it. */
  ghost function AsTaskRun(k: Kernel, vs: seq<Event>): seq<Machine.Event>
    requires RunAllowed(k, vs)
    decreases |vs|
  {
    if vs == [] then [] else [AsTaskEvent(k, vs[0])] + AsTaskRun(Step(k, vs[0]), vs[1..])
  }

  /** Over any interleaving on one memory the list, its words and every task stay sound, and the tasks go through a run
      of the task machine: all that holds over those runs holds here. */
  lemma {:induction false} RunKeepsBoth(k: Kernel, vs: seq<Event>)
    requires Sound(k) && RunAllowed(k, vs)
    ensures Sound(Run(k, vs))
    ensures Machine.RunAllowed(k.tasks, AsTaskRun(k, vs))
    ensures Run(k, vs).tasks == Machine.Run(k.tasks, AsTaskRun(k, vs))
    decreases |vs|
  {
    hide Sound, Allowed, Machine.Allowed, Machine.Step;
    if vs != [] {
      StepSound(k, vs[0]);
      RunKeepsBoth(Step(k, vs[0]), vs[1..]);
      var e, rest := AsTaskEvent(k, vs[0]), AsTaskRun(Step(k, vs[0]), vs[1..]);
      assert ([e] + rest)[0] == e && ([e] + rest)[1..] == rest;
    }
  }

  /** So a sleeping task survives heap calls and payload stores of the others: it first runs again in its own context
      and on an untouched stack. */
  lemma ResumesAmongCalls(k: Kernel, i: nat, vs: seq<Event>)
    requires Sound(k) && RunAllowed(k, vs) && i < |k.tasks.ring| && i != k.tasks.cur
    ensures Machine.RunAllowed(k.tasks, AsTaskRun(k, vs))
    ensures var r := Machine.FirstResume(k.tasks, i, AsTaskRun(k, vs));
      r.Resumed? ==> r.now == k.tasks.ring[i].ctx && Machine.StackKept(k.tasks.mem, r.mem, k.tasks.ring[i])
  {
    hide RunAllowed, AsTaskRun, Run, Machine.RunAllowed, Machine.FirstResume, Machine.GoodState;
    RunKeepsBoth(k, vs);
    Machine.ResumesWhereAsleep(k.tasks, i, AsTaskRun(k, vs));
  }

  lemma RunningTask(k: Kernel)
    requires Sound(k)
    ensures k.tasks.cur < |k.tasks.ring|
  {
  }

  lemma ValidList(heap: KernelHeap)
    requires heap.Valid()
    ensures Represents(heap.words, heap.blocks, KHEAP_START, heap.end)
  {
  }

  /** One call on the heap object is such an event: what it leaves is the kernel after it. */
  method PerformCall(heap: KernelHeap, call: Runs.Call, ghost k: Kernel) returns (ptr: u32, ghost v: Event)
    requires heap.Valid() && Sound(k) && k.heap == Runs.StateOf(heap) && k.words == heap.words
    requires Runs.Allowed(k.heap, call) && LeavesTasks(call, k.tasks.ring)
    modifies heap, heap.space`ram, heap.space.pmm`usedBlocks, heap.space.pmm.bitmap
    ensures heap.Valid() && Allowed(k, v) && Machine.Enough(k.tasks, AsTaskEvent(k, v)) && Sound(Step(k, v))
    ensures Step(k, v).heap == Runs.StateOf(heap) && Step(k, v).words == heap.words
    ensures ptr == Runs.Pointer(k.heap, call)
  {
    hide KernelHeap.Valid, Housed, Machine.GoodState, WellFormed, Represents, Runs.Allowed, Runs.Step, LeavesTasks;
    hide Runs.SparedKept, Runs.Pointer;
    RunningTask(k);
    ptr := Runs.Perform(heap, call);
    ValidList(heap);
    v := Call(call, heap.words);
    StepSound(k, v);
  }
}
