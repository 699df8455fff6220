/** Timer ticks between the stores of task_create and tasking_init, which run with interrupts on. */
module TaskTicks {
  import opened Words
  import opened Switch
  import opened Tasks

  datatype Store = Store(at: int, value: u32)

  /** Memory after the first k stores. */
  function Stored(m: Memory, stores: seq<Store>, k: nat): Memory
    requires k <= |stores|
  {
    if k == 0 then m else Put(Stored(m, stores, k - 1), stores[k - 1].at, stores[k - 1].value)
  }

  /** Memory after stores j to k - 1. */
  function StoredFrom(m: Memory, stores: seq<Store>, j: nat, k: nat): Memory
    requires j <= k <= |stores|
    decreases k
  {
    if k == j then m else Put(StoredFrom(m, stores, j, k - 1), stores[k - 1].at, stores[k - 1].value)
  }

  // ---------------------------------------------------------------------
  // task_create
  // ---------------------------------------------------------------------

  /** All stores of a creation but the last, which links the new task into the ring. */
  function QuietStores(second: u32, t: u32, s: u32, entry: u32, tid: u32): (stores: seq<Store>)
    requires s + STACK_SIZE < TWO_32
    ensures |stores| == 9
  {
    [Store(t + ID, tid), Store(t + KSTACK, s),
     Store(s + 4092, entry), Store(s + 4088, 0), Store(s + 4084, 0), Store(s + 4080, 0), Store(s + 4076, 0),
     Store(t + ESP, s + STACK_SIZE - FRAME), Store(t + NEXT, second)]
  }

  /** With the link, they are the creation. */
  lemma StoresAreCreation(m: Memory, head: int, t: u32, s: u32, entry: u32, tid: u32)
    requires s + STACK_SIZE < TWO_32
    requires Clear(t, TCB_SIZE, s, STACK_SIZE) && Clear(head, TCB_SIZE, s, STACK_SIZE)
    requires Clear(head, TCB_SIZE, t, TCB_SIZE)
    ensures Put(Stored(m, QuietStores(m(head + NEXT), t, s, entry, tid), 9), head + NEXT, t) ==
      Created(m, head, t, s, entry, tid)
  {
    var ws := QuietStores(m(head + NEXT), t, s, entry, tid);
    var m2 := Stored(m, ws, 2);
    assert m2 == Put(Stored(m, ws, 1), t + KSTACK, s) && Stored(m, ws, 1) == Put(m, t + ID, tid);
    var m4 := Stored(m, ws, 4);
    assert m4 == Put(Stored(m, ws, 3), s + 4088, 0) && Stored(m, ws, 3) == Put(m2, s + 4092, entry);
    var m6 := Stored(m, ws, 6);
    assert m6 == Put(Stored(m, ws, 5), s + 4080, 0) && Stored(m, ws, 5) == Put(m4, s + 4084, 0);
    var m8 := Stored(m, ws, 8);
    assert m8 == Put(Stored(m, ws, 7), t + ESP, s + STACK_SIZE - FRAME) && Stored(m, ws, 7) == Put(m6, s + 4076, 0);
    assert m8(head + NEXT) == m(head + NEXT);
  }

  predicate AllIn(stores: seq<Store>, t: Task) {
    forall k :: 0 <= k < |stores| ==> InBlockOrStack(t, stores[k].at)
  }

  lemma QuietStoresIn(second: u32, t: u32, s: u32, entry: u32, tid: u32)
    requires s + STACK_SIZE < TWO_32
    ensures AllIn(QuietStores(second, t, s, entry, tid), NewTask(t, s, entry))
  {
  }

  lemma {:induction false} StoredElsewhere(m: Memory, stores: seq<Store>, j: nat, k: nat, t: Task, a: int)
    requires j <= k <= |stores| && AllIn(stores, t) && !InBlockOrStack(t, a)
    ensures StoredFrom(m, stores, j, k)(a) == m(a)
    decreases k
  {
    if j < k {
      StoredElsewhere(m, stores, j, k - 1, t, a);
    }
  }

  lemma {:induction false} StoredIsFrom(m: Memory, stores: seq<Store>, k: nat)
    requires k <= |stores|
    ensures Stored(m, stores, k) == StoredFrom(m, stores, 0, k)
  {
    if k > 0 {
      StoredIsFrom(m, stores, k - 1);
    }
  }

  /** Words of a new task's block and stack belong to no task of the ring. */
  lemma FreshWords(ring: seq<Task>, t: Task, a: int)
    requires FreshTask(ring, t) && InBlockOrStack(t, a)
    ensures forall i :: 0 <= i < |ring| ==> !InBlockOrStack(ring[i], a)
  {
    forall i | 0 <= i < |ring|
      ensures !InBlockOrStack(ring[i], a)
    {
      assert TasksApart(ring[i], t);
    }
  }

  /** Between any two stores of a creation a tick finds the old ring, in a good state. */
  lemma TickDuringCreate(m: Memory, ring: seq<Task>, cur: nat, esp: int,
                         second: u32, t: u32, s: u32, entry: u32, k: nat)
    requires Good(m, ring, cur, esp) && s + STACK_SIZE < TWO_32 && |ring| + 1 < TWO_32 && k <= 9
    requires FreshTask(ring, NewTask(t, s, entry))
    ensures Good(Stored(m, QuietStores(second, t, s, entry, |ring| + 1), k), ring, cur, esp)
  {
    hide Good, FreshTask, QuietStores, InBlockOrStack, NewTask;
    InGood(m, ring, cur, esp);
    var ws, n := QuietStores(second, t, s, entry, |ring| + 1), NewTask(t, s, entry);
    QuietStoresIn(second, t, s, entry, |ring| + 1);
    StoredIsFrom(m, ws, k);
    var m' := Stored(m, ws, k);
    forall a | m'(a) != m(a)
      ensures forall i :: 0 <= i < |ring| ==> !InBlockOrStack(ring[i], a)
    {
      if InBlockOrStack(n, a) {
        FreshWords(ring, n, a);
      } else {
        StoredElsewhere(m, ws, 0, k, n, a);
      }
    }
    ComputeKeepsGood(m, m', ring, cur, esp, esp);
  }

  lemma InGood(m: Memory, ring: seq<Task>, cur: nat, esp: int)
    requires Good(m, ring, cur, esp)
    ensures cur < |ring| && ring[cur].lo <= esp <= ring[cur].hi && esp % 4 == 0
  {
  }

  lemma {:induction false} StoresInPlace(m: Memory, stores: seq<Store>, k: nat, a: int)
    requires k <= |stores| && forall j :: 0 <= j < k ==> m(stores[j].at) == stores[j].value
    ensures StoredFrom(m, stores, 0, k)(a) == m(a)
  {
    if k > 0 {
      StoresInPlace(m, stores, k - 1, a);
    }
  }

  /** Stores already in place can be left out. */
  lemma {:induction false} SkipStores(m: Memory, stores: seq<Store>, k: nat, n: nat, a: int)
    requires k <= n <= |stores| && forall j :: 0 <= j < k ==> m(stores[j].at) == stores[j].value
    ensures StoredFrom(m, stores, k, n)(a) == StoredFrom(m, stores, 0, n)(a)
    decreases n
  {
    if k < n {
      SkipStores(m, stores, k, n - 1, a);
    } else {
      StoresInPlace(m, stores, k, a);
    }
  }

  /** Interrupted after k stores and resumed in any good state of the same ring with its own words as it left them, the
      creation finishes as if it had run there without a break. */
  lemma InterruptedCreate(m: Memory, ring: seq<Task>, cur: nat, esp: int, t: u32, s: u32, entry: u32, k: nat)
    requires Good(m, ring, cur, esp) && s + STACK_SIZE < TWO_32 && |ring| + 1 < TWO_32 && k <= 9
    requires FreshTask(ring, NewTask(t, s, entry))
    requires var ws := QuietStores(m(ring[0].tcb + NEXT), t, s, entry, |ring| + 1);
      forall j :: 0 <= j < k ==> m(ws[j].at) == ws[j].value
    ensures var ws := QuietStores(m(ring[0].tcb + NEXT), t, s, entry, |ring| + 1);
      Good(Put(StoredFrom(m, ws, k, 9), ring[0].tcb + NEXT, t), Inserted(ring, NewTask(t, s, entry)), Shifted(cur), esp)
  {
    var head, n := ring[0].tcb, NewTask(t, s, entry);
    var ws := QuietStores(m(head + NEXT), t, s, entry, |ring| + 1);
    assert TasksApart(ring[0], n);
    var whole := Created(m, head, t, s, entry, |ring| + 1);
    StoresAreCreation(m, head, t, s, entry, |ring| + 1);
    CreateKeepsGood(m, ring, cur, esp, t, s, entry);
    hide Good, FreshTask, QuietStores, Created;
    var rest := Put(StoredFrom(m, ws, k, 9), head + NEXT, t);
    StoredIsFrom(m, ws, 9);
    forall a
      ensures rest(a) == whole(a)
    {
      SkipStores(m, ws, k, 9, a);
    }
    InGood(whole, Inserted(ring, n), Shifted(cur), esp);
    ComputeKeepsGood(whole, rest, Inserted(ring, n), Shifted(cur), esp, esp);
  }

  /** But a creation by another task between the two link stores is lost: the walk from the head passes it by. */
  lemma LostCreation(m: Memory, ring: seq<Task>, t: u32, t': u32, s': u32, entry': u32)
    requires ring != [] && s' + STACK_SIZE < TWO_32 && |ring| + 2 < TWO_32
    requires Clear(t, TCB_SIZE, t', TCB_SIZE) && Clear(t, TCB_SIZE, s', STACK_SIZE)
    requires Clear(t', TCB_SIZE, s', STACK_SIZE) && Clear(ring[0].tcb, TCB_SIZE, s', STACK_SIZE)
    requires Clear(ring[0].tcb, TCB_SIZE, t', TCB_SIZE) && Clear(ring[0].tcb, TCB_SIZE, t, TCB_SIZE)
    requires m(t + NEXT) == m(ring[0].tcb + NEXT)
    ensures var head := ring[0].tcb;
      var m' := Put(Created(m, head, t', s', entry', |ring| + 2), head + NEXT, t);
      m'(head + NEXT) == t && m'(t + NEXT) == m(head + NEXT) && m'(t' + NEXT) == m(head + NEXT)
  {
    CreatedWords(m, ring[0].tcb, t', s', entry', |ring| + 2, t + NEXT);
  }

  // ---------------------------------------------------------------------
  // tasking_init
  // ---------------------------------------------------------------------

  /** What schedule() looks at first: the current task and memory. */
  datatype Startup = Startup(currentTask: u32, mem: Memory)

  /** After k of the stores of tasking_init: current_task, id, running, next, ready_queue. */
  function StartupAfter(m: Memory, block: u32, tid: u32, k: nat): Startup
    requires k <= 5
  {
    var named := Put(m, block + ID, tid);
    var running := Put(named, block + RUNNING, SetByte(named(block + RUNNING)));
    if k == 0 then Startup(0, m)
    else if k == 1 then Startup(block, m)
    else if k == 2 then Startup(block, named)
    else if k == 3 then Startup(block, running)
    else Startup(block, Put(running, block + NEXT, block))
  }

  /** schedule() returns at once: there is no task, or the task is its own successor. */
  predicate TickHarmless(s: Startup) {
    s.currentTask == 0 || s.mem(s.currentTask + NEXT) == s.currentTask
  }

  /** The window of tasking_init, exactly: from the store of current_task to the store of its next link, unless the
      fresh block happens to hold its own address there. */
  lemma StartupWindow(m: Memory, block: u32, tid: u32, k: nat)
    requires block != 0 && k <= 5
    ensures TickHarmless(StartupAfter(m, block, tid, k)) <==> k == 0 || k >= 4 || m(block + NEXT) == block
  {
  }
}
