/** The scheduler object: one CPU, the ready ring in memory, creation, switching and listing. */
module Scheduler {
  import opened Words
  import opened Switch
  import opened Tasks

  /** The ring with the outgoing task asleep where it will resume. */
  function PutToSleep(ring: seq<Task>, cur: nat, c: Context, back: u32): seq<Task>
    requires cur < |ring| && 28 <= c.esp
  {
    ring[cur := ring[cur].(ctx := ResumePoint(c, back))]
  }

  /** Unmapped before the task system starts; no task sees it. */
  const NO_TASK: u32 := 0

  lemma InRing(m: Memory, ring: seq<Task>, cur: nat, esp: int)
    requires Good(m, ring, cur, esp)
    ensures cur < |ring|
  {
  }

  lemma InsertedParts(ring: seq<Task>, cur: nat, t: Task)
    requires cur < |ring|
    ensures var ring' := Inserted(ring, t);
      |ring'| == |ring| + 1 && ring'[0] == ring[0] && ring'[Shifted(cur)] == ring[cur]
  {
  }

  /** What a creation leaves, seen from the state before it. */
  lemma CreationReady(m: Memory, ring: seq<Task>, cur: nat, esp: int, entry: u32, block: u32, stackMem: u32)
    requires Good(m, ring, cur, esp) && |ring| + 2 < TWO_32 && stackMem + STACK_SIZE < TWO_32
    requires FreshTask(ring, NewTask(block, stackMem, entry))
    ensures cur < |ring|
    ensures var ring', cur' := Inserted(ring, NewTask(block, stackMem, entry)), Shifted(cur);
      |ring'| == |ring| + 1 && cur' < |ring'| && ring'[0].tcb == ring[0].tcb && ring'[cur'].tcb == ring[cur].tcb &&
      Good(Created(m, ring[0].tcb, block, stackMem, entry, |ring| + 1), ring', cur', esp)
    ensures Ring.Queue(Ring.Canonical(|ring| + 1), Shifted(cur)) ==
      Ring.Step(Ring.Queue(Ring.Canonical(|ring|), cur), Ring.Create)
  {
    InRing(m, ring, cur, esp);
    hide Good, FreshTask, Created, Inserted, Ring.Canonical, Ring.Step;
    InsertedParts(ring, cur, NewTask(block, stackMem, entry));
    QueueSteps(|ring|, cur);
    CreateKeepsGood(m, ring, cur, esp, block, stackMem, entry);
  }

  /** The pushed arguments lie where switch_to looks for them. */
  lemma CalledArguments(m: Memory, esp: int, oldSlot: u32, newEsp: u32, back: u32)
    ensures Called(m, esp, oldSlot, newEsp, back)(esp - 4) == newEsp
    ensures Called(m, esp, oldSlot, newEsp, back)(esp - 8) == oldSlot
    ensures Called(m, esp, oldSlot, newEsp, back)(esp - 12) == back
  {
  }

  /** All that tasking_init stores: id 1, the flag byte, and the link of the first task to itself. */
  ghost predicate FirstBlock(m: Memory, m': Memory, block: int) {
    m'(block + 8) == 1 && m'(block + 12) == block &&
    m'(block + 16) % 256 == 1 && m'(block + 16) / 256 == m(block + 16) / 256 &&
    forall a :: a !in {block + 8, block + 12, block + 16} ==> m'(a) == m(a)
  }

  /** One line of the task list. */
  datatype Line = Line(id: nat, esp: u32, running: bool)

  lemma BlocksDiffer(ring: seq<Task>, i: nat, j: nat)
    requires Laid(ring) && i < |ring| && j < |ring|
    ensures ring[i].tcb == ring[j].tcb <==> i == j
  {
    if i != j {
      assert TasksApart(ring[i], ring[j]);
    }
  }

  class TaskSystem {
    const cpu: Cpu
    var currentTask: u32
    var readyQueue: u32
    var nextTid: u32
    /** The stack the CPU would take on an interrupt from user mode. */
    var tssStack: u32
    /** The tasks from the queue head on; ctx of a sleeping task is where it resumes. */
    ghost var ring: seq<Task>
    ghost var cur: nat

    constructor (cpu: Cpu)
      ensures this.cpu == cpu && currentTask == NO_TASK && nextTid == 1
    {
      this.cpu := cpu;
      currentTask, readyQueue, nextTid, tssStack := NO_TASK, NO_TASK, 1, 0;
      ring, cur := [], 0;
    }

    ghost predicate Valid()
      reads this, cpu
    {
      Good(cpu.mem, ring, cur, cpu.esp) &&
      currentTask == ring[cur].tcb && readyQueue == ring[0].tcb && nextTid == |ring| + 1
    }

    /** The queue of ids this state stands for. */
    ghost function Queue(): Ring.Queue
      reads this
    {
      Ring.Queue(Ring.Canonical(|ring|), cur)
    }

    /** tasking_init: the running flow becomes task 1, linked to itself; block is fresh from the heap. */
    method Init(block: u32, ghost stackLow: int, ghost stackHigh: int)
      requires nextTid == 1
      requires var t := Task(block, stackLow, stackHigh, cpu.Now());
        Placed(t) && OwnApart(t) && stackLow <= cpu.esp <= stackHigh && cpu.esp % 4 == 0
      modifies this, cpu`mem
      ensures Valid() && ring == [Task(block, stackLow, stackHigh, cpu.Now())] && cur == 0
      ensures cpu.Now() == old(cpu.Now())
      ensures FirstBlock(old(cpu.mem), cpu.mem, block)
      ensures Queue() == Ring.Queue([1], 0)
    {
      hide SetByte;
      cpu.mem := Put(cpu.mem, block + ID, nextTid);
      nextTid := nextTid + 1;
      cpu.mem := Put(cpu.mem, block + RUNNING, SetByte(cpu.mem(block + RUNNING)));
      cpu.mem := Put(cpu.mem, block + NEXT, block);
      currentTask := block;
      readyQueue := block;
      ring, cur := [Task(block, stackLow, stackHigh, cpu.Now())], 0;
      assert BlockAt(cpu.mem, ring, 0);
    }

    /** task_create on two fresh allocations: a control block and a 4096-byte stack. */
    method Create(entry: u32, block: u32, stackMem: u32)
      requires Valid() && nextTid + 1 < TWO_32 && stackMem + STACK_SIZE < TWO_32
      requires FreshTask(ring, NewTask(block, stackMem, entry))
      modifies `nextTid, `ring, `cur, cpu`mem
      ensures Valid() && ring == Inserted(old(ring), NewTask(block, stackMem, entry)) && cur == Shifted(old(cur))
      ensures Queue() == Ring.Step(old(Queue()), Ring.Create)
      ensures cpu.mem == Created(old(cpu.mem), old(readyQueue), block, stackMem, entry, old(nextTid))
    {
      hide Good, FreshTask, Created, Inserted, NewTask, Shifted, Ring.Canonical, Ring.Step;
      CreationReady(cpu.mem, ring, cur, cpu.esp, entry, block, stackMem);
      ghost var ring', cur' := Inserted(ring, NewTask(block, stackMem, entry)), Shifted(cur);
      BuildTask(entry, block, stackMem);
      ring, cur := ring', cur';
    }

    /** The stores of a creation: block fields, the hand-built frame, and the two links. */
    method BuildTask(entry: u32, block: u32, stackMem: u32)
      requires nextTid + 1 < TWO_32 && stackMem + STACK_SIZE < TWO_32
      modifies `nextTid, cpu`mem
      ensures nextTid == old(nextTid) + 1
      ensures cpu.mem == Created(old(cpu.mem), readyQueue, block, stackMem, entry, old(nextTid))
    {
      hide Put, FrameBuilt;
      cpu.mem := Put(cpu.mem, block + ID, nextTid);
      nextTid := nextTid + 1;
      cpu.mem := Put(cpu.mem, block + KSTACK, stackMem);
      cpu.mem := FrameBuilt(cpu.mem, stackMem, entry);
      cpu.mem := Put(cpu.mem, block + ESP, stackMem + STACK_SIZE - FRAME);
      cpu.mem := Put(cpu.mem, block + NEXT, cpu.mem(readyQueue + NEXT));
      cpu.mem := Put(cpu.mem, readyQueue + NEXT, block);
    }

    /** The running task computes: any registers within its own stack, any writes to it or to memory no task owns. */
    method Compute(c: Context, m: Memory)
      requires Valid() && OwnWrites(cpu.mem, m, ring, cur)
      requires ring[cur].lo <= c.esp <= ring[cur].hi && c.esp % 4 == 0
      modifies cpu
      ensures Valid() && cpu.Now() == c && cpu.mem == m
    {
      ComputeKeepsGood(cpu.mem, m, ring, cur, cpu.esp, c.esp);
      cpu.esp, cpu.ebp, cpu.ebx, cpu.esi, cpu.edi, cpu.eip := c.esp, c.ebp, c.ebx, c.esi, c.edi, c.eip;
      cpu.mem := m;
    }

    /** schedule(): nothing before the start or with one task; otherwise the next task in the ring resumes. */
    method Schedule(back: u32)
      requires currentTask != NO_TASK ==> Valid() && ring[cur].lo + 28 <= cpu.esp
      modifies this, cpu
      ensures old(currentTask) == NO_TASK ==>
        cpu.Now() == old(cpu.Now()) && cpu.mem == old(cpu.mem) && currentTask == NO_TASK
      ensures old(currentTask) != NO_TASK ==> Valid() && Queue() == Ring.Step(old(Queue()), Ring.Schedule)
      ensures old(currentTask) != NO_TASK && |old(ring)| == 1 ==>
        cpu.Now() == old(cpu.Now()) && cpu.mem == old(cpu.mem) && ring == old(ring) && cur == old(cur)
      ensures old(currentTask) != NO_TASK && |old(ring)| > 1 ==>
        cur == After(|old(ring)|, old(cur)) &&
        cpu.Now() == old(ring)[cur].ctx &&
        ring == PutToSleep(old(ring), old(cur), old(cpu.Now()), back) &&
        (cur > 0 ==> tssStack == ring[cur].hi) &&
        cpu.mem == Switched(old(cpu.mem), old(cpu.Now()), old(currentTask), old(cpu.mem)(ring[cur].tcb + ESP), back)
    {
      hide Good, Switched, FrameAt, Ring.Canonical, Ring.Step;
      if currentTask == NO_TASK {
        return;
      }
      GoodSchedule();
      var oldTask := currentTask;
      var newTask := cpu.mem(currentTask + NEXT);
      if oldTask == newTask {
        return;
      }
      currentTask := newTask;
      tssStack := Wrap(cpu.mem(newTask + KSTACK) + STACK_SIZE);
      GoodSwitch(back);
      ghost var c, next := cpu.Now(), After(|ring|, cur);
      var newEsp := cpu.mem(newTask + ESP);
      CallSwitch(oldTask, newEsp, back);
      FrameDetermines(cpu.mem, newEsp, cpu.Now(), ring[next].ctx);
      ring, cur := PutToSleep(ring, cur, c, back), next;
    }

    /** What schedule() reads from the ring before it switches. */
    lemma GoodSchedule()
      requires Valid()
      ensures cur < |ring| && cpu.mem(currentTask + NEXT) == ring[After(|ring|, cur)].tcb
      ensures cpu.mem(currentTask + NEXT) == currentTask <==> |ring| == 1
      ensures After(|ring|, cur) > 0 ==>
        Wrap(cpu.mem(ring[After(|ring|, cur)].tcb + KSTACK) + STACK_SIZE) == ring[After(|ring|, cur)].hi
      ensures Ring.Queue(Ring.Canonical(|ring|), After(|ring|, cur)) == Ring.Step(Queue(), Ring.Schedule)
    {
      hide Ring.Canonical, Ring.Step, Asleep;
      QueueSteps(|ring|, cur);
      var next := After(|ring|, cur);
      assert BlockAt(cpu.mem, ring, cur) && BlockAt(cpu.mem, ring, next);
      assert Placed(ring[next]);
      if next != cur {
        assert TasksApart(ring[next], ring[cur]);
      }
    }

    /** The switch is possible and keeps the ring good. */
    lemma GoodSwitch(back: u32)
      requires Good(cpu.mem, ring, cur, cpu.esp) && |ring| > 1 && ring[cur].lo + 28 <= cpu.esp
      ensures 28 <= cpu.esp && 0 <= ring[cur].tcb < TWO_32
      ensures var next := After(|ring|, cur);
        var newEsp := cpu.mem(ring[next].tcb + ESP);
        var m' := Switched(cpu.mem, cpu.Now(), ring[cur].tcb, newEsp, back);
        newEsp + FRAME < TWO_32 && ring[cur].tcb != cpu.esp - 4 &&
        FrameAt(m', newEsp, ring[next].ctx) &&
        Good(m', PutToSleep(ring, cur, cpu.Now(), back), next, ring[next].ctx.esp)
    {
      var next := After(|ring|, cur);
      assert Placed(ring[cur]) && OwnApart(ring[cur]) && Placed(ring[next]) && Asleep(cpu.mem, ring[next]);
      SwitchKeepsGood(cpu.mem, ring, cur, cpu.Now(), back);
      SwitchedWords(cpu.mem, cpu.Now(), ring[cur].tcb, cpu.mem(ring[next].tcb + ESP), back, ring[next].tcb + ESP);
      assert TasksApart(ring[cur], ring[next]);
    }

    /** The compiled call: both arguments and the return address pushed, then switch_to. */
    method CallSwitch(oldSlot: u32, newEsp: u32, back: u32)
      requires 28 <= cpu.esp && newEsp + FRAME < TWO_32 && oldSlot != cpu.esp - 4
      modifies cpu
      ensures cpu.mem == Switched(old(cpu.mem), old(cpu.Now()), oldSlot, newEsp, back)
      ensures FrameAt(cpu.mem, newEsp, cpu.Now())
    {
      hide PushAll, Put, FrameAt;
      ghost var esp := cpu.esp;
      cpu.Push(newEsp);
      cpu.Push(oldSlot);
      cpu.Push(back);
      CalledArguments(old(cpu.mem), esp, oldSlot, newEsp, back);
      cpu.SwitchTo();
    }

    /** task_print_list: the lines met from the head on until the walk is back at the head. */
    method ListTasks() returns (lines: seq<Line>)
      requires Valid()
      ensures |lines| == |ring|
      ensures forall k :: 0 <= k < |ring| ==>
        lines[k] == Line(Ring.Canonical(|ring|)[k], cpu.mem(ring[k].tcb + ESP), k == cur)
    {
      hide Ring.Canonical, Asleep;
      var first := readyQueue;
      var curr := first;
      lines := [];
      ghost var k := 0;
      while true
        invariant 0 <= k < |ring| && curr == ring[k].tcb && |lines| == k
        invariant forall i :: 0 <= i < k ==>
          lines[i] == Line(Ring.Canonical(|ring|)[i], cpu.mem(ring[i].tcb + ESP), i == cur)
        decreases |ring| - k
      {
        assert BlockAt(cpu.mem, ring, k);
        BlocksDiffer(ring, k, cur);
        lines := lines + [Line(cpu.mem(curr + ID), cpu.mem(curr + ESP), curr == currentTask)];
        curr := cpu.mem(curr + NEXT);
        if k + 1 < |ring| {
          BlocksDiffer(ring, k + 1, 0);
        }
        if curr == first {
          break;
        }
        k := k + 1;
      }
    }
  }
}
