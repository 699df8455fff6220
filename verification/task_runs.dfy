/** Whole runs of the scheduler: every suspended task resumes, exactly where it stood, on an untouched stack. */
module TaskRuns {
  import opened Words
  import opened Switch
  import opened Tasks
  import opened Scheduler

  /** The running task computes up to new registers and memory, calls schedule(), or creates a task. */
  datatype Event =
    | Compute(c: Context, m: Memory)
    | Schedule(back: u32)
    | Create(entry: u32, block: u32, stack: u32)

  /** Memory, the ring with every sleeping task's context, the running task, and the registers. */
  datatype State = State(mem: Memory, ring: seq<Task>, cur: nat, now: Context)

  ghost predicate GoodState(s: State) {
    Good(s.mem, s.ring, s.cur, s.now.esp)
  }

  /** The numbers an event computes with are words. */
  predicate Enough(s: State, e: Event) {
    s.cur < |s.ring| &&
    match e
    case Compute(c, m) => true
    case Schedule(back) => 28 <= s.now.esp && 0 <= s.ring[s.cur].tcb < TWO_32
    case Create(entry, block, stack) => stack + STACK_SIZE < TWO_32 && |s.ring| + 2 < TWO_32
  }

  /** What a running task owes: its own stack and memory only, room to call, and fresh blocks for new tasks. */
  ghost predicate Allowed(s: State, e: Event) {
    s.cur < |s.ring| &&
    match e
    case Compute(c, m) =>
      OwnWrites(s.mem, m, s.ring, s.cur) && s.ring[s.cur].lo <= c.esp <= s.ring[s.cur].hi && c.esp % 4 == 0
    case Schedule(back) => s.ring[s.cur].lo + 28 <= s.now.esp
    case Create(entry, block, stack) =>
      stack + STACK_SIZE < TWO_32 && |s.ring| + 2 < TWO_32 && FreshTask(s.ring, NewTask(block, stack, entry))
  }

  function Step(s: State, e: Event): State
    requires Enough(s, e)
  {
    match e
    case Compute(c, m) => s.(mem := m, now := c)
    case Schedule(back) =>
      var next := After(|s.ring|, s.cur);
      if |s.ring| == 1 then s
      else State(Switched(s.mem, s.now, s.ring[s.cur].tcb, s.mem(s.ring[next].tcb + ESP), back),
                 PutToSleep(s.ring, s.cur, s.now, back), next, s.ring[next].ctx)
    case Create(entry, block, stack) =>
      State(Created(s.mem, s.ring[0].tcb, block, stack, entry, |s.ring| + 1),
            Inserted(s.ring, NewTask(block, stack, entry)), Shifted(s.cur), s.now)
  }

  ghost predicate RunAllowed(s: State, es: seq<Event>)
    decreases |es|
  {
    es == [] || (Enough(s, es[0]) && Allowed(s, es[0]) && RunAllowed(Step(s, es[0]), es[1..]))
  }

  ghost function Run(s: State, es: seq<Event>): State
    requires RunAllowed(s, es)
    decreases |es|
  {
    if es == [] then s else Run(Step(s, es[0]), es[1..])
  }

  lemma StepGood(s: State, e: Event)
    requires GoodState(s) && Allowed(s, e)
    ensures Enough(s, e) && GoodState(Step(s, e))
  {
    hide Created, Switched, BlockAt, Asleep, FreshTask, OwnWrites;
    assert Placed(s.ring[s.cur]);
    match e {
      case Compute(c, m) =>
        ComputeKeepsGood(s.mem, m, s.ring, s.cur, s.now.esp, c.esp);
      case Schedule(back) =>
        if |s.ring| > 1 {
          SwitchKeepsGood(s.mem, s.ring, s.cur, s.now, back);
        }
      case Create(entry, block, stack) =>
        CreateKeepsGood(s.mem, s.ring, s.cur, s.now.esp, block, stack, entry);
    }
  }

  lemma AllowedEnough(s: State, e: Event)
    requires GoodState(s) && Allowed(s, e)
    ensures Enough(s, e) && s.ring[s.cur].tcb != NO_TASK
  {
    assert Placed(s.ring[s.cur]);
  }

  /** Where the task at index i stands after an event. */
  function Moved(i: nat, e: Event): nat {
    if e.Create? then Shifted(i) else i
  }

  lemma SleeperKept(s: State, i: nat, e: Event)
    requires Enough(s, e) && i < |s.ring| && i != s.cur
    ensures var s', i' := Step(s, e), Moved(i, e);
      i' < |s'.ring| && s'.ring[i'] == s.ring[i] && s'.cur < |s'.ring| && (s'.cur == i' ==> s'.now == s.ring[i].ctx)
  {
    hide Created, Switched;
  }

  /** No word of the stack of task t differs. */
  ghost predicate StackKept(m: Memory, m': Memory, t: Task) {
    forall a :: t.lo <= a < t.hi ==> m'(a) == m(a)
  }

  lemma SleepersStackKept(s: State, i: nat, e: Event)
    requires GoodState(s) && Allowed(s, e) && Enough(s, e) && i < |s.ring| && i != s.cur
    ensures StackKept(s.mem, Step(s, e).mem, s.ring[i])
  {
    hide Created, Switched, BlockAt, Asleep;
    var t := s.ring[i];
    LaidAt(s.ring, i);
    LaidAt(s.ring, s.cur);
    assert TasksApart(t, s.ring[s.cur]);
    match e {
      case Compute(c, m) =>
        assert forall a :: t.lo <= a < t.hi ==> InBlockOrStack(t, a);
      case Schedule(back) =>
        var newEsp := s.mem(s.ring[After(|s.ring|, s.cur)].tcb + ESP);
        forall a | t.lo <= a < t.hi
          ensures Switched(s.mem, s.now, s.ring[s.cur].tcb, newEsp, back)(a) == s.mem(a)
        {
          SwitchedWords(s.mem, s.now, s.ring[s.cur].tcb, newEsp, back, a);
        }
      case Create(entry, block, stack) =>
        assert TasksApart(t, NewTask(block, stack, entry)) && TasksApart(s.ring[0], NewTask(block, stack, entry));
        forall a | t.lo <= a < t.hi
          ensures Created(s.mem, s.ring[0].tcb, block, stack, entry, |s.ring| + 1)(a) == s.mem(a)
        {
          CreatedWords(s.mem, s.ring[0].tcb, block, stack, entry, |s.ring| + 1, a);
        }
    }
  }

  datatype Resumption = Waiting | Resumed(now: Context, mem: Memory)

  /** The registers and the memory with which the task now at index i first runs again, if it does. */
  ghost function FirstResume(s: State, i: nat, es: seq<Event>): Resumption
    requires RunAllowed(s, es)
    decreases |es|
  {
    if es == [] then Waiting
    else
      var s', i' := Step(s, es[0]), Moved(i, es[0]);
      if s'.cur == i' then Resumed(s'.now, s'.mem) else FirstResume(s', i', es[1..])
  }

  /** It is what some prefix of the run leaves. */
  lemma {:induction false} FirstResumeReached(s: State, i: nat, es: seq<Event>) returns (k: nat)
    requires RunAllowed(s, es) && FirstResume(s, i, es).Resumed?
    ensures 0 < k <= |es| && RunAllowed(s, es[..k])
    ensures FirstResume(s, i, es) == Resumed(Run(s, es[..k]).now, Run(s, es[..k]).mem)
    decreases |es|
  {
    hide Step, Allowed, Enough;
    var s', i' := Step(s, es[0]), Moved(i, es[0]);
    var rest := 0;
    if s'.cur != i' {
      rest := FirstResumeReached(s', i', es[1..]);
    }
    k := rest + 1;
    assert es[..k][0] == es[0] && es[..k][1..] == es[1..][..rest];
  }

  /** Whatever runs meanwhile, a sleeping task first runs again with exactly the context it sleeps with, and finds
      every word of its stack as it was. */
  lemma {:induction false} ResumesWhereAsleep(s: State, i: nat, es: seq<Event>)
    requires GoodState(s) && RunAllowed(s, es) && i < |s.ring| && i != s.cur
    ensures var r := FirstResume(s, i, es);
      r.Resumed? ==> r.now == s.ring[i].ctx && StackKept(s.mem, r.mem, s.ring[i])
    decreases |es|
  {
    hide GoodState, Step, Allowed, Enough, Moved;
    if es != [] {
      SleeperKept(s, i, es[0]);
      SleepersStackKept(s, i, es[0]);
      StepGood(s, es[0]);
      var s', i' := Step(s, es[0]), Moved(i, es[0]);
      if s'.cur != i' {
        ResumesWhereAsleep(s', i', es[1..]);
      }
    }
  }

  /** Where the task at index i stands after a run. */
  function IndexAfter(i: nat, es: seq<Event>): nat
    decreases |es|
  {
    if es == [] then i else IndexAfter(Moved(i, es[0]), es[1..])
  }

  /** Until it first runs again, it sleeps on, its stack untouched. */
  lemma {:induction false} SleepsOn(s: State, i: nat, es: seq<Event>)
    requires GoodState(s) && RunAllowed(s, es) && i < |s.ring| && i != s.cur && FirstResume(s, i, es).Waiting?
    ensures var s', i' := Run(s, es), IndexAfter(i, es);
      i' < |s'.ring| && i' != s'.cur && s'.ring[i'] == s.ring[i] && StackKept(s.mem, s'.mem, s.ring[i])
    decreases |es|
  {
    hide GoodState, Step, Allowed, Enough, Moved;
    if es != [] {
      SleeperKept(s, i, es[0]);
      SleepersStackKept(s, i, es[0]);
      StepGood(s, es[0]);
      SleepsOn(Step(s, es[0]), Moved(i, es[0]), es[1..]);
    }
  }

  function Switches(es: seq<Event>): nat {
    if es == [] then 0 else (if es[0].Schedule? then 1 else 0) + Switches(es[1..])
  }

  function Creations(es: seq<Event>): nat {
    if es == [] then 0 else (if es[0].Create? then 1 else 0) + Creations(es[1..])
  }

  /** How far the task at index i is ahead of the running one. */
  function Ahead(s: State, i: nat): nat
    requires s.cur < |s.ring| && i < |s.ring|
  {
    Ring.Distance(Ring.Queue(Ring.Canonical(|s.ring|), s.cur), i)
  }

  lemma AheadStep(s: State, i: nat, e: Event)
    requires Enough(s, e) && i < |s.ring| && i != s.cur
    ensures var s', i' := Step(s, e), Moved(i, e);
      i' < |s'.ring| && s'.cur < |s'.ring| && Ahead(s, i) > 0 && (Ahead(s', i') == 0 <==> s'.cur == i') &&
      Ahead(s', i') <= Ahead(s, i) - (if e.Schedule? then 1 else 0) + (if e.Create? then 1 else 0)
  {
    hide Created, Switched;
  }

  /** A task at forward distance d resumes within d switches plus one for every creation meanwhile. */
  lemma {:induction false} ResumesInTime(s: State, i: nat, es: seq<Event>)
    requires RunAllowed(s, es) && i < |s.ring| && i != s.cur < |s.ring|
    requires Switches(es) >= Ahead(s, i) + Creations(es)
    ensures FirstResume(s, i, es).Resumed?
    decreases |es|
  {
    hide Step, Allowed, Enough, Moved, Ahead;
    if es == [] {
      SomewhereAhead(s, i);
    } else {
      AheadStep(s, i, es[0]);
      var s', i' := Step(s, es[0]), Moved(i, es[0]);
      if s'.cur != i' {
        ResumesInTime(s', i', es[1..]);
      }
    }
  }

  lemma SomewhereAhead(s: State, i: nat)
    requires i < |s.ring| && i != s.cur < |s.ring|
    ensures Ahead(s, i) > 0
  {
  }

  /** What the caller does with the two arguments it pushed. */
  function DropArguments(c: Context): Context {
    c.(esp := Wrap(c.esp + 8))
  }

  /** A task that calls switch_to in schedule() comes back from that call: at its return address, with its registers,
      with ESP as it was once the two arguments are dropped, and every word from there up as it left it. */
  lemma SwitchIsTransparent(s: State, back: u32, es: seq<Event>)
    requires GoodState(s) && Allowed(s, Schedule(back)) && |s.ring| > 1 && Enough(s, Schedule(back))
    requires RunAllowed(Step(s, Schedule(back)), es)
    ensures var r := FirstResume(Step(s, Schedule(back)), s.cur, es);
      r.Resumed? ==>
        r.now == ResumePoint(s.now, back) && DropArguments(r.now) == s.now.(eip := back) &&
        forall a :: s.now.esp <= a < s.ring[s.cur].hi ==> r.mem(a) == s.mem(a)
    ensures Switches(es) >= |s.ring| - 1 + Creations(es) ==>
      FirstResume(Step(s, Schedule(back)), s.cur, es).Resumed?
  {
    hide GoodState, Enough, RunAllowed, FirstResume, Switched;
    var s' := Step(s, Schedule(back));
    StepGood(s, Schedule(back));
    ResumesWhereAsleep(s', s.cur, es);
    CallerWordsStay(s, back);
    if Switches(es) >= |s.ring| - 1 + Creations(es) {
      ResumesInTime(s', s.cur, es);
    }
  }

  /** The switch writes below the caller's stack pointer and into its control block only. */
  lemma CallerWordsStay(s: State, back: u32)
    requires GoodState(s) && Allowed(s, Schedule(back)) && Enough(s, Schedule(back)) && |s.ring| > 1
    ensures forall a :: s.now.esp <= a < s.ring[s.cur].hi ==> Step(s, Schedule(back)).mem(a) == s.mem(a)
  {
    hide Switched, BlockAt, Asleep;
    LaidAt(s.ring, s.cur);
    var newEsp := s.mem(s.ring[After(|s.ring|, s.cur)].tcb + ESP);
    forall a | s.now.esp <= a < s.ring[s.cur].hi
      ensures Switched(s.mem, s.now, s.ring[s.cur].tcb, newEsp, back)(a) == s.mem(a)
    {
      SwitchedWords(s.mem, s.now, s.ring[s.cur].tcb, newEsp, back, a);
    }
  }

  /** A new task first runs at its entry, with zero registers and an empty stack. */
  lemma NewTaskStarts(s: State, entry: u32, block: u32, stack: u32, es: seq<Event>)
    requires GoodState(s) && Allowed(s, Create(entry, block, stack)) && Enough(s, Create(entry, block, stack))
    requires RunAllowed(Step(s, Create(entry, block, stack)), es)
    ensures var r := FirstResume(Step(s, Create(entry, block, stack)), 1, es);
      r.Resumed? ==> r.now == Context(stack + STACK_SIZE, 0, 0, 0, 0, entry)
  {
    hide GoodState, RunAllowed, FirstResume, Created;
    StepGood(s, Create(entry, block, stack));
    ResumesWhereAsleep(Step(s, Create(entry, block, stack)), 1, es);
  }

  ghost function StateOf(sys: TaskSystem): State
    reads sys, sys.cpu
  {
    State(sys.cpu.mem, sys.ring, sys.cur, sys.cpu.Now())
  }

  method PerformCompute(sys: TaskSystem, c: Context, m: Memory)
    requires sys.Valid() && Allowed(StateOf(sys), Compute(c, m))
    modifies sys.cpu
    ensures sys.Valid() && Enough(old(StateOf(sys)), Compute(c, m))
    ensures StateOf(sys) == Step(old(StateOf(sys)), Compute(c, m))
  {
    hide Good, OwnWrites;
    sys.Compute(c, m);
  }

  method PerformSchedule(sys: TaskSystem, back: u32)
    requires sys.Valid() && Allowed(StateOf(sys), Schedule(back))
    modifies sys, sys.cpu
    ensures sys.Valid() && Enough(old(StateOf(sys)), Schedule(back))
    ensures StateOf(sys) == Step(old(StateOf(sys)), Schedule(back))
  {
    AllowedEnough(StateOf(sys), Schedule(back));
    hide Good, GoodState, PutToSleep, Switched, Ring.Canonical, Ring.Step;
    sys.Schedule(back);
  }

  method PerformCreate(sys: TaskSystem, entry: u32, block: u32, stack: u32)
    requires sys.Valid() && Allowed(StateOf(sys), Create(entry, block, stack))
    modifies sys, sys.cpu
    ensures sys.Valid() && Enough(old(StateOf(sys)), Create(entry, block, stack))
    ensures StateOf(sys) == Step(old(StateOf(sys)), Create(entry, block, stack))
  {
    hide Good, FreshTask, NewTask, Inserted, Shifted, Created, Ring.Canonical, Ring.Step;
    sys.Create(entry, block, stack);
  }

  /** One step of the machine is one step of the prescription, memory included. */
  method Perform(sys: TaskSystem, e: Event)
    requires sys.Valid() && Allowed(StateOf(sys), e)
    modifies sys, sys.cpu
    ensures sys.Valid() && Enough(old(StateOf(sys)), e)
    ensures StateOf(sys) == Step(old(StateOf(sys)), e)
  {
    hide TaskSystem.Valid, StateOf, Step, Enough, Allowed;
    match e {
      case Compute(c, m) => PerformCompute(sys, c, m);
      case Schedule(back) => PerformSchedule(sys, back);
      case Create(entry, block, stack) => PerformCreate(sys, entry, block, stack);
    }
  }

  /** The machine carries out any allowed run, so the theorems about runs are theorems about the machine. A task i that
      has not run again yet still sleeps in its context, with every word of its stack as it was. */
  method PerformAll(sys: TaskSystem, es: seq<Event>, ghost i: nat)
    requires sys.Valid() && RunAllowed(StateOf(sys), es)
    modifies sys, sys.cpu
    ensures sys.Valid() && GoodState(old(StateOf(sys)))
    ensures StateOf(sys) == Run(old(StateOf(sys)), es)
    ensures i < |old(sys.ring)| && i != old(sys.cur) && FirstResume(old(StateOf(sys)), i, es).Waiting? ==>
      IndexAfter(i, es) < |sys.ring| && sys.ring[IndexAfter(i, es)] == old(sys.ring)[i] &&
      StackKept(old(sys.cpu.mem), sys.cpu.mem, old(sys.ring)[i])
  {
    ghost var s := StateOf(sys);
    assert GoodState(s) && s.ring == sys.ring && s.cur == sys.cur && s.mem == sys.cpu.mem;
    hide TaskSystem.Valid, GoodState, Step, Allowed, Enough, StackKept;
    for k := 0 to |es|
      invariant sys.Valid()
      invariant RunAllowed(StateOf(sys), es[k..])
      invariant Run(StateOf(sys), es[k..]) == Run(s, es)
    {
      assert es[k..][0] == es[k] && es[k..][1..] == es[k + 1..];
      Perform(sys, es[k]);
    }
    assert es[|es|..] == [];
    if i < |s.ring| && i != s.cur && FirstResume(s, i, es).Waiting? {
      SleepsOn(s, i, es);
    }
  }
}
