/** Tasks: control blocks linked in a ring in memory, hand-built stack frames, and the scheduler that switches them. */
module Tasks {
  import opened Words
  import opened Switch
  import Ring

  const STACK_SIZE: int := 4096
  const TCB_SIZE: int := 20

  // Field offsets of a control block.
  const ESP: int := 0
  const KSTACK: int := 4
  const ID: int := 8
  const NEXT: int := 12
  const RUNNING: int := 16

  /** The running flag is one byte; the padding after it keeps its value. */
  function SetByte(word: u32): (word': u32)
    ensures word' % 256 == 1 && word' / 256 == word / 256
  {
    word / 256 * 256 + 1
  }

  /** A control block at tcb and a stack [lo, hi); ctx is where the task resumes when it is not running. */
  datatype Task = Task(tcb: int, lo: int, hi: int, ctx: Context)

  predicate Placed(t: Task) {
    0 < t.tcb && t.tcb + TCB_SIZE <= TWO_32 && t.tcb % 4 == 0 &&
    0 <= t.lo <= t.hi < TWO_32 && t.lo % 4 == 0 && t.hi % 4 == 0
  }

  predicate Clear(a: int, la: int, b: int, lb: int) {
    a + la <= b || b + lb <= a
  }

  /** No block or stack of one task meets those of another, and no block lies in any stack. */
  predicate TasksApart(s: Task, t: Task) {
    Clear(s.tcb, TCB_SIZE, t.tcb, TCB_SIZE) && Clear(s.lo, s.hi - s.lo, t.lo, t.hi - t.lo) &&
    Clear(s.tcb, TCB_SIZE, t.lo, t.hi - t.lo) && Clear(t.tcb, TCB_SIZE, s.lo, s.hi - s.lo)
  }

  predicate OwnApart(t: Task) {
    Clear(t.tcb, TCB_SIZE, t.lo, t.hi - t.lo)
  }

  ghost predicate Laid(ring: seq<Task>) {
    (forall i :: 0 <= i < |ring| ==> Placed(ring[i]) && OwnApart(ring[i])) &&
    (forall i, j :: 0 <= i < |ring| && 0 <= j < |ring| && i != j ==> TasksApart(ring[i], ring[j]))
  }

  function After(n: nat, i: nat): nat
    requires i < n
  {
    if i + 1 == n then 0 else i + 1
  }

  /** The control block says what the ring says. */
  predicate BlockAt(m: Memory, ring: seq<Task>, i: nat)
    requires i < |ring|
  {
    m(ring[i].tcb + NEXT) == ring[After(|ring|, i)].tcb &&
    m(ring[i].tcb + ID) == Ring.Canonical(|ring|)[i] &&
    (i > 0 ==> m(ring[i].tcb + KSTACK) == ring[i].lo && ring[i].hi == ring[i].lo + STACK_SIZE)
  }

  /** The saved stack pointer names, inside the task's own stack, the frame of its context. */
  predicate Asleep(m: Memory, t: Task) {
    var e := m(t.tcb + ESP);
    e % 4 == 0 && t.lo <= e && e + FRAME <= t.hi && FrameAt(m, e, t.ctx)
  }

  /** The whole scheduler state: ring in memory, running task's stack pointer, and every other task asleep. */
  ghost predicate Good(m: Memory, ring: seq<Task>, cur: nat, esp: int) {
    cur < |ring| && Laid(ring) &&
    (forall i :: 0 <= i < |ring| ==> BlockAt(m, ring, i)) &&
    (forall i :: 0 <= i < |ring| && i != cur ==> Asleep(m, ring[i])) &&
    ring[cur].lo <= esp <= ring[cur].hi && esp % 4 == 0
  }

  predicate InBlockOrStack(t: Task, a: int) {
    t.tcb <= a < t.tcb + TCB_SIZE || t.lo <= a < t.hi
  }

  /** Between m and m' only words of the running task's stack, or of no block or stack of the ring, changed. */
  ghost predicate OwnWrites(m: Memory, m': Memory, ring: seq<Task>, cur: nat)
    requires cur < |ring|
  {
    forall a :: m'(a) != m(a) ==>
      ring[cur].lo <= a < ring[cur].hi || forall i :: 0 <= i < |ring| ==> !InBlockOrStack(ring[i], a)
  }

  lemma SameBlock(m: Memory, m': Memory, ring: seq<Task>, i: nat)
    requires i < |ring| && BlockAt(m, ring, i)
    requires m'(ring[i].tcb + NEXT) == m(ring[i].tcb + NEXT) && m'(ring[i].tcb + ID) == m(ring[i].tcb + ID)
    requires m'(ring[i].tcb + KSTACK) == m(ring[i].tcb + KSTACK)
    ensures BlockAt(m', ring, i)
  {
  }

  lemma SameSleep(m: Memory, m': Memory, t: Task)
    requires Asleep(m, t)
    requires m'(t.tcb + ESP) == m(t.tcb + ESP)
    requires forall a :: t.lo <= a < t.hi ==> m'(a) == m(a)
    ensures Asleep(m', t)
  {
  }

  /** Whatever the running task does to its own stack and registers, the scheduler state survives. */
  lemma ComputeKeepsGood(m: Memory, m': Memory, ring: seq<Task>, cur: nat, esp: int, esp': int)
    requires Good(m, ring, cur, esp) && OwnWrites(m, m', ring, cur)
    requires ring[cur].lo <= esp' <= ring[cur].hi && esp' % 4 == 0
    ensures Good(m', ring, cur, esp')
  {
    forall i, a | 0 <= i < |ring| && InBlockOrStack(ring[i], a) &&
                  (i != cur || ring[i].tcb <= a < ring[i].tcb + TCB_SIZE)
      ensures m'(a) == m(a)
    {
      assert Placed(ring[i]) && OwnApart(ring[i]);
      assert i != cur ==> TasksApart(ring[i], ring[cur]);
    }
    forall i | 0 <= i < |ring|
      ensures BlockAt(m', ring, i)
      ensures i != cur ==> Asleep(m', ring[i])
    {
      assert BlockAt(m, ring, i);
      assert InBlockOrStack(ring[i], ring[i].tcb + NEXT) && InBlockOrStack(ring[i], ring[i].tcb + ID);
      assert InBlockOrStack(ring[i], ring[i].tcb + KSTACK) && InBlockOrStack(ring[i], ring[i].tcb + ESP);
      SameBlock(m, m', ring, i);
      if i != cur {
        assert Asleep(m, ring[i]);
        assert forall a :: ring[i].lo <= a < ring[i].hi ==> InBlockOrStack(ring[i], a);
        SameSleep(m, m', ring[i]);
      }
    }
  }

  // ---------------------------------------------------------------------
  // Switching
  // ---------------------------------------------------------------------

  /** The call schedule() makes: two arguments and the return address pushed. */
  function Called(m: Memory, esp: int, oldSlot: u32, newEsp: u32, back: u32): Memory {
    Put(Put(Put(m, esp - 4, newEsp), esp - 8, oldSlot), esp - 12, back)
  }

  /** Memory after the whole switch, starting from the running task's registers before the call. */
  function Switched(m: Memory, c: Context, oldSlot: u32, newEsp: u32, back: u32): Memory
    requires 28 <= c.esp
  {
    Put(PushAll(Called(m, c.esp, oldSlot, newEsp, back), c.esp - 12, c.ebp, c.ebx, c.esi, c.edi), oldSlot, c.esp - 28)
  }

  /** Where the outgoing task will resume: right after its call, with its own registers. */
  function ResumePoint(c: Context, back: u32): Context
    requires 28 <= c.esp
  {
    Context(c.esp - 8, c.ebp, c.ebx, c.esi, c.edi, back)
  }

  /** Word by word what a switch leaves: both arguments, the return address, the four registers, and the saved ESP. */
  lemma SwitchStores(m: Memory, c: Context, oldSlot: u32, newEsp: u32, back: u32, a: int)
    requires 28 <= c.esp && Clear(oldSlot, 4, c.esp - 28, 28) && a % 4 == 0 && c.esp % 4 == 0
    ensures Switched(m, c, oldSlot, newEsp, back)(a) ==
      if a == oldSlot then c.esp - 28
      else if a == c.esp - 4 then newEsp else if a == c.esp - 8 then oldSlot else if a == c.esp - 12 then back
      else if a == c.esp - 16 then c.ebp else if a == c.esp - 20 then c.ebx
      else if a == c.esp - 24 then c.esi else if a == c.esp - 28 then c.edi
      else m(a)
  {
  }

  lemma SwitchedWords(m: Memory, c: Context, oldSlot: u32, newEsp: u32, back: u32, a: int)
    requires 28 <= c.esp
    ensures a != oldSlot && (a < c.esp - 28 || c.esp <= a) ==> Switched(m, c, oldSlot, newEsp, back)(a) == m(a)
    ensures Switched(m, c, oldSlot, newEsp, back)(oldSlot) == c.esp - 28
  {
  }

  /** One switch keeps the scheduler state good: the outgoing task falls asleep where it will resume. */
  lemma SwitchKeepsGood(m: Memory, ring: seq<Task>, cur: nat, c: Context, back: u32)
    requires Good(m, ring, cur, c.esp) && |ring| > 1 && ring[cur].lo + 28 <= c.esp && 0 <= ring[cur].lo
    requires 0 <= ring[cur].tcb < TWO_32
    ensures var next := After(|ring|, cur);
      var m' := Switched(m, c, ring[cur].tcb, m(ring[next].tcb + ESP), back);
      var ring' := ring[cur := ring[cur].(ctx := ResumePoint(c, back))];
      Asleep(m', ring'[next]) && Good(m', ring', next, ring'[next].ctx.esp)
  {
    hide Switched, Called, PushAll, Put, Laid, BlockAt;
    var next := After(|ring|, cur);
    var newEsp := m(ring[next].tcb + ESP);
    var m' := Switched(m, c, ring[cur].tcb, newEsp, back);
    var ring' := ring[cur := ring[cur].(ctx := ResumePoint(c, back))];
    LaidSame(ring, ring');
    forall i | 0 <= i < |ring|
      ensures BlockAt(m', ring', i) && Asleep(m', ring'[i])
    {
      SwitchKeepsTask(m, ring, cur, c, newEsp, back, i);
    }
    assert Asleep(m', ring'[next]);
  }

  lemma LaidSame(ring: seq<Task>, ring': seq<Task>)
    requires Laid(ring) && |ring| == |ring'|
    requires forall i :: 0 <= i < |ring| ==>
      ring'[i].tcb == ring[i].tcb && ring'[i].lo == ring[i].lo && ring'[i].hi == ring[i].hi
    ensures Laid(ring')
  {
  }

  lemma SwitchKeepsBlock(m: Memory, ring: seq<Task>, s: Task, c: Context, newEsp: u32, back: u32, i: nat)
    requires i < |ring| && BlockAt(m, ring, i) && Placed(s) && OwnApart(s) && s.lo + 28 <= c.esp <= s.hi
    requires ring[i] == s || TasksApart(ring[i], s)
    ensures BlockAt(Switched(m, c, s.tcb, newEsp, back), ring, i)
  {
  }

  lemma SwitchKeepsSleep(m: Memory, t: Task, s: Task, c: Context, newEsp: u32, back: u32)
    requires Asleep(m, t) && Placed(s) && OwnApart(s) && s.lo + 28 <= c.esp <= s.hi && TasksApart(t, s)
    ensures Asleep(Switched(m, c, s.tcb, newEsp, back), t)
  {
  }

  lemma SwitchPutsToSleep(m: Memory, s: Task, c: Context, newEsp: u32, back: u32)
    requires Placed(s) && OwnApart(s) && s.lo + 28 <= c.esp <= s.hi && c.esp % 4 == 0
    ensures Asleep(Switched(m, c, s.tcb, newEsp, back), s.(ctx := ResumePoint(c, back)))
  {
  }

  lemma SwitchKeepsTask(m: Memory, ring: seq<Task>, cur: nat, c: Context, newEsp: u32, back: u32, i: nat)
    requires Good(m, ring, cur, c.esp) && ring[cur].lo + 28 <= c.esp && 0 <= ring[cur].lo
    requires 0 <= ring[cur].tcb < TWO_32 && i < |ring|
    ensures var m' := Switched(m, c, ring[cur].tcb, newEsp, back);
      var ring' := ring[cur := ring[cur].(ctx := ResumePoint(c, back))];
      BlockAt(m', ring', i) && Asleep(m', ring'[i])
  {
    hide Switched, Asleep, TasksApart;
    var s := ring[cur];
    var ring' := ring[cur := s.(ctx := ResumePoint(c, back))];
    assert Placed(s) && OwnApart(s);
    assert BlockAt(m, ring, i);
    SwitchKeepsBlock(m, ring, s, c, newEsp, back, i);
    SameTcbs(Switched(m, c, s.tcb, newEsp, back), ring, ring', i);
    if i == cur {
      SwitchPutsToSleep(m, s, c, newEsp, back);
    } else {
      assert Asleep(m, ring[i]);
      SwitchKeepsSleep(m, ring[i], s, c, newEsp, back);
    }
  }

  lemma SameTcbs(m: Memory, ring: seq<Task>, ring': seq<Task>, i: nat)
    requires i < |ring| == |ring'| && BlockAt(m, ring, i)
    requires forall k :: 0 <= k < |ring| ==>
      ring'[k].tcb == ring[k].tcb && ring'[k].lo == ring[k].lo && ring'[k].hi == ring[k].hi
    ensures BlockAt(m, ring', i)
  {
  }

  // ---------------------------------------------------------------------
  // Creating
  // ---------------------------------------------------------------------

  /** A task whose frame was built by hand: it starts at entry with an empty stack and zero registers. */
  function NewTask(t: int, s: u32, entry: u32): Task
    requires s + STACK_SIZE < TWO_32
  {
    Task(t, s, s + STACK_SIZE, Context(s + STACK_SIZE, 0, 0, 0, 0, entry))
  }

  /** The five words of the hand-built frame, pushed downwards from the top of the stack. */
  function FrameBuilt(m: Memory, s: int, entry: u32): Memory {
    Put(Put(Put(Put(Put(m, s + 4092, entry), s + 4088, 0), s + 4084, 0), s + 4080, 0), s + 4076, 0)
  }

  /** All stores of a creation, in the order of the source. */
  function Created(m: Memory, head: int, t: u32, s: u32, entry: u32, tid: u32): Memory
    requires s + STACK_SIZE < TWO_32
  {
    var named := Put(Put(m, t + ID, tid), t + KSTACK, s);
    var framed := Put(FrameBuilt(named, s, entry), t + ESP, s + STACK_SIZE - FRAME);
    Put(Put(framed, t + NEXT, framed(head + NEXT)), head + NEXT, t)
  }

  /** Word by word what a creation leaves: the fields of the new block, its frame, and the link of the head. */
  lemma CreationStores(m: Memory, head: int, t: u32, s: u32, entry: u32, tid: u32, a: int)
    requires s + 4096 < TWO_32
    requires Clear(t, 20, s, 4096) && Clear(head, 20, s, 4096) && Clear(head, 20, t, 20)
    ensures Created(m, head, t, s, entry, tid)(a) ==
      if a == head + 12 then t
      else if a == t then s + 4076 else if a == t + 4 then s else if a == t + 8 then tid
      else if a == t + 12 then m(head + 12)
      else if a == s + 4092 then entry
      else if a in {s + 4076, s + 4080, s + 4084, s + 4088} then 0
      else m(a)
  {
  }

  lemma CreatedWords(m: Memory, head: int, t: u32, s: u32, entry: u32, tid: u32, a: int)
    requires s + STACK_SIZE < TWO_32
    requires Clear(t, TCB_SIZE, s, STACK_SIZE) && Clear(head, TCB_SIZE, s, STACK_SIZE)
    requires Clear(head, TCB_SIZE, t, TCB_SIZE)
    ensures var m' := Created(m, head, t, s, entry, tid);
      m'(head + NEXT) == t && m'(t + NEXT) == m(head + NEXT) && m'(t + ID) == tid && m'(t + KSTACK) == s &&
      (a != head + NEXT && !InBlockOrStack(NewTask(t, s, entry), a) ==> m'(a) == m(a))
  {
  }

  lemma CreatedSleeps(m: Memory, head: int, t: u32, s: u32, entry: u32, tid: u32)
    requires s + STACK_SIZE < TWO_32 && s % 4 == 0
    requires Clear(t, TCB_SIZE, s, STACK_SIZE) && Clear(head, TCB_SIZE, s, STACK_SIZE)
    requires Clear(head, TCB_SIZE, t, TCB_SIZE)
    ensures Asleep(Created(m, head, t, s, entry, tid), NewTask(t, s, entry))
  {
  }

  function Inserted(ring: seq<Task>, t: Task): seq<Task>
    requires ring != []
  {
    [ring[0], t] + ring[1..]
  }

  /** Where the old task i stands after an insertion behind the head. */
  function Shifted(i: nat): nat {
    if i == 0 then 0 else i + 1
  }

  lemma InsertedLaid(ring: seq<Task>, t: Task)
    requires Laid(ring) && ring != [] && Placed(t) && OwnApart(t)
    requires forall i :: 0 <= i < |ring| ==> TasksApart(ring[i], t)
    ensures Laid(Inserted(ring, t))
  {
  }

  /** Everything a creation must know about its two fresh allocations. */
  ghost predicate FreshTask(ring: seq<Task>, t: Task) {
    Placed(t) && OwnApart(t) && t.hi == t.lo + STACK_SIZE && forall i :: 0 <= i < |ring| ==> TasksApart(ring[i], t)
  }

  lemma CreateKeepsOld(m: Memory, ring: seq<Task>, t: u32, s: u32, entry: u32, i: nat)
    requires Laid(ring) && ring != [] && i < |ring| && BlockAt(m, ring, i) && |ring| + 1 < TWO_32
    requires s + STACK_SIZE < TWO_32 && FreshTask(ring, NewTask(t, s, entry))
    ensures var m' := Created(m, ring[0].tcb, t, s, entry, |ring| + 1);
      BlockAt(m', Inserted(ring, NewTask(t, s, entry)), Shifted(i)) &&
      (Asleep(m, ring[i]) ==> Asleep(m', ring[i]))
  {
    hide Created, Ring.Canonical, Laid;
    var n := NewTask(t, s, entry);
    var head := ring[0].tcb;
    var m' := Created(m, head, t, s, entry, |ring| + 1);
    LaidAt(ring, i);
    assert TasksApart(ring[0], n) && TasksApart(ring[i], n);
    CreatedWords(m, head, t, s, entry, |ring| + 1, ring[i].tcb + NEXT);
    CreatedWords(m, head, t, s, entry, |ring| + 1, ring[i].tcb + ID);
    CreatedWords(m, head, t, s, entry, |ring| + 1, ring[i].tcb + KSTACK);
    InsertedIds(|ring|, i);
    if Asleep(m, ring[i]) {
      CreatedWords(m, head, t, s, entry, |ring| + 1, ring[i].tcb + ESP);
      forall a | ring[i].lo <= a < ring[i].hi
        ensures m'(a) == m(a)
      {
        CreatedWords(m, head, t, s, entry, |ring| + 1, a);
      }
      SameSleep(m, m', ring[i]);
    }
  }

  lemma LaidAt(ring: seq<Task>, i: nat)
    requires Laid(ring) && i < |ring|
    ensures Placed(ring[0]) && OwnApart(ring[0]) && Placed(ring[i]) && OwnApart(ring[i])
    ensures i > 0 ==> TasksApart(ring[i], ring[0])
  {
  }

  lemma InsertedIds(n: nat, i: nat)
    requires i < n
    ensures Ring.Canonical(n + 1)[Shifted(i)] == Ring.Canonical(n)[i]
    ensures After(n + 1, Shifted(i)) == if i == 0 then 1 else Shifted(After(n, i))
  {
  }

  /** Insertion behind the head and the step to the next task, seen on the queue of ids. */
  lemma QueueSteps(n: nat, cur: nat)
    requires cur < n
    ensures Ring.Queue(Ring.Canonical(n + 1), Shifted(cur)) ==
      Ring.Step(Ring.Queue(Ring.Canonical(n), cur), Ring.Create)
    ensures Ring.Queue(Ring.Canonical(n), After(n, cur)) == Ring.Step(Ring.Queue(Ring.Canonical(n), cur), Ring.Schedule)
  {
    assert (cur + 1) % n == After(n, cur);
    assert Ring.Canonical(n + 1) == [Ring.Canonical(n)[0], n + 1] + Ring.Canonical(n)[1..];
  }

  /** A creation keeps the scheduler state good; the new task sleeps at its entry, behind the head. */
  lemma CreateKeepsGood(m: Memory, ring: seq<Task>, cur: nat, esp: int, t: u32, s: u32, entry: u32)
    requires Good(m, ring, cur, esp) && s + STACK_SIZE < TWO_32 && |ring| + 1 < TWO_32
    requires FreshTask(ring, NewTask(t, s, entry))
    ensures var m' := Created(m, ring[0].tcb, t, s, entry, |ring| + 1);
      Good(m', Inserted(ring, NewTask(t, s, entry)), Shifted(cur), esp)
  {
    hide Created, BlockAt, Asleep, TasksApart;
    var n := NewTask(t, s, entry);
    var m' := Created(m, ring[0].tcb, t, s, entry, |ring| + 1);
    var ring' := Inserted(ring, n);
    InsertedLaid(ring, n);
    CreateAddsNew(m, ring, t, s, entry);
    forall j | 0 <= j < |ring'|
      ensures BlockAt(m', ring', j) && (j != Shifted(cur) ==> Asleep(m', ring'[j]))
    {
      if j != 1 {
        var i := if j == 0 then 0 else j - 1;
        assert BlockAt(m, ring, i) && (i != cur ==> Asleep(m, ring[i]));
        CreateKeepsOld(m, ring, t, s, entry, i);
        assert ring'[j] == ring[i] && Shifted(i) == j;
      }
    }
  }

  lemma CreateAddsNew(m: Memory, ring: seq<Task>, t: u32, s: u32, entry: u32)
    requires Laid(ring) && ring != [] && BlockAt(m, ring, 0) && |ring| + 1 < TWO_32
    requires s + STACK_SIZE < TWO_32 && FreshTask(ring, NewTask(t, s, entry))
    ensures var m' := Created(m, ring[0].tcb, t, s, entry, |ring| + 1);
      BlockAt(m', Inserted(ring, NewTask(t, s, entry)), 1) && Asleep(m', NewTask(t, s, entry))
  {
    hide Created;
    var n := NewTask(t, s, entry);
    assert TasksApart(ring[0], n) && Placed(ring[0]);
    CreatedWords(m, ring[0].tcb, t, s, entry, |ring| + 1, 0);
    CreatedSleeps(m, ring[0].tcb, t, s, entry, |ring| + 1);
  }
}
