/** The circular ready queue: round robin with insertion behind the head. */
module Ring {
  datatype Event = Schedule | Create

  /** Task ids from the queue head on, and the index of the running task. */
  datatype Queue = Queue(ids: seq<nat>, cur: nat)

  predicate IsQueue(q: Queue) {
    q.cur < |q.ids|
  }

  /** The id after the last one given: ids are handed out from 1 upwards. */
  function Insert(q: Queue): Queue
    requires IsQueue(q)
  {
    Queue([q.ids[0], |q.ids| + 1] + q.ids[1..], if q.cur == 0 then 0 else q.cur + 1)
  }

  function Step(q: Queue, e: Event): (q': Queue)
    requires IsQueue(q)
    ensures IsQueue(q')
  {
    match e
    case Schedule => q.(cur := (q.cur + 1) % |q.ids|)
    case Create => Insert(q)
  }

  function Run(q: Queue, es: seq<Event>): (q': Queue)
    requires IsQueue(q)
    ensures IsQueue(q')
    decreases |es|
  {
    if es == [] then q else Run(Step(q, es[0]), es[1..])
  }

  /** Switches needed to go from the running task to the one at index i. */
  function Distance(q: Queue, i: nat): nat
    requires IsQueue(q) && i < |q.ids|
  {
    if i >= q.cur then i - q.cur else i + |q.ids| - q.cur
  }

  /** Where a task stands after an event. */
  function Moved(q: Queue, i: nat, e: Event): nat {
    if e.Create? && i > 0 then i + 1 else i
  }

  lemma SwitchDistance(q: Queue, i: nat)
    requires IsQueue(q) && i < |q.ids|
    ensures Distance(q, i) > 0 ==> Distance(Step(q, Schedule), i) == Distance(q, i) - 1
  {
    assert (q.cur + 1) % |q.ids| == if q.cur + 1 == |q.ids| then 0 else q.cur + 1;
  }

  /** A switch brings every waiting task one nearer, a creation moves it at most one away. */
  lemma StepDistance(q: Queue, i: nat, e: Event)
    requires IsQueue(q) && i < |q.ids|
    ensures var q', i' := Step(q, e), Moved(q, i, e);
      i' < |q'.ids| && q'.ids[i'] == q.ids[i] &&
      (e.Schedule? && Distance(q, i) > 0 ==> Distance(q', i') == Distance(q, i) - 1) &&
      (e.Create? ==> Distance(q', i') <= Distance(q, i) + 1)
  {
    match e {
      case Schedule => SwitchDistance(q, i);
      case Create =>
    }
  }

  function Count(es: seq<Event>, e: Event): nat {
    if es == [] then 0 else (if es[0] == e then 1 else 0) + Count(es[1..], e)
  }

  function Current(q: Queue): nat
    requires IsQueue(q)
  {
    q.ids[q.cur]
  }

  /** Bounded waiting: distance d is covered by d switches plus one for every creation meanwhile. */
  lemma {:induction false} BoundedWaiting(q: Queue, i: nat, es: seq<Event>) returns (k: nat)
    requires IsQueue(q) && i < |q.ids|
    requires Count(es, Schedule) >= Distance(q, i) + Count(es, Create)
    ensures k <= |es| && Current(Run(q, es[..k])) == q.ids[i]
    decreases |es|
  {
    if Distance(q, i) == 0 {
      k := 0;
    } else {
      StepDistance(q, i, es[0]);
      var rest := BoundedWaiting(Step(q, es[0]), Moved(q, i, es[0]), es[1..]);
      k := rest + 1;
      assert es[..k][0] == es[0] && es[..k][1..] == es[1..][..rest];
    }
  }

  /** The queue of n tasks read from its head: 1, n, n - 1, ..., 2. */
  function Canonical(n: nat): (ids: seq<nat>)
    ensures |ids| == n
  {
    seq(n, i requires 0 <= i < n => if i == 0 then 1 else n - i + 1)
  }

  lemma {:induction false} QueueOrder(q: Queue, es: seq<Event>)
    requires IsQueue(q) && q.ids == Canonical(|q.ids|)
    ensures Run(q, es).ids == Canonical(|q.ids| + Count(es, Create))
    decreases |es|
  {
    if es != [] {
      var q' := Step(q, es[0]);
      assert q'.ids == Canonical(|q'.ids|);
      QueueOrder(q', es[1..]);
    }
  }
}
