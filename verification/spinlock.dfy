/** The terminal lock under every interleaving of any number of tasks, one atomic step at a time. */
module Spinlock {
  import opened Words
  import opened Page
  import Terminal

  /** A task outside the terminal, spinning for the lock with a string to write, or inside with some of it written. */
  datatype Place = Idle | Acquiring(data: seq<Byte>) | Writing(data: seq<Byte>, done: nat)

  /** A completed call of terminal_write. */
  datatype Call = Call(task: nat, data: seq<Byte>)

  /** The lock word, every task's place, the page, the characters written and the calls completed, in order. */
  datatype State = State(lock: int, places: map<nat, Place>, page: Page, log: seq<Byte>, calls: seq<Call>)

  /** A task enters terminal_write with a string (of one character for terminal_putchar), or takes one atomic step. */
  datatype Action = Enter(task: nat, data: seq<Byte>) | Go(task: nat)

  function PlaceOf(s: State, t: nat): Place {
    if t in s.places then s.places[t] else Idle
  }

  function At(s: State, t: nat, p: Place): State {
    s.(places := s.places[t := p])
  }

  /** test-and-set, one character, or the release that ends the call. */
  function Next(s: State, a: Action, color: Byte): State
    requires Sane(s.page)
  {
    match a
    case Enter(t, data) =>
      if PlaceOf(s, t).Idle? then At(s, t, Acquiring(data)) else s
    case Go(t) =>
      match PlaceOf(s, t)
      case Idle => s
      case Acquiring(data) =>
        var previous := s.lock;
        var taken := s.(lock := 1);
        if previous == 0 then At(taken, t, Writing(data, 0)) else taken
      case Writing(data, done) =>
        if done < |data| then
          At(s, t, Writing(data, done + 1)).(page := PutChar(s.page, data[done], color), log := s.log + [data[done]])
        else
          At(s, t, Idle).(lock := 0, calls := s.calls + [Call(t, data)])
  }

  /** The strings of the calls, one after the other. */
  function Flatten(calls: seq<Call>): seq<Byte> {
    if calls == [] then [] else Flatten(calls[..|calls| - 1]) + calls[|calls| - 1].data
  }

  /** No task is the holder. */
  const NOBODY: int := -1

  /** The part of its string the holder has written. */
  function Written(s: State, holder: int): seq<Byte> {
    if holder >= 0 && PlaceOf(s, holder).Writing? && PlaceOf(s, holder).done <= |PlaceOf(s, holder).data|
    then PlaceOf(s, holder).data[..PlaceOf(s, holder).done] else []
  }

  predicate InsideOnlyHolder(s: State, holder: int, t: nat) {
    PlaceOf(s, t).Writing? <==> t == holder
  }

  /** The lock word is set exactly while the holder is inside, and the log is whole calls plus the holder's part. */
  ghost predicate Held(s: State, p0: Page, color: Byte, holder: int) {
    Sane(p0) && Sane(s.page) && s.page == PutAll(p0, s.log, color) &&
    holder >= NOBODY && s.lock == (if holder == NOBODY then 0 else 1) &&
    (forall t: nat :: InsideOnlyHolder(s, holder, t)) &&
    (holder >= 0 ==> PlaceOf(s, holder).Writing? && PlaceOf(s, holder).done <= |PlaceOf(s, holder).data|) &&
    s.log == Flatten(s.calls) + Written(s, holder)
  }

  function HolderAfter(s: State, a: Action, holder: int): int {
    match a
    case Enter(t, data) => holder
    case Go(t) =>
      match PlaceOf(s, t)
      case Idle => holder
      case Acquiring(data) => if s.lock == 0 then t else holder
      case Writing(data, done) => if done < |data| then holder else NOBODY
  }

  lemma {:induction false} PutAllSnoc(p: Page, cs: seq<Byte>, c: Byte, color: Byte)
    requires Sane(p)
    ensures PutAll(p, cs + [c], color) == PutChar(PutAll(p, cs, color), c, color)
    decreases |cs|
  {
    if cs == [] {
      assert [c][1..] == [];
    } else {
      assert (cs + [c])[1..] == cs[1..] + [c];
      PutAllSnoc(PutChar(p, cs[0], color), cs[1..], c, color);
    }
  }

  lemma NextHeld(s: State, a: Action, p0: Page, color: Byte, holder: int)
    requires Held(s, p0, color, holder)
    ensures Held(Next(s, a, color), p0, color, HolderAfter(s, a, holder))
  {
    hide PutChar, PutAll, Sane;
    var s' := Next(s, a, color);
    var h' := HolderAfter(s, a, holder);
    assert InsideOnlyHolder(s, holder, a.task);
    forall t: nat
      ensures InsideOnlyHolder(s', h', t)
    {
      assert InsideOnlyHolder(s, holder, t);
    }
    match a {
      case Enter(t, data) =>
      case Go(t) =>
        match PlaceOf(s, t) {
          case Idle =>
          case Acquiring(data) =>
            assert s.log + [] == s.log;
            assert data[..0] == [];
          case Writing(data, done) =>
            if done < |data| {
              PutAllSnoc(p0, s.log, data[done], color);
              assert Flatten(s.calls) + (data[..done] + [data[done]]) == s.log + [data[done]];
              assert data[..done + 1] == data[..done] + [data[done]];
            } else {
              FlattenSnoc(s.calls, Call(t, data));
              assert data[..done] == data;
              assert Flatten(s'.calls) + [] == Flatten(s'.calls);
            }
        }
    }
  }

  lemma FlattenSnoc(calls: seq<Call>, call: Call)
    ensures Flatten(calls + [call]) == Flatten(calls) + call.data
  {
  }

  function Run(s: State, acts: seq<Action>, color: Byte): State
    requires Sane(s.page)
    decreases |acts|
  {
    if acts == [] then s else NextSane(s, acts[0], color); Run(Next(s, acts[0], color), acts[1..], color)
  }

  lemma NextSane(s: State, a: Action, color: Byte)
    requires Sane(s.page)
    ensures Sane(Next(s, a, color).page)
  {
  }

  /** Every schedule keeps the lock honest. */
  lemma {:induction false} RunHeld(s: State, acts: seq<Action>, p0: Page, color: Byte, holder: int)
    returns (holder': int)
    requires Held(s, p0, color, holder)
    ensures Held(Run(s, acts, color), p0, color, holder')
    decreases |acts|
  {
    holder' := holder;
    if acts != [] {
      NextHeld(s, acts[0], p0, color, holder);
      NextSane(s, acts[0], color);
      holder' := RunHeld(Next(s, acts[0], color), acts[1..], p0, color, HolderAfter(s, acts[0], holder));
    }
  }

  function Quiet(p: Page): State {
    State(0, map[], p, [], [])
  }

  /** At most one task is ever inside the unlocked writer, whatever the interleaving. */
  lemma MutualExclusion(p: Page, acts: seq<Action>, color: Byte, t: nat, u: nat)
    requires Sane(p)
    requires PlaceOf(Run(Quiet(p), acts, color), t).Writing? && PlaceOf(Run(Quiet(p), acts, color), u).Writing?
    ensures t == u && Run(Quiet(p), acts, color).lock == 1
  {
    QuietHeld(p, color);
    var holder := RunHeld(Quiet(p), acts, p, color, NOBODY);
    var s := Run(Quiet(p), acts, color);
    assert InsideOnlyHolder(s, holder, t) && InsideOnlyHolder(s, holder, u);
  }

  lemma QuietHeld(p: Page, color: Byte)
    requires Sane(p)
    ensures Held(Quiet(p), p, color, NOBODY)
  {
  }

  /** The page shows whole calls, in the order they completed, then what the one task inside has written of its own. */
  lemma CallsNeverMix(p: Page, acts: seq<Action>, color: Byte) returns (holder: int)
    requires Sane(p)
    ensures var s := Run(Quiet(p), acts, color);
      s.page == PutAll(p, Flatten(s.calls) + Written(s, holder), color) &&
      (s.lock == 0 ==> s.page == PutAll(p, Flatten(s.calls), color)) &&
      (holder >= 0 <==> s.lock == 1) && (holder >= 0 ==> PlaceOf(s, holder).Writing?)
  {
    QuietHeld(p, color);
    holder := RunHeld(Quiet(p), acts, p, color, NOBODY);
    var s := Run(Quiet(p), acts, color);
    if s.lock == 0 {
      assert Flatten(s.calls) + [] == Flatten(s.calls);
    }
  }

  /** The strings of one task's completed calls, in order. */
  function StringsOf(calls: seq<Call>, t: nat): seq<seq<Byte>> {
    if calls == [] then []
    else
      var last := calls[|calls| - 1];
      StringsOf(calls[..|calls| - 1], t) + (if last.task == t then [last.data] else [])
  }

  /** The string a task is waiting to write or writing. */
  function Pending(s: State, t: nat): seq<seq<Byte>> {
    match PlaceOf(s, t)
    case Idle => []
    case Acquiring(data) => [data]
    case Writing(data, done) => [data]
  }

  /** The strings a task enters with while it is outside, in order. */
  function Entered(s: State, acts: seq<Action>, color: Byte, t: nat): seq<seq<Byte>>
    requires Sane(s.page)
    decreases |acts|
  {
    if acts == [] then []
    else
      NextSane(s, acts[0], color);
      (if acts[0].Enter? && acts[0].task == t && PlaceOf(s, t).Idle? then [acts[0].data] else []) +
      Entered(Next(s, acts[0], color), acts[1..], color, t)
  }

  lemma NextAccounts(s: State, a: Action, color: Byte, t: nat)
    requires Sane(s.page)
    ensures StringsOf(Next(s, a, color).calls, t) + Pending(Next(s, a, color), t) ==
      StringsOf(s.calls, t) + Pending(s, t) +
      (if a.Enter? && a.task == t && PlaceOf(s, t).Idle? then [a.data] else [])
  {
    hide PutChar;
    var place := PlaceOf(s, a.task);
    if a.Go? && place.Writing? && place.done >= |place.data| {
      assert (s.calls + [Call(a.task, place.data)])[..|s.calls|] == s.calls;
    }
  }

  /** Under every schedule a task's completed calls and the one it is at are exactly the strings it entered with. */
  lemma {:induction false} RunAccounts(s: State, acts: seq<Action>, color: Byte, t: nat)
    requires Sane(s.page)
    ensures StringsOf(Run(s, acts, color).calls, t) + Pending(Run(s, acts, color), t) ==
      StringsOf(s.calls, t) + Pending(s, t) + Entered(s, acts, color, t)
    decreases |acts|
  {
    hide Next, StringsOf, Pending;
    if acts == [] {
      assert StringsOf(s.calls, t) + Pending(s, t) + [] == StringsOf(s.calls, t) + Pending(s, t);
    } else {
      var a, s' := acts[0], Next(s, acts[0], color);
      NextSane(s, a, color);
      NextAccounts(s, a, color, t);
      RunAccounts(s', acts[1..], color, t);
      Regroup(StringsOf(s.calls, t) + Pending(s, t),
              if a.Enter? && a.task == t && PlaceOf(s, t).Idle? then [a.data] else [],
              Entered(s', acts[1..], color, t));
    }
  }

  /** So nothing is written that was not entered, nothing twice, and nothing is lost, from the quiet start on. */
  lemma EveryStringAccounted(p: Page, acts: seq<Action>, color: Byte, t: nat)
    requires Sane(p)
    ensures var s := Run(Quiet(p), acts, color);
      StringsOf(s.calls, t) + Pending(s, t) == Entered(Quiet(p), acts, color, t)
  {
    RunAccounts(Quiet(p), acts, color, t);
    assert StringsOf([], t) == [] && Pending(Quiet(p), t) == [];
    assert [] + [] + Entered(Quiet(p), acts, color, t) == Entered(Quiet(p), acts, color, t);
  }

  /** The lock word and the terminal it guards, driven one atomic step of one task at a time. */
  class SharedTerminal {
    const tty: Terminal.Tty
    var lock: int
    /** Where every task stands in its own code. */
    var places: map<nat, Place>
    ghost var log: seq<Byte>
    ghost var calls: seq<Call>

    constructor (tty: Terminal.Tty)
      requires tty.Valid()
      ensures this.tty == tty && Now() == Quiet(tty.page)
    {
      this.tty := tty;
      lock, places, log, calls := 0, map[], [], [];
    }

    ghost function Now(): State
      reads this, tty
    {
      State(lock, places, tty.page, log, calls)
    }

    /** The atomic exchange of the acquiring loop. */
    method TestAndSet() returns (previous: int)
      modifies `lock
      ensures previous == old(lock) && lock == 1
    {
      previous := lock;
      lock := 1;
    }

    method Release()
      modifies `lock
      ensures lock == 0
    {
      lock := 0;
    }

    method StepTask(t: nat)
      requires tty.Valid()
      modifies this, tty`row, tty`column, tty`page, tty.buffer
      ensures tty.Valid() && Now() == Next(old(Now()), Go(t), tty.color)
    {
      assert Sane(tty.page);
      hide PutChar, Terminal.Tty.Valid;
      var place := if t in places then places[t] else Idle;
      match place {
        case Idle =>
        case Acquiring(data) =>
          var previous := TestAndSet();
          if previous == 0 {
            places := places[t := Writing(data, 0)];
          }
        case Writing(data, done) =>
          if done < |data| {
            tty.PutCharUnlocked(data[done]);
            places := places[t := Writing(data, done + 1)];
            log := log + [data[done]];
          } else {
            Release();
            places := places[t := Idle];
            calls := calls + [Call(t, data)];
          }
      }
    }

    /** Any schedule of calls and steps, carried out on the screen array itself. */
    method RunAll(acts: seq<Action>)
      requires tty.Valid()
      modifies this, tty`row, tty`column, tty`page, tty.buffer
      ensures tty.Valid() && Sane(old(tty.page)) && Now() == Run(old(Now()), acts, tty.color)
    {
      hide PutChar, Next;
      for i := 0 to |acts|
        invariant tty.Valid()
        invariant Run(Now(), acts[i..], tty.color) == Run(old(Now()), acts, tty.color)
      {
        assert acts[i..][0] == acts[i] && acts[i..][1..] == acts[i + 1..];
        match acts[i] {
          case Enter(t, data) =>
            EnterIs(Now(), t, data, tty.color);
            if t !in places || places[t].Idle? {
              places := places[t := Acquiring(data)];
            }
          case Go(t) =>
            StepTask(t);
        }
      }
      assert acts[|acts|..] == [];
    }
  }

  lemma EnterIs(s: State, t: nat, data: seq<Byte>, color: Byte)
    requires Sane(s.page)
    ensures Next(s, Enter(t, data), color) == if PlaceOf(s, t).Idle? then At(s, t, Acquiring(data)) else s
  {
  }
}
