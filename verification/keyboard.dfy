/** The keyboard driver: scancodes folded into characters, and a ring buffer shared with one interruptible reader. */
module Keyboard {
  import opened Words

  const SIZE: int := 256

  // Scancode set 1, row by row, as character codes: first plain, then with a shift key held.
  const DIGIT_ROW: seq<int> := [0, 27, 49, 50, 51, 52, 53, 54, 55, 56, 57, 48, 45, 61, 8]
  const TOP_ROW: seq<int> := [9, 113, 119, 101, 114, 116, 121, 117, 105, 111, 112, 91, 93, 10]
  const HOME_ROW: seq<int> := [0, 97, 115, 100, 102, 103, 104, 106, 107, 108, 59, 39, 96, 0, 92]
  const BOTTOM_ROW: seq<int> := [122, 120, 99, 118, 98, 110, 109, 44, 46, 47, 0, 42, 0, 32]

  const SHIFTED_DIGIT_ROW: seq<int> := [0, 27, 33, 64, 35, 36, 37, 94, 38, 42, 40, 41, 95, 43, 8]
  const SHIFTED_TOP_ROW: seq<int> := [9, 81, 87, 69, 82, 84, 89, 85, 73, 79, 80, 123, 125, 10]
  const SHIFTED_HOME_ROW: seq<int> := [0, 65, 83, 68, 70, 71, 72, 74, 75, 76, 58, 34, 126, 0, 124]
  const SHIFTED_BOTTOM_ROW: seq<int> := [90, 88, 67, 86, 66, 78, 77, 60, 62, 63, 0, 42, 0, 32]

  /** The character code of a scancode; scancodes past the rows stand for none. */
  function Lookup(shifted: bool, scancode: int): (c: int)
    requires 0 <= scancode
  {
    if scancode < 15 then (if shifted then SHIFTED_DIGIT_ROW else DIGIT_ROW)[scancode]
    else if scancode < 29 then (if shifted then SHIFTED_TOP_ROW else TOP_ROW)[scancode - 15]
    else if scancode < 44 then (if shifted then SHIFTED_HOME_ROW else HOME_ROW)[scancode - 29]
    else if scancode < 58 then (if shifted then SHIFTED_BOTTOM_ROW else BOTTOM_ROW)[scancode - 44]
    else 0
  }

  datatype Modifiers = Modifiers(caps: bool, lshift: bool, rshift: bool)

  predicate IsModifier(scancode: Byte) {
    scancode in {0x2A, 0xAA, 0x36, 0xB6, 0x3A}
  }

  function AfterKey(m: Modifiers, scancode: Byte): Modifiers {
    if scancode == 0x2A then m.(lshift := true)
    else if scancode == 0xAA then m.(lshift := false)
    else if scancode == 0x36 then m.(rshift := true)
    else if scancode == 0xB6 then m.(rshift := false)
    else if scancode == 0x3A then m.(caps := !m.caps)
    else m
  }

  predicate IsLower(c: int) {
    97 <= c <= 122
  }

  predicate IsUpper(c: int) {
    65 <= c <= 90
  }

  function Capitalised(caps: bool, c: int): int {
    if caps && IsLower(c) then c - 32 else if caps && IsUpper(c) then c + 32 else c
  }

  /** The character a scancode produces, 0 for none. */
  function Decode(m: Modifiers, scancode: Byte): int {
    if IsModifier(scancode) || scancode >= 0x80 then 0
    else Capitalised(m.caps, Lookup(m.lshift || m.rshift, scancode))
  }

  /** Everything decoded is a byte; a letter is a capital exactly when one of shift and caps lock is on. */
  lemma DecodeMeaning(m: Modifiers, scancode: Byte)
    ensures 0 <= Decode(m, scancode) < 128
    ensures IsLower(Decode(m, scancode)) || IsUpper(Decode(m, scancode)) ==>
      (IsUpper(Decode(m, scancode)) <==> ((m.lshift || m.rshift) != m.caps))
    ensures Decode(m, scancode) in {8, 10} <==> scancode in {0x0E, 0x1C}
  {
    hide Lookup;
    PlainEntry(scancode);
    ShiftedEntry(scancode);
  }

  lemma PlainEntry(scancode: Byte)
    ensures var c := Lookup(false, scancode);
      0 <= c < 128 && !IsUpper(c) && (c in {8, 10} <==> scancode in {0x0E, 0x1C})
  {
  }

  lemma ShiftedEntry(scancode: Byte)
    ensures var c := Lookup(true, scancode);
      0 <= c < 128 && !IsLower(c) && (c in {8, 10} <==> scancode in {0x0E, 0x1C})
  {
  }

  function Codes(text: string): (codes: seq<int>)
    ensures |codes| == |text|
  {
    seq(|text|, i requires 0 <= i < |text| => text[i] as int)
  }

  /** The keys as they are printed on them, row by row. */
  lemma PlainKeys()
    ensures DIGIT_ROW == [0, 27] + Codes("1234567890-=") + [8]
    ensures TOP_ROW == Codes("\tqwertyuiop[]\n")
    ensures HOME_ROW == [0] + Codes("asdfghjkl;'`") + [0] + Codes("\\")
    ensures BOTTOM_ROW == Codes("zxcvbnm,./") + [0] + Codes("*") + [0] + Codes(" ")
  {
  }

  lemma ShiftedKeys()
    ensures SHIFTED_DIGIT_ROW == [0, 27] + Codes("!@#$%^&*()_+") + [8]
    ensures SHIFTED_TOP_ROW == Codes("\tQWERTYUIOP{}\n")
    ensures SHIFTED_HOME_ROW == [0] + Codes("ASDFGHJKL:\"~") + [0] + Codes("|")
    ensures SHIFTED_BOTTOM_ROW == Codes("ZXCVBNM<>?") + [0] + Codes("*") + [0] + Codes(" ")
  {
  }

  /** The rows stand one after the other from scancode 0 on. */
  lemma RowsInOrder(scancode: nat)
    ensures Lookup(false, scancode) ==
      if scancode < 58 then (DIGIT_ROW + TOP_ROW + HOME_ROW + BOTTOM_ROW)[scancode] else 0
    ensures Lookup(true, scancode) ==
      if scancode < 58 then (SHIFTED_DIGIT_ROW + SHIFTED_TOP_ROW + SHIFTED_HOME_ROW + SHIFTED_BOTTOM_ROW)[scancode]
      else 0
  {
  }

  lemma UpperRowLetter(scancode: nat)
    requires scancode < 29
    ensures 'a' as int <= Lookup(false, scancode) <= 'z' as int <==> 'A' as int <= Lookup(true, scancode) <= 'Z' as int
    ensures 'a' as int <= Lookup(false, scancode) <= 'z' as int ==>
      Lookup(true, scancode) == Lookup(false, scancode) - 32
  {
  }

  lemma LowerRowLetter(scancode: nat)
    requires scancode >= 29
    ensures 'a' as int <= Lookup(false, scancode) <= 'z' as int <==> 'A' as int <= Lookup(true, scancode) <= 'Z' as int
    ensures 'a' as int <= Lookup(false, scancode) <= 'z' as int ==>
      Lookup(true, scancode) == Lookup(false, scancode) - 32
  {
  }

  /** Shift makes every letter the capital of the same letter, and nothing else a capital. */
  lemma ShiftedLetter(scancode: nat)
    ensures 'a' as int <= Lookup(false, scancode) <= 'z' as int <==> 'A' as int <= Lookup(true, scancode) <= 'Z' as int
    ensures 'a' as int <= Lookup(false, scancode) <= 'z' as int ==>
      Lookup(true, scancode) == Lookup(false, scancode) - 32
  {
    hide Lookup;
    if scancode < 29 {
      UpperRowLetter(scancode);
    } else {
      LowerRowLetter(scancode);
    }
  }

  /** A letter key gives its own letter, small or capital; any other key what is printed on it, whatever caps lock
      says; releases and modifier keys give nothing. */
  lemma DecodedKey(m: Modifiers, scancode: Byte)
    ensures var shift, plain := m.lshift || m.rshift, Lookup(false, scancode);
      Decode(m, scancode) ==
        if scancode >= 0x80 || scancode in {0x2A, 0x36, 0x3A} then 0
        else if 'a' as int <= plain <= 'z' as int then plain - (if shift != m.caps then 32 else 0)
        else Lookup(shift, scancode)
  {
    hide Lookup;
    PlainEntry(scancode);
    ShiftedEntry(scancode);
    ShiftedLetter(scancode);
  }

  // ---------------------------------------------------------------------
  // The driver and its reader as a system of atomic steps
  // ---------------------------------------------------------------------

  /** The reader tests for a character, reads the tail slot, then advances the tail: three separate steps. */
  datatype Reader = Testing | Reading | Advancing(c: Byte)

  datatype Event = Interrupt(scancode: Byte) | ReaderStep

  /** All characters ever queued, how many of them have left the queue, and what the reader has returned. */
  datatype State = State(mods: Modifiers, accepted: seq<Byte>, taken: nat, reader: Reader, returned: seq<Byte>)

  predicate Sound(s: State) {
    s.taken <= |s.accepted| <= s.taken + SIZE - 1 && s.returned == s.accepted[..s.taken] &&
    match s.reader
    case Testing => true
    case Reading => s.taken < |s.accepted|
    case Advancing(c) => s.taken < |s.accepted| && c == s.accepted[s.taken]
  }

  function Queued(s: State): int {
    |s.accepted| - s.taken
  }

  function Step(s: State, e: Event): (s': State)
    requires Sound(s)
    ensures Sound(s')
  {
    match e
    case Interrupt(scancode) =>
      DecodeMeaning(s.mods, scancode);
      var c := Decode(s.mods, scancode);
      var s1 := s.(mods := AfterKey(s.mods, scancode));
      if c != 0 && Queued(s) < SIZE - 1 then s1.(accepted := s.accepted + [c]) else s1
    case ReaderStep =>
      match s.reader
      case Testing => if Queued(s) == 0 then s else s.(reader := Reading)
      case Reading => s.(reader := Advancing(s.accepted[s.taken]))
      case Advancing(c) => s.(reader := Testing, taken := s.taken + 1, returned := s.returned + [c])
  }

  function Run(s: State, es: seq<Event>): (s': State)
    requires Sound(s)
    ensures Sound(s')
    decreases |es|
  {
    if es == [] then s else Run(Step(s, es[0]), es[1..])
  }

  /** A character is queued at the end unless 255 wait, and then it is lost. */
  lemma InterruptQueues(s: State, scancode: Byte)
    requires Sound(s)
    ensures var c := Decode(s.mods, scancode);
      Step(s, Interrupt(scancode)).accepted ==
        if c != 0 && |s.accepted| - s.taken < 255 then s.accepted + [c] else s.accepted
  {
    hide Decode;
  }

  /** The decode of the scancode history, modifiers folded along. */
  function DecodeAll(m: Modifiers, es: seq<Event>): seq<Byte>
    decreases |es|
  {
    if es == [] then []
    else
      match es[0]
      case ReaderStep => DecodeAll(m, es[1..])
      case Interrupt(scancode) =>
        DecodeMeaning(m, scancode);
        var c := Decode(m, scancode);
        (if c == 0 then [] else [c]) + DecodeAll(AfterKey(m, scancode), es[1..])
  }

  /** For each character decoded, in order, whether it arrived while the queue was full. */
  function Dropped(s: State, es: seq<Event>): (ds: seq<bool>)
    requires Sound(s)
    ensures |ds| == |DecodeAll(s.mods, es)|
    decreases |es|
  {
    if es == [] then []
    else
      (if es[0].Interrupt? && Decode(s.mods, es[0].scancode) != 0 then [Queued(s) == SIZE - 1] else []) +
      Dropped(Step(s, es[0]), es[1..])
  }

  function Keep(cs: seq<Byte>, dropped: seq<bool>): seq<Byte>
    requires |cs| == |dropped|
  {
    if cs == [] then [] else (if dropped[0] then [] else [cs[0]]) + Keep(cs[1..], dropped[1..])
  }

  lemma KeepCons(c: Byte, cs: seq<Byte>, d: bool, ds: seq<bool>)
    requires |cs| == |ds|
    ensures Keep([c] + cs, [d] + ds) == (if d then [] else [c]) + Keep(cs, ds)
  {
  }

  lemma AppendStep(a: seq<Byte>, b: seq<Byte>, rest: seq<Byte>)
    ensures a + (b + rest) == a + b + rest
    ensures [] + rest == rest && a + [] == a
  {
  }

  /** Queued characters are the decoded history minus those that met a full queue, under every interleaving. */
  lemma {:induction false} AcceptedIsHistory(s: State, es: seq<Event>)
    requires Sound(s)
    ensures Run(s, es).accepted == s.accepted + Keep(DecodeAll(s.mods, es), Dropped(s, es))
    decreases |es|
  {
    hide Decode;
    if es == [] {
      AppendStep(s.accepted, [], []);
    } else {
      var s' := Step(s, es[0]);
      AcceptedIsHistory(s', es[1..]);
      var cs, ds := DecodeAll(s'.mods, es[1..]), Dropped(s', es[1..]);
      if es[0].Interrupt? && Decode(s.mods, es[0].scancode) != 0 {
        DecodeMeaning(s.mods, es[0].scancode);
        var c: Byte := Decode(s.mods, es[0].scancode);
        var d := Queued(s) == SIZE - 1;
        KeepCons(c, cs, d, ds);
        AppendStep(s.accepted, if d then [] else [c], Keep(cs, ds));
      } else {
        AppendStep(s.accepted, [], Keep(cs, ds));
        assert [] + cs == cs && [] + ds == ds;
      }
    }
  }

  /** What the reader returned is a prefix of what was queued, in order, never a NUL. */
  lemma {:induction false} ReturnedInOrder(s: State, es: seq<Event>)
    requires Sound(s) && s.accepted == [] && s.returned == []
    ensures var s' := Run(s, es);
      s'.returned <= Keep(DecodeAll(s.mods, es), Dropped(s, es)) && |s'.returned| == s'.taken &&
      forall k :: 0 <= k < |s'.returned| ==> s'.returned[k] != 0
  {
    AcceptedIsHistory(s, es);
    var kept := Keep(DecodeAll(s.mods, es), Dropped(s, es));
    assert [] + kept == kept;
    DecodedNoNul(s.mods, es);
    KeepNoNul(DecodeAll(s.mods, es), Dropped(s, es));
  }

  lemma {:induction false} DecodedNoNul(m: Modifiers, es: seq<Event>)
    ensures forall k :: 0 <= k < |DecodeAll(m, es)| ==> DecodeAll(m, es)[k] != 0
    decreases |es|
  {
    if es != [] {
      DecodedNoNul(if es[0].Interrupt? then AfterKey(m, es[0].scancode) else m, es[1..]);
    }
  }

  lemma {:induction false} KeepNoNul(cs: seq<Byte>, dropped: seq<bool>)
    requires |cs| == |dropped| && forall k :: 0 <= k < |cs| ==> cs[k] != 0
    ensures forall k :: 0 <= k < |Keep(cs, dropped)| ==> Keep(cs, dropped)[k] != 0
  {
    if cs != [] {
      KeepNoNul(cs[1..], dropped[1..]);
    }
  }

  // ---------------------------------------------------------------------
  // Modifier keys as a function of the scancode history
  // ---------------------------------------------------------------------

  predicate IsKey(es: seq<Event>, i: int, scancode: Byte)
    requires 0 <= i < |es|
  {
    es[i] == Interrupt(scancode)
  }

  /** Event i is a `press`, and no press or release follows it. */
  ghost predicate PressedLast(es: seq<Event>, i: int, press: Byte, release: Byte) {
    0 <= i < |es| && IsKey(es, i, press) && forall j :: i < j < |es| ==> !IsKey(es, j, press) && !IsKey(es, j, release)
  }

  /** The key is down after es: last pressed, or never touched and down before. */
  ghost predicate DownAfter(es: seq<Event>, press: Byte, release: Byte, before: bool) {
    (exists i :: PressedLast(es, i, press, release)) ||
    (before && forall i :: 0 <= i < |es| ==> !IsKey(es, i, press) && !IsKey(es, i, release))
  }

  function Presses(es: seq<Event>, scancode: Byte): nat {
    if es == [] then 0 else Presses(es[..|es| - 1], scancode) + (if es[|es| - 1] == Interrupt(scancode) then 1 else 0)
  }

  /** The modifiers after a history: each shift by its last press or release, caps lock by the parity of its presses. */
  ghost function ModifiersAfter(m: Modifiers, es: seq<Event>): Modifiers {
    Modifiers(m.caps != (Presses(es, 0x3A) % 2 == 1), DownAfter(es, 0x2A, 0xAA, m.lshift),
              DownAfter(es, 0x36, 0xB6, m.rshift))
  }

  lemma PressedLastSnoc(es: seq<Event>, e: Event, i: int, press: Byte, release: Byte)
    requires e != Interrupt(press) && e != Interrupt(release)
    ensures PressedLast(es + [e], i, press, release) <==> PressedLast(es, i, press, release)
  {
    var es' := es + [e];
    assert forall j, c :: 0 <= j < |es| ==> IsKey(es', j, c) == IsKey(es, j, c);
    assert !IsKey(es', |es|, press) && !IsKey(es', |es|, release);
  }

  lemma DownAfterSnoc(es: seq<Event>, e: Event, press: Byte, release: Byte, before: bool)
    requires press != release
    ensures DownAfter(es + [e], press, release, before) ==
      if e == Interrupt(press) then true else if e == Interrupt(release) then false
      else DownAfter(es, press, release, before)
  {
    var es' := es + [e];
    assert forall j, c :: 0 <= j < |es| ==> IsKey(es', j, c) == IsKey(es, j, c);
    if e == Interrupt(press) {
      assert PressedLast(es', |es|, press, release);
    } else if e == Interrupt(release) {
      assert IsKey(es', |es|, release);
    } else {
      assert !IsKey(es', |es|, press) && !IsKey(es', |es|, release);
      forall i
        ensures PressedLast(es', i, press, release) <==> PressedLast(es, i, press, release)
      {
        PressedLastSnoc(es, e, i, press, release);
      }
    }
  }

  lemma PressesSnoc(es: seq<Event>, e: Event, scancode: Byte)
    ensures Presses(es + [e], scancode) == Presses(es, scancode) + (if e == Interrupt(scancode) then 1 else 0)
  {
    assert (es + [e])[..|es|] == es;
  }

  lemma StepModifiers(s: State, e: Event)
    requires Sound(s)
    ensures Step(s, e).mods == if e.Interrupt? then AfterKey(s.mods, e.scancode) else s.mods
  {
  }

  lemma ModifiersSnoc(m: Modifiers, es: seq<Event>, e: Event)
    ensures ModifiersAfter(m, es + [e]) ==
      if e.Interrupt? then AfterKey(ModifiersAfter(m, es), e.scancode) else ModifiersAfter(m, es)
  {
    hide DownAfter, Presses;
    DownAfterSnoc(es, e, 0x2A, 0xAA, m.lshift);
    DownAfterSnoc(es, e, 0x36, 0xB6, m.rshift);
    PressesSnoc(es, e, 0x3A);
  }

  lemma NoEvents(m: Modifiers)
    ensures ModifiersAfter(m, []) == m
  {
  }

  /** Over any history the modifiers are those its shift and caps lock keys leave. */
  lemma {:induction false} ModifiersAreHistory(s: State, es: seq<Event>)
    requires Sound(s)
    ensures Run(s, es).mods == ModifiersAfter(s.mods, es)
    decreases |es|
  {
    if es == [] {
      NoEvents(s.mods);
    } else {
      var before, e := es[..|es| - 1], es[|es| - 1];
      assert es == before + [e];
      hide Step, Sound, ModifiersAfter, AfterKey;
      ModifiersAreHistory(s, before);
      RunSnoc(s, before, e);
      StepModifiers(Run(s, before), e);
      ModifiersSnoc(s.mods, before, e);
    }
  }

  lemma {:induction false} DecodeAllSnoc(s: State, es: seq<Event>, e: Event)
    requires Sound(s)
    ensures DecodeAll(s.mods, es + [e]) == DecodeAll(s.mods, es) + DecodeAll(Run(s, es).mods, [e])
    decreases |es|
  {
    hide Sound, Decode, AfterKey;
    if es == [] {
      assert [] + [e] == [e];
    } else {
      assert (es + [e])[0] == es[0] && (es + [e])[1..] == es[1..] + [e];
      StepModifiers(s, es[0]);
      hide Step;
      DecodeAllSnoc(Step(s, es[0]), es[1..], e);
    }
  }

  function CharacterOf(m: Modifiers, scancode: Byte): (cs: seq<int>) {
    if Decode(m, scancode) == 0 then [] else [Decode(m, scancode)]
  }

  /** So every scancode is decoded under the modifiers its history leaves. */
  lemma DecodedUnderHistory(s: State, es: seq<Event>, scancode: Byte)
    requires Sound(s)
    ensures DecodeAll(s.mods, es + [Interrupt(scancode)]) ==
      DecodeAll(s.mods, es) + CharacterOf(ModifiersAfter(s.mods, es), scancode)
  {
    hide ModifiersAfter, Decode, Sound, AfterKey;
    DecodeAllSnoc(s, es, Interrupt(scancode));
    ModifiersAreHistory(s, es);
    var m := ModifiersAfter(s.mods, es);
    assert [Interrupt(scancode)][1..] == [];
    assert DecodeAll(m, [Interrupt(scancode)]) == CharacterOf(m, scancode) + [];
  }

  // ---------------------------------------------------------------------
  // The ring buffer
  // ---------------------------------------------------------------------

  /** Character k of the history lies in slot k modulo 256 while it waits. */
  ghost predicate Holds(slots: seq<Byte>, accepted: seq<Byte>, taken: nat) {
    |slots| == SIZE && forall k :: taken <= k < |accepted| ==> slots[k % SIZE] == accepted[k]
  }

  /** A character queued while fewer than 255 wait lands in a slot no waiting character uses. */
  lemma QueueHolds(slots: seq<Byte>, accepted: seq<Byte>, taken: nat, c: Byte)
    requires Holds(slots, accepted, taken) && |accepted| < taken + SIZE - 1
    ensures Holds(slots[|accepted| % SIZE := c], accepted + [c], taken)
    ensures Holds(slots[|accepted| % SIZE := c], accepted, taken)
  {
  }

  class Driver {
    var buffer: array<Byte>
    var head: nat
    var tail: nat
    var capsLock: bool
    var lshiftPressed: bool
    var rshiftPressed: bool
    /** Where the one reader stands in keyboard_getchar, with its local character. */
    var reader: Reader
    ghost var state: State

    constructor ()
      ensures Valid() && fresh(buffer)
      ensures state == State(Modifiers(false, false, false), [], 0, Testing, [])
    {
      buffer := new Byte[SIZE](_ => 0);
      head, tail := 0, 0;
      capsLock, lshiftPressed, rshiftPressed, reader := false, false, false, Testing;
      state := State(Modifiers(false, false, false), [], 0, Testing, []);
    }

    ghost predicate Valid()
      reads this, buffer
    {
      buffer.Length == SIZE && Sound(state) &&
      head == |state.accepted| % SIZE && tail == state.taken % SIZE &&
      state.mods == Modifiers(capsLock, lshiftPressed, rshiftPressed) && state.reader == reader &&
      Holds(buffer[..], state.accepted, state.taken)
    }

    /** keyboard_handler for one scancode. */
    method Handler(scancode: Byte)
      requires Valid()
      modifies this, buffer
      ensures Valid() && buffer == old(buffer) && state == Step(old(state), Interrupt(scancode))
      ensures Holds(buffer[..], old(state.accepted), old(state.taken))
    {
      DecodeMeaning(state.mods, scancode);
      ghost var after := Step(state, Interrupt(scancode));
      match scancode {
        case 0x2A => lshiftPressed := true; state := after; return;
        case 0xAA => lshiftPressed := false; state := after; return;
        case 0x36 => rshiftPressed := true; state := after; return;
        case 0xB6 => rshiftPressed := false; state := after; return;
        case 0x3A => capsLock := !capsLock; state := after; return;
        case _ =>
      }
      if scancode < 0x80 {
        var shiftActive := lshiftPressed || rshiftPressed;
        var c := Lookup(shiftActive, scancode);
        if c != 0 {
          c := Capitalised(capsLock, c);
          Enqueue(c);
          return;
        }
      }
      state := after;
    }

    /** One slot is always left empty, so a full queue holds 255 characters and drops the next. */
    method Enqueue(c: Byte)
      requires Valid()
      modifies `head, `state, buffer
      ensures Valid()
      ensures state ==
        if Queued(old(state)) < 255 then old(state).(accepted := old(state).accepted + [c]) else old(state)
      ensures Holds(buffer[..], old(state.accepted), old(state.taken))
    {
      assert buffer.Length == SIZE;
      hide Holds;
      var next := (head + 1) % SIZE;
      FullIff(|state.accepted|, state.taken);
      if next != tail {
        ghost var slots := buffer[..][head := c];
        QueueHolds(buffer[..], state.accepted, state.taken, c);
        buffer[head] := c;
        assert buffer[..] == slots;
        head := next;
        state := state.(accepted := state.accepted + [c]);
      }
    }

    /** One step of keyboard_getchar: the test of the two indices, the read of the slot, or the advance of the tail. */
    method GetcharStep()
      requires Valid()
      modifies `tail, `reader, `state
      ensures Valid() && state == Step(old(state), ReaderStep)
    {
      EmptyIff(|state.accepted|, state.taken);
      ghost var after := Step(state, ReaderStep);
      match reader {
        case Testing =>
          if head != tail {
            reader := Reading;
          }
        case Reading =>
          reader := Advancing(buffer[tail]);
        case Advancing(c) =>
          tail := (tail + 1) % SIZE;
          reader := Testing;
      }
      state := after;
    }

    /** Interrupts and reader steps in any order. */
    method Interleave(es: seq<Event>)
      requires Valid()
      modifies this, buffer
      ensures Valid() && state == Run(old(state), es)
    {
      hide Holds, Step;
      for i := 0 to |es|
        invariant Valid() && buffer == old(buffer)
        invariant Run(state, es[i..]) == Run(old(state), es)
      {
        assert es[i..][0] == es[i] && es[i..][1..] == es[i + 1..];
        match es[i] {
          case Interrupt(scancode) =>
            Handler(scancode);
          case ReaderStep =>
            GetcharStep();
        }
      }
      assert es[|es|..] == [];
    }

    /** keyboard_getchar: sleeps through interrupts until a character waits, then takes the oldest one. */
    method Getchar(scancodes: seq<Byte>) returns (found: bool, c: Byte, taken: nat)
      requires Valid() && reader == Testing
      modifies this, buffer
      ensures Valid() && reader == Testing && buffer == old(buffer) && taken <= |scancodes|
      ensures state == Run(old(state), Interrupts(scancodes[..taken]) + (if found then READ_ONE else []))
      ensures found ==> state.returned == old(state).returned + [c] && c == state.accepted[old(state).taken]
      ensures !found ==> taken == |scancodes| && Queued(state) == 0 && state.returned == old(state).returned
      ensures found && taken == 0 ==> Queued(state) == Queued(old(state)) - 1
      ensures found && taken > 0 ==> Queued(Run(old(state), Interrupts(scancodes[..taken - 1]))) == 0
    {
      hide Holds, Step;
      taken, c := 0, 0;
      assert scancodes[..0] == [];
      while head == tail
        invariant Valid() && reader == Testing && buffer == old(buffer) && taken <= |scancodes|
        invariant state == Run(old(state), Interrupts(scancodes[..taken]))
        invariant state.taken == old(state).taken && state.returned == old(state).returned
        invariant taken > 0 ==> Queued(Run(old(state), Interrupts(scancodes[..taken - 1]))) == 0
        decreases |scancodes| - taken
      {
        EmptyIff(|state.accepted|, state.taken);
        if taken == |scancodes| {
          assert Interrupts(scancodes[..taken]) + [] == Interrupts(scancodes[..taken]);
          found := false;
          return;
        }
        InterruptsSnoc(scancodes, taken);
        RunSnoc(old(state), Interrupts(scancodes[..taken]), Interrupt(scancodes[taken]));
        InterruptKeeps(state, scancodes[taken]);
        Handler(scancodes[taken]);
        taken := taken + 1;
      }
      EmptyIff(|state.accepted|, state.taken);
      found := true;
      ghost var s := state;
      ReadOneRuns(s);
      GetcharStep();
      GetcharStep();
      c := reader.c;
      GetcharStep();
      RunConcat(old(state), Interrupts(scancodes[..taken]), READ_ONE);
    }
  }

  /** The test, the read and the advance of one keyboard_getchar. */
  const READ_ONE: seq<Event> := [ReaderStep, ReaderStep, ReaderStep]

  function Interrupts(scancodes: seq<Byte>): (es: seq<Event>)
    ensures |es| == |scancodes|
  {
    seq(|scancodes|, k requires 0 <= k < |scancodes| => Interrupt(scancodes[k]))
  }

  lemma InterruptsSnoc(scancodes: seq<Byte>, n: nat)
    requires n < |scancodes|
    ensures Interrupts(scancodes[..n + 1]) == Interrupts(scancodes[..n]) + [Interrupt(scancodes[n])]
  {
  }

  lemma {:induction false} RunConcat(s: State, a: seq<Event>, b: seq<Event>)
    requires Sound(s)
    ensures Run(s, a + b) == Run(Run(s, a), b)
    decreases |a|
  {
    hide Step, Sound;
    if a == [] {
      assert a + b == b;
    } else {
      assert (a + b)[1..] == a[1..] + b;
      RunConcat(Step(s, a[0]), a[1..], b);
    }
  }

  lemma RunSnoc(s: State, es: seq<Event>, e: Event)
    requires Sound(s)
    ensures Run(s, es + [e]) == Step(Run(s, es), e)
  {
    hide Step, Sound;
    RunConcat(s, es, [e]);
    assert [e][1..] == [];
  }

  /** An interrupt leaves the reader and all it has returned alone. */
  lemma InterruptKeeps(s: State, scancode: Byte)
    requires Sound(s)
    ensures var s' := Step(s, Interrupt(scancode));
      s'.taken == s.taken && s'.returned == s.returned && s'.reader == s.reader
  {
  }

  /** With a character waiting, the three steps return the oldest. */
  lemma ReadOneRuns(s: State)
    requires Sound(s) && s.reader == Testing && Queued(s) > 0
    ensures Run(s, READ_ONE) == Step(Step(Step(s, ReaderStep), ReaderStep), ReaderStep)
    ensures Step(Step(s, ReaderStep), ReaderStep).reader == Advancing(s.accepted[s.taken])
    ensures var s' := Run(s, READ_ONE);
      s'.reader == Testing && s'.accepted == s.accepted && s'.taken == s.taken + 1 &&
      s'.returned == s.returned + [s.accepted[s.taken]]
  {
    assert READ_ONE[1..] == [ReaderStep, ReaderStep] && [ReaderStep, ReaderStep][1..] == [ReaderStep];
    assert [ReaderStep][1..] == [];
  }

  lemma FullIff(n: nat, t: nat)
    requires t <= n <= t + SIZE - 1
    ensures (n % SIZE + 1) % SIZE == (n + 1) % SIZE
    ensures (n + 1) % SIZE == t % SIZE <==> n - t == SIZE - 1
  {
  }

  lemma EmptyIff(n: nat, t: nat)
    requires t <= n <= t + SIZE - 1
    ensures n % SIZE == t % SIZE <==> n == t
    ensures (t % SIZE + 1) % SIZE == (t + 1) % SIZE
  {
  }
}
