/** The console as a whole: what is typed, read as a line. */
module Console {
  import opened Words
  import opened Page
  import opened Terminal
  import opened Readline
  import Keyboard

  /** A line read from the keyboard: after any interleaving, from the characters returned from number `from` on, the
      buffer is the edit of keys that were decoded and queued, in order, and its C string length is its length. */
  lemma TypedLine(k: Keyboard.State, es: seq<Keyboard.Event>, from: nat,
                  p: Page, maxLen: nat, color: Byte, bytes: seq<Byte>)
    requires Keyboard.Sound(k) && k.accepted == [] && k.returned == []
    requires Sane(p) && from <= |Keyboard.Run(k, es).returned|
    requires var text := Session(Started(p, maxLen), Keyboard.Run(k, es).returned[from..], maxLen, color).text;
      |text| < |bytes| && bytes[..|text|] == text && bytes[|text|] == 0
    ensures var keys := Keyboard.Run(k, es).returned[from..];
      var text := Session(Started(p, maxLen), keys, maxLen, color).text;
      Strlen(bytes) == |text| && text == Edited(EditKeys(Started(p, maxLen), keys, maxLen, color))
    ensures Keyboard.Run(k, es).returned <= Keyboard.Keep(Keyboard.DecodeAll(k.mods, es), Keyboard.Dropped(k, es))
  {
    hide Session, EditKeys, Keyboard.Run, Keyboard.Sound;
    Keyboard.ReturnedInOrder(k, es);
    var keys := Keyboard.Run(k, es).returned[from..];
    LineLength(Started(p, maxLen), keys, maxLen, color, bytes);
    SessionEdits(Started(p, maxLen), [], keys, maxLen, color);
    assert [] + EditKeys(Started(p, maxLen), keys, maxLen, color) == EditKeys(Started(p, maxLen), keys, maxLen, color);
  }

  /** The line those keys make, its page and its text, all keys taken. */
  predicate LineTaken(p: Page, keys: seq<Byte>, maxLen: u32, color: Byte, p': Page, text: seq<Byte>, ended: bool)
    requires Sane(p)
  {
    var n := Capacity(maxLen);
    var s := Session(Started(p, n), keys, n, color);
    p' == s.page && text == s.text && ended == (s.end != Open) && Taken(Started(p, n), keys, n, color) == |keys|
  }

  /** The events of one keyboard_getchar. */
  function Fetched(scancodes: seq<Byte>, taken: nat, found: bool): seq<Keyboard.Event>
    requires taken <= |scancodes|
  {
    Keyboard.Interrupts(scancodes[..taken]) + (if found then Keyboard.READ_ONE else [])
  }

  lemma WaitingCount(driver: Keyboard.Driver)
    requires driver.Valid()
    ensures Keyboard.Queued(driver.state) >= 0 && Keyboard.Sound(driver.state)
  {
  }

  /** One keyboard_getchar, with the history it belongs to; fetched characters or awaited scancodes get fewer. */
  method NextKey(driver: Keyboard.Driver, scancodes: seq<Byte>, ghost k0: Keyboard.State, ghost es: seq<Keyboard.Event>)
    returns (found: bool, c: Byte, taken: nat, ghost es': seq<Keyboard.Event>)
    requires driver.Valid() && driver.reader == Keyboard.Testing
    requires Keyboard.Sound(k0) && driver.state == Keyboard.Run(k0, es)
    modifies driver, driver.buffer
    ensures driver.Valid() && driver.reader == Keyboard.Testing && driver.buffer == old(driver.buffer)
    ensures driver.state == Keyboard.Run(k0, es') && taken <= |scancodes|
    ensures driver.state.returned == old(driver.state.returned) + (if found then [c] else [])
    ensures !found ==> taken == |scancodes| && Keyboard.Queued(driver.state) == 0
    ensures found && taken == 0 ==>
      0 <= Keyboard.Queued(driver.state) < Keyboard.Queued(old(driver.state))
  {
    hide Keyboard.Driver.Valid, Keyboard.Run;
    found, c, taken := driver.Getchar(scancodes);
    WaitingCount(driver);
    es' := es + Fetched(scancodes, taken, found);
    Keyboard.RunConcat(k0, es, Fetched(scancodes, taken, found));
  }

  /** The line as fetched from the keyboard, before its NUL. */
  method FetchLine(driver: Keyboard.Driver, tty: Tty, buffer: array<Byte>, maxLen: u32, scancodes: seq<Byte>,
                   ghost k0: Keyboard.State, ghost es0: seq<Keyboard.Event>)
    returns (i: nat, ended: bool, ghost keys: seq<Byte>, ghost es: seq<Keyboard.Event>)
    requires driver.Valid() && driver.reader == Keyboard.Testing && tty.Valid() && Capacity(maxLen) <= buffer.Length
    requires buffer != driver.buffer && Keyboard.Sound(k0) && driver.state == Keyboard.Run(k0, es0)
    modifies driver, driver.buffer, tty`row, tty`column, tty`page, tty.buffer, buffer
    ensures driver.Valid() && driver.reader == Keyboard.Testing && driver.buffer == old(driver.buffer)
    ensures driver.state == Keyboard.Run(k0, es) && driver.state.returned == old(driver.state.returned) + keys
    ensures tty.Valid() && Sane(old(tty.page)) && i < buffer.Length
    ensures LineTaken(old(tty.page), keys, maxLen, tty.color, tty.page, buffer[..i], ended)
    ensures !ended ==> Keyboard.Queued(driver.state) == 0
  {
    assert Sane(tty.page) && Capacity(maxLen) > 0;
    ghost var n := Capacity(maxLen);
    ghost var s, first := Started(tty.page, n), Started(tty.page, n);
    WaitingCount(driver);
    hide Session, Taken, PutChar, Tty.Valid, Capacity, Keyboard.Driver.Valid, Keyboard.Run, Keyboard.Queued;
    hide Keyboard.Sound, StepKey;
    var last := Wrap(maxLen - 1);
    assert n == last + 1;
    keys, es := [], es0;
    SessionOver(s, [], n, tty.color);
    var entered, taken := false, 0;
    i, ended := 0, false;
    while i < last && !entered
      invariant driver.Valid() && driver.reader == Keyboard.Testing && driver.buffer == old(driver.buffer)
      invariant driver.state == Keyboard.Run(k0, es) && driver.state.returned == old(driver.state.returned) + keys
      invariant tty.Valid() && taken <= |scancodes| && i == |s.text| < n && buffer[..i] == s.text
      invariant Sane(s.page) && tty.page == s.page && tty.buffer == old(tty.buffer)
      invariant s.end == (if entered then Entered else if i < last then Open else Full)
      invariant s == Session(first, keys, n, tty.color) && |keys| == Taken(first, keys, n, tty.color)
      decreases |scancodes| - taken, Keyboard.Queued(driver.state)
    {
      var found, c, more;
      found, c, more, es := NextKey(driver, scancodes[taken..], k0, es);
      taken := taken + more;
      if !found {
        return;
      }
      i, entered := TakeKey(tty, buffer, i, c, s, n);
      SessionSnoc(first, keys, c, n, tty.color);
      StepEnd(s, c, n, tty.color);
      s := StepKey(s, c, n, tty.color);
      keys := keys + [c];
    }
    ended := true;
  }

  /** The bytes of a fetched line hold no NUL. */
  lemma FetchedLine(k: Keyboard.State, es: seq<Keyboard.Event>, before: seq<Byte>, keys: seq<Byte>,
                    p: Page, maxLen: u32, color: Byte, p': Page, bytes: seq<Byte>, i: nat)
    requires Keyboard.Sound(k) && k.accepted == [] && k.returned == [] && Sane(p)
    requires Keyboard.Run(k, es).returned == before + keys
    requires i < |bytes| && bytes[i] == 0 && LineTaken(p, keys, maxLen, color, p', bytes[..i], true)
    ensures Strlen(bytes) == i
  {
    hide Keyboard.Run, Session, EditKeys, Taken, Capacity;
    Keyboard.ReturnedInOrder(k, es);
    assert forall j :: 0 <= j < |keys| ==> keys[j] == (before + keys)[|before| + j];
    LineLength(Started(p, Capacity(maxLen)), keys, Capacity(maxLen), color, bytes);
  }

  /** shell_readline on the keyboard: each key is fetched with keyboard_getchar, while scancodes arrive as interrupts.
      The driver was started in k0 and has met the events es0 since; `keys` are the characters this line took. */
  method TypeLine(driver: Keyboard.Driver, tty: Tty, buffer: array<Byte>, maxLen: u32, scancodes: seq<Byte>,
                  ghost k0: Keyboard.State, ghost es0: seq<Keyboard.Event>)
    returns (i: nat, ended: bool, ghost keys: seq<Byte>, ghost es: seq<Keyboard.Event>)
    requires driver.Valid() && driver.reader == Keyboard.Testing && tty.Valid() && Capacity(maxLen) <= buffer.Length
    requires buffer != driver.buffer && Keyboard.Sound(k0) && driver.state == Keyboard.Run(k0, es0)
    requires k0.accepted == [] && k0.returned == []
    modifies driver, driver.buffer, tty`row, tty`column, tty`page, tty.buffer, buffer
    ensures driver.Valid() && driver.reader == Keyboard.Testing && driver.state == Keyboard.Run(k0, es)
    ensures driver.state.returned == old(driver.state.returned) + keys
    ensures tty.Valid() && Sane(old(tty.page)) && i < buffer.Length
    ensures LineTaken(old(tty.page), keys, maxLen, tty.color, tty.page, buffer[..i], ended)
    ensures ended ==> buffer[i] == 0 && Strlen(buffer[..]) == i
    ensures !ended ==> Keyboard.Queued(driver.state) == 0
  {
    hide LineTaken, Capacity, Tty.Valid, Keyboard.Driver.Valid, Keyboard.Run, Keyboard.Sound;
    ghost var before, p := driver.state.returned, tty.page;
    i, ended, keys, es := FetchLine(driver, tty, buffer, maxLen, scancodes, k0, es0);
    if ended {
      ghost var text := buffer[..i];
      buffer[i] := 0;
      assert buffer[..][..i] == text;
      FetchedLine(k0, es, before, keys, p, maxLen, tty.color, tty.page, buffer[..], i);
    }
  }
}
