/** The line editor: its buffer, its echo on the page, and when the two agree. */
module Readline {
  import opened Words
  import opened Page
  import opened Terminal

  /** The editing of a key stream: a backspace removes the last character left, if any. */
  function Edited(keys: seq<Byte>): seq<Byte> {
    if keys == [] then []
    else
      var before := Edited(keys[..|keys| - 1]);
      var key := keys[|keys| - 1];
      if key == BACKSPACE then (if before == [] then [] else before[..|before| - 1]) else before + [key]
  }

  datatype End = Open | Full | Entered

  /** The line so far, its page, and whether and why reading has ended. */
  datatype Line = Line(text: seq<Byte>, page: Page, end: End)

  function Started(p: Page, maxLen: nat): Line {
    Line([], p, if maxLen <= 1 then Full else Open)
  }

  /** One key taken by an open line of at most maxLen - 1 characters. */
  function StepKey(s: Line, key: Byte, maxLen: nat, color: Byte): (s': Line)
    requires Sane(s.page)
    ensures Sane(s'.page)
  {
    if key == NEWLINE then Line(s.text, PutChar(s.page, key, color), Entered)
    else if key == BACKSPACE then
      if s.text == [] then s else Line(s.text[..|s.text| - 1], PutChar(s.page, key, color), Open)
    else Line(s.text + [key], PutChar(s.page, key, color), if |s.text| + 2 == maxLen then Full else Open)
  }

  /** Keys are taken until the line ends. */
  function Session(s: Line, keys: seq<Byte>, maxLen: nat, color: Byte): (s': Line)
    requires Sane(s.page)
    ensures Sane(s'.page)
    decreases |keys|
  {
    if keys == [] || s.end != Open then s else Session(StepKey(s, keys[0], maxLen, color), keys[1..], maxLen, color)
  }

  // ---------------------------------------------------------------------
  // Echo against buffer
  // ---------------------------------------------------------------------

  /** The cells from `start` on spell the text. */
  ghost predicate Spells(p: Page, start: int, text: seq<Byte>, color: Byte)
    requires Sane(p)
  {
    0 <= start && start + |text| <= |p.rows| * WIDTH &&
    forall k :: 0 <= k < |text| ==> CellAt(p, start + k) == VgaEntry(text[k], color)
  }

  /** Cursor and text agree, and the line has not met the top of the screen. */
  ghost predicate InSync(p: Page, start: int, text: seq<Byte>, color: Byte) {
    Sane(p) && Position(p) == start + |text| && Spells(p, start, text, color)
  }

  /** No row from the start of the line on has left the screen while the line is open. */
  predicate OnScreen(p: Page, start: int) {
    Top(p) * WIDTH <= start
  }

  lemma GlyphInSync(p: Page, start: int, text: seq<Byte>, c: Byte, color: Byte)
    requires InSync(p, start, text, color) && c != NEWLINE && c != BACKSPACE
    ensures InSync(PutChar(p, c, color), start, text + [c], color)
  {
  }

  lemma BackspaceInSync(p: Page, start: int, text: seq<Byte>, color: Byte)
    requires InSync(p, start, text, color) && text != [] && OnScreen(p, start)
    ensures InSync(PutChar(p, BACKSPACE, color), start, text[..|text| - 1], color)
    ensures |PutChar(p, BACKSPACE, color).rows| == |p.rows|
  {
  }

  /** A line that starts at column col stays on the screen while it has fewer than 2000 - col characters. */
  lemma StaysOnScreen(p: Page, start: int, length: nat, c: Byte, color: Byte)
    requires Sane(p) && OnScreen(p, start) && Position(p) == start + length
    requires c != NEWLINE && c != BACKSPACE
    requires start % WIDTH + length + 1 < WIDTH * HEIGHT
    ensures OnScreen(PutChar(p, c, color), start)
  {
  }

  /** What an unfinished line keeps, and a finished one still shows. */
  ghost predicate LineGood(s: Line, start: int, maxLen: nat, color: Byte) {
    Sane(s.page) && Spells(s.page, start, s.text, color) &&
    (s.end != Entered ==> InSync(s.page, start, s.text, color)) &&
    (s.end == Entered ==> Position(s.page) == ((start + |s.text|) / WIDTH + 1) * WIDTH) &&
    (s.end == Open ==> |s.text| + 1 < maxLen && OnScreen(s.page, start))
  }

  lemma StepKeepsLine(s: Line, start: int, key: Byte, maxLen: nat, color: Byte)
    requires LineGood(s, start, maxLen, color) && s.end == Open
    requires 0 <= start && start % WIDTH + maxLen <= WIDTH * HEIGHT + 1
    ensures LineGood(StepKey(s, key, maxLen, color), start, maxLen, color)
  {
    if key == NEWLINE {
      NewlineKeepsCells(s.page, start, s.text, color);
      NewlineMoves(s.page, color);
      PositionParts(s.page);
    } else if key == BACKSPACE {
      if s.text != [] {
        BackspaceInSync(s.page, start, s.text, color);
      }
    } else {
      GlyphInSync(s.page, start, s.text, key, color);
      if |s.text| + 2 < maxLen {
        StaysOnScreen(s.page, start, |s.text|, key, color);
      }
    }
  }

  lemma NewlineKeepsCells(p: Page, start: int, text: seq<Byte>, color: Byte)
    requires Sane(p) && Spells(p, start, text, color)
    ensures Spells(PutChar(p, NEWLINE, color), start, text, color)
  {
  }

  /** At every step the echo spells the buffer; until Enter the cursor stands right behind it, and then at the start of
      the next row. */
  lemma {:induction false} SessionKeepsLine(s: Line, start: int, keys: seq<Byte>, maxLen: nat, color: Byte)
    requires LineGood(s, start, maxLen, color)
    requires 0 <= start && start % WIDTH + maxLen <= WIDTH * HEIGHT + 1
    ensures LineGood(Session(s, keys, maxLen, color), start, maxLen, color)
    decreases |keys|
  {
    if keys != [] && s.end == Open {
      StepKeepsLine(s, start, keys[0], maxLen, color);
      SessionKeepsLine(StepKey(s, keys[0], maxLen, color), start, keys[1..], maxLen, color);
    }
  }

  lemma StartGood(p: Page, maxLen: nat, color: Byte)
    requires Sane(p)
    ensures LineGood(Started(p, maxLen), Position(p), maxLen, color)
  {
  }

  /** The number of keys a session takes. */
  function Taken(s: Line, keys: seq<Byte>, maxLen: nat, color: Byte): (n: nat)
    requires Sane(s.page)
    ensures n <= |keys|
    decreases |keys|
  {
    if keys == [] || s.end != Open then 0 else 1 + Taken(StepKey(s, keys[0], maxLen, color), keys[1..], maxLen, color)
  }

  /** An open line has room for a character besides its NUL, a full one has none. */
  predicate EndRight(s: Line, maxLen: nat) {
    (s.end == Open ==> |s.text| + 1 < maxLen) && (s.end == Full ==> |s.text| + 1 == maxLen)
  }

  /** When a line ends: at its first Enter, or with maxLen - 1 characters; else all keys are taken. */
  lemma {:induction false} SessionEnds(s: Line, keys: seq<Byte>, maxLen: nat, color: Byte)
    requires Sane(s.page) && EndRight(s, maxLen) && s.end != Entered
    ensures var s', n := Session(s, keys, maxLen, color), Taken(s, keys, maxLen, color);
      EndRight(s', maxLen) && (s'.end == Open ==> n == |keys|) &&
      (s'.end == Entered <==> n > 0 && keys[n - 1] == 10) && forall k :: 0 <= k < n - 1 ==> keys[k] != 10
    decreases |keys|
  {
    hide PutChar;
    if keys != [] && s.end == Open {
      var s' := StepKey(s, keys[0], maxLen, color);
      if s'.end == Entered {
        SessionOver(s', keys[1..], maxLen, color);
      } else {
        SessionEnds(s', keys[1..], maxLen, color);
        var n := Taken(s, keys, maxLen, color);
        assert forall k :: 1 <= k < n ==> keys[k] == keys[1..][k - 1];
      }
    }
  }

  /** The first n keys, without a closing Enter. */
  function Cut(keys: seq<Byte>, n: nat, entered: bool): seq<Byte>
    requires n <= |keys|
  {
    if entered && n > 0 then keys[..n - 1] else keys[..n]
  }

  /** The keys that edit the line: those taken, without the closing Enter. */
  function EditKeys(s: Line, keys: seq<Byte>, maxLen: nat, color: Byte): seq<Byte>
    requires Sane(s.page)
  {
    Cut(keys, Taken(s, keys, maxLen, color), Session(s, keys, maxLen, color).end == Entered)
  }

  lemma EditedSnoc(keys: seq<Byte>, key: Byte)
    ensures Edited(keys + [key]) ==
      if key == BACKSPACE then (if Edited(keys) == [] then [] else Edited(keys)[..|Edited(keys)| - 1])
      else Edited(keys) + [key]
  {
  }

  lemma EditKeysStep(s: Line, keys: seq<Byte>, maxLen: nat, color: Byte)
    requires Sane(s.page) && keys != [] && s.end == Open
    ensures keys[0] == NEWLINE ==>
      EditKeys(s, keys, maxLen, color) == [] && Session(s, keys, maxLen, color).text == s.text
    ensures keys[0] != NEWLINE ==>
      EditKeys(s, keys, maxLen, color) ==
        [keys[0]] + EditKeys(StepKey(s, keys[0], maxLen, color), keys[1..], maxLen, color)
  {
    var s', rest := StepKey(s, keys[0], maxLen, color), keys[1..];
    hide PutChar, Sane, Cut;
    var n := Taken(s', rest, maxLen, color);
    assert Taken(s, keys, maxLen, color) == n + 1;
    assert Session(s, keys, maxLen, color) == Session(s', rest, maxLen, color);
    if n == 0 {
      SessionOver(s', rest, maxLen, color);
    }
    CutFirst(keys, n, Session(s', rest, maxLen, color).end == Entered);
  }

  lemma CutFirst(keys: seq<Byte>, n: nat, entered: bool)
    requires n < |keys|
    ensures n == 0 && entered ==> Cut(keys, n + 1, entered) == []
    ensures (entered ==> n > 0) ==> Cut(keys, n + 1, entered) == [keys[0]] + Cut(keys[1..], n, entered)
  {
    assert keys[..n + 1] == [keys[0]] + keys[1..][..n];
    assert n > 0 ==> keys[..n] == [keys[0]] + keys[1..][..n - 1];
  }

  /** The buffer is the edited key stream: `done` are the keys that made the text so far. */
  lemma {:induction false} SessionEdits(s: Line, done: seq<Byte>, keys: seq<Byte>, maxLen: nat, color: Byte)
    requires Sane(s.page) && s.text == Edited(done) && s.end != Entered
    ensures Session(s, keys, maxLen, color).text == Edited(done + EditKeys(s, keys, maxLen, color))
    decreases |keys|
  {
    hide EditKeys, PutChar;
    if keys == [] || s.end != Open {
      NoKeysTaken(s, keys, maxLen, color);
      assert done + [] == done;
    } else {
      EditKeysStep(s, keys, maxLen, color);
      if keys[0] == NEWLINE {
        assert done + [] == done;
      } else {
        var s' := StepKey(s, keys[0], maxLen, color);
        EditedSnoc(done, keys[0]);
        SessionEdits(s', done + [keys[0]], keys[1..], maxLen, color);
        var rest := EditKeys(s', keys[1..], maxLen, color);
        assert done + [keys[0]] + rest == done + ([keys[0]] + rest);
      }
    }
  }

  lemma NoKeysTaken(s: Line, keys: seq<Byte>, maxLen: nat, color: Byte)
    requires Sane(s.page) && (keys == [] || s.end != Open) && s.end != Entered
    ensures EditKeys(s, keys, maxLen, color) == []
  {
  }

  // ---------------------------------------------------------------------
  // The exact limit
  // ---------------------------------------------------------------------

  function Repeat(key: Byte, n: nat): (keys: seq<Byte>)
    ensures |keys| == n
  {
    if n == 0 then [] else [key] + Repeat(key, n - 1)
  }

  lemma {:induction false} SessionConcat(s: Line, a: seq<Byte>, b: seq<Byte>, maxLen: nat, color: Byte)
    requires Sane(s.page)
    ensures Session(s, a + b, maxLen, color) == Session(Session(s, a, maxLen, color), b, maxLen, color)
    decreases |a|
  {
    if a == [] {
      assert a + b == b;
    } else if s.end == Open {
      assert (a + b)[1..] == a[1..] + b;
      SessionConcat(StepKey(s, a[0], maxLen, color), a[1..], b, maxLen, color);
    }
  }

  /** One more key, while the line is open and has taken all keys so far. */
  lemma {:induction false} SessionSnoc(s: Line, keys: seq<Byte>, c: Byte, maxLen: nat, color: Byte)
    requires Sane(s.page) && Session(s, keys, maxLen, color).end == Open
    ensures Session(s, keys + [c], maxLen, color) == StepKey(Session(s, keys, maxLen, color), c, maxLen, color)
    ensures Taken(s, keys + [c], maxLen, color) == |keys| + 1
    decreases |keys|
  {
    hide PutChar;
    if keys == [] {
      assert [] + [c] == [c] && [c][1..] == [];
    } else if s.end == Open {
      assert (keys + [c])[1..] == keys[1..] + [c];
      SessionSnoc(StepKey(s, keys[0], maxLen, color), keys[1..], c, maxLen, color);
    }
  }

  const LETTER: Byte := 97

  function Longer(x: int, y: int): int {
    if x >= y then x else y
  }

  /** Typing n letters without filling the line. */
  lemma {:induction false} TypeLetters(s: Line, start: int, n: nat, maxLen: nat, color: Byte)
    requires Sane(s.page) && s.end == Open && Position(s.page) == start + |s.text| && |s.text| + n + 1 < maxLen
    ensures var s' := Session(s, Repeat(LETTER, n), maxLen, color);
      s'.end == Open && |s'.text| == |s.text| + n && Position(s'.page) == start + |s'.text| &&
      |s'.page.rows| == Longer(|s.page.rows|, s'.page.row + 1)
    decreases n
  {
    if n > 0 {
      GlyphMoves(s.page, LETTER, color);
      PositionParts(s.page);
      PositionParts(StepKey(s, LETTER, maxLen, color).page);
      TypeLetters(StepKey(s, LETTER, maxLen, color), start, n - 1, maxLen, color);
      assert Repeat(LETTER, n)[1..] == Repeat(LETTER, n - 1);
    }
  }

  /** Deleting n characters while the cursor stays clear of the screen's corner. */
  lemma {:induction false} DeleteLetters(s: Line, start: int, n: nat, maxLen: nat, color: Byte)
    requires Sane(s.page) && s.end == Open && Position(s.page) == start + |s.text| && n <= |s.text|
    requires Position(s.page) - n >= Top(s.page) * WIDTH
    ensures var s' := Session(s, Repeat(BACKSPACE, n), maxLen, color);
      s'.end == Open && |s'.text| == |s.text| - n && Position(s'.page) == start + |s'.text| &&
      Top(s'.page) == Top(s.page)
    decreases n
  {
    if n > 0 {
      BackspaceMoves(s.page, color);
      DeleteLetters(StepKey(s, BACKSPACE, maxLen, color), start, n - 1, maxLen, color);
      assert Repeat(BACKSPACE, n)[1..] == Repeat(BACKSPACE, n - 1);
    }
  }

  /** The keys that expose a line too long: fill the screen from the start column on, then delete past its corner. */
  function OverlongKeys(start: int): seq<Byte>
    requires 0 <= start
  {
    var n := WIDTH * HEIGHT - start % WIDTH;
    Repeat(LETTER, n) + (Repeat(BACKSPACE, WIDTH * (HEIGHT - 1)) + [BACKSPACE])
  }

  /** With room for more than that, cursor and buffer part. */
  lemma OverlongLineParts(p: Page, maxLen: nat, color: Byte)
    requires Sane(p) && Position(p) % WIDTH + maxLen > WIDTH * HEIGHT + 1
    ensures 0 <= Position(p)
    ensures var s := Session(Started(p, maxLen), OverlongKeys(Position(p)), maxLen, color);
      s.end == Open && Position(s.page) != Position(p) + |s.text|
  {
    var start := Position(p);
    var n := WIDTH * HEIGHT - start % WIDTH;
    var back := WIDTH * (HEIGHT - 1);
    PositionParts(p);
    var s0 := Started(p, maxLen);
    TypeLetters(s0, start, n, maxLen, color);
    var s1 := Session(s0, Repeat(LETTER, n), maxLen, color);
    PositionParts(s1.page);
    ScreenFull(p, s1.page, start, n);
    DeleteLetters(s1, start, back, maxLen, color);
    var s2 := Session(s1, Repeat(BACKSPACE, back), maxLen, color);
    BackspaceHeld(s2.page, color);
    SessionConcat(s1, Repeat(BACKSPACE, back), [BACKSPACE], maxLen, color);
    SessionConcat(s0, Repeat(LETTER, n), Repeat(BACKSPACE, back) + [BACKSPACE], maxLen, color);
    assert [BACKSPACE][1..] == [];
  }

  /** After n characters the cursor is at the start of the row 25 below the line's first. */
  lemma ScreenFull(p: Page, p': Page, start: int, n: nat)
    requires Sane(p) && Sane(p') && start == Position(p) && n == WIDTH * HEIGHT - start % WIDTH
    requires Position(p') == start + n && |p'.rows| == Longer(|p.rows|, p'.row + 1)
    ensures Top(p') == start / WIDTH + 1
    ensures Position(p') == (start / WIDTH + HEIGHT) * WIDTH
    ensures p'.row == start / WIDTH + HEIGHT
    ensures Position(p') - WIDTH * (HEIGHT - 1) == (start / WIDTH + 1) * WIDTH
  {
  }

  /** Whatever is typed, until Enter the cursor stands right behind the echo of the buffer. */
  ghost predicate AlwaysInStep(p: Page, maxLen: nat, color: Byte)
    requires Sane(p)
  {
    forall keys: seq<Byte> :: CursorBehindText(p, keys, maxLen, color)
  }

  predicate CursorBehindText(p: Page, keys: seq<Byte>, maxLen: nat, color: Byte)
    requires Sane(p)
  {
    var s := Session(Started(p, maxLen), keys, maxLen, color);
    s.end != Entered ==> Position(s.page) == Position(p) + |s.text|
  }

  /** The limit is exact: one screenful and one character, counted from the start of the line's first row. */
  lemma LimitIsExact(p: Page, maxLen: nat, color: Byte)
    requires Sane(p)
    ensures AlwaysInStep(p, maxLen, color) <==> p.col + maxLen <= 2001
  {
    PositionParts(p);
    if p.col + maxLen <= WIDTH * HEIGHT + 1 {
      forall keys: seq<Byte>
        ensures CursorBehindText(p, keys, maxLen, color)
      {
        StartGood(p, maxLen, color);
        SessionKeepsLine(Started(p, maxLen), Position(p), keys, maxLen, color);
      }
    } else {
      OverlongLineParts(p, maxLen, color);
      assert !CursorBehindText(p, OverlongKeys(Position(p)), maxLen, color);
    }
  }

  /** The cells of a text whose first row is on the screen are screen cells. */
  lemma ScreenSpells(screen: seq<Cell>, p: Page, start: int, text: seq<Byte>, color: Byte, k: nat)
    requires Sane(p) && Shows(screen, p.rows) && Spells(p, start, text, color) && OnScreen(p, start) && k < |text|
    ensures 0 <= start + k - Top(p) * WIDTH < |screen|
    ensures screen[start + k - Top(p) * WIDTH] == VgaEntry(text[k], color)
  {
    var i := start + k - Top(p) * WIDTH;
    assert CellAt(p, start + k) == VgaEntry(text[k], color);
    assert start + k < |p.rows| * WIDTH == (Top(p) + HEIGHT) * WIDTH;
    assert ShowsAt(screen, p.rows, i);
    assert (start + k) / WIDTH == Top(p) + i / WIDTH && (start + k) % WIDTH == i % WIDTH;
  }

  /** Up to 2000 columns, even the last character of a full line leaves the start of the line on the screen. */
  lemma {:induction false} LineStaysVisible(s: Line, start: int, keys: seq<Byte>, maxLen: nat, color: Byte)
    requires LineGood(s, start, maxLen, color) && OnScreen(s.page, start)
    requires 0 <= start && start % WIDTH + maxLen <= WIDTH * HEIGHT
    ensures var s' := Session(s, keys, maxLen, color); s'.end != Entered ==> OnScreen(s'.page, start)
    decreases |keys|
  {
    if keys != [] && s.end == Open && keys[0] != NEWLINE {
      var s' := StepKey(s, keys[0], maxLen, color);
      StepKeepsLine(s, start, keys[0], maxLen, color);
      if keys[0] == BACKSPACE {
        if s.text != [] {
          BackspaceInSync(s.page, start, s.text, color);
        }
      } else {
        StaysOnScreen(s.page, start, |s.text|, keys[0], color);
      }
      LineStaysVisible(s', start, keys[1..], maxLen, color);
    }
  }

  /** C string length: the index of the first NUL. */
  function Strlen(bytes: seq<Byte>): nat {
    if bytes == [] || bytes[0] == 0 then 0 else 1 + Strlen(bytes[1..])
  }

  lemma {:induction false} StrlenIs(bytes: seq<Byte>, n: nat)
    requires n < |bytes| && bytes[n] == 0 && forall k :: 0 <= k < n ==> bytes[k] != 0
    ensures Strlen(bytes) == n
  {
    if n > 0 {
      assert forall k :: 0 <= k < n - 1 ==> bytes[1..][k] == bytes[k + 1];
      StrlenIs(bytes[1..], n - 1);
    }
  }

  lemma {:induction false} EditedNoNul(keys: seq<Byte>)
    requires forall k :: 0 <= k < |keys| ==> keys[k] != 0
    ensures forall k :: 0 <= k < |Edited(keys)| ==> Edited(keys)[k] != 0
  {
    if keys != [] {
      EditedNoNul(keys[..|keys| - 1]);
    }
  }

  /** From a keyboard that queues no NUL, the line's length is its C string length. */
  lemma LineLength(s: Line, keys: seq<Byte>, maxLen: nat, color: Byte, bytes: seq<Byte>)
    requires Sane(s.page) && s.text == [] && s.end != Entered
    requires forall k :: 0 <= k < |keys| ==> keys[k] != 0
    requires var text := Session(s, keys, maxLen, color).text;
      |text| < |bytes| && bytes[..|text|] == text && bytes[|text|] == 0
    ensures Strlen(bytes) == |Session(s, keys, maxLen, color).text|
  {
    var text := Session(s, keys, maxLen, color).text;
    SessionEdits(s, [], keys, maxLen, color);
    var edit := EditKeys(s, keys, maxLen, color);
    assert [] + edit == edit;
    EditedNoNul(edit);
    forall k | 0 <= k < |text|
      ensures bytes[k] != 0
    {
      assert bytes[k] == bytes[..|text|][k];
    }
    StrlenIs(bytes, |text|);
  }

  /** The room max_len stands for: one character more than max_len - 1 in 32-bit arithmetic, so 2^32 for 0. */
  function Capacity(maxLen: u32): (n: nat)
    ensures n == if maxLen == 0 then TWO_32 else maxLen
  {
    Wrap(maxLen - 1) + 1
  }

  /** shell_readline ends at the first Enter, or with max_len - 1 characters, and until then takes every key. */
  lemma LineEnds(p: Page, keys: seq<Byte>, maxLen: u32, color: Byte)
    requires Sane(p)
    ensures var n := Capacity(maxLen);
      var s, taken := Session(Started(p, n), keys, n, color), Taken(Started(p, n), keys, n, color);
      (s.end == Entered <==> taken > 0 && keys[taken - 1] == 10) &&
      (s.end == Full ==> |s.text| == n - 1) && (s.end == Open ==> taken == |keys| && |s.text| < n - 1) &&
      forall k :: 0 <= k < taken - 1 ==> keys[k] != 10
  {
    hide Session, Taken;
    SessionEnds(Started(p, Capacity(maxLen)), keys, Capacity(maxLen), color);
  }

  /** At every key, line and terminating NUL stay within a buffer of that many bytes. */
  predicate RoomAlong(s: Line, keys: seq<Byte>, maxLen: nat, color: Byte, size: nat)
    requires Sane(s.page)
    decreases |keys|
  {
    |s.text| < size &&
    (keys == [] || s.end != Open || RoomAlong(StepKey(s, keys[0], maxLen, color), keys[1..], maxLen, color, size))
  }

  lemma {:induction false} LineFits(s: Line, keys: seq<Byte>, maxLen: nat, color: Byte, size: nat)
    requires Sane(s.page) && |s.text| < maxLen <= size && (s.end == Open ==> |s.text| + 1 < maxLen)
    ensures RoomAlong(s, keys, maxLen, color, size)
    decreases |keys|
  {
    hide PutChar;
    if keys != [] && s.end == Open {
      LineFits(StepKey(s, keys[0], maxLen, color), keys[1..], maxLen, color, size);
    }
  }

  /** What shell_readline needs of its buffer for these keys. */
  predicate BufferHolds(p: Page, keys: seq<Byte>, maxLen: u32, color: Byte, size: nat)
    requires Sane(p)
  {
    RoomAlong(Started(p, Capacity(maxLen)), keys, Capacity(maxLen), color, size)
  }

  ghost predicate AlwaysHolds(p: Page, maxLen: u32, color: Byte, size: nat)
    requires Sane(p)
  {
    forall keys: seq<Byte> :: BufferHolds(p, keys, maxLen, color, size)
  }

  /** A buffer of max_len bytes is enough for every key stream iff max_len is not 0; then not even the NUL fits. */
  lemma BufferIsEnoughIff(p: Page, maxLen: u32, color: Byte)
    requires Sane(p)
    ensures AlwaysHolds(p, maxLen, color, maxLen) <==> maxLen != 0
  {
    if maxLen == 0 {
      assert !BufferHolds(p, [], maxLen, color, maxLen);
    } else {
      forall keys: seq<Byte>
        ensures BufferHolds(p, keys, maxLen, color, maxLen)
      {
        LineFits(Started(p, Capacity(maxLen)), keys, Capacity(maxLen), color, maxLen);
      }
    }
  }

  /** With max_len 0 the line is not even bounded by the screen: n letters fill n bytes, far beyond the 0 there are. */
  lemma ZeroOverruns(p: Page, n: nat, color: Byte)
    requires Sane(p) && n + 1 < TWO_32
    ensures |Session(Started(p, Capacity(0)), Repeat(LETTER, n), Capacity(0), color).text| == n
  {
    PositionParts(p);
    TypeLetters(Started(p, Capacity(0)), Position(p), n, Capacity(0), color);
  }

  /** One key taken: buffer, count and echo. */
  method TakeKey(tty: Tty, buffer: array<Byte>, i: nat, c: Byte, ghost s: Line, ghost maxLen: nat)
    returns (count: nat, entered: bool)
    requires tty.Valid() && Sane(s.page) && tty.page == s.page && s.end == Open
    requires i == |s.text| < buffer.Length && buffer[..i] == s.text
    modifies tty`row, tty`column, tty`page, tty.buffer, buffer
    ensures var s' := StepKey(s, c, maxLen, tty.color);
      tty.Valid() && tty.page == s'.page && count == |s'.text| <= buffer.Length && buffer[..count] == s'.text
    ensures entered == (c == NEWLINE)
  {
    hide PutChar, Tty.Valid;
    count, entered := i, false;
    if c == NEWLINE {
      tty.PutCharUnlocked(NEWLINE);
      entered := true;
    } else if c == BACKSPACE {
      if i > 0 {
        count := i - 1;
        tty.PutCharUnlocked(BACKSPACE);
      }
    } else {
      buffer[i] := c;
      count := i + 1;
      tty.PutCharUnlocked(c);
    }
  }

  /** shell_readline over the keys that arrive; it ends with the line, or blocks when they run out. */
  method ReadLine(tty: Tty, keys: seq<Byte>, buffer: array<Byte>, maxLen: u32)
    returns (taken: nat, i: nat, ended: bool)
    requires tty.Valid() && BufferHolds(tty.page, keys, maxLen, tty.color, buffer.Length)
    modifies tty`row, tty`column, tty`page, tty.buffer, buffer
    ensures tty.Valid() && Sane(old(tty.page)) && i < buffer.Length
    ensures var n := Capacity(maxLen);
      var s := Session(Started(old(tty.page), n), keys, n, tty.color);
      tty.page == s.page && i == |s.text| < n && buffer[..i] == s.text && ended == (s.end != Open) &&
      taken == Taken(Started(old(tty.page), n), keys, n, tty.color)
    ensures ended ==> buffer[i] == 0
  {
    assert Sane(tty.page);
    ghost var n := Capacity(maxLen);
    ghost var s, first := Started(tty.page, n), Started(tty.page, n);
    RoomNow(s, keys, n, tty.color, buffer.Length);
    hide Session, Taken, PutChar, Tty.Valid, Capacity, RoomAlong;
    var last := Wrap(maxLen - 1);
    assert n == last + 1;
    var entered := false;
    i, taken, ended := 0, 0, false;
    while i < last && !entered
      invariant tty.Valid() && taken <= |keys| && i == |s.text| < buffer.Length && buffer[..i] == s.text
      invariant Sane(s.page) && tty.page == s.page && i < n && !ended
      invariant s.end == (if entered then Entered else if i < last then Open else Full)
      invariant RoomAlong(s, keys[taken..], n, tty.color, buffer.Length)
      invariant Session(s, keys[taken..], n, tty.color) == Session(first, keys, n, tty.color)
      invariant taken + Taken(s, keys[taken..], n, tty.color) == Taken(first, keys, n, tty.color)
      decreases |keys| - taken
    {
      if taken == |keys| {
        SessionOver(s, keys[taken..], n, tty.color);
        return;
      }
      SessionStep(s, keys, taken, n, tty.color, buffer.Length);
      i, entered := TakeKey(tty, buffer, i, keys[taken], s, n);
      s := StepKey(s, keys[taken], n, tty.color);
      taken := taken + 1;
    }
    SessionOver(s, keys[taken..], n, tty.color);
    buffer[i] := 0;
    ended := true;
  }

  lemma StepEnd(s: Line, key: Byte, maxLen: nat, color: Byte)
    requires Sane(s.page) && s.end == Open && |s.text| + 1 < maxLen
    ensures var s' := StepKey(s, key, maxLen, color);
      |s'.text| < maxLen &&
      s'.end == (if key == NEWLINE then Entered else if |s'.text| + 1 < maxLen then Open else Full)
  {
    hide PutChar;
  }

  lemma SessionOver(s: Line, keys: seq<Byte>, maxLen: nat, color: Byte)
    requires Sane(s.page) && (keys == [] || s.end != Open)
    ensures Session(s, keys, maxLen, color) == s && Taken(s, keys, maxLen, color) == 0
  {
  }

  lemma RoomNow(s: Line, keys: seq<Byte>, maxLen: nat, color: Byte, size: nat)
    requires Sane(s.page) && RoomAlong(s, keys, maxLen, color, size)
    ensures |s.text| < size
  {
  }

  lemma SessionStep(s: Line, keys: seq<Byte>, n: nat, maxLen: nat, color: Byte, size: nat)
    requires Sane(s.page) && n < |keys| && s.end == Open && RoomAlong(s, keys[n..], maxLen, color, size)
    ensures var s' := StepKey(s, keys[n], maxLen, color);
      Session(s, keys[n..], maxLen, color) == Session(s', keys[n + 1..], maxLen, color) &&
      Taken(s, keys[n..], maxLen, color) == 1 + Taken(s', keys[n + 1..], maxLen, color) &&
      RoomAlong(s', keys[n + 1..], maxLen, color, size) && |s'.text| < size
  {
    hide PutChar;
    assert keys[n..][0] == keys[n] && keys[n..][1..] == keys[n + 1..];
  }
}
