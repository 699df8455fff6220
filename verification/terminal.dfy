/** The text-mode terminal: an 80x25 screen array, scrolled in place, that is always a window of the page. */
module Terminal {
  import opened Words
  import opened Page

  const VGA_COLOR_BLACK: Byte := 0
  const VGA_COLOR_MAGENTA: Byte := 5

  /** Foreground in the low four bits, background above. */
  function VgaEntryColor(fg: int, bg: int): Byte
    requires 0 <= fg < 16 && 0 <= bg < 16
  {
    fg + 16 * bg
  }

  lemma ColorParts(fg: int, bg: int)
    requires 0 <= fg < 16 && 0 <= bg < 16
    ensures VgaEntryColor(fg, bg) % 16 == fg && VgaEntryColor(fg, bg) / 16 == bg
  {
  }

  /** Screen cell i, in row-major order, shows that cell of the last 25 rows. */
  predicate ShowsAt(screen: seq<Cell>, rows: seq<seq<Cell>>, i: int)
    requires 0 <= i < |screen| == WIDTH * HEIGHT && |rows| >= HEIGHT
  {
    var r := |rows| - HEIGHT + i / WIDTH;
    |rows[r]| == WIDTH && screen[i] == rows[r][i % WIDTH]
  }

  ghost predicate Shows(screen: seq<Cell>, rows: seq<seq<Cell>>) {
    |screen| == WIDTH * HEIGHT && |rows| >= HEIGHT && forall i :: 0 <= i < WIDTH * HEIGHT ==> ShowsAt(screen, rows, i)
  }

  /** One scroll: every cell takes the one a row below, the last row is blanked. */
  function Scrolled(screen: seq<Cell>, color: Byte): (s: seq<Cell>)
    requires |screen| == WIDTH * HEIGHT
    ensures |s| == WIDTH * HEIGHT
  {
    screen[WIDTH..] + BlankRow(color)
  }

  lemma ScrolledShows(screen: seq<Cell>, rows: seq<seq<Cell>>, color: Byte)
    requires Shows(screen, rows)
    ensures Shows(Scrolled(screen, color), rows + [BlankRow(color)])
  {
    var rows' := rows + [BlankRow(color)];
    var s := Scrolled(screen, color);
    forall i | 0 <= i < WIDTH * HEIGHT
      ensures ShowsAt(s, rows', i)
    {
      if i + WIDTH < WIDTH * HEIGHT {
        assert ShowsAt(screen, rows, i + WIDTH);
        assert (i + WIDTH) / WIDTH == i / WIDTH + 1 && (i + WIDTH) % WIDTH == i % WIDTH;
      } else {
        assert i / WIDTH == HEIGHT - 1;
        assert s[i] == BlankRow(color)[i - WIDTH * (HEIGHT - 1)];
      }
    }
  }

  lemma SetCellShows(screen: seq<Cell>, rows: seq<seq<Cell>>, y: int, x: int, cell: Cell)
    requires Shows(screen, rows) && 0 <= y < HEIGHT && 0 <= x < WIDTH
    requires |rows[|rows| - HEIGHT + y]| == WIDTH
    ensures 0 <= y * WIDTH + x < WIDTH * HEIGHT
    ensures Shows(screen[y * WIDTH + x := cell], SetCell(rows, |rows| - HEIGHT + y, x, cell))
  {
    var rows' := SetCell(rows, |rows| - HEIGHT + y, x, cell);
    var s := screen[y * WIDTH + x := cell];
    forall i | 0 <= i < WIDTH * HEIGHT
      ensures ShowsAt(s, rows', i)
    {
      assert ShowsAt(screen, rows, i);
      assert i == i / WIDTH * WIDTH + i % WIDTH;
      if i / WIDTH == y && i % WIDTH == x {
        assert i == y * WIDTH + x;
      }
    }
  }

  class Tty {
    var row: nat
    var column: nat
    var color: Byte
    var buffer: array<Cell>
    /** Everything written, without scrolling. */
    ghost var page: Page

    constructor (screen: array<Cell>)
      requires screen.Length == WIDTH * HEIGHT
      ensures buffer == screen
    {
      row, column, color, buffer := 0, 0, 0, screen;
      page := Fresh(0);
    }

    /** The screen is the last 25 rows of the page, and the cursor is the page's, counted from the window's top. */
    ghost predicate Valid()
      reads this, buffer
    {
      Sane(page) && Shows(buffer[..], page.rows) && page.row == Top(page) + row && page.col == column
    }

    /** terminal_initialize: cursor home, magenta on black, all cells blank. */
    method Initialize()
      requires buffer.Length == WIDTH * HEIGHT
      modifies `row, `column, `color, `page, buffer
      ensures Valid() && color == 5 && page == Fresh(color)
    {
      row := 0;
      column := 0;
      color := VgaEntryColor(VGA_COLOR_MAGENTA, VGA_COLOR_BLACK);
      for y := 0 to HEIGHT
        invariant forall i :: 0 <= i < y * WIDTH ==> buffer[i] == VgaEntry(SPACE, color)
        modifies buffer
      {
        for x := 0 to WIDTH
          invariant forall i :: 0 <= i < y * WIDTH + x ==> buffer[i] == VgaEntry(SPACE, color)
          modifies buffer
        {
          buffer[y * WIDTH + x] := VgaEntry(SPACE, color);
        }
      }
      page := Fresh(color);
    }

    /** terminal_setcolor_colors: both halves of the colour, and nothing on the screen. */
    method SetColors(fg: int, bg: int)
      requires Valid() && 0 <= fg < 16 && 0 <= bg < 16
      modifies `color
      ensures Valid() && color % 16 == fg && color / 16 == bg
    {
      ColorParts(fg, bg);
      color := VgaEntryColor(fg, bg);
    }

    /** terminal_scroll, cell by cell in place. */
    method Scroll()
      requires buffer.Length == WIDTH * HEIGHT
      modifies buffer
      ensures buffer[..] == Scrolled(old(buffer[..]), color)
    {
      ShiftUp();
      for x := 0 to WIDTH
        invariant forall i :: 0 <= i < WIDTH * (HEIGHT - 1) ==> buffer[i] == old(buffer[i + WIDTH])
        invariant forall i :: WIDTH * (HEIGHT - 1) <= i < WIDTH * (HEIGHT - 1) + x ==>
          buffer[i] == VgaEntry(SPACE, color)
      {
        buffer[(HEIGHT - 1) * WIDTH + x] := VgaEntry(SPACE, color);
      }
    }

    method ShiftUp()
      requires buffer.Length == WIDTH * HEIGHT
      modifies buffer
      ensures forall i :: 0 <= i < WIDTH * (HEIGHT - 1) ==> buffer[i] == old(buffer[i + WIDTH])
    {
      for y := 0 to HEIGHT - 1
        invariant forall i :: 0 <= i < y * WIDTH ==> buffer[i] == old(buffer[i + WIDTH])
        invariant forall i :: y * WIDTH <= i < WIDTH * HEIGHT ==> buffer[i] == old(buffer[i])
      {
        for x := 0 to WIDTH
          invariant forall i :: 0 <= i < y * WIDTH + x ==> buffer[i] == old(buffer[i + WIDTH])
          invariant forall i :: y * WIDTH + x <= i < WIDTH * HEIGHT ==> buffer[i] == old(buffer[i])
        {
          buffer[y * WIDTH + x] := buffer[(y + 1) * WIDTH + x];
        }
      }
    }

    /** Stores one cell at the cursor. */
    method PutCell(cell: Cell)
      requires Valid()
      modifies buffer, `page
      ensures Valid() && page == old(page).(rows := SetCell(old(page).rows, old(page).row, old(page).col, cell))
    {
      SetCellShows(buffer[..], page.rows, row, column, cell);
      ghost var screen := buffer[..][row * WIDTH + column := cell];
      buffer[row * WIDTH + column] := cell;
      assert buffer[..] == screen;
      page := page.(rows := SetCell(page.rows, page.row, page.col, cell));
    }

    /** The cursor to the start of the next row, scrolling at the bottom. */
    method LineFeed()
      requires Sane(page) && Shows(buffer[..], page.rows) && page.row == Top(page) + row
      modifies `row, `column, `page, buffer
      ensures Valid() && page == NextRow(old(page), color)
    {
      assert buffer.Length == WIDTH * HEIGHT;
      hide Shows;
      ghost var screen := buffer[..];
      ScrolledShows(screen, page.rows, color);
      column := 0;
      row := row + 1;
      if row == HEIGHT {
        Scroll();
        row := HEIGHT - 1;
      }
      page := NextRow(page, color);
    }

    /** terminal_putchar_unlocked. */
    method PutCharUnlocked(c: Byte)
      requires Valid()
      modifies `row, `column, `page, buffer
      ensures Valid() && page == PutChar(old(page), c, color)
    {
      hide Shows;
      if c == NEWLINE {
        LineFeed();
      } else if c == BACKSPACE {
        StepBack();
        PutCell(VgaEntry(SPACE, color));
      } else {
        PutCell(VgaEntry(c, color));
        column := column + 1;
        if column == WIDTH {
          LineFeed();
        } else {
          page := page.(col := page.col + 1);
        }
      }
    }

    method StepBack()
      requires Valid()
      modifies `row, `column, `page
      ensures Valid() && page == Back(old(page))
    {
      if column > 0 {
        column := column - 1;
      } else if row > 0 {
        row := row - 1;
        column := WIDTH - 1;
      }
      page := Back(page);
    }

    /** The unlocked writer over a whole string. */
    method WriteUnlocked(data: seq<Byte>)
      requires Valid()
      modifies `row, `column, `page, buffer
      ensures Valid() && page == PutAll(old(page), data, color)
    {
      hide Shows, PutChar;
      for i := 0 to |data|
        invariant Valid()
        invariant PutAll(page, data[i..], color) == PutAll(old(page), data, color)
      {
        assert data[i..][0] == data[i] && data[i..][1..] == data[i + 1..];
        PutCharUnlocked(data[i]);
      }
      assert data[|data|..] == [];
    }
  }
}
