/** The unbounded page a text screen is a window of: writing never moves a row. */
module Page {
  import opened Words

  const WIDTH: int := 80
  const HEIGHT: int := 25
  const NEWLINE: Byte := 10
  const BACKSPACE: Byte := 8
  const SPACE: Byte := 32

  type Cell = c: int | 0 <= c < 0x1_0000

  /** A character in the low byte, its colours in the high byte. */
  function VgaEntry(c: Byte, color: Byte): Cell {
    c + 256 * color
  }

  /** Both bytes of a cell, as the hardware reads them. */
  lemma CellBytes(c: Byte, color: Byte)
    ensures VgaEntry(c, color) % 256 == c && VgaEntry(c, color) / 256 == color
  {
  }

  function BlankRow(color: Byte): (row: seq<Cell>)
    ensures |row| == WIDTH
  {
    seq(WIDTH, _ => VgaEntry(SPACE, color))
  }

  /** All rows ever begun, and the cursor; the screen shows the last 25 rows. */
  datatype Page = Page(rows: seq<seq<Cell>>, row: int, col: int)

  /** The first row still on the screen: the number of scrolls so far. */
  function Top(p: Page): int {
    |p.rows| - HEIGHT
  }

  /** The cursor stays on the screen. */
  ghost predicate Sane(p: Page) {
    |p.rows| >= HEIGHT && (forall r :: 0 <= r < |p.rows| ==> |p.rows[r]| == WIDTH) &&
    Top(p) <= p.row < |p.rows| && 0 <= p.col < WIDTH
  }

  function SetCell(rows: seq<seq<Cell>>, r: int, c: int, cell: Cell): (rows': seq<seq<Cell>>)
    requires 0 <= r < |rows| && 0 <= c < |rows[r]|
    ensures |rows'| == |rows|
  {
    var line: seq<Cell> := rows[r][c := cell];
    rows[r := line]
  }

  /** To the start of the next row, which is begun blank when the page has none. */
  function NextRow(p: Page, color: Byte): Page {
    Page(if p.row + 1 == |p.rows| then p.rows + [BlankRow(color)] else p.rows, p.row + 1, 0)
  }

  /** One cell back; held only at the top-left of the screen. */
  function Back(p: Page): Page {
    if p.col > 0 then p.(col := p.col - 1)
    else if p.row > Top(p) then p.(row := p.row - 1, col := WIDTH - 1)
    else p
  }

  function Erase(p: Page, color: Byte): Page
    requires Sane(p)
  {
    p.(rows := SetCell(p.rows, p.row, p.col, VgaEntry(SPACE, color)))
  }

  function Glyph(p: Page, c: Byte, color: Byte): Page
    requires Sane(p)
  {
    var written := p.(rows := SetCell(p.rows, p.row, p.col, VgaEntry(c, color)));
    if p.col + 1 == WIDTH then NextRow(written, color) else written.(col := p.col + 1)
  }

  /** One character on the page. */
  function PutChar(p: Page, c: Byte, color: Byte): (p': Page)
    requires Sane(p)
    ensures Sane(p')
  {
    if c == NEWLINE then NextRow(p, color)
    else if c == BACKSPACE then Erase(Back(p), color)
    else Glyph(p, c, color)
  }

  function PutAll(p: Page, cs: seq<Byte>, color: Byte): (p': Page)
    requires Sane(p)
    ensures Sane(p')
    decreases |cs|
  {
    if cs == [] then p else PutAll(PutChar(p, cs[0], color), cs[1..], color)
  }

  function Fresh(color: Byte): (p: Page)
    ensures Sane(p)
  {
    Page(seq(HEIGHT, _ => BlankRow(color)), 0, 0)
  }

  /** A page starts as 25 blank rows of 80 cells, cursor home. */
  lemma FreshIsBlank(color: Byte)
    ensures var p := Fresh(color);
      |p.rows| == 25 && p.row == 0 && p.col == 0 &&
      forall r, c :: 0 <= r < 25 && 0 <= c < 80 ==> |p.rows[r]| == 80 && p.rows[r][c] == ' ' as int + 256 * color
  {
  }

  /** What has scrolled off the screen never changes again. */
  lemma {:induction false} ScrolledOffStays(p: Page, cs: seq<Byte>, color: Byte, r: int)
    requires Sane(p) && 0 <= r < Top(p)
    ensures r < Top(PutAll(p, cs, color)) && PutAll(p, cs, color).rows[r] == p.rows[r]
    decreases |cs|
  {
    if cs != [] {
      ScrolledOffStays(PutChar(p, cs[0], color), cs[1..], color, r);
    }
  }

  // ---------------------------------------------------------------------
  // Cells in writing order
  // ---------------------------------------------------------------------

  function Position(p: Page): int {
    p.row * WIDTH + p.col
  }

  function CellAt(p: Page, n: int): Cell
    requires Sane(p) && 0 <= n < |p.rows| * WIDTH
  {
    RowBound(n, |p.rows|);
    p.rows[n / WIDTH][n % WIDTH]
  }

  lemma RowBound(n: int, rows: int)
    requires 0 <= n < rows * WIDTH
    ensures 0 <= n / WIDTH < rows
  {
  }

  lemma PositionParts(p: Page)
    requires Sane(p)
    ensures Position(p) / WIDTH == p.row && Position(p) % WIDTH == p.col
    ensures Top(p) * WIDTH <= Position(p) < |p.rows| * WIDTH
  {
  }

  /** All rows of p are in p' as well, and every cell of a row just begun is blank. */
  ghost predicate Continues(p: Page, p': Page, color: Byte)
    requires Sane(p) && Sane(p')
  {
    |p.rows| <= |p'.rows| <= |p.rows| + 1 &&
    forall n :: |p.rows| * WIDTH <= n < |p'.rows| * WIDTH ==> CellAt(p', n) == ' ' as int + 256 * color
  }

  /** A newline goes to the start of the next row, which is begun blank below the last; every old cell stays. */
  lemma NewlineMoves(p: Page, color: Byte)
    requires Sane(p)
    ensures var p' := PutChar(p, 10, color);
      Position(p') == (p.row + 1) * WIDTH && p'.col == 0 &&
      |p'.rows| == |p.rows| + (if p.row == |p.rows| - 1 then 1 else 0) && Continues(p, p', color)
    ensures forall n :: 0 <= n < |p.rows| * WIDTH ==> CellAt(PutChar(p, 10, color), n) == CellAt(p, n)
  {
  }

  /** A glyph fills the cell at the cursor and moves one on; every other cell stays. */
  lemma GlyphMoves(p: Page, c: Byte, color: Byte)
    requires Sane(p) && c != 10 && c != 8
    ensures var p' := PutChar(p, c, color);
      Position(p') == Position(p) + 1 && |p'.rows| >= |p.rows| && Continues(p, p', color) &&
      |p'.rows| == (if p'.row == |p.rows| then |p.rows| + 1 else |p.rows|)
    ensures forall n :: 0 <= n < |p.rows| * WIDTH ==>
      CellAt(PutChar(p, c, color), n) == if n == Position(p) then VgaEntry(c, color) else CellAt(p, n)
  {
  }

  /** A backspace off the screen's corner moves one back and blanks that cell; every other cell stays. */
  lemma BackspaceMoves(p: Page, color: Byte)
    requires Sane(p) && Position(p) > Top(p) * WIDTH
    ensures var p' := PutChar(p, 8, color);
      Position(p') == Position(p) - 1 && |p'.rows| == |p.rows|
    ensures CellAt(PutChar(p, 8, color), Position(p) - 1) == ' ' as int + 256 * color
    ensures forall n :: 0 <= n < |p.rows| * WIDTH && n != Position(p) - 1 ==>
      CellAt(PutChar(p, 8, color), n) == CellAt(p, n)
  {
  }

  /** At the corner a backspace goes nowhere, and blanks the cell it stands on. */
  lemma BackspaceHeld(p: Page, color: Byte)
    requires Sane(p) && Position(p) == Top(p) * WIDTH
    ensures Position(PutChar(p, 8, color)) == Position(p) && |PutChar(p, 8, color).rows| == |p.rows|
    ensures CellAt(PutChar(p, 8, color), Position(p)) == ' ' as int + 256 * color
    ensures forall n :: 0 <= n < |p.rows| * WIDTH && n != Position(p) ==>
      CellAt(PutChar(p, 8, color), n) == CellAt(p, n)
  {
  }
}
