/**
 The text terminal of an i386 (nop/arch/i386/tasks/text.c:20-63): a window on an unbounded page.

 The page is laid out by `Lay`, which breaks a text into rows from the front.  The terminal works
 on a fixed array, character by character; its invariant says that the array shows the last rows
 of the page.
 */
module Text {
  import opened Bytes
  import opened CString

  const NEWLINE: byte := 10

  // ----- The page -----

  /** The first row ends here: at a line end or at the end of the text. */
  function LineEnd(text: seq<byte>): (k: nat)
    ensures k <= |text| && NEWLINE !in text[..k]
    ensures k < |text| ==> text[k] == NEWLINE
  {
    if text == [] || text[0] == NEWLINE then 0
    else
      var k := 1 + LineEnd(text[1..]);
      assert text[..k] == [text[0]] + text[1..][..k - 1];
      k
  }

  /** A line broken into rows of `width` characters; a full row is not followed by an empty one. */
  function Fold(line: seq<byte>, width: nat): (rows: seq<seq<byte>>)
    requires width > 0
    ensures rows != []
    decreases |line|
  {
    if |line| <= width then [line] else [line[..width]] + Fold(line[width..], width)
  }

  function Lay(text: seq<byte>, width: nat): (rows: seq<seq<byte>>)
    requires width > 0
    ensures rows != []
    decreases |text|
  {
    var k := LineEnd(text);
    if k == |text| then Fold(text, width) else Fold(text[..k], width) + Lay(text[k + 1..], width)
  }

  // ----- What the page is -----

  function Joined(rows: seq<seq<byte>>): seq<byte> {
    if rows == [] then [] else rows[0] + Joined(rows[1..])
  }

  /** The rows of a line hold its characters in order; all but the last are full, and none is longer. */
  lemma {:induction false} FoldKeepsText(line: seq<byte>, width: nat)
    requires width > 0
    ensures var rows := Fold(line, width);
            && Joined(rows) == line
            && (forall k :: 0 <= k < |rows| - 1 ==> |rows[k]| == width)
            && |rows[|rows| - 1]| <= width && (rows[|rows| - 1] == [] ==> line == [])
    decreases |line|
  {
    if |line| <= width {
      assert Joined([line][1..]) == [];
    } else {
      hide Joined;
      FoldKeepsText(line[width..], width);
      var rest := Fold(line[width..], width);
      assert ([line[..width]] + rest)[1..] == rest;
      assert line[..width] + line[width..] == line;
    }
  }

  /** A line end separates what is laid out in front of it from what is laid out behind it. */
  lemma {:induction false} LayOfLines(front: seq<byte>, rest: seq<byte>, width: nat)
    requires width > 0
    ensures Lay(front + [10] + rest, width) == Lay(front, width) + Lay(rest, width)
    decreases |front|
  {
    hide Fold, Lay, LineEnd;
    var text := front + [10] + rest;
    FirstLineEnd(front, rest);
    LayLines(text, width);
    LayLines(front, width);
    var k := LineEnd(front);
    if k == |front| {
      assert text[..k] == front && text[k + 1..] == rest;
    } else {
      LayOfLines(front[k + 1..], rest, width);
      assert text[..k] == front[..k] && text[k + 1..] == front[k + 1..] + [10] + rest;
      Regroup(Fold(front[..k], width), Lay(front[k + 1..], width), Lay(rest, width));
    }
  }

  lemma Regroup(a: seq<seq<byte>>, b: seq<seq<byte>>, c: seq<seq<byte>>)
    ensures a + (b + c) == a + b + c
  {
  }

  lemma {:induction false} FirstLineEnd(front: seq<byte>, rest: seq<byte>)
    ensures LineEnd(front + [10] + rest) == LineEnd(front)
  {
    if front != [] && front[0] != 10 {
      FirstLineEnd(front[1..], rest);
      assert (front + [10] + rest)[1..] == front[1..] + [10] + rest;
    }
  }

  /** A text without line ends is one line. */
  lemma LayOfLine(line: seq<byte>, width: nat)
    requires width > 0 && 10 !in line
    ensures Lay(line, width) == Fold(line, width)
  {
    assert LineEnd(line) < |line| ==> NEWLINE in line;
  }

  // ----- One more character -----

  function AddRow(rows: seq<seq<byte>>): seq<seq<byte>> {
    rows + [[]]
  }

  function AddChar(rows: seq<seq<byte>>, c: byte): (r: seq<seq<byte>>)
    requires rows != []
    ensures |r| == |rows|
  {
    rows[..|rows| - 1] + [rows[|rows| - 1] + [c]]
  }

  function Step(rows: seq<seq<byte>>, width: nat, c: byte): (r: seq<seq<byte>>)
    requires rows != []
    ensures r != []
  {
    if c == NEWLINE then AddRow(rows)
    else if |rows[|rows| - 1]| >= width then AddChar(AddRow(rows), c)
    else AddChar(rows, c)
  }

  lemma StepLocal(front: seq<seq<byte>>, rows: seq<seq<byte>>, width: nat, c: byte)
    requires rows != []
    ensures Step(front + rows, width, c) == front + Step(rows, width, c)
  {
    assert (front + rows)[..|front + rows| - 1] == front + rows[..|rows| - 1];
    assert AddRow(front + rows) == front + AddRow(rows);
    assert AddRow(front + rows)[..|front + rows|] == front + AddRow(rows)[..|rows|];
  }

  lemma {:induction false} FoldStep(line: seq<byte>, width: nat, c: byte)
    requires width > 0 && c != NEWLINE
    ensures Fold(line + [c], width) == Step(Fold(line, width), width, c)
    decreases |line|
  {
    if |line| < width {
      assert [line][..0] == [];
      assert Step([line], width, c) == [line + [c]];
    } else if |line| == width {
      assert AddRow([line])[..1] == [line] && [] + [c] == [c];
      assert Step([line], width, c) == [line] + [[c]];
      assert (line + [c])[..width] == line && (line + [c])[width..] == [c];
    } else {
      FoldStep(line[width..], width, c);
      StepLocal([line[..width]], Fold(line[width..], width), width, c);
      assert (line + [c])[..width] == line[..width] && (line + [c])[width..] == line[width..] + [c];
    }
  }

  lemma {:induction false} LineEndStep(text: seq<byte>, c: byte)
    ensures LineEnd(text + [c]) == if LineEnd(text) < |text| || c == NEWLINE then LineEnd(text) else |text| + 1
  {
    if text != [] && text[0] != NEWLINE {
      assert (text + [c])[1..] == text[1..] + [c];
      LineEndStep(text[1..], c);
    }
  }

  /** Laying out a text character by character gives the same page. */
  lemma {:induction false} LayStep(text: seq<byte>, width: nat, c: byte)
    requires width > 0
    ensures Lay(text + [c], width) == Step(Lay(text, width), width, c)
    decreases |text|
  {
    hide Lay, Fold, Step, LineEnd;
    var k, next := LineEnd(text), text + [c];
    LineEndStep(text, c);
    LayLines(text, width);
    LayLines(next, width);
    if k < |text| {
      LayStep(text[k + 1..], width, c);
      StepLocal(Fold(text[..k], width), Lay(text[k + 1..], width), width, c);
      assert next[..k] == text[..k] && next[k + 1..] == text[k + 1..] + [c];
    } else if c == NEWLINE {
      assert next[..k] == text && next[k + 1..] == [];
      NewlineAddsRow(Fold(text, width), width);
    } else {
      FoldStep(text, width, c);
    }
  }

  lemma LayLines(text: seq<byte>, width: nat)
    requires width > 0
    ensures var k := LineEnd(text);
            Lay(text, width) ==
            if k == |text| then Fold(text, width) else Fold(text[..k], width) + Lay(text[k + 1..], width)
  {
  }

  lemma NewlineAddsRow(rows: seq<seq<byte>>, width: nat)
    requires width > 0 && rows != []
    ensures rows + Lay([], width) == Step(rows, width, NEWLINE)
  {
  }

  /** A full row followed by a line end is one row, like any other line. */
  lemma FullLineTakesOneRow(text: seq<byte>, width: nat)
    requires width > 0 && |Lay(text, width)[|Lay(text, width)| - 1]| == width
    ensures |Lay(text + [NEWLINE], width)| == |Lay(text, width)| + 1
  {
    LayStep(text, width, NEWLINE);
  }

  // ----- The window -----

  /** A `char` is signed: a byte from 128 on sets all bits of the attribute. */
  function Glyph(c: byte, color: bv16): bv16 {
    (if c < 128 then c as bv16 else (c as bv16) | 0xFF00) | color
  }

  lemma GlyphBits(v: bv16, color: bv16)
    requires v < 0x100
    ensures color & 0xFF == 0 ==> (v | color) & 0xFF00 == color
    ensures (v | 0xFF00) & 0xFF00 != 0
    ensures ((v | 0xFF00) | 0) & 0xFF00 != 0
  {
  }

  /** A character keeps every attribute exactly if it has 7 bits. */
  lemma GlyphKeepsColor(c: byte)
    ensures (forall color: bv16 | color & 0xFF == 0 :: Glyph(c, color) & 0xFF00 == color) <==> c < 128
  {
    var v := c as bv16;
    assert v < 0x100;
    if c < 128 {
      forall color: bv16 | color & 0xFF == 0
        ensures Glyph(c, color) & 0xFF00 == color
      {
        GlyphBits(v, color);
      }
    } else {
      GlyphBits(v, 0);
      assert (0 as bv16) & 0xFF == 0 && Glyph(c, 0) & 0xFF00 != 0;
    }
  }

  lemma LowByte(v: bv16, color: bv16)
    requires v < 0x100 && color & 0xFF == 0
    ensures (v | color) & 0xFF == v && ((v | 0xFF00) | color) & 0xFF == v
    ensures ((v | 0xFF00) | color) & 0xFF00 == 0xFF00
  {
  }

  /** A cell shows its character, under any attribute; from 128 on all bits of the attribute are set. */
  lemma GlyphShows(c: byte, color: bv16)
    requires color & 0xFF == 0
    ensures Glyph(c, color) & 0xFF == c as bv16
    ensures Glyph(c, color) & 0xFF00 == if c < 128 then color else 0xFF00
  {
    var v := c as bv16;
    assert v < 0x100;
    LowByte(v, color);
    GlyphBits(v, color);
  }

  type Row = seq<bv16>

  /** What the page shows in a cell: its text, and behind it the initial screen or a blank. */
  function PageCell(rows: seq<seq<byte>>, initial: seq<Row>, color: bv16, row: nat, c: nat): bv16 {
    if row < |rows| && c < |rows[row]| then Glyph(rows[row][c], color)
    else if row < |initial| && c < |initial[row]| then initial[row][c]
    else color
  }

  function PageRow(rows: seq<seq<byte>>, initial: seq<Row>, width: nat, color: bv16, row: nat): (r: Row)
    ensures |r| == width
  {
    seq(width, c requires 0 <= c < width => PageCell(rows, initial, color, row, c))
  }

  function BlankRow(width: nat, color: bv16): (r: Row)
    ensures |r| == width
  {
    seq(width, _ => color)
  }

  /** The number of rows above the screen. */
  function Top(rows: seq<seq<byte>>, height: nat): nat {
    if |rows| <= height then 0 else |rows| - height
  }

  /** The rows of the page from `row` to before `end`. */
  function PageRows(rows: seq<seq<byte>>, initial: seq<Row>, width: nat, color: bv16, row: nat, end: nat): (screen: seq<Row>)
    requires row <= end
    ensures |screen| == end - row
    decreases end - row
  {
    if row == end then []
    else [PageRow(rows, initial, width, color, row)] + PageRows(rows, initial, width, color, row + 1, end)
  }

  /** The last `height` rows the cursor has reached, or the first ones. */
  function Window(rows: seq<seq<byte>>, initial: seq<Row>, width: nat, height: nat, color: bv16): (screen: seq<Row>)
    ensures |screen| == height
  {
    PageRows(rows, initial, width, color, Top(rows, height), Top(rows, height) + height)
  }

  lemma {:induction false} PageRowsAt(rows: seq<seq<byte>>, initial: seq<Row>, width: nat, color: bv16, row: nat, end: nat, r: nat)
    requires row + r < end
    ensures PageRows(rows, initial, width, color, row, end)[r] == PageRow(rows, initial, width, color, row + r)
    decreases r
  {
    if r > 0 {
      PageRowsAt(rows, initial, width, color, row + 1, end, r - 1);
    }
  }

  lemma RowAfterAddRow(rows: seq<seq<byte>>, initial: seq<Row>, width: nat, color: bv16, row: nat)
    ensures PageRow(AddRow(rows), initial, width, color, row) == PageRow(rows, initial, width, color, row)
  {
    hide Glyph;
  }

  lemma RowBelowPage(rows: seq<seq<byte>>, initial: seq<Row>, width: nat, color: bv16, row: nat)
    requires |rows| <= row && |initial| <= row
    ensures PageRow(rows, initial, width, color, row) == BlankRow(width, color)
  {
  }

  lemma RowAfterAddChar(rows: seq<seq<byte>>, initial: seq<Row>, width: nat, color: bv16, c: byte, row: nat)
    requires rows != [] && |rows[|rows| - 1]| < width
    ensures var before, after := PageRow(rows, initial, width, color, row), PageRow(AddChar(rows, c), initial, width, color, row);
            after == if row == |rows| - 1 then before[|rows[row]| := Glyph(c, color)] else before
  {
    hide Glyph;
    var last := rows[|rows| - 1];
    forall k: nat | k < width
      ensures PageCell(AddChar(rows, c), initial, color, row, k) ==
              if row == |rows| - 1 && k == |last| then Glyph(c, color) else PageCell(rows, initial, color, row, k)
    {
    }
  }

  lemma WindowRow(rows: seq<seq<byte>>, initial: seq<Row>, width: nat, height: nat, color: bv16, r: nat)
    requires r < height
    ensures Window(rows, initial, width, height, color)[r] == PageRow(rows, initial, width, color, Top(rows, height) + r)
  {
    PageRowsAt(rows, initial, width, color, Top(rows, height), Top(rows, height) + height, r);
  }

  /**
   What the screen shows: its row 0 is the first row of the page, or the one that leaves the last row
   of the page at the bottom.  Text is shown where it is, and behind it the screen as it was at first
   or, below that, blanks.
   */
  lemma WindowShows(rows: seq<seq<byte>>, initial: seq<Row>, width: nat, height: nat, color: bv16, r: nat, c: nat)
    requires r < height == |initial| && c < width && AllOf(initial, width) && color & 0xFF == 0
    ensures var k := if |rows| <= height then r else |rows| - height + r;
            var screen := Window(rows, initial, width, height, color);
            && |screen[r]| == width
            && (k < |rows| && c < |rows[k]| ==> screen[r][c] & 0xFF == rows[k][c] as bv16)
            && (!(k < |rows| && c < |rows[k]|) ==> screen[r][c] == if k < height then initial[k][c] else color)
  {
    WindowRow(rows, initial, width, height, color, r);
    var k := if |rows| <= height then r else |rows| - height + r;
    if k < |rows| && c < |rows[k]| {
      GlyphShows(rows[k][c], color);
    }
    hide Window, Glyph;
  }

  lemma WindowIsWide(rows: seq<seq<byte>>, initial: seq<Row>, width: nat, height: nat, color: bv16)
    ensures AllOf(Window(rows, initial, width, height, color), width)
  {
    hide Window;
    forall r | 0 <= r < height
      ensures |Window(rows, initial, width, height, color)[r]| == width
    {
      WindowRow(rows, initial, width, height, color, r);
    }
  }

  /** Going to a new row on the screen shows it as it was; past the last one, the window moves on. */
  lemma WindowAddRow(rows: seq<seq<byte>>, initial: seq<Row>, width: nat, height: nat, color: bv16)
    requires rows != [] && |initial| == height > 0
    ensures var before, after := Window(rows, initial, width, height, color), Window(AddRow(rows), initial, width, height, color);
            after == if |rows| < height then before else before[1..] + [BlankRow(width, color)]
  {
    hide PageRow, Window;
    var before, after := Window(rows, initial, width, height, color), Window(AddRow(rows), initial, width, height, color);
    var top := Top(AddRow(rows), height);
    if |rows| < height {
      forall r | 0 <= r < height
        ensures after[r] == before[r]
      {
        WindowRow(AddRow(rows), initial, width, height, color, r);
        RowAfterAddRow(rows, initial, width, color, top + r);
        WindowRow(rows, initial, width, height, color, r);
      }
    } else {
      forall r | 0 <= r < height - 1
        ensures after[r] == before[r + 1]
      {
        WindowRow(AddRow(rows), initial, width, height, color, r);
        RowAfterAddRow(rows, initial, width, color, top + r);
        WindowRow(rows, initial, width, height, color, r + 1);
      }
      WindowRow(AddRow(rows), initial, width, height, color, height - 1);
      RowAfterAddRow(rows, initial, width, color, top + height - 1);
      RowBelowPage(rows, initial, width, color, top + height - 1);
      assert after == before[1..] + [BlankRow(width, color)];
    }
  }

  /** A character shows where the cursor is. */
  lemma WindowAddChar(rows: seq<seq<byte>>, initial: seq<Row>, width: nat, height: nat, color: bv16, c: byte)
    requires rows != [] && |initial| == height > 0 && |rows[|rows| - 1]| < width
    ensures var before, after := Window(rows, initial, width, height, color), Window(AddChar(rows, c), initial, width, height, color);
            var y, x := |rows| - 1 - Top(rows, height), |rows[|rows| - 1]|;
            y < height && x < |before[y]| && after == before[y := before[y][x := Glyph(c, color)]]
  {
    WindowIsWide(rows, initial, width, height, color);
    hide PageRow, Glyph, Window;
    var before, after := Window(rows, initial, width, height, color), Window(AddChar(rows, c), initial, width, height, color);
    var y, x := |rows| - 1 - Top(rows, height), |rows[|rows| - 1]|;
    forall r | 0 <= r < height
      ensures after[r] == if r == y then before[r][x := Glyph(c, color)] else before[r]
    {
      WindowRow(rows, initial, width, height, color, r);
      WindowRow(AddChar(rows, c), initial, width, height, color, r);
      RowAfterAddChar(rows, initial, width, color, c, Top(rows, height) + r);
    }
  }

  // ----- Rows in an array -----

  function Flat(screen: seq<Row>): (cells: seq<bv16>) {
    if screen == [] then [] else screen[0] + Flat(screen[1..])
  }

  ghost predicate AllOf(screen: seq<Row>, width: nat) {
    forall r :: 0 <= r < |screen| ==> |screen[r]| == width
  }

  lemma {:induction false} FlatLength(screen: seq<Row>, width: nat)
    requires AllOf(screen, width)
    ensures |Flat(screen)| == width * |screen|
  {
    if screen != [] {
      FlatLength(screen[1..], width);
      assert width * |screen| == width + width * (|screen| - 1);
    }
  }

  lemma {:induction false} FlatSnoc(screen: seq<Row>, row: Row)
    ensures Flat(screen + [row]) == Flat(screen) + row
  {
    if screen == [] {
      assert [row][1..] == [];
    } else {
      FlatSnoc(screen[1..], row);
      assert (screen + [row])[1..] == screen[1..] + [row];
    }
  }

  lemma {:induction false} FlatUpdate(screen: seq<Row>, width: nat, y: nat, x: nat, glyph: bv16)
    requires AllOf(screen, width) && y < |screen| && x < width
    ensures x + y * width < |Flat(screen)|
    ensures Flat(screen[y := screen[y][x := glyph]]) == Flat(screen)[x + y * width := glyph]
  {
    hide Flat;
    var screen' := screen[y := screen[y][x := glyph]];
    FlatRows(screen);
    FlatRows(screen');
    var rest := Flat(screen[1..]);
    if y == 0 {
      assert screen'[1..] == screen[1..];
      assert (screen[0] + rest)[x := glyph] == screen[0][x := glyph] + rest;
    } else {
      FlatUpdate(screen[1..], width, y - 1, x, glyph);
      assert screen'[1..] == screen[1..][y - 1 := screen[y][x := glyph]];
      var i := x + (y - 1) * width;
      assert x + y * width == width + i;
      assert (screen[0] + rest)[width + i := glyph] == screen[0] + rest[i := glyph];
    }
  }

  lemma FlatRows(screen: seq<Row>)
    requires screen != []
    ensures Flat(screen) == screen[0] + Flat(screen[1..])
  {
  }

  /** Every array of the right size holds rows. */
  lemma {:induction false} FlatExists(cells: seq<bv16>, width: nat, height: nat)
    requires |cells| == width * height
    ensures exists screen :: |screen| == height && AllOf(screen, width) && Flat(screen) == cells
    decreases height
  {
    if height == 0 {
      assert AllOf([], width) && Flat([]) == cells;
    } else {
      assert width * height == width + width * (height - 1);
      FlatExists(cells[width..], width, height - 1);
      var rest :| |rest| == height - 1 && AllOf(rest, width) && Flat(rest) == cells[width..];
      var screen := [cells[..width]] + rest;
      assert screen[1..] == rest && AllOf(screen, width) && Flat(screen) == cells;
    }
  }

  /** Before anything is written the window shows the screen as it was. */
  lemma BlankPageShowsScreen(screen: seq<Row>, width: nat, height: nat, color: bv16)
    requires width > 0 && |screen| == height && AllOf(screen, width)
    ensures Window(Lay([], width), screen, width, height, color) == screen
  {
    var rows := Lay([], width);
    assert rows == [[]];
    hide Window;
    forall r | 0 <= r < height
      ensures Window(rows, screen, width, height, color)[r] == screen[r]
    {
      WindowRow(rows, screen, width, height, color, r);
    }
  }

  lemma LastRow(width: nat, height: nat)
    requires height > 0
    ensures width + width * (height - 1) == width * height
  {
  }

  // ----- The terminal -----

  class Terminal {
    const cells: array<bv16>
    const width: nat
    const height: nat
    const color: bv16
    var x: nat
    var y: nat

    /** Everything written so far, and the screen as it was at the start. */
    ghost var history: seq<byte>
    ghost const initial: seq<Row>

    ghost predicate Shape() {
      width > 0 && height > 0 && cells.Length == width * height && |initial| == height && AllOf(initial, width)
    }

    ghost function Page(): (rows: seq<seq<byte>>)
      requires width > 0
      reads this`history
      ensures rows != []
    {
      Lay(history, width)
    }

    ghost predicate Shows(rows: seq<seq<byte>>)
      requires rows != []
      reads this`x, this`y, cells
    {
      && x == |rows[|rows| - 1]|
      && y == |rows| - 1 - Top(rows, height)
      && cells[..] == Flat(Window(rows, initial, width, height, color))
    }

    /** The screen is the window on the page of everything written, and the cursor its end. */
    ghost predicate Valid()
      reads this, cells
    {
      Shape() && Shows(Page())
    }

    /** `text_init`, which leaves the screen as it is. */
    constructor (cells: array<bv16>, width: nat, height: nat, color: bv16)
      requires width > 0 && height > 0 && cells.Length == width * height
      ensures Valid() && fresh(this) && this.cells == cells && history == []
      ensures this.width == width && this.height == height && this.color == color
      ensures Flat(initial) == cells[..]
    {
      this.cells := cells;
      this.width := width;
      this.height := height;
      this.color := color;
      this.x := 0;
      this.y := 0;
      history := [];
      FlatExists(cells[..], width, height);
      ghost var screen :| |screen| == height && AllOf(screen, width) && Flat(screen) == cells[..];
      initial := screen;
      new;
      BlankPageShowsScreen(screen, width, height, color);
    }

    /** `text_scroll`: all rows move up by one, and the last one becomes blank. */
    method Scroll()
      requires Shape()
      modifies cells
      ensures width <= cells.Length
      ensures cells[..] == old(cells[width..]) + BlankRow(width, color)
    {
      ghost var before := cells[..];
      LastRow(width, height);
      var last := width * (height - 1);
      Memmove(cells, 0, width, last);
      assert cells[..last] == before[width..];
      BlankLastRow(last);
      assert cells[..] == cells[..last] + cells[last..];
    }

    /** The loop of `text_scroll`. */
    method BlankLastRow(last: nat)
      requires last + width == cells.Length
      modifies cells
      ensures cells[..last] == old(cells[..last]) && cells[last..] == BlankRow(width, color)
    {
      for i := 0 to width
        invariant cells[..last] == old(cells[..last])
        invariant forall k :: last <= k < last + i ==> cells[k] == color
      {
        cells[i + last] := color;
      }
    }

    /** Going to a new row, with a scroll if the screen is full. */
    method NewRow(ghost rows: seq<seq<byte>>)
      requires Shape() && rows != [] && Shows(rows)
      modifies this`x, this`y, cells
      ensures Shows(AddRow(rows))
    {
      WindowAddRow(rows, initial, width, height, color);
      ghost var screen := Window(rows, initial, width, height, color);
      WindowIsWide(rows, initial, width, height, color);
      hide Window;
      FlatLength(screen, width);
      FlatSnoc(screen[1..], BlankRow(width, color));
      x := 0;
      y := y + 1;
      if y >= height {
        Scroll();
        y := y - 1;
      }
    }

    /** Showing a character at the cursor. */
    method Show(ghost rows: seq<seq<byte>>, chr: byte)
      requires Shape() && rows != [] && Shows(rows) && x < width
      modifies this`x, cells
      ensures Shows(AddChar(rows, chr)) && x == old(x) + 1 && old(x) + y * width < cells.Length
      ensures color & 0xFF == 0 ==> cells[old(x) + y * width] & 0xFF == chr as bv16
    {
      if color & 0xFF == 0 {
        GlyphShows(chr, color);
      }
      ghost var screen := Window(rows, initial, width, height, color);
      WindowAddChar(rows, initial, width, height, color, chr);
      WindowIsWide(rows, initial, width, height, color);
      FlatUpdate(screen, width, y, x, Glyph(chr, color));
      hide Window, Glyph;
      cells[x + y * width] := Glyph(chr, color);
      x := x + 1;
    }

    method Putchar(chr: byte)
      requires Valid()
      modifies this, cells
      ensures Valid() && history == old(history) + [chr]
      ensures chr == 10 ==> x == 0
      ensures chr != 10 ==> 0 < x <= width && x - 1 + y * width < cells.Length
      ensures chr != 10 && color & 0xFF == 0 ==> cells[x - 1 + y * width] & 0xFF == chr as bv16
    {
      ghost var rows := Page();
      LayStep(history, width, chr);
      hide Shows;
      CursorAt(rows);
      if x >= width || chr == NEWLINE {
        NewRow(rows);
        rows := AddRow(rows);
        CursorAt(rows);
      }
      if chr != NEWLINE {
        Show(rows, chr);
        rows := AddChar(rows, chr);
      }
      assert rows == Step(old(Page()), width, chr);
      history := history + [chr];
    }

    lemma CursorAt(rows: seq<seq<byte>>)
      requires rows != [] && Shows(rows)
      ensures x == |rows[|rows| - 1]|
    {
    }

    /** `text_write`. */
    method Write(text: seq<byte>)
      requires Valid()
      modifies this, cells
      ensures Valid() && history == old(history) + text
    {
      for i := 0 to |text|
        invariant Valid() && history == old(history) + text[..i]
      {
        Putchar(text[i]);
        assert text[..i + 1] == text[..i] + [text[i]];
      }
      assert text[..|text|] == text;
    }
  }
}
