/** kernel/vga_color.c: the text console. An 80x25 buffer of 16-bit cells (character in
    the low byte, colour attribute in the high byte), a cursor (row, col) and the current
    colour. A putchar writes printable characters at the cursor and handles newline,
    carriage return, tab and backspace, wrapping at the end of a line and scrolling at the
    bottom of the screen. What the console does is first stated as functions over a Screen
    value; the class Console, whose methods update the buffer in place, is proved to follow
    them. */
module Vga {
  import opened CTypes
  import opened CStrings

  const WIDTH: int := 80
  const HEIGHT: int := 25
  const CELLS: int := 2000

  const COLOR_BLACK: bv8 := 0
  const COLOR_LIGHT_GREY: bv8 := 7

  const BACKSPACE: Byte := 0x08   // '\b'
  const TAB: Byte := 0x09         // '\t'
  const NEWLINE: Byte := 0x0A     // '\n'
  const RETURN: Byte := 0x0D      // '\r'
  const SPACE: Byte := 0x20       // ' '
  const TAB_STOP: int := 4

  /** vga_entry_color: foreground in the low four bits, background in the high four. */
  function EntryColor(fg: bv8, bg: bv8): (r: bv8)
    ensures fg < 16 ==> r & 0x0F == fg && r >> 4 == bg & 0x0F
  {
    fg | (bg << 4)
  }

  /** vga_entry: the character in the low byte, the colour attribute in the high byte. */
  function Entry(uc: bv8, color: bv8): (r: bv16)
    ensures (r & 0xFF) as bv8 == uc && (r >> 8) as bv8 == color
  {
    (uc as bv16) | ((color as bv16) << 8)
  }

  /** A cell showing a space in the given colour. */
  function Blank(color: bv8): bv16
  {
    Entry(SPACE as bv8, color)
  }

  function Blanks(n: nat, color: bv8): (r: seq<bv16>)
    ensures |r| == n && forall i :: 0 <= i < n ==> r[i] == Blank(color)
  {
    seq(n, _ => Blank(color))
  }

  function Index(row: int, col: int): int
  {
    row * WIDTH + col
  }

  /** The console state: the buffer's cells, the cursor and the current colour. */
  datatype Screen = Screen(cells: seq<bv16>, row: int, col: int, color: bv8)

  /** The cursor lies on the screen and the buffer has its 80x25 cells. */
  predicate InBounds(s: Screen)
  {
    |s.cells| == CELLS && 0 <= s.row < HEIGHT && 0 <= s.col < WIDTH
  }

  /** vga_scroll_up: every row moves up one, the last row is blanked in the current colour,
      and the cursor goes to the start of the last row. */
  function Scroll(s: Screen): (r: Screen)
    requires |s.cells| == CELLS
    ensures InBounds(r)
  {
    Screen(s.cells[WIDTH..] + Blanks(WIDTH, s.color), HEIGHT - 1, 0, s.color)
  }

  /** The end of vga_putchar: past the last column go to the start of the next row; below
      the last row scroll once. */
  function Settle(s: Screen): (r: Screen)
    requires |s.cells| == CELLS && 0 <= s.row <= HEIGHT && 0 <= s.col <= WIDTH
    ensures InBounds(r)
  {
    var s1 := if s.col >= WIDTH then s.(col := 0, row := s.row + 1) else s;
    if s1.row >= HEIGHT then Scroll(s1) else s1
  }

  /** A character with no special meaning: written at the cursor, which then advances. */
  function PutPrintable(s: Screen, c: Byte): (r: Screen)
    requires InBounds(s)
    ensures InBounds(r)
  {
    Settle(s.(cells := s.cells[Index(s.row, s.col) := Entry(c as bv8, s.color)], col := s.col + 1))
  }

  /** n spaces put one after the other, as the tab case does. */
  function PutSpaces(s: Screen, n: nat): (r: Screen)
    requires InBounds(s)
    ensures InBounds(r)
  {
    if n == 0 then s else PutPrintable(PutSpaces(s, n - 1), SPACE)
  }

  /** vga_putchar on a Screen. Starting inside the screen, the cursor stays inside. */
  function Put(s: Screen, c: Byte): (r: Screen)
    requires InBounds(s)
    ensures InBounds(r)
  {
    if c == NEWLINE then Settle(s.(col := 0, row := s.row + 1))
    else if c == RETURN then Settle(s.(col := 0))
    else if c == TAB then PutSpaces(s, TAB_STOP - s.col % TAB_STOP)
    else if c == BACKSPACE then
      if s.col > 0 then
        s.(col := s.col - 1, cells := s.cells[Index(s.row, s.col - 1) := Blank(s.color)])
      else if s.row > 0 then
        s.(row := s.row - 1, col := WIDTH - 1, cells := s.cells[Index(s.row - 1, WIDTH - 1) := Blank(s.color)])
      else s
    else PutPrintable(s, c)
  }

  /** vga_write_string on a Screen: the characters of text put in order. */
  function PutString(s: Screen, text: seq<Byte>): (r: Screen)
    requires InBounds(s)
    ensures InBounds(r)
  {
    if text == [] then s else Put(PutString(s, text[..|text| - 1]), text[|text| - 1])
  }

  predicate IsSpecial(c: Byte)
  {
    c == NEWLINE || c == RETURN || c == TAB || c == BACKSPACE
  }

  // ---------------------------------------------------------------------------
  // What putchar promises
  // ---------------------------------------------------------------------------

  /** Scrolling moves each cell of rows 1 to 24 up one row (80 cells back) and blanks
      the last row. */
  lemma ScrollMovesRows(s: Screen)
    requires |s.cells| == CELLS
    ensures forall k :: 0 <= k < Index(HEIGHT - 1, 0) ==> Scroll(s).cells[k] == s.cells[k + WIDTH]
    ensures forall k :: Index(HEIGHT - 1, 0) <= k < CELLS ==> Scroll(s).cells[k] == Blank(s.color)
  {
  }

  /** A printable character lands at the cursor, which moves one column right, or to the
      start of the next row from the last column; from the very last cell the screen
      scrolls, so the character ends up one row higher. */
  lemma PrintableLandsAtCursor(s: Screen, c: Byte)
    requires InBounds(s) && !IsSpecial(c)
    ensures var r := Put(s, c);
      if s.col < WIDTH - 1 then
        r.row == s.row && r.col == s.col + 1 && r.cells[Index(s.row, s.col)] == Entry(c as bv8, s.color)
      else if s.row < HEIGHT - 1 then
        r.row == s.row + 1 && r.col == 0 && r.cells[Index(s.row, s.col)] == Entry(c as bv8, s.color)
      else
        r.row == HEIGHT - 1 && r.col == 0 && r.cells[Index(HEIGHT - 2, WIDTH - 1)] == Entry(c as bv8, s.color)
  {
  }

  /** Newline goes to column 0 of the next row, scrolling at the bottom; carriage return
      only goes to column 0. Neither writes a cell unless the screen scrolls. */
  lemma NewlineAndReturn(s: Screen)
    requires InBounds(s)
    ensures Put(s, RETURN) == s.(col := 0)
    ensures s.row < HEIGHT - 1 ==> Put(s, NEWLINE) == s.(col := 0, row := s.row + 1)
    ensures s.row == HEIGHT - 1 ==> Put(s, NEWLINE) == Scroll(s)
  {
  }

  /** n spaces that do not pass the end of the line move the cursor n columns; exactly
      reaching the end moves it to the start of the next row (scrolling at the bottom). */
  lemma {:induction false} SpacesAdvance(s: Screen, n: nat)
    requires InBounds(s) && s.col + n <= WIDTH
    ensures s.col + n < WIDTH ==> PutSpaces(s, n).row == s.row && PutSpaces(s, n).col == s.col + n
    ensures s.col + n == WIDTH && n > 0 ==>
      PutSpaces(s, n).col == 0 &&
      PutSpaces(s, n).row == if s.row < HEIGHT - 1 then s.row + 1 else HEIGHT - 1
  {
    if n > 0 {
      SpacesAdvance(s, n - 1);
    }
  }

  /** Tab moves the cursor to the next multiple of four, wrapping to the next row when that
      is the end of the line. */
  lemma TabReachesTabStop(s: Screen)
    requires InBounds(s)
    ensures Put(s, TAB).col % TAB_STOP == 0
    ensures s.col < WIDTH - TAB_STOP ==>
      Put(s, TAB).row == s.row && Put(s, TAB).col == s.col - s.col % TAB_STOP + TAB_STOP
  {
    SpacesAdvance(s, TAB_STOP - s.col % TAB_STOP);
  }

  /** Backspace right after a printable character (anywhere but the very last cell, where
      the screen scrolls) returns the cursor to where it was and blanks that cell. */
  lemma PrintableThenBackspace(s: Screen, c: Byte)
    requires InBounds(s) && !IsSpecial(c)
    requires !(s.row == HEIGHT - 1 && s.col == WIDTH - 1)
    ensures var r := Put(Put(s, c), BACKSPACE);
      r.row == s.row && r.col == s.col && r.cells == s.cells[Index(s.row, s.col) := Blank(s.color)]
  {
  }

  /** Backspace at the top-left corner does nothing. */
  lemma BackspaceAtOrigin(s: Screen)
    requires InBounds(s) && s.row == 0 && s.col == 0
    ensures Put(s, BACKSPACE) == s
  {
  }

  // ---------------------------------------------------------------------------
  // The console
  // ---------------------------------------------------------------------------

  /** One pass of the inner loop of vga_scroll_up: the row starting at cell start takes
      the row below it. */
  method ShiftRow(buf: array<bv16>, start: int)
    requires buf.Length == CELLS && 0 <= start && start + 2 * WIDTH <= CELLS
    modifies buf
    ensures forall k :: start <= k < start + WIDTH ==> buf[k] == old(buf[k + WIDTH])
    ensures forall k :: 0 <= k < buf.Length && !(start <= k < start + WIDTH) ==> buf[k] == old(buf[k])
  {
    var x := 0;
    while x < WIDTH
      invariant 0 <= x <= WIDTH
      invariant forall k :: start <= k < start + x ==> buf[k] == old(buf[k + WIDTH])
      invariant forall k :: 0 <= k < buf.Length && !(start <= k < start + x) ==> buf[k] == old(buf[k])
    {
      buf[start + x] := buf[start + x + WIDTH];
      x := x + 1;
    }
  }

  /** The first loop of vga_scroll_up: each cell of rows 0 to 23 takes the cell one row
      below it; the last row is left as it was. */
  method ShiftRowsUp(buf: array<bv16>)
    requires buf.Length == CELLS
    modifies buf
    ensures forall k :: 0 <= k < Index(HEIGHT - 1, 0) ==> buf[k] == old(buf[k + WIDTH])
    ensures forall k :: Index(HEIGHT - 1, 0) <= k < CELLS ==> buf[k] == old(buf[k])
  {
    var y, start := 0, 0;
    while y < HEIGHT - 1
      invariant 0 <= y <= HEIGHT - 1 && start == y * WIDTH
      invariant forall k :: 0 <= k < start ==> buf[k] == old(buf[k + WIDTH])
      invariant forall k :: start <= k < CELLS ==> buf[k] == old(buf[k])
    {
      ShiftRow(buf, start);
      y, start := y + 1, start + WIDTH;
    }
  }

  /** The second loop of vga_scroll_up: the last row is filled with blank. */
  method BlankLastRow(buf: array<bv16>, blank: bv16)
    requires buf.Length == CELLS
    modifies buf
    ensures forall k :: 0 <= k < Index(HEIGHT - 1, 0) ==> buf[k] == old(buf[k])
    ensures forall k :: Index(HEIGHT - 1, 0) <= k < CELLS ==> buf[k] == blank
  {
    var x := 0;
    while x < WIDTH
      invariant 0 <= x <= WIDTH
      invariant forall k :: 0 <= k < Index(HEIGHT - 1, 0) ==> buf[k] == old(buf[k])
      invariant forall k :: Index(HEIGHT - 1, 0) <= k < Index(HEIGHT - 1, x) ==> buf[k] == blank
    {
      buf[Index(HEIGHT - 1, x)] := blank;
      x := x + 1;
    }
  }

  /** The globals vga_buffer, vga_row, vga_col and vga_color. */
  class Console {
    var buffer: array<bv16>
    var row: int
    var col: int
    var color: bv8

    ghost function View(): Screen
      reads this, buffer
    {
      Screen(buffer[..], row, col, color)
    }

    ghost predicate Valid()
      reads this, buffer
    {
      InBounds(View())
    }

    /** The static initialisers: the buffer at the VGA memory, the cursor at (0, 0) and
        light grey on black. */
    constructor (memory: array<bv16>)
      requires memory.Length == CELLS
      ensures buffer == memory && row == 0 && col == 0
      ensures color == EntryColor(COLOR_LIGHT_GREY, COLOR_BLACK)
    {
      buffer := memory;
      row := 0;
      col := 0;
      color := COLOR_LIGHT_GREY | (COLOR_BLACK << 4);
    }

    /** vga_clear_screen: every cell a space in the current colour, cursor at (0, 0). */
    method ClearScreen()
      requires buffer.Length == CELLS
      modifies this, buffer
      ensures buffer == old(buffer) && color == old(color)
      ensures View() == Screen(Blanks(CELLS, color), 0, 0, color)
    {
      var buf, blank := buffer, Entry(SPACE as bv8, color);
      var y := 0;
      while y < HEIGHT
        modifies buf
        invariant 0 <= y <= HEIGHT
        invariant forall k :: 0 <= k < Index(y, 0) ==> buf[k] == blank
      {
        var x := 0;
        while x < WIDTH
          modifies buf
          invariant 0 <= x <= WIDTH
          invariant forall k :: 0 <= k < Index(y, x) ==> buf[k] == blank
        {
          buf[Index(y, x)] := blank;
          x := x + 1;
        }
        y := y + 1;
      }
      row := 0;
      col := 0;
      assert buf[..] == Blanks(CELLS, color);
    }

    /** vga_scroll_up: copy each row from the one below it, blank the last row, and put the
        cursor at the start of the last row. */
    method ScrollUp()
      requires buffer.Length == CELLS
      modifies this, buffer
      ensures buffer == old(buffer) && color == old(color)
      ensures View() == Scroll(old(View()))
    {
      ShiftRowsUp(buffer);
      BlankLastRow(buffer, Entry(SPACE as bv8, color));
      row := HEIGHT - 1;
      col := 0;
      assert buffer[..] == old(buffer[..])[WIDTH..] + Blanks(WIDTH, color);
    }

    /** vga_set_color: later characters and blanks use this colour. */
    method SetColor(attr: bv8)
      modifies this
      ensures buffer == old(buffer) && row == old(row) && col == old(col) && color == attr
    {
      color := attr;
    }

    /** vga_putentryat: write one cell. */
    method PutEntryAt(c: Byte, attr: bv8, x: int, y: int)
      requires 0 <= x < WIDTH && 0 <= y < HEIGHT && buffer.Length == CELLS
      modifies buffer
      ensures buffer[..] == old(buffer[..])[Index(y, x) := Entry(c as bv8, attr)]
    {
      buffer[Index(y, x)] := Entry(c as bv8, attr);
    }

    /** The end of vga_putchar: wrap past the last column, scroll below the last row. */
    method SettleCursor()
      requires buffer.Length == CELLS && 0 <= row <= HEIGHT && 0 <= col <= WIDTH
      modifies this, buffer
      ensures buffer == old(buffer) && Valid()
      ensures View() == Settle(old(View()))
    {
      if col >= WIDTH {
        col := 0;
        row := row + 1;
      }
      if row >= HEIGHT {
        ScrollUp();
      }
    }

    /** The backspace case of vga_putchar: step back over the previous cell, to the end of
        the row above from column 0, and blank it; nothing at the top-left corner. */
    method Backspace()
      requires Valid()
      modifies this, buffer
      ensures buffer == old(buffer) && Valid()
      ensures View() == Put(old(View()), BACKSPACE)
    {
      if col > 0 {
        col := col - 1;
        PutEntryAt(SPACE, color, col, row);
      } else if row > 0 {
        row := row - 1;
        col := WIDTH - 1;
        PutEntryAt(SPACE, color, col, row);
      }
    }

    /** vga_putchar: follows Put; a tab puts its spaces through vga_putchar itself. */
    method PutChar(c: Byte)
      requires Valid()
      modifies this, buffer
      ensures buffer == old(buffer) && Valid()
      ensures View() == Put(old(View()), c)
      decreases if c == TAB then 1 else 0
    {
      if c == NEWLINE {
        col := 0;
        row := row + 1;
        SettleCursor();
      } else if c == RETURN {
        col := 0;
        SettleCursor();
      } else if c == TAB {
        var spaces := TAB_STOP - col % TAB_STOP;
        ghost var s0 := View();
        var i := 0;
        while i < spaces
          invariant 0 <= i <= spaces && buffer == old(buffer)
          invariant Valid() && View() == PutSpaces(s0, i)
        {
          PutChar(SPACE);
          i := i + 1;
        }
      } else if c == BACKSPACE {
        Backspace();
      } else {
        PutEntryAt(c, color, col, row);
        col := col + 1;
        SettleCursor();
      }
    }

    /** vga_write_string: nothing for NULL; otherwise putchar for every character before
        the terminator. */
    method WriteString(data: array?<Byte>)
      requires Valid()
      requires data != null ==> NUL in data[..] && data as object != buffer
      modifies this, buffer
      ensures buffer == old(buffer) && Valid()
      ensures data == null ==> View() == old(View())
      ensures data != null ==> View() == PutString(old(View()), Str(old(data[..])))
    {
      if data == null {
        return;
      }
      ghost var chars := data[..];
      ghost var text := Str(chars);
      ghost var s0 := View();
      var i := 0;
      while data[i] != NUL
        invariant data[..] == chars && i <= |text| && buffer == old(buffer)
        invariant Valid() && View() == PutString(s0, text[..i])
        decreases |text| - i
      {
        assert i < |text| && text[i] == data[i];
        assert text[..i + 1] == text[..i] + [data[i]];
        PutChar(data[i]);
        assert data[..] == chars;
        i := i + 1;
      }
      assert text[..i] == text;
    }

    /** vga_initialize: cursor at (0, 0), light grey on black, the buffer at the VGA memory,
        and a cleared screen. */
    method Initialize()
      requires buffer.Length == CELLS
      modifies this, buffer
      ensures buffer == old(buffer)
      ensures color == EntryColor(COLOR_LIGHT_GREY, COLOR_BLACK) && color == 0x07
      ensures View() == Screen(Blanks(CELLS, color), 0, 0, color)
    {
      row := 0;
      col := 0;
      color := EntryColor(COLOR_LIGHT_GREY, COLOR_BLACK);
      ClearScreen();
    }
  }
}
