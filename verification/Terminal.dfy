// The scrollback of the graphical terminal (gui.c): 256 rows of 128 characters with their colours,
// scrolled by copying rows.  The rows always show the last lines of the unbounded log.
module Terminal {
  import opened TerminalLog

  const TERM_LINES := 256
  const NUL: char := 0 as char
  const WHITE: Color := 0xFFFFFF
  const BLACK: Color := 0

  class Term {
    const lines: array2<char>
    const fg: array2<Color>
    const bg: array2<Color>
    var curFg: Color
    var curBg: Color
    var count: nat
    var row: nat
    var col: nat
    // Set by the window that shows the terminal.
    var cols: int
    var guiActive: bool

    // Everything typed since the last clear.
    ghost var log: Log

    ghost predicate Sized()
      reads this
    {
      && lines.Length0 == fg.Length0 == bg.Length0 == TERM_LINES
      && lines.Length1 == fg.Length1 == bg.Length1 == TERM_COLS
      && fg != bg
    }

    ghost predicate Begins(r: nat, cells: Line)
      requires Sized() && r < TERM_LINES && |cells| <= TERM_COLS
      reads this, lines, fg, bg
    {
      forall j :: 0 <= j < |cells| ==> Cell(lines[r, j], fg[r, j], bg[r, j]) == cells[j]
    }

    ghost predicate Shows(r: nat, line: Line)
      requires Sized() && r < TERM_LINES
      reads this, lines, fg, bg
    {
      FitsRow(line) && lines[r, |line|] == NUL && Begins(r, line)
    }

    // The rows up to the current one show the last lines of the log; the rows after it are empty.
    ghost predicate Valid()
      reads this, lines, fg, bg
    {
      var n := |log.lines|;
      && Sized() && Good(log) && col == log.col
      && row + 1 == (if n < TERM_LINES then n else TERM_LINES)
      && (count == row + 1 || (count == 0 && row == 0))
      && ShowsLog(log, row)
    }

    // Row `last` shows the last line of the log, and the rows above it the lines before.
    ghost predicate ShowsLog(log: Log, last: nat)
      requires Sized() && last < |log.lines|
      reads this, lines, fg, bg
    {
      forall r :: 0 <= r < TERM_LINES ==> Shows(r, RowText(log, last, r))
    }

    // The text of row r when the last line of the log is at the given row.
    static ghost function RowText(log: Log, row: nat, r: nat): Line
      requires row < |log.lines|
    {
      if r <= row then log.lines[|log.lines| - 1 - row + r] else []
    }

    // The last 256 lines can be read on the screen, character by character and in their colours.
    lemma LastLinesAreShown(k: nat)
      requires Valid() && k < 256 && k < |log.lines|
      ensures k <= row < 256 && |log.lines[|log.lines| - 1 - k]| < 128
      ensures var line, r := log.lines[|log.lines| - 1 - k], row - k;
        && lines[r, |line|] as int == 0
        && forall j :: 0 <= j < |line| ==>
             lines[r, j] == line[j].ch && fg[r, j] == line[j].fg && bg[r, j] == line[j].bg
    {
      var line, r := log.lines[|log.lines| - 1 - k], row - k;
      assert RowText(log, row, r) == line;
      assert forall j :: 0 <= j < |line| ==> Cell(lines[r, j], fg[r, j], bg[r, j]) == line[j];
    }

    constructor ()
      ensures Valid() && log == EMPTY && fresh(lines) && fresh(fg) && fresh(bg)
      ensures curFg == 0xFFFFFF && curBg == 0 && cols == 80 && !guiActive
    {
      lines := new char[TERM_LINES, TERM_COLS]((_, _) => NUL);
      fg := new Color[TERM_LINES, TERM_COLS]((_, _) => BLACK);
      bg := new Color[TERM_LINES, TERM_COLS]((_, _) => BLACK);
      curFg, curBg, count, row, col, cols, guiActive := WHITE, BLACK, 0, 0, 0, 80, false;
      log := EMPTY;
    }

    // ----- scrolling -----

    method CopyRowUp(i: nat)
      requires Sized() && 1 <= i < TERM_LINES
      modifies lines, fg, bg
      ensures forall j :: 0 <= j < TERM_COLS ==>
        lines[i - 1, j] == old(lines[i, j]) && fg[i - 1, j] == old(fg[i, j]) && bg[i - 1, j] == old(bg[i, j])
      ensures forall r, j :: 0 <= r < TERM_LINES && r != i - 1 && 0 <= j < TERM_COLS ==>
        lines[r, j] == old(lines[r, j]) && fg[r, j] == old(fg[r, j]) && bg[r, j] == old(bg[r, j])
    {
      var j := 0;
      while j < TERM_COLS
        invariant 0 <= j <= TERM_COLS
        invariant forall k :: 0 <= k < j ==>
          lines[i - 1, k] == old(lines[i, k]) && fg[i - 1, k] == old(fg[i, k]) && bg[i - 1, k] == old(bg[i, k])
        invariant forall r, k :: 0 <= r < TERM_LINES && r != i - 1 && 0 <= k < TERM_COLS ==>
          lines[r, k] == old(lines[r, k]) && fg[r, k] == old(fg[r, k]) && bg[r, k] == old(bg[r, k])
      {
        lines[i - 1, j] := lines[i, j];
        fg[i - 1, j] := fg[i, j];
        bg[i - 1, j] := bg[i, j];
        j := j + 1;
      }
    }

    method BlankLastRow()
      requires Sized()
      modifies lines, fg, bg
      ensures forall r, j :: r == TERM_LINES - 1 && 0 <= j < TERM_COLS ==> lines[r, j] == NUL
      ensures forall r, j :: 0 <= r < TERM_LINES - 1 && 0 <= j < TERM_COLS ==>
        lines[r, j] == old(lines[r, j]) && fg[r, j] == old(fg[r, j]) && bg[r, j] == old(bg[r, j])
    {
      var j := 0;
      while j < TERM_COLS
        invariant 0 <= j <= TERM_COLS
        invariant forall r, k :: r == TERM_LINES - 1 && 0 <= k < j ==> lines[r, k] == NUL
        invariant forall r, k :: 0 <= r < TERM_LINES - 1 && 0 <= k < TERM_COLS ==>
          lines[r, k] == old(lines[r, k]) && fg[r, k] == old(fg[r, k]) && bg[r, k] == old(bg[r, k])
      {
        lines[TERM_LINES - 1, j] := NUL;
        fg[TERM_LINES - 1, j] := curFg;
        bg[TERM_LINES - 1, j] := curBg;
        j := j + 1;
      }
    }

    method ScrollUp()
      requires Sized()
      modifies lines, fg, bg
      ensures forall r, j :: 0 <= r < TERM_LINES - 1 && 0 <= j < TERM_COLS ==>
        lines[r, j] == old(lines[r + 1, j]) && fg[r, j] == old(fg[r + 1, j]) && bg[r, j] == old(bg[r + 1, j])
      ensures forall r, j :: r == TERM_LINES - 1 && 0 <= j < TERM_COLS ==> lines[r, j] == NUL
    {
      var i := 1;
      while i < TERM_LINES
        invariant 1 <= i <= TERM_LINES
        invariant forall r, j :: 0 <= r < i - 1 && 0 <= j < TERM_COLS ==>
          lines[r, j] == old(lines[r + 1, j]) && fg[r, j] == old(fg[r + 1, j]) && bg[r, j] == old(bg[r + 1, j])
        invariant forall r, j :: i - 1 < r < TERM_LINES && 0 <= j < TERM_COLS ==>
          lines[r, j] == old(lines[r, j]) && fg[r, j] == old(fg[r, j]) && bg[r, j] == old(bg[r, j])
        invariant i == 1 ==> forall j :: 0 <= j < TERM_COLS ==>
          lines[1, j] == old(lines[1, j]) && fg[1, j] == old(fg[1, j]) && bg[1, j] == old(bg[1, j])
      {
        CopyRowUp(i);
        i := i + 1;
      }
      BlankLastRow();
    }

    // The last row scrolls up with the others, and an empty one follows.
    method Scroll(ghost was: Log)
      requires Sized() && |was.lines| >= TERM_LINES
      requires ShowsLog(was, TERM_LINES - 1)
      modifies lines, fg, bg
      ensures ShowsLog(NewLine(was), TERM_LINES - 1)
    {
      ScrollUp();
      ghost var last := TERM_LINES - 1;
      forall r | 0 <= r < TERM_LINES
        ensures Shows(r, RowText(NewLine(was), last, r))
      {
        if r < last {
          assert old(Shows(r + 1, RowText(was, last, r + 1)));
        }
      }
    }

    // term_newline
    method TermNewline()
      requires Valid()
      modifies this`count, this`row, this`col, this`log, lines, fg, bg
      ensures Valid() && log == NewLine(old(log)) && count == row + 1
    {
      ghost var was := log;
      log := NewLine(log);
      col := 0;
      row := row + 1;
      if count <= row {
        count := row + 1;
        if count > TERM_LINES {
          Scroll(was);
          row := row - 1;
          count := TERM_LINES;
        } else {
          assert forall r :: 0 <= r < TERM_LINES ==> RowText(log, row, r) == RowText(was, row - 1, r);
        }
      }
    }

    // ----- one character -----

    // The rows other than the current one are as they were.
    twostate predicate OtherRowsKept()
      requires old(Sized()) && Sized()
      reads this, lines, fg, bg
    {
      forall r, j :: 0 <= r < TERM_LINES && r != row && 0 <= j < TERM_COLS ==>
        lines[r, j] == old(lines[r, j]) && fg[r, j] == old(fg[r, j]) && bg[r, j] == old(bg[r, j])
    }

    // The log with another last line, which the current row shows.
    twostate lemma LastLineWritten(line: Line)
      requires old(Valid()) && Sized() && row == old(row) && (count == row + 1 || (count == 0 && row == 0))
      requires log == Log(old(log.lines)[..|old(log.lines)| - 1] + [line], col) && (col == 0 || col == |line|)
      requires OtherRowsKept() && Shows(row, line)
      ensures Valid()
    {
      forall r | 0 <= r < TERM_LINES
        ensures Shows(r, RowText(log, row, r))
      {
        if r != row {
          assert old(Shows(r, RowText(log, row, r)));
          assert RowText(log, row, r) == old(RowText(log, row, r));
        }
      }
      forall k | 0 <= k < |log.lines|
        ensures FitsRow(log.lines[k])
      {
        assert k < |log.lines| - 1 ==> log.lines[k] == old(log).lines[k];
      }
    }

    // Writes a cell at the cursor and moves it, if there is room.
    method PutCell(c: char, ghost cells: Line)
      requires Sized() && row < TERM_LINES && |cells| == col < TERM_COLS && Begins(row, cells)
      modifies this`col, lines, fg, bg
      ensures OtherRowsKept()
      ensures if old(col) < TERM_COLS - 1
        then col == old(col) + 1 && Begins(row, cells + [Cell(c, curFg, curBg)])
        else col == old(col) && Begins(row, cells)
    {
      if col < TERM_COLS - 1 {
        lines[row, col] := c;
        fg[row, col] := curFg;
        bg[row, col] := curBg;
        col := col + 1;
      }
    }

    method Back()
      requires Valid()
      modifies this`col, this`log, lines
      ensures Valid() && log == RubOut(old(log))
    {
      if col > 0 {
        ghost var line := Last(log)[..col - 1];
        log := RubOut(log);
        col := col - 1;
        assert old(Shows(row, RowText(log, row, row)));
        lines[row, col] := NUL;
        LastLineWritten(line);
      }
    }

    static lemma TabStop(start: nat, x: nat)
      requires start <= x <= start + 8 - start % 8 && (x == start ==> x == TERM_COLS - 1)
      ensures x % 8 == 0 <==> x == start + 8 - start % 8
    {
    }

    // Blanks to the next tab stop.  From column 120 on there is none in the row, and the loop of
    // the program goes on for ever; it is reported as stuck once nothing can change any more.
    method FillToStop() returns (stuck: bool)
      requires Valid()
      modifies this`col, lines, fg, bg
      ensures Sized() && OtherRowsKept() && stuck == TabSticks(log, '\t')
      ensures !stuck ==> col == old(col) + 8 - old(col) % 8 < TERM_COLS
      ensures !stuck ==> Begins(row, Last(log)[..old(col)] + Blanks(8 - old(col) % 8, curFg, curBg))
    {
      ghost var start, stop := col, col + 8 - col % 8;
      ghost var cells := Last(log)[..col];
      assert Shows(row, RowText(log, row, row));
      while true
        invariant start <= col < stop && (col == start || col < TERM_COLS - 1)
        invariant Sized() && OtherRowsKept()
        invariant cells == Last(log)[..start] + Blanks(col - start, curFg, curBg) && Begins(row, cells)
        decreases TERM_COLS - col
      {
        PutCell(' ', cells);
        TabStop(start, col);
        cells := Last(log)[..start] + Blanks(col - start, curFg, curBg);
        if col % 8 == 0 {
          return false;
        }
        if col == TERM_COLS - 1 {
          return true;
        }
      }
    }

    method Tab() returns (stuck: bool)
      requires Valid()
      modifies this`col, this`log, lines, fg, bg
      ensures stuck == TabSticks(old(log), '\t')
      ensures !stuck ==> Valid() && log == Type(old(log), '\t', cols, curFg, curBg)
    {
      ghost var blanks := Blanks(8 - col % 8, curFg, curBg);
      ghost var line := Last(log)[..col] + blanks;
      stuck := FillToStop();
      if !stuck {
        lines[row, col] := NUL;
        log := Continue(log, blanks);
        LastLineWritten(line);
      }
    }

    // A printable character: on a new line if the visible width is used up.
    method Letter(c: char)
      requires Valid() && Printable(c)
      modifies this`count, this`row, this`col, this`log, lines, fg, bg
      ensures Valid() && log == Continue(Wrapped(old(log), cols), [Cell(c, curFg, curBg)])
    {
      var lim := if cols > 0 then cols else 80;
      if lim > TERM_COLS - 1 {
        lim := TERM_COLS - 1;
      }
      if col >= lim {
        TermNewline();
      }
      WriteLetter(c);
    }

    method WriteLetter(c: char)
      requires Valid() && Printable(c) && col < TERM_COLS - 1
      modifies this`col, this`log, lines, fg, bg
      ensures Valid() && log == Continue(old(log), [Cell(c, curFg, curBg)])
    {
      ghost var cells := Last(log)[..col];
      assert Shows(row, RowText(log, row, row));
      PutCell(c, cells);
      lines[row, col] := NUL;
      log := Continue(log, [Cell(c, curFg, curBg)]);
      LastLineWritten(cells + [Cell(c, curFg, curBg)]);
    }

    // term_putc; nothing happens outside the graphical mode.
    method TermPutc(c: char) returns (stuck: bool)
      requires Valid()
      modifies this`count, this`row, this`col, this`log, lines, fg, bg
      ensures stuck == (guiActive && TabSticks(old(log), c))
      ensures !stuck ==> Valid()
      ensures !stuck ==> log == if guiActive then Type(old(log), c, cols, curFg, curBg) else old(log)
      ensures guiActive && !stuck ==> count == row + 1
    {
      stuck := false;
      if !guiActive {
        return;
      }
      if c == '\r' {
        col := 0;
        ghost var t := log;
        log := Log(log.lines, 0);
        assert forall r :: 0 <= r < TERM_LINES ==> RowText(log, row, r) == RowText(t, row, r);
      } else if c == '\n' {
        TermNewline();
      } else if c == BACKSPACE {
        Back();
      } else if c == '\t' {
        stuck := Tab();
        if stuck {
          return;
        }
      } else if Printable(c) {
        Letter(c);
      }
      if count <= row {
        count := row + 1;
      }
    }

    // A text written to the terminal one character after the other: the log after all of them, unless
    // one of them is a tab that sticks.
    method WriteText(text: string) returns (stuck: bool)
      requires Valid() && guiActive
      modifies this`count, this`row, this`col, this`log, lines, fg, bg
      ensures var keys := Keys(text, cols, curFg, curBg);
        && stuck == Sticks(old(log), keys)
        && (!stuck ==> Valid() && log == TypeAll(old(log), keys))
      ensures '\t' !in text ==> !stuck
    {
      ghost var keys := Keys(text, cols, curFg, curBg);
      if '\t' !in text {
        NoTabNoStick(log, keys);
      }
      var i := 0;
      while i < |text|
        invariant 0 <= i <= |text| && Valid()
        invariant Sticks(old(log), keys) == Sticks(log, keys[i..])
        invariant !Sticks(log, keys[i..]) ==> TypeAll(old(log), keys) == TypeAll(log, keys[i..])
      {
        assert keys[i..][0] == keys[i] && keys[i..][1..] == keys[i + 1..];
        stuck := TermPutc(text[i]);
        if stuck {
          return;
        }
        i := i + 1;
      }
      return false;
    }

    // term_set_attr
    method TermSetAttr(foreground: Color, background: Color)
      requires Valid()
      modifies this`curFg, this`curBg
      ensures Valid() && curFg == foreground && curBg == background
    {
      curFg, curBg := foreground, background;
    }

    // term_clear
    method TermClear()
      requires Valid()
      modifies this`count, this`row, this`col, this`log, lines, fg, bg
      ensures Valid() && log == EMPTY && count == 0
    {
      count, row, col := 0, 0, 0;
      var i := 0;
      while i < TERM_LINES
        invariant 0 <= i <= TERM_LINES && count == 0 && row == 0 && col == 0
        invariant forall r, j :: 0 <= r < i && 0 <= j < TERM_COLS ==> lines[r, j] == NUL
      {
        var j := 0;
        while j < TERM_COLS
          invariant 0 <= j <= TERM_COLS && count == 0 && row == 0 && col == 0
          invariant forall r, k :: 0 <= r < i && 0 <= k < TERM_COLS ==> lines[r, k] == NUL
          invariant forall r, k :: r == i && 0 <= k < j ==> lines[r, k] == NUL
        {
          lines[i, j] := NUL;
          fg[i, j] := WHITE;
          bg[i, j] := BLACK;
          j := j + 1;
        }
        i := i + 1;
      }
      log := EMPTY;
    }
  }
}
