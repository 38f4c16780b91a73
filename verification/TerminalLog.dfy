// What the graphical terminal (gui.c) shows, without its limit of 256 lines: an unbounded log of
// lines of coloured characters, of which only the last can still change.
module TerminalLog {
  type Color = nat

  const TERM_COLS := 128
  const BACKSPACE: char := 8 as char

  datatype Cell = Cell(ch: char, fg: Color, bg: Color)

  type Line = seq<Cell>

  datatype Log = Log(lines: seq<Line>, col: nat)

  const EMPTY := Log([[]], 0)

  predicate Printable(c: char) { c >= ' ' }

  // A line fits a row, which keeps a place for the end of the text.
  predicate FitsRow(line: Line) {
    |line| < TERM_COLS && forall j :: 0 <= j < |line| ==> Printable(line[j].ch)
  }

  // The cursor is at the end of the last line, or at its start.
  predicate Good(t: Log) {
    && |t.lines| > 0
    && (forall k :: 0 <= k < |t.lines| ==> FitsRow(t.lines[k]))
    && (t.col == 0 || t.col == |Last(t)|)
  }

  // There is a last line, and the cursor is on it.
  predicate Shaped(t: Log) { |t.lines| > 0 && t.col <= |Last(t)| }

  function Last(t: Log): Line
    requires |t.lines| > 0
  {
    t.lines[|t.lines| - 1]
  }

  // The last line cut at the cursor and continued with the given cells.
  function Continue(t: Log, cells: Line): (u: Log)
    requires Shaped(t)
    ensures Shaped(u)
  {
    var n := |t.lines| - 1;
    Log(t.lines[..n] + [t.lines[n][..t.col] + cells], t.col + |cells|)
  }

  function NewLine(t: Log): Log { Log(t.lines + [[]], 0) }

  function RubOut(t: Log): (u: Log)
    requires Shaped(t)
    ensures Shaped(u)
  {
    if t.col == 0 then t
    else
      var n := |t.lines| - 1;
      Log(t.lines[..n] + [t.lines[n][..t.col - 1]], t.col - 1)
  }

  // The visible width, as far as a row can hold it.
  function Limit(width: int): (lim: nat)
    ensures 0 < lim < TERM_COLS
  {
    var w := if width > 0 then width else 80;
    if w > TERM_COLS - 1 then TERM_COLS - 1 else w
  }

  function Wrapped(t: Log, width: int): Log {
    if t.col >= Limit(width) then NewLine(t) else t
  }

  function Blanks(n: nat, fg: Color, bg: Color): (cells: Line)
    ensures |cells| == n && forall j :: 0 <= j < n ==> cells[j] == Cell(' ', fg, bg)
  {
    seq(n, _ => Cell(' ', fg, bg))
  }

  // Tabs from column 120 on never reach a stop.
  predicate TabSticks(t: Log, c: char) { c == '\t' && t.col >= TERM_COLS - 8 }

  // A character typed.
  function Type(t: Log, c: char, width: int, fg: Color, bg: Color): (u: Log)
    requires Shaped(t) && !TabSticks(t, c)
    ensures Shaped(u)
  {
    if c == '\r' then Log(t.lines, 0)
    else if c == '\n' then NewLine(t)
    else if c == BACKSPACE then RubOut(t)
    else if c == '\t' then Continue(t, Blanks(8 - t.col % 8, fg, bg))
    else if Printable(c) then Continue(Wrapped(t, width), [Cell(c, fg, bg)])
    else t
  }

  // ----- every run -----

  lemma TypeKeepsGood(t: Log, c: char, width: int, fg: Color, bg: Color)
    requires Good(t) && !TabSticks(t, c)
    ensures Good(Type(t, c, width, fg, bg))
  {
    var u := Type(t, c, width, fg, bg);
    var n := |t.lines| - 1;
    forall k | 0 <= k < |u.lines|
      ensures FitsRow(u.lines[k])
    {
      if k < n {
        assert u.lines[k] == t.lines[k];
      } else if k == n {
        assert FitsRow(t.lines[n]);
      }
    }
  }

  // A keystroke, with the width and the colours of the moment.
  datatype Key = Key(c: char, width: int, fg: Color, bg: Color)

  // Whether one of the keystrokes is a tab that never reaches a stop.
  predicate Sticks(t: Log, keys: seq<Key>)
    requires Shaped(t)
    decreases |keys|
  {
    if |keys| == 0 then false
    else
      var k := keys[0];
      TabSticks(t, k.c) || Sticks(Type(t, k.c, k.width, k.fg, k.bg), keys[1..])
  }

  // Where the keystrokes lead, if none sticks.
  function TypeAll(t: Log, keys: seq<Key>): (u: Log)
    requires Shaped(t) && !Sticks(t, keys)
    ensures Shaped(u)
    decreases |keys|
  {
    if |keys| == 0 then t
    else
      var k := keys[0];
      TypeAll(Type(t, k.c, k.width, k.fg, k.bg), keys[1..])
  }

  // Over any run the cursor stays on the line, and lines before the last are never touched.
  lemma {:induction false} LogOnlyGrows(t: Log, keys: seq<Key>)
    requires Good(t) && !Sticks(t, keys)
    ensures var u := TypeAll(t, keys);
      && Good(u) && |u.lines| >= |t.lines|
      && u.lines[..|t.lines| - 1] == t.lines[..|t.lines| - 1]
    decreases |keys|
  {
    if |keys| > 0 {
      var k := keys[0];
      var v := Type(t, k.c, k.width, k.fg, k.bg);
      TypeKeepsGood(t, k.c, k.width, k.fg, k.bg);
      TypeKeepsLines(t, k.c, k.width, k.fg, k.bg);
      LogOnlyGrows(v, keys[1..]);
      StillThere(t.lines, v.lines, TypeAll(t, keys).lines);
    }
  }

  lemma TypeKeepsLines(t: Log, c: char, width: int, fg: Color, bg: Color)
    requires Shaped(t) && !TabSticks(t, c)
    ensures var v := Type(t, c, width, fg, bg);
      |v.lines| >= |t.lines| && v.lines[..|t.lines| - 1] == t.lines[..|t.lines| - 1]
  {
  }

  lemma StillThere(a: seq<Line>, b: seq<Line>, c: seq<Line>)
    requires 0 < |a| <= |b| <= |c|
    requires b[..|a| - 1] == a[..|a| - 1] && c[..|b| - 1] == b[..|b| - 1]
    ensures c[..|a| - 1] == a[..|a| - 1]
  {
    assert c[..|a| - 1] == c[..|b| - 1][..|a| - 1];
    assert b[..|a| - 1] == b[..|b| - 1][..|a| - 1];
  }

  // Without a tab nothing sticks.
  lemma {:induction false} NoTabNoStick(t: Log, keys: seq<Key>)
    requires Shaped(t) && forall i :: 0 <= i < |keys| ==> keys[i].c != '\t'
    ensures !Sticks(t, keys)
    decreases |keys|
  {
    if |keys| > 0 {
      var k := keys[0];
      NoTabNoStick(Type(t, k.c, k.width, k.fg, k.bg), keys[1..]);
    }
  }

  // From the n-th tab stop on, tabs go on to the next ones, as far as there are stops.
  lemma {:induction false} TabsReach(t: Log, n: nat, keys: seq<Key>)
    requires Good(t) && t.col == 8 * n && n + |keys| <= 15 && forall i :: 0 <= i < |keys| ==> keys[i].c == '\t'
    ensures !Sticks(t, keys) && TypeAll(t, keys).col == 8 * (n + |keys|)
    decreases |keys|
  {
    if |keys| > 0 {
      var k := keys[0];
      assert (8 * n) % 8 == 0;
      TypeKeepsGood(t, k.c, k.width, k.fg, k.bg);
      TabsReach(Type(t, k.c, k.width, k.fg, k.bg), n + 1, keys[1..]);
    }
  }

  // Fifteen tabs reach column 120, and the sixteenth sticks.
  lemma SixteenTabsStick(keys: seq<Key>)
    requires |keys| == 15 && forall i :: 0 <= i < |keys| ==> keys[i].c == '\t'
    ensures !Sticks(EMPTY, keys) && TabSticks(TypeAll(EMPTY, keys), '\t')
  {
    TabsReach(EMPTY, 0, keys);
  }

  // ----- printable text -----

  // Typing a text at one width, from the start of a line.
  function Keys(text: string, width: int, fg: Color, bg: Color): (keys: seq<Key>)
    ensures |keys| == |text|
  {
    seq(|text|, i requires 0 <= i < |text| => Key(text[i], width, fg, bg))
  }

  // The text cut into lines of lim characters.
  function Chunks(text: string, lim: nat): (lines: seq<string>)
    requires lim > 0
    ensures |lines| > 0
  {
    if |text| <= lim then [text] else [text[..lim]] + Chunks(text[lim..], lim)
  }

  function Joined(lines: seq<string>): string {
    if |lines| == 0 then "" else lines[0] + Joined(lines[1..])
  }

  // Cutting loses nothing.
  lemma {:induction false} ChunksJoin(text: string, lim: nat)
    requires lim > 0
    ensures Joined(Chunks(text, lim)) == text
    decreases |text|
  {
    if |text| > lim {
      var rest := Chunks(text[lim..], lim);
      ChunksJoin(text[lim..], lim);
      assert ([text[..lim]] + rest)[1..] == rest;
      assert text[..lim] + text[lim..] == text;
    } else {
      assert [text][1..] == [];
    }
  }

  function Colored(text: string, fg: Color, bg: Color): (cells: Line)
    ensures |cells| == |text|
  {
    seq(|text|, i requires 0 <= i < |text| => Cell(text[i], fg, bg))
  }

  function ColoredLines(lines: seq<string>, fg: Color, bg: Color): (r: seq<Line>)
    ensures |r| == |lines|
  {
    seq(|lines|, i requires 0 <= i < |lines| => Colored(lines[i], fg, bg))
  }

  // The log with its last line replaced by the lines given.
  predicate Replaced(t: Log, lines: seq<Line>, u: Log)
    requires |t.lines| > 0 && |lines| > 0
  {
    u == Log(t.lines[..|t.lines| - 1] + lines, |lines[|lines| - 1]|)
  }

  // The log with the text `had` of one colour alone on its last line, and the cursor behind it.
  predicate Holds(t: Log, had: string, fg: Color, bg: Color) {
    Good(t) && Last(t) == Colored(had, fg, bg) && t.col == |had|
  }

  lemma TypeInLine(t: Log, had: string, c: char, width: int, fg: Color, bg: Color)
    requires Holds(t, had, fg, bg) && Printable(c) && |had| < Limit(width)
    ensures var v := Type(t, c, width, fg, bg);
      && Holds(v, had + [c], fg, bg) && |v.lines| == |t.lines|
      && v.lines[..|t.lines| - 1] == t.lines[..|t.lines| - 1]
  {
    TypeKeepsGood(t, c, width, fg, bg);
    assert Colored(had, fg, bg) + [Cell(c, fg, bg)] == Colored(had + [c], fg, bg);
  }

  lemma TypeWraps(t: Log, had: string, c: char, width: int, fg: Color, bg: Color)
    requires Holds(t, had, fg, bg) && Printable(c) && |had| == Limit(width)
    ensures var v := Type(t, c, width, fg, bg);
      && Holds(v, [c], fg, bg) && |v.lines| == |t.lines| + 1
      && v.lines[..|t.lines|] == t.lines[..|t.lines| - 1] + [Colored(had, fg, bg)]
  {
    TypeKeepsGood(t, c, width, fg, bg);
    assert [Cell(c, fg, bg)] == Colored([c], fg, bg);
  }

  lemma ChunkOff(had: string, text: string, lim: nat, fg: Color, bg: Color)
    requires |had| == lim > 0 && |text| > 0
    ensures ColoredLines(Chunks(had + text, lim), fg, bg)
         == [Colored(had, fg, bg)] + ColoredLines(Chunks(text, lim), fg, bg)
  {
    assert (had + text)[..lim] == had && (had + text)[lim..] == text;
  }

  lemma ReplaceBeyond(t: Log, done: Line, v: Log, lines: seq<Line>, u: Log)
    requires |t.lines| > 0 && |v.lines| == |t.lines| + 1 && |lines| > 0 && Replaced(v, lines, u)
    requires v.lines[..|t.lines|] == t.lines[..|t.lines| - 1] + [done]
    ensures Replaced(t, [done] + lines, u)
  {
    assert (t.lines[..|t.lines| - 1] + [done]) + lines == t.lines[..|t.lines| - 1] + ([done] + lines);
  }

  lemma NothingTyped(t: Log, had: string, lim: nat, fg: Color, bg: Color)
    requires Holds(t, had, fg, bg) && |had| <= lim && lim > 0
    ensures Replaced(t, ColoredLines(Chunks(had + "", lim), fg, bg), t)
  {
    assert had + "" == had;
    assert t.lines == t.lines[..|t.lines| - 1] + ColoredLines([had], fg, bg);
  }

  lemma FirstKey(c: char, rest: string, width: int, fg: Color, bg: Color)
    ensures var keys := Keys([c] + rest, width, fg, bg);
      |keys| > 0 && keys[0] == Key(c, width, fg, bg) && keys[1..] == Keys(rest, width, fg, bg)
  {
  }

  lemma {:induction false} TextIsWrapped(t: Log, had: string, text: string, width: int, fg: Color, bg: Color)
    requires Holds(t, had, fg, bg) && |had| <= Limit(width)
    requires forall i :: 0 <= i < |text| ==> Printable(text[i])
    ensures !Sticks(t, Keys(text, width, fg, bg))
    ensures Replaced(t, ColoredLines(Chunks(had + text, Limit(width)), fg, bg), TypeAll(t, Keys(text, width, fg, bg)))
    decreases |text|
  {
    if text == "" {
      NothingTyped(t, had, Limit(width), fg, bg);
    } else {
      var c, rest := text[0], text[1..];
      var v := Type(t, c, width, fg, bg);
      Shifted(had, text);
      if |had| < Limit(width) {
        TypeInLine(t, had, c, width, fg, bg);
        TextIsWrapped(v, had + [c], rest, width, fg, bg);
        OneMoreKey(t, c, rest, ColoredLines(Chunks(had + text, Limit(width)), fg, bg), width, fg, bg);
      } else {
        TypeWraps(t, had, c, width, fg, bg);
        TextIsWrapped(v, [c], rest, width, fg, bg);
        KeyWraps(t, Colored(had, fg, bg), c, rest, ColoredLines(Chunks(text, Limit(width)), fg, bg), width, fg, bg);
        ChunkOff(had, text, Limit(width), fg, bg);
      }
    }
  }

  lemma Shifted(had: string, text: string)
    requires text != ""
    ensures text == [text[0]] + text[1..] && had + [text[0]] + text[1..] == had + text
  {
  }

  lemma OneMoreKey(t: Log, c: char, rest: string, lines: seq<Line>, width: int, fg: Color, bg: Color)
    requires Shaped(t) && Printable(c) && |lines| > 0
    requires var v := Type(t, c, width, fg, bg);
      && |v.lines| == |t.lines| && v.lines[..|t.lines| - 1] == t.lines[..|t.lines| - 1]
      && !Sticks(v, Keys(rest, width, fg, bg)) && Replaced(v, lines, TypeAll(v, Keys(rest, width, fg, bg)))
    ensures var keys := Keys([c] + rest, width, fg, bg); !Sticks(t, keys) && Replaced(t, lines, TypeAll(t, keys))
  {
    FirstKey(c, rest, width, fg, bg);
  }

  lemma KeyWraps(t: Log, done: Line, c: char, rest: string, lines: seq<Line>, width: int, fg: Color, bg: Color)
    requires Shaped(t) && Printable(c) && |lines| > 0
    requires var v := Type(t, c, width, fg, bg);
      && |v.lines| == |t.lines| + 1 && v.lines[..|t.lines|] == t.lines[..|t.lines| - 1] + [done]
      && !Sticks(v, Keys(rest, width, fg, bg)) && Replaced(v, lines, TypeAll(v, Keys(rest, width, fg, bg)))
    ensures var keys := Keys([c] + rest, width, fg, bg);
      !Sticks(t, keys) && Replaced(t, [done] + lines, TypeAll(t, keys))
  {
    FirstKey(c, rest, width, fg, bg);
    var v := Type(t, c, width, fg, bg);
    ReplaceBeyond(t, done, v, lines, TypeAll(v, Keys(rest, width, fg, bg)));
  }

  // Printable text typed on a fresh line is all there, in lines of the visible width.
  lemma TextIsKept(t: Log, text: string, width: int, fg: Color, bg: Color) returns (lines: seq<string>)
    requires Good(t) && Last(t) == []
    requires forall i :: 0 <= i < |text| ==> Printable(text[i])
    ensures |lines| > 0 && Joined(lines) == text && !Sticks(t, Keys(text, width, fg, bg))
    ensures Replaced(t, ColoredLines(lines, fg, bg), TypeAll(t, Keys(text, width, fg, bg)))
    ensures FullLines(lines, Limit(width))
  {
    lines := Chunks(text, Limit(width));
    assert Colored("", fg, bg) == [] && "" + text == text;
    TextIsWrapped(t, "", text, width, fg, bg);
    ChunksJoin(text, Limit(width));
    ChunkLengths(text, Limit(width));
  }

  // Every line but the last is full.
  predicate FullLines(lines: seq<string>, lim: nat) {
    && (forall k :: 0 <= k < |lines| ==> |lines[k]| <= lim)
    && (forall k :: 0 <= k < |lines| - 1 ==> |lines[k]| == lim)
  }

  lemma {:induction false} ChunkLengths(text: string, lim: nat)
    requires lim > 0
    ensures FullLines(Chunks(text, lim), lim)
    decreases |text|
  {
    if |text| > lim {
      ChunkLengths(text[lim..], lim);
    }
  }

  // Rubbing out a character just typed leaves the log as it was, exactly if it was typed at the end
  // of its line and began no new one.
  lemma RubOutUndoes(t: Log, c: char, width: int, fg: Color, bg: Color)
    requires Good(t) && Printable(c)
    ensures Type(Type(t, c, width, fg, bg), 8 as char, width, fg, bg) == t <==> t.col == |Last(t)| < Limit(width)
  {
    var n := |t.lines| - 1;
    var u := Type(t, c, width, fg, bg);
    assert t.lines == t.lines[..n] + [t.lines[n]];
    if t.col < Limit(width) {
      var r := RubOut(u);
      assert u.lines[..n] == t.lines[..n] && u.lines[n][..t.col] == t.lines[n][..t.col];
      assert r == Log(t.lines[..n] + [t.lines[n][..t.col]], t.col);
      if t.col == |t.lines[n]| {
        assert t.lines[n][..t.col] == t.lines[n];
      } else {
        assert |r.lines[n]| != |t.lines[n]|;
      }
    } else {
      assert |RubOut(u).lines| == |t.lines| + 1;
    }
  }

  // ----- several lines -----

  lemma {:induction false} TypeAllJoin(t: Log, a: seq<Key>, b: seq<Key>)
    requires Shaped(t)
    requires !Sticks(t, a) && !Sticks(TypeAll(t, a), b)
    ensures !Sticks(t, a + b) && TypeAll(t, a + b) == TypeAll(TypeAll(t, a), b)
    decreases |a|
  {
    if |a| == 0 {
      assert a + b == b;
    } else {
      var k := a[0];
      assert (a + b)[1..] == a[1..] + b;
      TypeAllJoin(Type(t, k.c, k.width, k.fg, k.bg), a[1..], b);
    }
  }

  lemma KeysJoin(a: string, b: string, width: int, fg: Color, bg: Color)
    ensures Keys(a + b, width, fg, bg) == Keys(a, width, fg, bg) + Keys(b, width, fg, bg)
  {
  }

  predicate AllPrintable(text: string) {
    forall i :: 0 <= i < |text| ==> text[i] as int >= 32
  }

  // The lines as they are typed, each ended by a line feed, and as they are shown.
  function Typescript(texts: seq<string>): string {
    if texts == [] then "" else texts[0] + "\n" + Typescript(texts[1..])
  }

  function Rows(texts: seq<string>, lim: nat): seq<string>
    requires lim > 0
  {
    if texts == [] then [] else Chunks(texts[0], lim) + Rows(texts[1..], lim)
  }

  lemma Closed(t: Log, u: Log, lines: seq<Line>, width: int, fg: Color, bg: Color)
    requires |t.lines| > 0 && |lines| > 0 && Replaced(t, lines, u)
    ensures !Sticks(u, Keys("\n", width, fg, bg))
    ensures TypeAll(u, Keys("\n", width, fg, bg)) == Log(t.lines[..|t.lines| - 1] + lines + [[]], 0)
  {
    var keys := Keys("\n", width, fg, bg);
    assert keys == [Key('\n', width, fg, bg)] && keys[1..] == [];
  }

  // A line and the line feed at its end: its text stays, and the cursor is on a fresh line below.
  lemma LineIsClosed(t: Log, text: string, width: int, fg: Color, bg: Color)
    requires Good(t) && Last(t) == [] && AllPrintable(text)
    ensures var keys := Keys(text + "\n", width, fg, bg);
      && !Sticks(t, keys)
      && TypeAll(t, keys)
           == Log(t.lines[..|t.lines| - 1] + ColoredLines(Chunks(text, Limit(width)), fg, bg) + [[]], 0)
  {
    var lines := Chunks(text, Limit(width));
    assert Colored("", fg, bg) == [] && "" + text == text;
    TextIsWrapped(t, "", text, width, fg, bg);
    var u := TypeAll(t, Keys(text, width, fg, bg));
    Closed(t, u, ColoredLines(lines, fg, bg), width, fg, bg);
    KeysJoin(text, "\n", width, fg, bg);
    TypeAllJoin(t, Keys(text, width, fg, bg), Keys("\n", width, fg, bg));
  }

  // A text of any number of lines is shown line below line, each cut where it is longer than the
  // visible width, and nothing above it changes.
  lemma {:induction false} LinesAreShown(t: Log, texts: seq<string>, width: int, fg: Color, bg: Color)
    requires Good(t) && Last(t) == [] && t.col == 0 && forall k :: 0 <= k < |texts| ==> AllPrintable(texts[k])
    ensures var keys := Keys(Typescript(texts), width, fg, bg);
      && !Sticks(t, keys)
      && TypeAll(t, keys) == Log(t.lines[..|t.lines| - 1] + ColoredLines(Rows(texts, Limit(width)), fg, bg) + [[]], 0)
    decreases |texts|
  {
    var front := t.lines[..|t.lines| - 1];
    if texts == [] {
      assert front + ColoredLines([], fg, bg) + [[]] == t.lines;
    } else {
      var a, rest := texts[0] + "\n", Typescript(texts[1..]);
      LineIsClosed(t, texts[0], width, fg, bg);
      var u := TypeAll(t, Keys(a, width, fg, bg));
      LogOnlyGrows(t, Keys(a, width, fg, bg));
      LinesAreShown(u, texts[1..], width, fg, bg);
      KeysJoin(a, rest, width, fg, bg);
      TypeAllJoin(t, Keys(a, width, fg, bg), Keys(rest, width, fg, bg));
      RowsBelow(front, Chunks(texts[0], Limit(width)), Rows(texts[1..], Limit(width)), fg, bg);
      assert u.lines[..|u.lines| - 1] == front + ColoredLines(Chunks(texts[0], Limit(width)), fg, bg);
    }
  }

  lemma RowsBelow(front: seq<Line>, a: seq<string>, b: seq<string>, fg: Color, bg: Color)
    ensures front + ColoredLines(a, fg, bg) + ColoredLines(b, fg, bg) == front + ColoredLines(a + b, fg, bg)
  {
  }

  // ----- one character -----

  // A letter goes to the cursor, or to a fresh line if the visible width is used up: that is `width`,
  // or 80 if it is not known, but at most 127.
  lemma LetterAtCursor(t: Log, c: char, width: int, fg: Color, bg: Color)
    requires Good(t) && c as int >= 32
    ensures var u, lim := Type(t, c, width, fg, bg), if width <= 0 then 80 else if width > 127 then 127 else width;
      && |u.lines| == |t.lines| + (if t.col >= lim then 1 else 0)
      && u.col == |Last(u)| == (if t.col >= lim then 1 else t.col + 1)
      && Last(u)[u.col - 1] == Cell(c, fg, bg)
  {
  }

  // A tab goes on to the next multiple of 8 and leaves blanks behind.
  lemma TabToNextStop(t: Log, width: int, fg: Color, bg: Color)
    requires Good(t) && t.col < 120
    ensures var u := Type(t, '\t', width, fg, bg);
      && |u.lines| == |t.lines| && u.col == |Last(u)| && u.col % 8 == 0 && t.col < u.col <= t.col + 8
      && (forall j :: t.col <= j < u.col ==> Last(u)[j] == Cell(' ', fg, bg))
      && Last(u)[..t.col] == Last(t)[..t.col]
  {
    var u, c := Type(t, '\t', width, fg, bg), t.col;
    assert (c + (8 - c % 8)) % 8 == 0;
    assert Last(u) == Last(t)[..c] + Blanks(8 - c % 8, fg, bg);
  }

  // A carriage return changes no line, but the next letter takes the place of the last one.
  lemma ReturnThenLetter(t: Log, c: char, width: int, fg: Color, bg: Color)
    requires Good(t) && c as int >= 32
    ensures Type(t, '\r', width, fg, bg).lines == t.lines
    ensures Type(Type(t, '\r', width, fg, bg), c, width, fg, bg)
         == Log(t.lines[..|t.lines| - 1] + [[Cell(c, fg, bg)]], 1)
  {
    assert Last(t)[..0] + [Cell(c, fg, bg)] == [Cell(c, fg, bg)];
  }

  // A backspace at the start of a line, and any other control character, changes nothing.
  lemma OthersIgnored(t: Log, c: char, width: int, fg: Color, bg: Color)
    requires Shaped(t) && c as int < 32 && c != '\r' && c != '\n' && c != '\t' && (c as int == 8 ==> t.col == 0)
    ensures Type(t, c, width, fg, bg) == t
  {
  }
}
