// The text editor (edit.c) in its buffer of 8192 bytes, edited in place with the overlapping
// memmove of libc.c.
module Editor {
  import opened Bytes
  import opened FileSystem
  import opened Overlay
  import opened Saving
  import opened Zipper

  // memmove within one array: forwards or backwards, so that no byte is overwritten before it is
  // copied.
  method MemMove(a: array<byte>, dst: nat, src: nat, n: nat)
    requires dst + n <= a.Length && src + n <= a.Length
    modifies a
    ensures a[..] == Overwrite(old(a[..]), dst, old(a[src..src + n]))
  {
    if dst < src {
      for i := 0 to n
        invariant forall k :: dst <= k < dst + i ==> a[k] == old(a[src + k - dst])
        invariant forall k :: 0 <= k < a.Length && !(dst <= k < dst + i) ==> a[k] == old(a[k])
      {
        a[dst + i] := a[src + i];
      }
    } else if dst > src {
      var i := n;
      while i > 0
        invariant 0 <= i <= n
        invariant forall k :: dst + i <= k < dst + n ==> a[k] == old(a[src + k - dst])
        invariant forall k :: 0 <= k < a.Length && !(dst + i <= k < dst + n) ==> a[k] == old(a[k])
      {
        a[dst + i - 1] := a[src + i - 1];
        i := i - 1;
      }
    }
  }

  // The byte before c is overwritten by the bytes from c to n.
  lemma ClosesUp(s: seq<byte>, r: seq<byte>, c: nat, n: nat)
    requires 0 < c <= n <= |s| && r == Overwrite(s, c - 1, s[c..n])
    ensures |r| == |s| && Zip(r[..c - 1], r[c - 1..n - 1]) == Press(Zip(s[..c], s[c..n]), BACKSPACE)
  {
  }

  class Buffer {
    const buf: array<byte>
    var len: nat
    var cursor: nat

    ghost predicate Valid()
      reads this, buf
    {
      buf.Length == EDIT_MAX && cursor <= len <= EDIT_MAX
    }

    // The text before and after the cursor.
    ghost function Now(): Zip
      requires Valid()
      reads this, buf
    {
      Zip(buf[..cursor], buf[cursor..len])
    }

    ghost function Contents(): Text
      requires len <= buf.Length
      reads this`len, buf
    {
      buf[..len]
    }

    constructor ()
      ensures Valid() && fresh(buf) && Now() == Zip([], [])
    {
      buf := new byte[EDIT_MAX];
      len, cursor := 0, 0;
    }

    // The beginning of edit_file.
    method Load(fs: Fs, path: string)
      requires Valid() && fs.Valid()
      modifies this`len, this`cursor, buf
      ensures Valid() && fs.Valid() && fs.State() == old(fs.State())
      ensures Now() == Opened(fs.rom, fs.State(), path).z
    {
      var n := fs.FsRead(path, buf, EDIT_MAX);
      len := if n < 0 then 0 else n;
      cursor := len;
    }

    // edit_line_start
    method LineStartAt(idx: nat) returns (s: nat)
      requires Valid() && idx <= len
      ensures s == LineStart(Contents(), idx)
    {
      s := idx;
      while s > 0 && buf[s - 1] != NEWLINE
        invariant s <= idx && LineStart(Contents(), idx) == LineStart(Contents(), s)
      {
        s := s - 1;
      }
    }

    // edit_line_end
    method LineEndAt(idx: nat) returns (e: nat)
      requires Valid() && idx <= len
      ensures e == LineEnd(Contents(), idx)
    {
      e := idx;
      while e < len && buf[e] != NEWLINE
        invariant idx <= e <= len && LineEnd(Contents(), idx) == LineEnd(Contents(), e)
      {
        e := e + 1;
      }
    }

    // edit_goto_line
    method GotoLine(up: bool)
      requires Valid()
      modifies this`cursor
      ensures Valid() && cursor == if up then LineUp(Contents(), old(cursor)) else LineDown(Contents(), old(cursor))
    {
      var ls := LineStartAt(cursor);
      var col := cursor - ls;
      if up {
        GoUp(ls, col);
      } else {
        GoDown(col);
      }
    }

    method GoUp(ls: nat, col: nat)
      requires Valid() && ls == LineStart(Contents(), cursor) && col == cursor - ls
      modifies this`cursor
      ensures Valid() && cursor == LineUp(Contents(), old(cursor))
    {
      if ls == 0 {
        return;
      }
      var pls := LineStartAt(ls - 1);
      var pe := LineEndAt(pls);
      cursor := pls + col;
      if cursor > pe {
        cursor := pe;
      }
    }

    method GoDown(col: nat)
      requires Valid() && col == cursor - LineStart(Contents(), cursor)
      modifies this`cursor
      ensures Valid() && cursor == LineDown(Contents(), old(cursor))
    {
      var le := LineEndAt(cursor);
      if le >= len {
        return;
      }
      var nls := le + 1;
      var ne := LineEndAt(nls);
      cursor := nls + col;
      if cursor > ne {
        cursor := ne;
      }
    }

    method Insert(c: byte)
      requires Valid() && Typed(c)
      modifies this`len, this`cursor, buf
      ensures Valid() && Now() == Press(old(Now()), c)
    {
      if len < EDIT_MAX - 1 {
        MemMove(buf, cursor + 1, cursor, len - cursor);
        buf[cursor] := c;
        cursor := cursor + 1;
        len := len + 1;
      }
    }

    method Rubout()
      requires Valid()
      modifies this`len, this`cursor, buf
      ensures Valid() && Now() == Press(old(Now()), BACKSPACE)
    {
      if cursor > 0 {
        ghost var was := buf[..];
        MemMove(buf, cursor - 1, cursor, len - cursor);
        ClosesUp(was, buf[..], cursor, len);
        cursor := cursor - 1;
        len := len - 1;
      }
    }

    method Delete()
      requires Valid()
      modifies this`len, buf
      ensures Valid() && Now() == Press(old(Now()), KEY_DEL)
    {
      if cursor < len {
        MemMove(buf, cursor, cursor + 1, len - cursor - 1);
        len := len - 1;
      }
    }

    // The cursor at place p of the text.
    lemma Placed(z: Zip, p: nat)
      requires Valid() && z.before + z.after == Contents() && p <= len && cursor == p
      ensures Now() == Move(z, p)
    {
      assert buf[..len][..p] == buf[..p] && buf[..len][p..] == buf[p..len];
    }

    method MoveByOne(c: byte)
      requires Valid() && (c == KEY_LEFT || c == KEY_RIGHT)
      modifies this`cursor
      ensures Valid() && Now() == Press(old(Now()), c)
    {
      if c == KEY_LEFT {
        if cursor > 0 {
          cursor := cursor - 1;
        }
      } else if cursor < len {
        cursor := cursor + 1;
      }
    }

    method MoveBy(c: byte)
      requires Valid() && Moving(c)
      modifies this`cursor
      ensures Valid() && Now() == Press(old(Now()), c)
    {
      if c == KEY_UP || c == KEY_DOWN {
        MoveByLine(c);
      } else if c == KEY_HOME || c == KEY_END {
        MoveInLine(c);
      } else {
        MoveByOne(c);
      }
    }

    method MoveByLine(c: byte)
      requires Valid() && (c == KEY_UP || c == KEY_DOWN)
      modifies this`cursor
      ensures Valid() && Now() == Press(old(Now()), c)
    {
      ghost var z := Now();
      assert z.before + z.after == Contents();
      GotoLine(c == KEY_UP);
      Placed(z, cursor);
    }

    method MoveInLine(c: byte)
      requires Valid() && (c == KEY_HOME || c == KEY_END)
      modifies this`cursor
      ensures Valid() && Now() == Press(old(Now()), c)
    {
      ghost var z := Now();
      assert z.before + z.after == Contents();
      if c == KEY_HOME {
        cursor := LineStartAt(cursor);
      } else {
        cursor := LineEndAt(cursor);
      }
      Placed(z, cursor);
    }

    // One key of edit_file other than those that save or leave.
    method EditKey(c: byte)
      requires Valid()
      modifies this`len, this`cursor, buf
      ensures Valid() && Now() == Press(old(Now()), c)
    {
      if c == NEWLINE {
        Insert(c);
      } else if c == BACKSPACE {
        Rubout();
      } else if c == KEY_DEL {
        Delete();
      } else if Moving(c) {
        MoveBy(c);
      } else if 0x20 <= c <= 0x7E {
        Insert(c);
      }
    }
  }

  // One round of edit_file for the file `path`: the bar that is drawn, the flag saved_flash, whether
  // `msg` is set, and whether the editor goes on.
  method EditRound(b: Buffer, fs: Fs, path: string, flash: bool, failed: bool, c: byte)
    returns (bar: Bar, flash': bool, failed': bool, going: bool)
    requires b.Valid() && fs.Valid()
    modifies b`len, b`cursor, b.buf, fs.files
    ensures b.Valid() && fs.Valid()
    ensures var e := Editing(old(b.Now()), old(fs.State()), flash, failed, true);
      && bar == Shown(e)
      && Editing(b.Now(), fs.State(), flash', failed', going) == Round(fs.rom, path, e, c)
  {
    bar := if flash then Saved else if failed then NotSaved else Hint;
    flash', failed', going := false, failed && !flash, true;
    if c == ESC {
      going := false;
    } else if c == CTRL_O {
      var code := Save(b, fs, path);
      if code == 0 {
        flash' := true;
      } else {
        failed' := true;
      }
    } else if c == CTRL_X {
      var _ := Save(b, fs, path);
      going := false;
    } else {
      b.EditKey(c);
    }
  }

  method Save(b: Buffer, fs: Fs, path: string) returns (code: int)
    requires b.Valid() && fs.Valid()
    modifies fs.files
    ensures b.Valid() && fs.Valid() && b.Now() == old(b.Now())
    ensures (code, fs.State()) == Apply(fs.rom, old(fs.State()), Write(path, b.Now().Whole()))
  {
    assert b.Now().Whole() == b.buf[..b.len];
    code := fs.FsWrite(path, b.buf[..b.len]);
  }

  // edit_file: the keys pressed, and the bars drawn before them.
  method EditFile(fs: Fs, path: string, keys: seq<byte>) returns (bars: seq<Bar>)
    requires fs.Valid()
    modifies fs.files
    ensures fs.Valid()
    ensures var e := Opened(fs.rom, old(fs.State()), path);
      fs.State() == Rounds(fs.rom, path, e, keys).st && bars == Bars(fs.rom, path, e, keys)
  {
    ghost var start := Opened(fs.rom, fs.State(), path);
    var b := new Buffer();
    b.Load(fs, path);
    var flash, failed, going := false, false, true;
    bars := [];
    for i := 0 to |keys|
      invariant b.Valid() && fs.Valid() && fresh(b) && fresh(b.buf) && going
      invariant Rounds(fs.rom, path, start, keys[..i]) == Editing(b.Now(), fs.State(), flash, failed, true)
      invariant bars == Bars(fs.rom, path, start, keys[..i])
    {
      assert keys[..i + 1][..i] == keys[..i];
      var bar;
      bar, flash, failed, going := EditRound(b, fs, path, flash, failed, keys[i]);
      bars := bars + [bar];
      if !going {
        ClosedStays(fs.rom, path, start, keys, i + 1);
        return;
      }
    }
    assert keys[..|keys|] == keys;
  }
}
