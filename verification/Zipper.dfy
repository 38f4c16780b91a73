// The text editor (edit.c) without its buffer: the text before and after the cursor, and what each
// key does to them.
module Zipper {
  import opened Bytes

  const EDIT_MAX := 8192
  const NEWLINE: byte := 10
  const BACKSPACE: byte := 8
  const ESC: byte := 0x1B
  const CTRL_O: byte := 0x0F
  const CTRL_X: byte := 0x18
  const KEY_UP: byte := 0x81
  const KEY_DOWN: byte := 0x82
  const KEY_LEFT: byte := 0x83
  const KEY_RIGHT: byte := 0x84
  const KEY_DEL: byte := 0x85
  const KEY_HOME: byte := 0x86
  const KEY_END: byte := 0x87

  type Text = seq<byte>

  datatype Zip = Zip(before: Text, after: Text) {
    function Whole(): Text { before + after }
  }

  function At(t: Text, p: nat): Zip
    requires p <= |t|
  {
    Zip(t[..p], t[p..])
  }

  // ----- lines -----

  function LineStart(t: Text, p: nat): (s: nat)
    requires p <= |t|
    ensures s <= p && (s > 0 ==> t[s - 1] == NEWLINE)
  {
    if p > 0 && t[p - 1] != NEWLINE then LineStart(t, p - 1) else p
  }

  function LineEnd(t: Text, p: nat): (e: nat)
    requires p <= |t|
    ensures p <= e <= |t| && (e < |t| ==> t[e] == NEWLINE)
    decreases |t| - p
  {
    if p < |t| && t[p] != NEWLINE then LineEnd(t, p + 1) else p
  }

  // The number of the line and the column of a place in the text.
  function Line(t: Text, p: nat): nat
    requires p <= |t|
  {
    if p == 0 then 0 else Line(t, p - 1) + if t[p - 1] == NEWLINE then 1 else 0
  }

  function Column(t: Text, p: nat): nat
    requires p <= |t|
  {
    p - LineStart(t, p)
  }

  function LineLength(t: Text, p: nat): nat
    requires p <= |t|
  {
    LineEnd(t, p) - LineStart(t, p)
  }

  function Min(a: nat, b: nat): nat { if a < b then a else b }

  // edit_goto_line
  function LineUp(t: Text, p: nat): (q: nat)
    requires p <= |t|
    ensures q <= |t|
  {
    var s := LineStart(t, p);
    if s == 0 then p
    else
      var above := LineStart(t, s - 1);
      Min(above + (p - s), LineEnd(t, above))
  }

  function LineDown(t: Text, p: nat): (q: nat)
    requires p <= |t|
    ensures q <= |t|
  {
    var e := LineEnd(t, p);
    if e >= |t| then p else Min(e + 1 + (p - LineStart(t, p)), LineEnd(t, e + 1))
  }

  // The line around p begins at a and ends at b.
  predicate EndsOfLine(t: Text, p: nat, a: nat, b: nat) {
    && a <= p <= b <= |t| && (forall k :: a <= k < b ==> t[k] as int != 10)
    && (a == 0 || t[a - 1] as int == 10) && (b == |t| || t[b] as int == 10)
  }

  lemma {:induction false} NoBreakBefore(t: Text, p: nat)
    requires p <= |t|
    ensures forall k :: LineStart(t, p) <= k < p ==> t[k] != NEWLINE
  {
    if p > 0 && t[p - 1] != NEWLINE {
      NoBreakBefore(t, p - 1);
    }
  }

  lemma {:induction false} NoBreakAfter(t: Text, p: nat)
    requires p <= |t|
    ensures forall k :: p <= k < LineEnd(t, p) ==> t[k] != NEWLINE
    decreases |t| - p
  {
    if p < |t| && t[p] != NEWLINE {
      NoBreakAfter(t, p + 1);
    }
  }

  lemma {:induction false} LineHasEnds(t: Text, p: nat)
    requires p <= |t|
    ensures EndsOfLine(t, p, LineStart(t, p), LineEnd(t, p))
  {
    NoBreakBefore(t, p);
    NoBreakAfter(t, p);
  }

  // Within a line the number does not change.
  lemma {:induction false} SameLine(t: Text, a: nat, b: nat)
    requires a <= b <= |t| && forall k :: a <= k < b ==> t[k] != NEWLINE
    ensures Line(t, a) == Line(t, b) && LineStart(t, a) == LineStart(t, b) && LineEnd(t, a) == LineEnd(t, b)
    decreases b - a
  {
    if a < b {
      SameLine(t, a + 1, b);
    }
  }

  lemma {:induction false} LinesGrow(t: Text, a: nat, b: nat)
    requires a <= b <= |t|
    ensures Line(t, a) <= Line(t, b)
    ensures Line(t, a) == Line(t, b) ==> forall k :: a <= k < b ==> t[k] != NEWLINE
    decreases b - a
  {
    if a < b {
      LinesGrow(t, a, b - 1);
    }
  }

  lemma {:induction false} FromStart(t: Text, p: nat)
    requires p <= |t|
    ensures var s := LineStart(t, p); Line(t, s) == Line(t, p) && LineStart(t, s) == s && LineEnd(t, s) == LineEnd(t, p)
  {
    NoBreakBefore(t, p);
    SameLine(t, LineStart(t, p), p);
  }

  lemma {:induction false} UpToEnd(t: Text, p: nat)
    requires p <= |t|
    ensures var e := LineEnd(t, p); Line(t, e) == Line(t, p) && LineStart(t, e) == LineStart(t, p) && LineEnd(t, e) == e
  {
    NoBreakAfter(t, p);
    SameLine(t, p, LineEnd(t, p));
  }

  // A place is known by its line and column.
  lemma PlaceIsKnown(t: Text, p: nat, q: nat)
    requires p <= |t| && q <= |t| && Line(t, p) == Line(t, q) && Column(t, p) == Column(t, q)
    ensures p == q
  {
    var a, b := Min(p, q), if p < q then q else p;
    LinesGrow(t, a, b);
    SameLine(t, a, b);
  }

  // The place in the line that begins at s, in column col or at the end of a shorter line.
  lemma {:induction false} PlaceInLine(t: Text, s: nat, col: nat)
    requires s <= |t| && LineStart(t, s) == s
    ensures var q := Min(s + col, LineEnd(t, s));
      q <= |t| && Line(t, q) == Line(t, s) && Column(t, q) == Min(col, LineLength(t, q))
  {
    NoBreakAfter(t, s);
    SameLine(t, s, Min(s + col, LineEnd(t, s)));
  }

  // A step up goes one line up and keeps the column as far as that line reaches.
  lemma {:induction false} UpGoesUp(t: Text, p: nat)
    requires p <= |t|
    ensures var q := LineUp(t, p);
      if Line(t, p) == 0 then q == p
      else Line(t, q) == Line(t, p) - 1 && Column(t, q) == Min(Column(t, p), LineLength(t, q))
  {
    var s := LineStart(t, p);
    FromStart(t, p);
    if s > 0 {
      var above := LineStart(t, s - 1);
      FromStart(t, s - 1);
      PlaceInLine(t, above, p - s);
    }
  }

  lemma {:induction false} NextLine(t: Text, e: nat)
    requires e < |t| && t[e] == NEWLINE
    ensures LineStart(t, e + 1) == e + 1 && Line(t, e + 1) == Line(t, e) + 1 <= Line(t, |t|)
  {
    LinesGrow(t, e + 1, |t|);
  }

  lemma {:induction false} DownFrom(t: Text, p: nat, e: nat)
    requires p <= |t| && e == LineEnd(t, p) < |t| && Line(t, e) == Line(t, p)
    ensures var q := LineDown(t, p);
      Line(t, q) == Line(t, p) + 1 <= Line(t, |t|) && Column(t, q) == Min(Column(t, p), LineLength(t, q))
  {
    NextLine(t, e);
    PlaceInLine(t, e + 1, Column(t, p));
  }

  // A step down goes one line down, likewise, unless the line is the last.
  lemma {:induction false} DownGoesDown(t: Text, p: nat)
    requires p <= |t|
    ensures var q := LineDown(t, p);
      if Line(t, p) == Line(t, |t|) then q == p
      else Line(t, q) == Line(t, p) + 1 && Column(t, q) == Min(Column(t, p), LineLength(t, q))
  {
    var e := LineEnd(t, p);
    UpToEnd(t, p);
    if e < |t| {
      DownFrom(t, p, e);
    }
  }

  // Up and down again comes back exactly if the upper line reaches the column.
  lemma UpThenDown(t: Text, p: nat)
    requires p <= |t| && Line(t, p) > 0
    ensures LineDown(t, LineUp(t, p)) == p <==> Column(t, p) <= LineLength(t, LineUp(t, p))
  {
    var q := LineUp(t, p);
    UpGoesUp(t, p);
    DownGoesDown(t, q);
    LinesGrow(t, p, |t|);
    var r := LineDown(t, q);
    if Column(t, p) <= LineLength(t, q) {
      SameColumnFits(t, p, r);
      PlaceIsKnown(t, p, r);
    }
  }

  // Down and up again, likewise.
  lemma DownThenUp(t: Text, p: nat)
    requires p <= |t| && Line(t, p) < Line(t, |t|)
    ensures LineUp(t, LineDown(t, p)) == p <==> Column(t, p) <= LineLength(t, LineDown(t, p))
  {
    var q := LineDown(t, p);
    DownGoesDown(t, p);
    UpGoesUp(t, q);
    var r := LineUp(t, q);
    if Column(t, p) <= LineLength(t, q) {
      SameColumnFits(t, p, r);
      PlaceIsKnown(t, p, r);
    }
  }

  // Places of one line have the same length of line.
  lemma SameColumnFits(t: Text, p: nat, r: nat)
    requires p <= |t| && r <= |t| && Line(t, p) == Line(t, r)
    ensures LineLength(t, p) == LineLength(t, r) && Column(t, p) <= LineLength(t, r)
  {
    var a, b := Min(p, r), if p < r then r else p;
    LinesGrow(t, a, b);
    SameLine(t, a, b);
  }

  // ----- keys -----

  predicate Typed(c: byte) { c == NEWLINE || 0x20 <= c <= 0x7E }

  // There is room for another character.
  predicate Room(z: Zip) { |z.before| + |z.after| < EDIT_MAX - 1 }

  function Move(z: Zip, p: nat): Zip
    requires p <= |z.before + z.after|
  {
    At(z.before + z.after, p)
  }

  function Press(z: Zip, c: byte): Zip {
    var t, p := z.before + z.after, |z.before|;
    if Typed(c) then if Room(z) then Zip(z.before + [c], z.after) else z
    else if c == BACKSPACE then if p > 0 then Zip(z.before[..p - 1], z.after) else z
    else if c == KEY_DEL then if z.after != [] then Zip(z.before, z.after[1..]) else z
    else if c == KEY_LEFT then if p > 0 then Zip(z.before[..p - 1], [z.before[p - 1]] + z.after) else z
    else if c == KEY_RIGHT then if z.after != [] then Zip(z.before + [z.after[0]], z.after[1..]) else z
    else if c == KEY_UP then Move(z, LineUp(t, p))
    else if c == KEY_DOWN then Move(z, LineDown(t, p))
    else if c == KEY_HOME then Move(z, LineStart(t, p))
    else if c == KEY_END then Move(z, LineEnd(t, p))
    else z
  }

  // An editing session: the text, what was handed to the file system so far, and whether it goes on.
  datatype Session = Session(z: Zip, handed: seq<Text>, going: bool)

  function Key(s: Session, c: byte): Session {
    if !s.going then s
    else if c == ESC then s.(going := false)
    else if c == CTRL_O then s.(handed := s.handed + [s.z.Whole()])
    else if c == CTRL_X then s.(handed := s.handed + [s.z.Whole()], going := false)
    else s.(z := Press(s.z, c))
  }

  function Keys(s: Session, keys: seq<byte>): Session {
    if keys == [] then s else Key(Keys(s, keys[..|keys| - 1]), keys[|keys| - 1])
  }

  // ----- what the keys mean together -----

  predicate Moving(c: byte) {
    c == KEY_LEFT || c == KEY_RIGHT || c == KEY_UP || c == KEY_DOWN || c == KEY_HOME || c == KEY_END
  }

  // The keys for moving leave the text alone.
  lemma MovingKeepsText(z: Zip, c: byte)
    requires Moving(c)
    ensures Press(z, c).Whole() == z.Whole()
  {
    if c == KEY_LEFT && z.before != [] {
      var n := |z.before| - 1;
      assert z.before == z.before[..n] + [z.before[n]];
    } else if c == KEY_RIGHT && z.after != [] {
      assert z.after == [z.after[0]] + z.after[1..];
    }
  }

  // Where the keys for moving put the cursor.
  lemma {:induction false} PressGoes(z: Zip, t: Text, p: nat)
    requires t == z.before + z.after && p == |z.before|
    ensures |Press(z, 0x81).before| == LineUp(t, p) && |Press(z, 0x82).before| == LineDown(t, p)
    ensures |Press(z, 0x86).before| == LineStart(t, p) && |Press(z, 0x87).before| == LineEnd(t, p)
  {
  }

  // Up (0x81) and down (0x82) go one line up or down, to the same column or the end of a shorter line.
  lemma {:induction false} KeysUpAndDown(z: Zip)
    ensures var t, p, up := z.before + z.after, |z.before|, |Press(z, 0x81).before|;
      if Line(t, p) == 0 then up == p
      else up <= |t| && Line(t, up) == Line(t, p) - 1 && Column(t, up) == Min(Column(t, p), LineLength(t, up))
    ensures var t, p, down := z.before + z.after, |z.before|, |Press(z, 0x82).before|;
      if Line(t, p) == Line(t, |t|) then down == p
      else down <= |t| && Line(t, down) == Line(t, p) + 1 && Column(t, down) == Min(Column(t, p), LineLength(t, down))
  {
    var t, p := z.before + z.after, |z.before|;
    PressGoes(z, t, p);
    UpGoesUp(t, p);
    DownGoesDown(t, p);
  }

  // Left (0x83) and right (0x84) go one place, home (0x86) and end (0x87) to the ends of the line.
  lemma {:induction false} KeysAlongTheLine(z: Zip)
    ensures |Press(z, 0x83).before| == (if z.before == [] then 0 else |z.before| - 1)
    ensures |Press(z, 0x84).before| == (if z.after == [] then |z.before| else |z.before| + 1)
    ensures EndsOfLine(z.before + z.after, |z.before|, |Press(z, 0x86).before|, |Press(z, 0x87).before|)
  {
    PressGoes(z, z.before + z.after, |z.before|);
    LineHasEnds(z.before + z.after, |z.before|);
  }

  // The number of a line is the number of line feeds before it.
  lemma {:induction false} LinesAreCounted(t: Text, p: nat)
    requires p <= |t|
    ensures Line(t, p) == multiset(t[..p])[10]
  {
    if p > 0 {
      LinesAreCounted(t, p - 1);
      assert t[..p] == t[..p - 1] + [t[p - 1]];
    } else {
      assert t[..0] == [];
    }
  }

  // Keys for printable characters and the line feed insert themselves while there is room; backspace
  // and delete take away the character before and after the cursor; other keys do nothing to the text.
  lemma KeysChange(z: Zip, c: byte)
    requires c != 8 && c != 0x85
    ensures (c == 10 || 32 <= c <= 126) && |z.before| + |z.after| < 8191 ==> Press(z, c) == Zip(z.before + [c], z.after)
    ensures !(c == 10 || 32 <= c <= 126) || |z.before| + |z.after| >= 8191 ==> Press(z, c).Whole() == z.Whole()
    ensures |z.before| > 0 ==>
      Press(z, 8).before + [z.before[|z.before| - 1]] == z.before && Press(z, 8).after == z.after
    ensures |z.after| > 0 ==> Press(z, 0x85).before == z.before && [z.after[0]] + Press(z, 0x85).after == z.after
    ensures (z.before == [] ==> Press(z, 8) == z) && (z.after == [] ==> Press(z, 0x85) == z)
  {
    if Moving(c) {
      MovingKeepsText(z, c);
    }
  }

  // Escape ends the session and hands nothing over, Ctrl+O hands the text over, Ctrl+X does both.
  lemma SessionKeys(s: Session)
    requires s.going
    ensures Key(s, 27) == Session(s.z, s.handed, false)
    ensures Key(s, 15) == Session(s.z, s.handed + [s.z.before + s.z.after], true)
    ensures Key(s, 24) == Session(s.z, s.handed + [s.z.before + s.z.after], false)
  {
  }

  // Backspace takes back a character just typed, and delete is backspace after a step to the right.
  lemma BackspaceUndoes(z: Zip, c: byte)
    requires Typed(c) && Room(z)
    ensures Press(Press(z, c), BACKSPACE) == z
  {
  }

  lemma DeleteByBackspace(z: Zip)
    requires z.after != []
    ensures Press(Press(z, KEY_RIGHT), BACKSPACE) == Press(z, KEY_DEL)
    ensures Press(Press(z, KEY_RIGHT), KEY_LEFT) == z
  {
    assert z.after == [z.after[0]] + z.after[1..];
  }

  // Typed characters appear before the cursor, as many as there is room for.
  lemma {:induction false} TypedText(s: Session, keys: seq<byte>)
    requires s.going && forall k :: 0 <= k < |keys| ==> Typed(keys[k])
    requires |s.z.Whole()| < EDIT_MAX
    ensures var n := Min(|keys|, EDIT_MAX - 1 - |s.z.Whole()|);
      Keys(s, keys) == s.(z := Zip(s.z.before + keys[..n], s.z.after))
  {
    if keys == [] {
      assert s.z.before + [] == s.z.before;
    } else {
      var m := |keys| - 1;
      var free := EDIT_MAX - 1 - |s.z.Whole()|;
      TypedText(s, keys[..m]);
      if m < free {
        assert keys[..m][..m] + [keys[m]] == keys[..m + 1];
        assert s.z.before + keys[..m] + [keys[m]] == s.z.before + keys;
        assert keys[..m][..m] == keys[..m];
      } else {
        assert keys[..m][..free] == keys[..free];
      }
    }
  }

  // Over any run of keys the text stays within the buffer, and what was handed over stays so.
  lemma {:induction false} SessionIsSafe(s: Session, keys: seq<byte>)
    requires |s.z.Whole()| <= EDIT_MAX
    ensures |Keys(s, keys).z.Whole()| <= EDIT_MAX
    ensures s.handed <= Keys(s, keys).handed
  {
    if keys != [] {
      var u, c := Keys(s, keys[..|keys| - 1]), keys[|keys| - 1];
      SessionIsSafe(s, keys[..|keys| - 1]);
      if Moving(c) {
        MovingKeepsText(u.z, c);
      }
    }
  }
}
