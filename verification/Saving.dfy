// The editor (edit.c) together with the file system (fs.c): what an editing session leaves in the
// file, and what the bar at the bottom says about it.
module Saving {
  import opened Options
  import opened Bytes
  import opened Zipper
  import Overlay

  // What the bar shows: that the file was saved, that it could not be, or the keys.
  datatype Bar = Saved | NotSaved | Hint

  // The text, the file system, the flag saved_flash, whether `msg` is set, and whether the editor
  // goes on.
  datatype Editing = Editing(z: Zip, st: Overlay.State, flash: bool, failed: bool, going: bool)

  // The editor opens with the cursor behind the text; what cannot be read into its buffer counts as
  // an empty text.
  function Opened(rom: Overlay.Rom, st: Overlay.State, path: string): Editing {
    var v := Overlay.View(rom, st, path);
    Editing(Zip(if v.Some? && |v.value| <= EDIT_MAX then v.value else [], []), st, false, false, true)
  }

  function Shown(e: Editing): Bar {
    if e.flash then Saved else if e.failed then NotSaved else Hint
  }

  // Once it has been shown, the good news and any older bad news are dropped.
  function Rendered(e: Editing): Editing {
    if e.flash then e.(flash := false, failed := false) else e
  }

  ghost function Saves(rom: Overlay.Rom, path: string, e: Editing): (int, Overlay.State) {
    Overlay.Apply(rom, e.st, Overlay.Write(path, e.z.Whole()))
  }

  // One round of edit_file: the bar is drawn, and a key is taken.
  ghost function Round(rom: Overlay.Rom, path: string, e: Editing, c: byte): Editing {
    if !e.going then e
    else
      var r := Rendered(e);
      if c == ESC then r.(going := false)
      else if c == CTRL_O then
        var (code, st) := Saves(rom, path, r);
        if code == 0 then r.(st := st, flash := true) else r.(st := st, failed := true)
      else if c == CTRL_X then r.(st := Saves(rom, path, r).1, going := false)
      else r.(z := Press(r.z, c))
  }

  ghost function Rounds(rom: Overlay.Rom, path: string, e: Editing, keys: seq<byte>): Editing {
    if keys == [] then e else Round(rom, path, Rounds(rom, path, e, keys[..|keys| - 1]), keys[|keys| - 1])
  }

  // ----- what is in the file afterwards -----

  // Whether the file system takes a small enough text under that path.
  ghost predicate Open(rom: Overlay.Rom, st: Overlay.State, path: string) {
    Overlay.MayWrite(rom, st, path, 0)
  }

  // The last of the texts that is small enough for the file system.
  function LastFitting(texts: seq<Text>): Option<Text> {
    if texts == [] then None
    else
      var n := |texts| - 1;
      if |texts[n]| <= Overlay.MAX_SIZE then Some(texts[n]) else LastFitting(texts[..n])
  }

  // What a save leaves: another text under that path and nothing else, or nothing new at all.
  lemma SaveIs(rom: Overlay.Rom, st: Overlay.State, path: string, t: Text)
    ensures var (code, st') := Overlay.Apply(rom, st, Overlay.Write(path, t));
      && (code == 0 <==> Open(rom, st, path) && |t| <= Overlay.MAX_SIZE)
      && (code != 0 ==> st' == st)
      && (code == 0 ==> Overlay.View(rom, st', path) == Some(t))
      && (forall q :: q != path ==> Overlay.View(rom, st', q) == Overlay.View(rom, st, q))
      && (Open(rom, st', path) <==> Open(rom, st, path))
  {
    var (code, st') := Overlay.Apply(rom, st, Overlay.Write(path, t));
    if code == 0 {
      NotItsOwnChild(rom, st, path, t);
    }
  }

  // A file does not make its own path a directory.
  lemma NotItsOwnChild(rom: Overlay.Rom, st: Overlay.State, path: string, t: Text)
    ensures Overlay.IsDir(rom, st.(overlay := st.overlay[path := t]), path) <==> Overlay.IsDir(rom, st, path)
  {
    var prefix := path + "/";
    assert |path| < |prefix|;
    assert !Overlay.Below(path, prefix);
    var st' := st.(overlay := st.overlay[path := t]);
    if Overlay.HasChildren(rom, st, prefix) && !(exists i :: 0 <= i < |rom.files| && Overlay.Below(rom.files[i].name, prefix)) {
      var p :| p in st.overlay && Overlay.Below(p, prefix);
      assert p in st'.overlay;
    }
  }

  // A session leaves under its path the last text that it handed over and that fits, if the file
  // system takes texts there at all; otherwise what was there.  Nothing else changes.
  lemma {:induction false} SessionLeaves(rom: Overlay.Rom, path: string, e: Editing, keys: seq<byte>)
    ensures var e', s := Rounds(rom, path, e, keys), Keys(Session(e.z, [], e.going), keys);
      && e'.z == s.z && e'.going == s.going
      && Overlay.View(rom, e'.st, path) ==
           (if Open(rom, e.st, path) && LastFitting(s.handed).Some? then LastFitting(s.handed)
            else Overlay.View(rom, e.st, path))
      && (forall q :: q != path ==> Overlay.View(rom, e'.st, q) == Overlay.View(rom, e.st, q))
      && (Open(rom, e'.st, path) <==> Open(rom, e.st, path))
  {
    if keys != [] {
      var n := |keys| - 1;
      SessionLeaves(rom, path, e, keys[..n]);
      RoundLeaves(rom, path, Rounds(rom, path, e, keys[..n]), Keys(Session(e.z, [], e.going), keys[..n]), keys[n]);
    }
  }

  lemma RoundLeaves(rom: Overlay.Rom, path: string, e: Editing, s: Session, c: byte)
    requires e.z == s.z && e.going == s.going
    ensures var e', s' := Round(rom, path, e, c), Key(s, c);
      && e'.z == s'.z && e'.going == s'.going
      && (s'.handed == s.handed ==> e'.st == e.st)
      && (s'.handed != s.handed ==>
            && s'.handed == s.handed + [e.z.Whole()]
            && (Overlay.View(rom, e'.st, path) ==
                  if Open(rom, e.st, path) && |e.z.Whole()| <= Overlay.MAX_SIZE then Some(e.z.Whole())
                  else Overlay.View(rom, e.st, path)))
      && (forall q :: q != path ==> Overlay.View(rom, e'.st, q) == Overlay.View(rom, e.st, q))
      && (Open(rom, e'.st, path) <==> Open(rom, e.st, path))
  {
    SaveIs(rom, e.st, path, e.z.Whole());
  }

  // Ctrl+X leaves the text in the file exactly if the file system takes it, or it was there before.
  lemma QuitKeepsText(rom: Overlay.Rom, path: string, e: Editing)
    requires e.going
    ensures var e' := Round(rom, path, e, CTRL_X);
      && !e'.going
      && (Overlay.View(rom, e'.st, path) == Some(e.z.Whole()) <==>
            || Overlay.MayWrite(rom, e.st, path, |e.z.Whole()|)
            || Overlay.View(rom, e.st, path) == Some(e.z.Whole()))
  {
  }

  // Escape leaves the file system as it is, and Ctrl+O the editor open.
  lemma LeavingWithoutSaving(rom: Overlay.Rom, path: string, e: Editing)
    requires e.going
    ensures Round(rom, path, e, 27).st == e.st && !Round(rom, path, e, 27).going
    ensures Round(rom, path, e, 15).going && !Round(rom, path, e, 24).going
    ensures Round(rom, path, e, 15).st == Round(rom, path, e, 24).st
  {
  }

  // Opening the file again gives the text that was saved, with the cursor at its end.
  lemma SaveThenOpen(rom: Overlay.Rom, path: string, e: Editing, c: byte)
    requires e.going && (c == CTRL_O || c == CTRL_X) && Overlay.MayWrite(rom, e.st, path, |e.z.Whole()|)
    ensures Opened(rom, Round(rom, path, e, c).st, path).z == Zip(e.z.Whole(), [])
  {
  }

  const NOTHING := Overlay.Rom([], [])

  // The editor holds up to 8192 bytes, but the file system takes only 2048: whoever types 2049
  // characters into a new file and leaves with Ctrl+X finds no file, and is shown no message.
  lemma LongTextIsLost(keys: seq<byte>)
    requires |keys| == 2049 && forall k :: 0 <= k < |keys| ==> Typed(keys[k])
    ensures var e := Rounds(NOTHING, "/a", Opened(NOTHING, Overlay.EMPTY, "/a"), keys + [CTRL_X]);
      && e.z == Zip(keys, []) && !e.going && Shown(e) == Hint
      && e.st == Overlay.EMPTY && Overlay.View(NOTHING, e.st, "/a") == None
  {
    var start := Opened(NOTHING, Overlay.EMPTY, "/a");
    Unsaved(NOTHING, "/a", start, keys);
    TypedText(Session(Zip([], []), [], true), keys);
    assert keys[..|keys|] == keys && [] + keys == keys;
    assert (keys + [CTRL_X])[..|keys|] == keys;
  }

  // Typing saves nothing.
  lemma {:induction false} Unsaved(rom: Overlay.Rom, path: string, e: Editing, keys: seq<byte>)
    requires e.going && !e.flash && forall k :: 0 <= k < |keys| ==> Typed(keys[k])
    ensures Rounds(rom, path, e, keys) == e.(z := Keys(Session(e.z, [], true), keys).z)
    ensures Keys(Session(e.z, [], true), keys).going
  {
    if keys != [] {
      Unsaved(rom, path, e, keys[..|keys| - 1]);
    }
  }

  // ----- what the bar says -----

  // Whether the last Ctrl+O of a session saved the text, if there was one.
  ghost function LastTry(rom: Overlay.Rom, path: string, e: Editing, keys: seq<byte>): Option<bool> {
    if keys == [] then None
    else
      var n := |keys| - 1;
      var u := Rounds(rom, path, e, keys[..n]);
      if u.going && keys[n] == CTRL_O then Some(Overlay.MayWrite(rom, u.st, path, |u.z.Whole()|))
      else LastTry(rom, path, e, keys[..n])
  }

  // While the editor is open, the bar says that the text could not be saved exactly as long as the
  // last Ctrl+O failed, and that it was saved exactly after a Ctrl+O that saved it.
  lemma {:induction false} BarTells(rom: Overlay.Rom, path: string, e: Editing, keys: seq<byte>)
    requires e.going && !e.flash && !e.failed
    ensures var e', last := Rounds(rom, path, e, keys), LastTry(rom, path, e, keys);
      e'.going ==>
        && (Shown(e') == NotSaved <==> last == Some(false))
        && (Shown(e') == Saved <==> last == Some(true) && keys[|keys| - 1] == CTRL_O)
  {
    if keys != [] {
      BarTells(rom, path, e, keys[..|keys| - 1]);
    }
  }

  // The bars drawn in a session, one before each key that is taken.
  ghost function Bars(rom: Overlay.Rom, path: string, e: Editing, keys: seq<byte>): seq<Bar> {
    if keys == [] then []
    else
      var u := Rounds(rom, path, e, keys[..|keys| - 1]);
      Bars(rom, path, e, keys[..|keys| - 1]) + if u.going then [Shown(u)] else []
  }

  // Behind the key that ends a session there is nothing more.
  lemma {:induction false} ClosedStays(rom: Overlay.Rom, path: string, e: Editing, keys: seq<byte>, i: nat)
    requires i <= |keys| && !Rounds(rom, path, e, keys[..i]).going
    ensures Rounds(rom, path, e, keys) == Rounds(rom, path, e, keys[..i])
    ensures Bars(rom, path, e, keys) == Bars(rom, path, e, keys[..i])
    decreases |keys|
  {
    if i < |keys| {
      assert keys[..|keys| - 1][..i] == keys[..i];
      ClosedStays(rom, path, e, keys[..|keys| - 1], i);
    } else {
      assert keys[..i] == keys;
    }
  }
}
