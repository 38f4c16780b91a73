// The window manager of the desktop (gui.c): the table of windows and the stacking order, kept in
// arrays that are shifted in place, the focus, the drag and the window switcher.
module WindowManager {
  import opened Desk

  // The places behind the first x have moved down by one.
  lemma MovedDown(order: seq<nat>, rest: seq<nat>, i: nat, x: nat)
    requires i < |order| == |rest| + 1 && order[i] == x && forall q :: 0 <= q < i ==> order[q] != x
    requires forall k :: 0 <= k < i ==> rest[k] == order[k]
    requires forall k :: i <= k < |rest| ==> rest[k] == order[k + 1]
    ensures rest == Remove(order, x)
  {
    RemoveAt(order, x, i);
  }

  class Windows {
    const wins: array<Win>
    const zorder: array<nat>
    var zcount: nat
    var focused: int
    var dragging: int
    var switcherOn: bool
    var switcherPos: nat

    ghost function Order(): seq<nat>
      requires zcount <= zorder.Length
      reads this, zorder
    {
      zorder[..zcount]
    }

    ghost function Now(): State
      requires zcount <= zorder.Length
      reads this, wins, zorder
    {
      State(wins[..], Order(), focused, dragging, switcherOn, switcherPos)
    }

    ghost predicate Valid()
      reads this, wins, zorder
    {
      zorder.Length == MAXW && zcount <= MAXW && Inv(Now())
    }

    constructor ()
      ensures Valid() && fresh(wins) && fresh(zorder) && Now() == Start()
    {
      wins := new Win[MAXW](_ => NO_WINDOW);
      zorder := new nat[MAXW](_ => 0);
      zcount, focused, dragging, switcherOn, switcherPos := 0, -1, -1, false, 0;
    }

    // win_find
    method WinFind(t: nat) returns (idx: int)
      ensures idx == Find(wins[..], t)
    {
      var i := 0;
      while i < wins.Length
        invariant 0 <= i <= wins.Length
        invariant Find(wins[..], t) == FindFrom(wins[..], t, i)
      {
        if wins[i].used && wins[i].kind == t {
          return i;
        }
        i := i + 1;
      }
      return -1;
    }

    // The places from i on move down by one.
    method ShiftDown(i: nat)
      requires i < zcount <= zorder.Length
      modifies zorder
      ensures forall k :: 0 <= k < i ==> zorder[k] == old(zorder[k])
      ensures forall k :: i <= k < zcount - 1 ==> zorder[k] == old(zorder[k + 1])
    {
      var j := i;
      while j + 1 < zcount
        invariant i <= j < zcount
        invariant forall k :: 0 <= k < i ==> zorder[k] == old(zorder[k])
        invariant forall k :: i <= k < j ==> zorder[k] == old(zorder[k + 1])
        invariant forall k :: j <= k < zcount ==> zorder[k] == old(zorder[k])
      {
        zorder[j] := zorder[j + 1];
        j := j + 1;
      }
    }

    // win_raise
    method WinRaise(idx: nat)
      requires zcount <= zorder.Length
      modifies zorder
      ensures Order() == Raise(old(Order()), idx)
    {
      ghost var order := Order();
      var i := 0;
      while i < zcount
        invariant 0 <= i <= zcount && Order() == order
        invariant PlaceOf(order, idx, 0) == PlaceOf(order, idx, i)
      {
        if zorder[i] == idx {
          ShiftDown(i);
          zorder[zcount - 1] := idx;
          MovedDown(order, Order()[..zcount - 1], i, idx);
          return;
        }
        i := i + 1;
      }
    }

    // win_focus
    method WinFocus(idx: int)
      requires Valid() && (idx == -1 || (0 <= idx < MAXW && wins[idx].used))
      modifies this`focused, wins, zorder
      ensures Valid() && Now() == Focus(old(Now()), idx)
    {
      ghost var was := Now();
      if idx >= 0 {
        wins[idx] := wins[idx].(minimized := false);
        WinRaise(idx);
      }
      focused := idx;
      FocusKeepsInv(was, idx);
      assert Now() == Focus(was, idx);
    }

    method FirstFree() returns (idx: int)
      ensures idx == FreeFrom(wins[..], 0)
    {
      var i := 0;
      while i < wins.Length
        invariant 0 <= i <= wins.Length
        invariant FreeFrom(wins[..], 0) == FreeFrom(wins[..], i)
      {
        if !wins[i].used {
          return i;
        }
        i := i + 1;
      }
      return -1;
    }

    method TakeSlot(idx: nat, t: nat)
      requires Valid() && idx < MAXW && !wins[idx].used && Find(wins[..], t) < 0
      modifies this`zcount, wins, zorder
      ensures zcount <= MAXW && Now() == Place(old(Now()), idx, t)
    {
      ghost var was := Now();
      RoomForAnother(Order(), MAXW, idx);
      var n := zcount;
      var w, h := 640, 460;
      if t == W_TASK || t == W_DISK {
        w, h := 480, 340;
      }
      wins[idx] := wins[idx].(used := true, minimized := false, kind := t, at := Rect(150 + n * 36, 60 + n * 30, w, h));
      zorder[zcount] := idx;
      zcount := zcount + 1;
      assert Order() == was.order + [idx];
      assert wins[..] == Place(was, idx, t).wins;
    }

    // win_open
    method WinOpen(t: nat) returns (idx: int)
      requires Valid() && t < KINDS
      modifies this`zcount, this`focused, wins, zorder
      ensures Valid() && (Now(), idx) == Open(old(Now()), t)
    {
      ghost var was := Now();
      OpenKeepsInv(was, t);
      idx := WinFind(t);
      if idx < 0 {
        idx := FirstFree();
      }
      if idx < 0 {
        return -1;
      }
      if !wins[idx].used {
        TakeSlot(idx, t);
        FocusNew(idx);
      } else {
        WinFocus(idx);
      }
    }

    // The end of win_open for a new window.
    method FocusNew(idx: nat)
      requires zorder.Length == MAXW == wins.Length && zcount <= MAXW && idx < MAXW && wins[idx].used
      modifies this`focused, wins, zorder
      ensures Now() == Focus(old(Now()), idx)
    {
      wins[idx] := wins[idx].(minimized := false);
      WinRaise(idx);
      focused := idx;
    }

    // win_close
    method WinClose(idx: int)
      requires Valid() && idx < MAXW
      modifies this`zcount, this`focused, this`dragging, wins, zorder
      ensures Valid() && Now() == Close(old(Now()), idx)
    {
      if idx < 0 || !wins[idx].used {
        return;
      }
      CloseKeepsInv(Now(), idx);
      FreeSlot(idx);
    }

    method FreeSlot(idx: nat)
      requires zcount <= zorder.Length && idx < wins.Length && wins[idx].used
      modifies this`zcount, this`focused, this`dragging, wins, zorder
      ensures zcount <= zorder.Length && Now() == Close(old(Now()), idx)
    {
      ghost var was := Now();
      wins[idx] := wins[idx].(used := false);
      assert wins[..] == was.wins[idx := was.wins[idx].(used := false)];
      TakeOut(idx);
      assert Order() == Remove(was.order, idx) && zcount == |Order()|;
      assert zcount > 0 ==> zorder[zcount - 1] == Order()[zcount - 1];
      if focused == idx {
        focused := if zcount > 0 then zorder[zcount - 1] else -1;
      }
      if dragging == idx {
        dragging := -1;
      }
    }

    method TakeOut(idx: nat)
      requires zcount <= zorder.Length
      modifies this`zcount, zorder
      ensures zcount <= zorder.Length && Order() == Remove(old(Order()), idx)
    {
      ghost var order := Order();
      var i := 0;
      while i < zcount
        invariant 0 <= i <= zcount == |order| && Order() == order
        invariant PlaceOf(order, idx, 0) == PlaceOf(order, idx, i)
      {
        if zorder[i] == idx {
          ShiftDown(i);
          zcount := zcount - 1;
          MovedDown(order, Order(), i, idx);
          return;
        }
        i := i + 1;
      }
      RemoveNothing(order, idx);
    }

    // win_at
    method WinAt(mx: int, my: int) returns (hit: int)
      requires Valid()
      ensures -1 <= hit < MAXW && TopmostAt(Now(), mx, my, hit)
    {
      ghost var d := Now();
      var z := zcount - 1;
      while z >= 0
        invariant -1 <= z < zcount
        invariant forall q :: z < q < zcount ==> !Hits(d.wins[d.order[q]], mx, my)
      {
        var i := zorder[z];
        assert i == d.order[z] && d.wins[i] == wins[i];
        if wins[i].used && !wins[i].minimized
          && mx >= wins[i].at.x && mx < wins[i].at.x + wins[i].at.w
          && my >= wins[i].at.y && my < wins[i].at.y + wins[i].at.h {
          assert TopmostAtPlace(d, mx, my, z);
          return i;
        }
        z := z - 1;
      }
      assert forall i :: 0 <= i < MAXW && d.wins[i].used ==> i in d.order;
      return -1;
    }

    // win_toggle_max
    method WinToggleMax(idx: nat, s: Screen)
      requires Valid() && idx < MAXW && wins[idx].used
      modifies wins
      ensures Valid() && Now() == ToggleMax(old(Now()), idx, s)
    {
      ghost var was := Now();
      ChangeKeepsInv(was, idx, Toggled(was.wins[idx], s), focused, dragging);
      var w := wins[idx];
      if !w.maximized {
        wins[idx] := w.(saved := w.at, at := Rect(6, MENU_H + 6, s.w - 12, s.h - MENU_H - DOCK_H - 24), maximized := true);
      } else {
        wins[idx] := w.(at := w.saved, maximized := false);
      }
      assert Now() == ToggleMax(was, idx, s);
    }

    method WinMinimize(idx: nat)
      requires Valid() && idx < MAXW && wins[idx].used
      modifies this`focused, wins
      ensures Valid() && Now() == Minimize(old(Now()), idx)
    {
      ghost var was := Now();
      ChangeKeepsInv(was, idx, was.wins[idx].(minimized := true), -1, dragging);
      wins[idx] := wins[idx].(minimized := true);
      focused := -1;
      assert Now() == Minimize(was, idx);
    }

    // The part of gui_mouse for a press on a window.
    method MousePress(mx: int, my: int, s: Screen) returns (hit: int)
      requires Valid()
      modifies this`zcount, this`focused, this`dragging, wins, zorder
      ensures -1 <= hit < MAXW && TopmostAt(old(Now()), mx, my, hit)
      ensures Valid() && Now() == if hit >= 0 then Press(old(Now()), hit, mx, my, s) else old(Now())
    {
      hit := WinAt(mx, my);
      if hit < 0 {
        return;
      }
      BringToFront(hit);
      PressButtons(hit, mx, my, s);
    }

    method BringToFront(hit: nat)
      requires Valid() && hit < MAXW && wins[hit].used
      modifies this`focused, wins, zorder
      ensures Valid() && Now() == Front(old(Now()), hit) && wins[hit].used && focused == hit
    {
      FrontIsFocused(Now(), hit);
      if focused != hit {
        WinFocus(hit);
      }
    }

    // The maximise button.
    method Maximize(hit: nat, s: Screen)
      requires Valid() && hit < MAXW && wins[hit].used
      modifies this`focused, wins, zorder
      ensures Valid() && Now() == Focus(ToggleMax(old(Now()), hit, s), hit)
    {
      WinToggleMax(hit, s);
      WinFocus(hit);
    }

    // The beginning of a drag.
    method Grab(hit: nat)
      requires Valid() && hit < MAXW && wins[hit].used
      modifies this`dragging
      ensures Valid() && Now() == old(Now()).(dragging := hit)
    {
      Grabbed(Now(), hit);
      dragging := hit;
    }

    method PressButtons(hit: nat, mx: int, my: int, s: Screen)
      requires Valid() && hit < MAXW && wins[hit].used && focused == hit
      modifies this`zcount, this`focused, this`dragging, wins, zorder
      ensures Valid() && Now() == Buttons(old(Now()), hit, mx, my, s)
    {
      var r := wins[hit].at;
      if mx >= r.x + 8 && mx < r.x + 20 && my >= r.y + 7 && my < r.y + 19 {
        WinClose(hit);
      } else if mx >= r.x + 26 && mx < r.x + 38 && my >= r.y + 7 && my < r.y + 19 {
        WinMinimize(hit);
      } else if mx >= r.x + 44 && mx < r.x + 56 && my >= r.y + 7 && my < r.y + 19 {
        Maximize(hit, s);
      } else if mx >= r.x + 3 && mx < r.x + r.w - 3 && my >= r.y + 3 && my < r.y + 3 + TITLE_H {
        Grab(hit);
      }
    }

    // gui_switcher_next
    method SwitcherNext(active: bool)
      requires Valid()
      modifies this`switcherOn, this`switcherPos
      ensures Valid() && Now() == if active then Next(old(Now())) else old(Now())
    {
      if !active || zcount <= 1 {
        return;
      }
      ghost var was := Now();
      InRange(was);
      ToNextShown();
      NextKeepsInv(was);
    }

    method ToNextShown()
      requires zcount <= zorder.Length && zcount > 1
      requires OrderInRange(Now())
      modifies this`switcherOn, this`switcherPos
      ensures Now() == Next(old(Now()))
    {
      ghost var was := Now();
      Advance();
      SkipHidden(was);
    }

    // The next place, from the focused window on when the switcher opens.
    method Advance()
      requires zcount <= zorder.Length && zcount > 1
      modifies this`switcherOn, this`switcherPos
      ensures switcherOn && switcherPos < zcount
      ensures switcherPos == Cyclic(if old(switcherOn) then old(switcherPos) + 1 else PlaceOf(Order(), focused, 0) + 1, zcount)
    {
      if !switcherOn {
        var cur := FocusedPlace();
        switcherOn := true;
        CyclicIsRemainder(cur + 1, zcount);
        switcherPos := (cur + 1) % zcount;
      } else {
        CyclicIsRemainder(switcherPos + 1, zcount);
        switcherPos := (switcherPos + 1) % zcount;
      }
    }

    // The loop of gui_switcher_next over the minimised windows.
    method SkipHidden(ghost was: State)
      requires 0 < zcount <= zorder.Length && switcherPos < zcount
      requires was.order == Order() && was.wins == wins[..]
      requires OrderInRange(was)
      modifies this`switcherPos
      ensures switcherPos == Seek(was, old(switcherPos), zcount)
    {
      ghost var start := switcherPos;
      var i := 0;
      while i < zcount
        invariant 0 <= i <= zcount && switcherPos < zcount
        invariant Seek(was, start, zcount) == Seek(was, switcherPos, zcount - i)
      {
        var idx := zorder[switcherPos];
        assert idx == was.order[switcherPos] && idx < wins.Length && wins[idx] == was.wins[idx];
        if wins[idx].used && !wins[idx].minimized {
          break;
        }
        GoOn();
        i := i + 1;
      }
    }

    method GoOn()
      requires switcherPos < zcount
      modifies this`switcherPos
      ensures switcherPos == After(old(switcherPos), zcount)
    {
      AfterIsRemainder(switcherPos, zcount);
      switcherPos := (switcherPos + 1) % zcount;
    }

    method FocusedPlace() returns (cur: int)
      requires zcount <= zorder.Length
      ensures cur == PlaceOf(Order(), focused, 0)
    {
      var i := 0;
      while i < zcount
        invariant 0 <= i <= zcount && PlaceOf(Order(), focused, 0) == PlaceOf(Order(), focused, i)
      {
        if zorder[i] == focused {
          return i;
        }
        i := i + 1;
      }
      return -1;
    }

    // gui_switcher_confirm; with no window left it divides by zero.
    method SwitcherConfirm() returns (trap: bool)
      requires Valid()
      modifies this`switcherOn, this`focused, wins, zorder
      ensures trap == (old(switcherOn) && zcount == 0)
      ensures !trap ==> Valid() && Now() == Confirm(old(Now()))
    {
      trap := false;
      if !switcherOn {
        return;
      }
      ghost var was := Now();
      switcherOn := false;
      if zcount == 0 {
        return true;
      }
      ConfirmKeepsInv(was);
      CyclicIsRemainder(switcherPos, zcount);
      var idx := zorder[switcherPos % zcount];
      assert idx == was.order[Cyclic(switcherPos, zcount)];
      if wins[idx].used {
        WinFocus(idx);
      }
    }

    // gui_switcher_cancel
    method SwitcherCancel()
      requires Valid()
      modifies this`switcherOn
      ensures Valid() && Now() == old(Now()).(switching := false)
    {
      switcherOn := false;
    }
  }
}
