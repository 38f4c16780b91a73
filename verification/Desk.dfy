// The windows of the desktop (gui.c) as a state machine: which windows there are, in which order
// they lie on one another, which has the focus, and what the window switcher points at.
module Desk {
  const MAXW := 15
  const KINDS := 16
  const MENU_H := 24
  const DOCK_H := 60
  const W_TASK := 3
  const W_DISK := 4

  datatype Rect = Rect(x: int, y: int, w: int, h: int)

  datatype Win = Win(used: bool, minimized: bool, maximized: bool, kind: nat, at: Rect, saved: Rect)

  // order lists the windows from the bottom to the top.
  datatype State = State(wins: seq<Win>, order: seq<nat>, focused: int, dragging: int, switching: bool, pos: nat)

  datatype Screen = Screen(w: int, h: int)

  // ----- the order -----

  // The first place of i, or -1.
  function PlaceOf(order: seq<nat>, i: int, from: nat): (p: int)
    requires from <= |order|
    ensures p == -1 || (from <= p < |order| && order[p] == i)
    ensures forall q :: from <= q < (if p == -1 then |order| else p) ==> order[q] != i
    decreases |order| - from
  {
    if from == |order| then -1 else if order[from] == i then from else PlaceOf(order, i, from + 1)
  }

  // The order without the first i in it.
  function Remove(order: seq<nat>, i: nat): seq<nat> {
    if order == [] then [] else if order[0] == i then order[1..] else [order[0]] + Remove(order[1..], i)
  }

  // win_raise
  function Raise(order: seq<nat>, i: nat): seq<nat> {
    if i in order then Remove(order, i) + [i] else order
  }

  function Top(order: seq<nat>): nat
    requires order != []
  {
    order[|order| - 1]
  }

  predicate Distinct(order: seq<nat>) {
    forall p, q :: 0 <= p < q < |order| ==> order[p] != order[q]
  }

  // Each used window once, and no other.
  predicate Lists(order: seq<nat>, wins: seq<Win>) {
    && Distinct(order)
    && (forall p :: 0 <= p < |order| ==> order[p] < |wins|)
    && (forall i :: 0 <= i < |wins| ==> (i in order <==> wins[i].used))
  }

  lemma {:induction false} RemoveAt(order: seq<nat>, i: nat, p: nat)
    requires p < |order| && order[p] == i && forall q :: 0 <= q < p ==> order[q] != i
    ensures Remove(order, i) == order[..p] + order[p + 1..]
    decreases p
  {
    if p > 0 {
      RemoveAt(order[1..], i, p - 1);
    }
  }

  lemma {:induction false} RemoveNothing(order: seq<nat>, i: nat)
    requires i !in order
    ensures Remove(order, i) == order
  {
    if order != [] {
      RemoveNothing(order[1..], i);
    }
  }

  lemma FirstAndRest(order: seq<nat>, j: nat)
    requires Distinct(order) && order != []
    ensures Distinct(order[1..]) && order[0] !in order[1..]
    ensures j in order <==> j == order[0] || j in order[1..]
  {
    assert order == [order[0]] + order[1..];
  }

  lemma {:induction false} RemoveKeeps(order: seq<nat>, i: nat, j: nat)
    requires Distinct(order)
    ensures j in Remove(order, i) <==> j in order && j != i
  {
    if order != [] {
      FirstAndRest(order, j);
      if order[0] != i {
        RemoveKeeps(order[1..], i, j);
      }
    }
  }

  // Whatever else was at the end is still there.
  lemma {:induction false} RemoveKeepsTop(order: seq<nat>, i: nat)
    requires order != [] && Top(order) != i
    ensures Remove(order, i) != [] && Top(Remove(order, i)) == Top(order)
  {
    if order[0] != i && |order| > 1 {
      RemoveKeepsTop(order[1..], i);
    }
  }

  lemma {:induction false} RemoveIsListed(order: seq<nat>, i: nat)
    requires Distinct(order)
    ensures Distinct(Remove(order, i))
    ensures forall j :: j in Remove(order, i) <==> j in order && j != i
    ensures |Remove(order, i)| == if i in order then |order| - 1 else |order|
  {
    forall j
      ensures j in Remove(order, i) <==> j in order && j != i
    {
      RemoveKeeps(order, i, j);
    }
    if order != [] {
      FirstAndRest(order, i);
      if order[0] != i {
        RemoveIsListed(order[1..], i);
        RemoveKeeps(order[1..], i, order[0]);
      }
    }
  }

  // No more windows in the order than slots.
  lemma {:induction false} OrderFits(order: seq<nat>, n: nat)
    requires Distinct(order) && forall p :: 0 <= p < |order| ==> order[p] < n
    ensures |order| <= n
    decreases n
  {
    assert order != [] ==> order[0] < n;
    if n > 0 {
      WithoutTop(order, n - 1);
      OrderFits(Remove(order, n - 1), n - 1);
    }
  }

  lemma WithoutTop(order: seq<nat>, top: nat)
    requires Distinct(order) && forall p :: 0 <= p < |order| ==> order[p] <= top
    ensures var rest := Remove(order, top);
      Distinct(rest) && |rest| >= |order| - 1 && forall p :: 0 <= p < |rest| ==> rest[p] < top
  {
    var rest := Remove(order, top);
    RemoveIsListed(order, top);
    forall p | 0 <= p < |rest|
      ensures rest[p] < top
    {
      assert rest[p] in rest;
    }
  }

  lemma RoomForAnother(order: seq<nat>, n: nat, i: nat)
    requires Distinct(order) && (forall p :: 0 <= p < |order| ==> order[p] < n) && i < n && i !in order
    ensures |order| < n
  {
    OrderFits(order + [i], n);
  }

  // ----- the operations -----

  // win_find
  function Find(wins: seq<Win>, t: nat): (i: int)
    ensures if i >= 0 then i < |wins| && wins[i].used && wins[i].kind == t else i == -1
    ensures i < 0 ==> forall k :: 0 <= k < |wins| && wins[k].used ==> wins[k].kind != t
  {
    FindFrom(wins, t, 0)
  }

  function FindFrom(wins: seq<Win>, t: nat, from: nat): (i: int)
    requires from <= |wins|
    ensures if i >= 0 then from <= i < |wins| && wins[i].used && wins[i].kind == t else i == -1
    ensures forall k :: from <= k < (if i >= 0 then i else |wins|) && wins[k].used ==> wins[k].kind != t
    decreases |wins| - from
  {
    if from == |wins| then -1
    else if wins[from].used && wins[from].kind == t then from
    else FindFrom(wins, t, from + 1)
  }

  function FreeFrom(wins: seq<Win>, from: nat): (i: int)
    requires from <= |wins|
    ensures if i >= 0 then from <= i < |wins| && !wins[i].used else i == -1
    ensures forall k :: from <= k < (if i >= 0 then i else |wins|) ==> wins[k].used
    decreases |wins| - from
  {
    if from == |wins| then -1 else if !wins[from].used then from else FreeFrom(wins, from + 1)
  }

  // win_focus
  function Focus(d: State, i: int): State
    requires i < |d.wins|
  {
    if i < 0 then d.(focused := i)
    else d.(wins := d.wins[i := d.wins[i].(minimized := false)], order := Raise(d.order, i), focused := i)
  }

  function NewRect(t: nat, n: nat): Rect {
    if t == W_TASK || t == W_DISK then Rect(150 + n * 36, 60 + n * 30, 480, 340)
    else Rect(150 + n * 36, 60 + n * 30, 640, 460)
  }

  // A free slot taken for a window of kind t, on top of the others.
  function Place(d: State, i: nat, t: nat): State
    requires i < |d.wins|
  {
    var w := d.wins[i].(used := true, minimized := false, kind := t, at := NewRect(t, |d.order|));
    d.(wins := d.wins[i := w], order := d.order + [i])
  }

  // win_open: the window of this kind if there is one, or else a new one if there is a free slot.
  function Open(d: State, t: nat): (r: (State, int))
    ensures r.1 < |d.wins|
  {
    var i := Find(d.wins, t);
    var free := FreeFrom(d.wins, 0);
    if i >= 0 then (Focus(d, i), i)
    else if free >= 0 then (Focus(Place(d, free, t), free), free)
    else (d, -1)
  }

  // win_close
  function Close(d: State, i: int): State
    requires i < |d.wins|
  {
    if i < 0 || !d.wins[i].used then d
    else
      var rest := Remove(d.order, i);
      d.(wins := d.wins[i := d.wins[i].(used := false)], order := rest,
         focused := if d.focused != i then d.focused else if |rest| > 0 then rest[|rest| - 1] else -1,
         dragging := if d.dragging == i then -1 else d.dragging)
  }

  // The minimise button, and the dock icon of the focused window.
  function Minimize(d: State, i: nat): State
    requires i < |d.wins|
  {
    d.(wins := d.wins[i := d.wins[i].(minimized := true)], focused := -1)
  }

  function FullRect(s: Screen): Rect { Rect(6, MENU_H + 6, s.w - 12, s.h - MENU_H - DOCK_H - 24) }

  function Toggled(w: Win, s: Screen): Win {
    if !w.maximized then w.(saved := w.at, at := FullRect(s), maximized := true)
    else w.(at := w.saved, maximized := false)
  }

  // win_toggle_max
  function ToggleMax(d: State, i: nat, s: Screen): State
    requires i < |d.wins|
  {
    d.(wins := d.wins[i := Toggled(d.wins[i], s)])
  }

  // ----- the window switcher -----

  predicate Shown(d: State, p: nat) {
    p < |d.order| && d.order[p] < |d.wins| && d.wins[d.order[p]].used && !d.wins[d.order[p]].minimized
  }

  // The remainder, n taken away as often as possible.
  function Cyclic(p: nat, n: nat): (r: nat)
    requires n > 0
    ensures r < n
  {
    if p < n then p else Cyclic(p - n, n)
  }

  lemma {:induction false} CyclicIsRemainder(p: nat, n: nat)
    requires n > 0
    ensures Cyclic(p, n) == p % n
    decreases p
  {
    if p >= n {
      CyclicIsRemainder(p - n, n);
      var q, r := (p - n) / n, (p - n) % n;
      assert p == n * (q + 1) + r;
      RemainderIs(p, n, q + 1, r);
    } else {
      RemainderIs(p, n, 0, p);
    }
  }

  lemma RemainderIs(p: nat, n: nat, q: nat, r: nat)
    requires n > 0 && r < n && p == n * q + r
    ensures p % n == r
  {
    Bigger(n, q, p / n);
    Bigger(n, p / n, q);
  }

  lemma Bigger(n: nat, q: nat, q': nat)
    ensures q < q' ==> n * q + n <= n * q'
  {
    if q < q' {
      var k := q' - q - 1;
      assert n * q' == n * q + n + n * k;
    }
  }

  // The place after p, and the place j steps after it, of n in a circle.
  function After(p: nat, n: nat): nat { if p + 1 == n then 0 else p + 1 }

  function StepsAfter(p: nat, j: nat, n: nat): (q: nat)
    requires p < n && j <= n
    ensures q < n
  {
    if p + j < n then p + j else p + j - n
  }

  // The first shown place at or after p, going on at most n times.
  function Seek(d: State, p: nat, n: nat): (r: nat)
    requires p < |d.order|
    ensures r < |d.order|
    decreases n
  {
    if n == 0 || Shown(d, p) then p else Seek(d, After(p, |d.order|), n - 1)
  }

  // gui_switcher_next
  function Next(d: State): State {
    var n := |d.order|;
    if n <= 1 then d
    else
      var start := Cyclic(if d.switching then d.pos + 1 else PlaceOf(d.order, d.focused, 0) + 1, n);
      d.(switching := true, pos := Seek(d, start, n))
  }

  // gui_switcher_confirm, with a window left
  function Confirm(d: State): State
    requires d.switching ==> |d.order| > 0
  {
    if !d.switching then d
    else
      var i := d.order[Cyclic(d.pos, |d.order|)];
      var off := d.(switching := false);
      if i < |d.wins| && d.wins[i].used then Focus(off, i) else off
  }

  // ----- what every run keeps -----

  ghost predicate Inv(d: State) {
    && |d.wins| == MAXW && Lists(d.order, d.wins)
    && (forall i, j :: 0 <= i < j < MAXW && d.wins[i].used && d.wins[j].used ==> d.wins[i].kind != d.wins[j].kind)
    && (d.focused == -1 || (|d.order| > 0 && d.focused == d.order[|d.order| - 1]))
    && (d.dragging == -1 || (0 <= d.dragging < MAXW && d.wins[d.dragging].used))
  }

  datatype Action =
    | DoOpen(t: nat) | DoClose(idx: int) | DoFocus(idx: int) | DoMinimize(i: nat) | DoToggle(i: nat, s: Screen)
    | DoGrab(i: nat) | DoMove(x: int, y: int) | DoDrop | DoNext | DoConfirm | DoCancel

  // What the callers of each operation see to.
  predicate Enabled(d: State, a: Action) {
    match a
    case DoOpen(t) => t < KINDS
    case DoClose(i) => i < |d.wins|
    case DoFocus(i) => i == -1 || (0 <= i < |d.wins| && d.wins[i].used)
    case DoMinimize(i) => i < |d.wins| && d.wins[i].used
    case DoToggle(i, s) => i < |d.wins| && d.wins[i].used
    case DoGrab(i) => i < |d.wins| && d.wins[i].used
    case DoMove(x, y) => 0 <= d.dragging < |d.wins|
    case DoConfirm => d.switching ==> |d.order| > 0
    case _ => true
  }

  function Step(d: State, a: Action): State
    requires Enabled(d, a)
  {
    match a
    case DoOpen(t) => Open(d, t).0
    case DoClose(i) => Close(d, i)
    case DoFocus(i) => Focus(d, i)
    case DoMinimize(i) => Minimize(d, i)
    case DoToggle(i, s) => ToggleMax(d, i, s)
    case DoGrab(i) => d.(dragging := i)
    case DoMove(x, y) => var w := d.wins[d.dragging]; d.(wins := d.wins[d.dragging := w.(at := w.at.(x := x, y := y))])
    case DoDrop => d.(dragging := -1)
    case DoNext => Next(d)
    case DoConfirm => Confirm(d)
    case DoCancel => d.(switching := false)
  }

  // Before anything is opened.
  const NO_WINDOW := Win(false, false, false, 0, Rect(0, 0, 0, 0), Rect(0, 0, 0, 0))

  function Start(): State {
    State(seq(MAXW, _ => NO_WINDOW), [], -1, -1, false, 0)
  }

  ghost predicate Run(d: State, actions: seq<Action>, e: State)
    decreases |actions|
  {
    if |actions| == 0 then e == d
    else Enabled(d, actions[0]) && Run(Step(d, actions[0]), actions[1..], e)
  }

  lemma RaiseIsListed(order: seq<nat>, i: nat)
    requires Distinct(order)
    ensures Distinct(Raise(order, i)) && |Raise(order, i)| == |order|
    ensures forall j :: j in Raise(order, i) <==> j in order
    ensures i in order ==> Top(Raise(order, i)) == i
  {
    RemoveIsListed(order, i);
    PutOnTop(Remove(order, i), i);
  }

  lemma PutOnTop(rest: seq<nat>, i: nat)
    requires Distinct(rest) && i !in rest
    ensures Distinct(rest + [i]) && forall j :: j in rest + [i] <==> j in rest || j == i
  {
    assert forall p :: 0 <= p < |rest| ==> rest[p] in rest;
  }

  lemma FocusKeepsInv(d: State, i: int)
    requires Inv(d) && (i == -1 || (0 <= i < |d.wins| && d.wins[i].used))
    ensures Inv(Focus(d, i))
  {
    if i >= 0 {
      RaiseIsListed(d.order, i);
      var order := Raise(d.order, i);
      assert forall p :: 0 <= p < |order| ==> order[p] in order;
    }
  }

  lemma PlaceKeepsInv(d: State, i: nat, t: nat)
    requires Inv(d) && i < MAXW && !d.wins[i].used && Find(d.wins, t) < 0
    ensures Inv(Place(d, i, t).(focused := i))
  {
  }

  lemma CloseKeepsLists(order: seq<nat>, wins: seq<Win>, i: nat)
    requires Lists(order, wins) && i < |wins|
    ensures Lists(Remove(order, i), wins[i := wins[i].(used := false)])
  {
    RemoveIsListed(order, i);
    var rest := Remove(order, i);
    assert forall p :: 0 <= p < |rest| ==> rest[p] in rest;
  }

  lemma CloseKeepsInv(d: State, i: int)
    requires Inv(d) && i < MAXW
    ensures Inv(Close(d, i))
  {
    if i >= 0 && d.wins[i].used {
      CloseKeepsLists(d.order, d.wins, i);
      if d.focused != i && d.order != [] && Top(d.order) != i {
        RemoveKeepsTop(d.order, i);
      }
    }
  }

  lemma OpenKeepsInv(d: State, t: nat)
    requires Inv(d)
    ensures Inv(Open(d, t).0)
  {
    var i, free := Find(d.wins, t), FreeFrom(d.wins, 0);
    if i >= 0 {
      FocusKeepsInv(d, i);
    } else if free >= 0 {
      PlaceKeepsInv(d, free, t);
      FocusKeepsInv(Place(d, free, t).(focused := free), free);
    }
  }

  lemma ConfirmKeepsInv(d: State)
    requires Inv(d) && (d.switching ==> |d.order| > 0)
    ensures Inv(Confirm(d))
  {
    if d.switching {
      FocusKeepsInv(d.(switching := false), d.order[Cyclic(d.pos, |d.order|)]);
    }
  }

  // Changing a window without closing it or giving it another kind.
  lemma ChangeKeepsInv(d: State, i: nat, w: Win, focused: int, dragging: int)
    requires Inv(d) && i < MAXW && d.wins[i].used && w.used && w.kind == d.wins[i].kind
    requires focused == d.focused || focused == -1
    requires dragging == d.dragging || dragging == -1 || dragging == i
    ensures Inv(d.(wins := d.wins[i := w], focused := focused, dragging := dragging))
  {
  }

  lemma StepKeepsInv(d: State, a: Action)
    requires Inv(d) && Enabled(d, a)
    ensures Inv(Step(d, a))
  {
    match a
    case DoOpen(t) => OpenKeepsInv(d, t);
    case DoClose(i) => CloseKeepsInv(d, i);
    case DoFocus(i) => FocusKeepsInv(d, i);
    case DoMinimize(i) => ChangeKeepsInv(d, i, d.wins[i].(minimized := true), -1, d.dragging);
    case DoToggle(i, s) => ChangeKeepsInv(d, i, Toggled(d.wins[i], s), d.focused, d.dragging);
    case DoMove(x, y) =>
      var w := d.wins[d.dragging];
      ChangeKeepsInv(d, d.dragging, w.(at := w.at.(x := x, y := y)), d.focused, d.dragging);
    case DoConfirm => ConfirmKeepsInv(d);
    case _ =>
  }

  lemma StartInv()
    ensures Inv(Start())
  {
  }

  lemma {:induction false} RunKeepsInv(d: State, actions: seq<Action>, e: State)
    requires Inv(d) && Run(d, actions, e)
    ensures Inv(e)
    decreases |actions|
  {
    if |actions| > 0 {
      StepKeepsInv(d, actions[0]);
      RunKeepsInv(Step(d, actions[0]), actions[1..], e);
    }
  }

  // The invariant holds of every state that is reached from the start of the desktop.
  lemma ReachedInv(actions: seq<Action>, e: State)
    requires Run(Start(), actions, e)
    ensures Inv(e)
  {
    StartInv();
    RunKeepsInv(Start(), actions, e);
  }

  // ----- the window under a point -----

  predicate Hits(w: Win, x: int, y: int) {
    && w.used && !w.minimized
    && w.at.x <= x < w.at.x + w.at.w && w.at.y <= y < w.at.y + w.at.h
  }

  predicate TopmostAtPlace(d: State, x: int, y: int, p: nat)
    requires p < |d.order| && forall q :: 0 <= q < |d.order| ==> d.order[q] < |d.wins|
  {
    Hits(d.wins[d.order[p]], x, y) && forall q :: p < q < |d.order| ==> !Hits(d.wins[d.order[q]], x, y)
  }

  // The window r is the topmost of those that are shown at the point; -1 if there is none.
  ghost predicate TopmostAt(d: State, x: int, y: int, r: int)
    requires forall q :: 0 <= q < |d.order| ==> d.order[q] < |d.wins|
  {
    if r == -1 then forall i :: 0 <= i < |d.wins| ==> !Hits(d.wins[i], x, y)
    else exists p :: 0 <= p < |d.order| && d.order[p] == r && TopmostAtPlace(d, x, y, p)
  }

  // A point shown by the focused window belongs to it, whatever was done before.
  lemma FocusedIsOnTop(d: State, x: int, y: int, r: int)
    requires Inv(d) && d.focused >= 0 && Hits(d.wins[d.focused], x, y) && TopmostAt(d, x, y, r)
    ensures r == d.focused
  {
  }

  // ----- a mouse button pressed on a window -----

  const TITLE_H := 20

  predicate InButton(r: Rect, from: int, x: int, y: int) {
    r.x + from <= x < r.x + from + 12 && r.y + 7 <= y < r.y + 19
  }

  predicate InTitle(r: Rect, x: int, y: int) {
    r.x + 3 <= x < r.x + r.w - 3 && r.y + 3 <= y < r.y + 3 + TITLE_H
  }

  function Front(d: State, i: nat): State
    requires i < |d.wins|
  {
    if d.focused != i then Focus(d, i) else d
  }

  // The window comes to the front; then its buttons close, minimise or maximise it, and its title
  // begins a drag.
  function Buttons(f: State, i: nat, x: int, y: int, s: Screen): State
    requires i < |f.wins|
  {
    var r := f.wins[i].at;
    if InButton(r, 8, x, y) then Close(f, i)
    else if InButton(r, 26, x, y) then Minimize(f, i)
    else if InButton(r, 44, x, y) then Focus(ToggleMax(f, i, s), i)
    else if InTitle(r, x, y) then f.(dragging := i)
    else f
  }

  function Press(d: State, i: nat, x: int, y: int, s: Screen): State
    requires i < |d.wins|
  {
    Buttons(Front(d, i), i, x, y, s)
  }

  predicate OthersKept(d: State, e: State, i: nat) {
    |d.wins| == |e.wins| && forall k :: 0 <= k < |d.wins| && k != i ==> e.wins[k] == d.wins[k]
  }

  lemma FocusIsOnTop(d: State, i: nat)
    requires Inv(d) && i < MAXW && d.wins[i].used
    ensures var f := Focus(d, i);
      && Inv(f) && OthersKept(d, f, i) && f.wins[i].used && f.focused == i && f.order == Raise(d.order, i)
      && (d.focused == i ==> f.order == d.order)
  {
    FocusKeepsInv(d, i);
    TopStays(d.order, i);
  }

  lemma FrontIsFocused(d: State, i: nat)
    requires Inv(d) && i < MAXW && d.wins[i].used
    ensures var f := Front(d, i);
      Inv(f) && OthersKept(d, f, i) && f.wins[i].used && f.focused == i && f.order == Raise(d.order, i)
  {
    FocusIsOnTop(d, i);
  }

  lemma ToggledStaysInFront(f: State, i: nat, s: Screen)
    requires Inv(f) && i < MAXW && f.wins[i].used && f.focused == i
    ensures var e := Focus(ToggleMax(f, i, s), i);
      Inv(e) && OthersKept(f, e, i) && e.focused == i && e.order == f.order
  {
    ChangeKeepsInv(f, i, Toggled(f.wins[i], s), f.focused, f.dragging);
    FocusIsOnTop(ToggleMax(f, i, s), i);
  }

  lemma Hidden(f: State, i: nat)
    requires Inv(f) && i < MAXW && f.wins[i].used
    ensures Inv(Minimize(f, i)) && OthersKept(f, Minimize(f, i), i)
  {
    ChangeKeepsInv(f, i, f.wins[i].(minimized := true), -1, f.dragging);
  }

  lemma Grabbed(f: State, i: nat)
    requires Inv(f) && i < MAXW && f.wins[i].used
    ensures Inv(f.(dragging := i))
  {
  }

  lemma ButtonsInFront(f: State, i: nat, x: int, y: int, s: Screen)
    requires Inv(f) && i < MAXW && f.wins[i].used && f.focused == i
    ensures var e, r := Buttons(f, i, x, y, s), f.wins[i].at;
      && Inv(e) && OthersKept(f, e, i)
      && (InButton(r, 8, x, y) ==> !e.wins[i].used)
      && (!InButton(r, 8, x, y) && !InButton(r, 26, x, y) ==> e.focused == i && e.order == f.order)
  {
    var r := f.wins[i].at;
    if InButton(r, 8, x, y) {
      CloseKeepsInv(f, i);
    } else if InButton(r, 26, x, y) {
      Hidden(f, i);
    } else if InButton(r, 44, x, y) {
      ToggledStaysInFront(f, i, s);
    } else {
      Grabbed(f, i);
    }
  }

  // Pressing keeps the invariant and never touches the other windows; unless it closes or hides
  // the window, it leaves it focused on top.
  lemma PressComesToFront(d: State, i: nat, x: int, y: int, s: Screen)
    requires Inv(d) && i < MAXW && d.wins[i].used
    ensures var e, r := Press(d, i, x, y, s), d.wins[i].at;
      && Inv(e) && OthersKept(d, e, i)
      && (InButton(r, 8, x, y) ==> !e.wins[i].used)
      && (!InButton(r, 8, x, y) && !InButton(r, 26, x, y) ==> e.focused == i && e.order == Raise(d.order, i))
  {
    FrontIsFocused(d, i);
    ButtonsInFront(Front(d, i), i, x, y, s);
  }

  // ----- each button -----

  // The windows but the one at place p, from the bottom to the top.
  function Others(order: seq<nat>, p: nat): seq<nat>
    requires p < |order|
  {
    order[..p] + order[p + 1..]
  }

  // A window in front is where it was, with its state, and shown.
  lemma FrontIs(d: State, i: nat, p: nat)
    requires Inv(d) && p < |d.order| && d.order[p] == i
    ensures var f := Front(d, i);
      && f.order == Others(d.order, p) + [i] && f.focused == i && f.dragging == d.dragging
      && f.wins[i] == (if d.focused == i then d.wins[i] else d.wins[i].(minimized := false))
  {
    RemoveAt(d.order, i, p);
    if d.focused == i {
      TopStays(d.order, i);
    }
  }

  lemma CloseLeaves(d: State, i: nat, p: nat)
    requires Inv(d) && p < |d.order| && d.order[p] == i
    ensures var e, rest := Close(d, i), Others(d.order, p);
      && !e.wins[i].used && OthersKept(d, e, i) && e.order == rest
      && e.focused == (if d.focused != i then d.focused else if rest == [] then -1 else rest[|rest| - 1])
      && e.dragging == (if d.dragging == i then -1 else d.dragging)
  {
    RemoveAt(d.order, i, p);
  }

  // The first button: the window is gone, and the one now on top has the focus.
  lemma PressCloses(d: State, i: nat, p: nat, dx: int, dy: int, s: Screen)
    requires Inv(d) && p < |d.order| && d.order[p] == i && 8 <= dx < 20 && 7 <= dy < 19
    ensures var e, rest := Press(d, i, d.wins[i].at.x + dx, d.wins[i].at.y + dy, s), Others(d.order, p);
      !e.wins[i].used && e.order == rest && e.focused == if rest == [] then -1 else rest[|rest| - 1]
  {
    FrontIs(d, i, p);
    FrontIsFocused(d, i);
    CloseLeaves(Front(d, i), i, |d.order| - 1);
  }

  // The second button: the window is shown nowhere, and no window has the focus.
  lemma PressHides(d: State, i: nat, p: nat, dx: int, dy: int, s: Screen)
    requires Inv(d) && p < |d.order| && d.order[p] == i && 26 <= dx < 38 && 7 <= dy < 19
    ensures var e := Press(d, i, d.wins[i].at.x + dx, d.wins[i].at.y + dy, s);
      && e.wins[i] == d.wins[i].(minimized := true) && e.focused == -1 && e.order == Others(d.order, p) + [i]
      && e.dragging == d.dragging && forall x, y :: !Hits(e.wins[i], x, y)
  {
    FrontIs(d, i, p);
  }

  // The third button: the window fills the screen between the bars, or is back in its old place.
  lemma PressFills(d: State, i: nat, p: nat, dx: int, dy: int, s: Screen)
    requires Inv(d) && p < |d.order| && d.order[p] == i && 44 <= dx < 56 && 7 <= dy < 19
    ensures var w, e := d.wins[i], Press(d, i, d.wins[i].at.x + dx, d.wins[i].at.y + dy, s);
      && e.focused == i && e.order == Others(d.order, p) + [i] && e.wins[i].used && !e.wins[i].minimized
      && e.wins[i].maximized == !w.maximized
      && e.wins[i].at == (if w.maximized then w.saved else Rect(6, 30, s.w - 12, s.h - 108))
      && (!w.maximized ==> e.wins[i].saved == w.at)
  {
    FrontIs(d, i, p);
    FrontIsFocused(d, i);
    ToggledStaysInFront(Front(d, i), i, s);
  }

  // The title beside the buttons: the window can be dragged.
  lemma PressGrabs(d: State, i: nat, p: nat, dx: int, dy: int, s: Screen)
    requires Inv(d) && p < |d.order| && d.order[p] == i && 3 <= dx < d.wins[i].at.w - 3 && 3 <= dy < 23
    requires dy < 7 || dy >= 19 || dx < 8 || 20 <= dx < 26 || 38 <= dx < 44 || dx >= 56
    ensures var e := Press(d, i, d.wins[i].at.x + dx, d.wins[i].at.y + dy, s);
      && e.dragging == i && e.focused == i && e.order == Others(d.order, p) + [i] && e.wins[i].at == d.wins[i].at
      && forall x, y :: e.dragging < |e.wins| ==>
           Step(e, DoMove(x, y)).wins[i].at == Rect(x, y, d.wins[i].at.w, d.wins[i].at.h)
  {
    FrontIs(d, i, p);
    FrontIsFocused(d, i);
  }

  // A shown window is hit exactly at the points of its rectangle.
  lemma CoversItsRectangle(w: Win, dx: int, dy: int)
    requires w.used && !w.minimized
    ensures Hits(w, w.at.x + dx, w.at.y + dy) <==> 0 <= dx < w.at.w && 0 <= dy < w.at.h
  {
  }

  lemma TopStays(order: seq<nat>, i: nat)
    requires Distinct(order) && i in order
    ensures Raise(Raise(order, i), i) == Raise(order, i)
    ensures order[|order| - 1] == i ==> Raise(order, i) == order
  {
    RaiseIsListed(order, i);
    RemoveAt(Raise(order, i), i, |order| - 1);
    if order[|order| - 1] == i {
      RemoveAt(order, i, |order| - 1);
    }
  }

  // ----- what the operations mean together -----

  // Raising puts a window on top and leaves the order of the others alone.
  lemma RaiseKeepsTheOthers(order: seq<nat>, i: nat, p: nat)
    requires Distinct(order) && p < |order| && order[p] == i
    ensures Raise(order, i) == order[..p] + order[p + 1..] + [i]
    ensures Raise(Raise(order, i), i) == Raise(order, i)
  {
    RemoveAt(order, i, p);
    TopStays(order, i);
  }

  // Opening fails exactly when all slots are taken by windows of other kinds.
  lemma OpenSucceeds(d: State, t: nat)
    requires Inv(d)
    ensures var (e, i) := Open(d, t);
      && (i < 0 <==> Find(d.wins, t) < 0 && |d.order| == 15)
      && (i < 0 ==> e == d)
      && (i >= 0 ==> e.focused == i && e.wins[i].used && e.wins[i].kind == t && !e.wins[i].minimized)
  {
    var free := FreeFrom(d.wins, 0);
    OrderFits(d.order, MAXW);
    if free < 0 {
      EveryWindowListed(d.order, MAXW);
    } else {
      RoomForAnother(d.order, MAXW, free);
    }
  }

  lemma {:induction false} EveryWindowListed(order: seq<nat>, n: nat)
    requires Distinct(order) && forall i :: 0 <= i < n ==> i in order
    ensures |order| >= n
    decreases n
  {
    if n > 0 {
      RemoveIsListed(order, n - 1);
      EveryWindowListed(Remove(order, n - 1), n - 1);
    }
  }

  // Closing the window just opened brings the order back, and the focus to the window on top.
  lemma OpenThenClose(d: State, t: nat)
    requires Inv(d) && Find(d.wins, t) < 0 && FreeFrom(d.wins, 0) >= 0
    ensures var (e, i) := Open(d, t);
      var c := Close(e, i);
      && c.order == d.order
      && (forall k :: 0 <= k < MAXW && k != i ==> c.wins[k] == d.wins[k]) && !c.wins[i].used
      && c.focused == if |d.order| > 0 then d.order[|d.order| - 1] else -1
  {
    var i := FreeFrom(d.wins, 0);
    PlaceKeepsInv(d, i, t);
    TopOnly(d.order, i);
  }

  lemma TopOnly(order: seq<nat>, i: nat)
    requires Distinct(order + [i])
    ensures Remove(order + [i], i) == order && Raise(order + [i], i) == order + [i]
  {
    RemoveAt(order + [i], i, |order|);
  }

  // Maximising twice gives the window its place back exactly if it was not maximised, or fills the
  // screen already.
  lemma ToggleTwice(w: Win, s: Screen)
    ensures Toggled(Toggled(w, s), s).at == w.at <==> (!w.maximized || w.at == FullRect(s))
    ensures Toggled(Toggled(w, s), s).maximized == w.maximized
  {
  }

  // A new window is placed without clearing the flag: in a slot that was closed while maximised it
  // is taken for maximised, and the first toggle moves it to where the old window once was.
  lemma MaximizedSurvivesClosing(d: State, t: nat, s: Screen)
    requires Inv(d) && Find(d.wins, t) < 0 && FreeFrom(d.wins, 0) >= 0
    ensures var (e, i) := Open(d, t);
      && e.wins[i].maximized == d.wins[i].maximized
      && (d.wins[i].maximized ==> ToggleMax(e, i, s).wins[i].at == d.wins[i].saved)
  {
  }

  // A window opened in a free slot, with no window of its kind there.
  lemma OpenPlaces(d: State, t: nat, i: nat)
    requires Inv(d) && Find(d.wins, t) < 0 && i == FreeFrom(d.wins, 0)
    ensures Open(d, t).0 == Place(d, i, t).(focused := i)
  {
    PlaceKeepsInv(d, i, t);
    TopOnly(d.order, i);
    var p := Place(d, i, t);
    assert p.wins[i := p.wins[i].(minimized := false)] == p.wins;
  }

  // Where opening puts a window: one of that kind keeps its place and comes to the front, and a new
  // one lies on top, each 36 to the right of and 30 below the one before.
  lemma OpensInPlace(d: State, t: nat)
    requires Inv(d)
    ensures var (e, i), k := Open(d, t), |d.order|;
      && (i >= 0 && d.wins[i].used ==>
            e.wins[i] == d.wins[i].(minimized := false) && OthersKept(d, e, i) && e.order == Raise(d.order, i))
      && (i >= 0 && !d.wins[i].used ==>
            && e.wins[i].at == (if t == 3 || t == 4 then Rect(150 + 36 * k, 60 + 30 * k, 480, 340)
                                else Rect(150 + 36 * k, 60 + 30 * k, 640, 460))
            && OthersKept(d, e, i) && e.order == d.order + [i])
  {
    var i := Find(d.wins, t);
    var free := FreeFrom(d.wins, 0);
    if i < 0 && free >= 0 {
      OpenPlaces(d, t, free);
    }
  }

  // A window of kind t in slot i after it was opened.
  function Opened(w: Win, t: nat, n: nat): Win {
    w.(used := true, minimized := false, kind := t, at := NewRect(t, n))
  }

  // Nothing but the first slot was ever used.
  function Only(w: Win): State {
    State(Start().wins[0 := w], if w.used then [0] else [], if w.used then 0 else -1, -1, false, 0)
  }

  lemma OpenOnly(w: Win, t: nat)
    requires !w.used
    ensures Open(Only(w), t).0 == Only(Opened(w, t, 0))
  {
    OpenPlaces(Only(w), t, 0);
  }

  lemma ToggleAndCloseOnly(w: Win, s: Screen)
    requires w.used
    ensures ToggleMax(Only(w), 0, s) == Only(Toggled(w, s))
    ensures Close(Only(w), 0) == Only(w.(used := false))
  {
    RemoveFirst(0, 1);
  }

  // This does happen: a window is opened, maximised and closed, and the next one, of another kind,
  // counts as maximised although it does not fill the screen.
  lemma FreshButMaximized(s: Screen) returns (e: State)
    requires s.w != 652
    ensures Run(Start(), [DoOpen(0), DoToggle(0, s), DoClose(0), DoOpen(1)], e)
    ensures e.wins != [] && e.wins[0].used && e.wins[0].kind == 1 && e.wins[0].maximized && e.wins[0].at != FullRect(s)
  {
    var w1 := Opened(NO_WINDOW, 0, 0);
    var w2 := Toggled(w1, s);
    var w3 := w2.(used := false);
    assert Start() == Only(NO_WINDOW) by { assert Start().wins[0] == NO_WINDOW; }
    OpenOnly(NO_WINDOW, 0);
    ToggleAndCloseOnly(w1, s);
    ToggleAndCloseOnly(w2, s);
    OpenOnly(w3, 1);
    e := Only(Opened(w3, 1, 0));
    assert Only(w1).wins[0] == w1;
    assert Run(e, [], e);
    RunBefore(Only(w3), DoOpen(1), [], e);
    RunBefore(Only(w2), DoClose(0), [DoOpen(1)], e);
    RunBefore(Only(w1), DoToggle(0, s), [DoClose(0), DoOpen(1)], e);
    RunBefore(Start(), DoOpen(0), [DoToggle(0, s), DoClose(0), DoOpen(1)], e);
  }

  // ----- the switcher -----

  // From a desktop without windows, as at the start, the switcher can be left open with no window:
  // two are opened, the switcher too, and both closed.  Confirming then divides by zero.
  lemma NothingToConfirm(d: State, actions: seq<Action>) returns (e: State)
    requires Inv(d) && d.order == [] && actions == [DoOpen(0), DoOpen(1), DoNext, DoClose(0), DoClose(1)]
    ensures Run(d, actions, e) && e.switching && e.order == [] && !Enabled(e, DoConfirm)
    ensures Inv(Start()) && Start().order == []
  {
    OpenTwo(d);
    e := RunFromTwo(d, actions);
  }

  lemma RunFromTwo(d: State, actions: seq<Action>) returns (e: State)
    requires var d2 := Step(Step(d, DoOpen(0)), DoOpen(1));
      |d2.wins| == MAXW && d2.order == [0, 1] && d2.wins[0].used && d2.wins[1].used
    requires actions == [DoOpen(0), DoOpen(1), DoNext, DoClose(0), DoClose(1)]
    ensures Run(d, actions, e) && e.switching && e.order == []
  {
    var d1 := Step(d, DoOpen(0));
    e := BothClosed(Step(d1, DoOpen(1)));
    RunBefore(d1, DoOpen(1), [DoNext, DoClose(0), DoClose(1)], e);
    RunBefore(d, DoOpen(0), [DoOpen(1), DoNext, DoClose(0), DoClose(1)], e);
    assert actions == [DoOpen(0)] + [DoOpen(1), DoNext, DoClose(0), DoClose(1)];
  }

  lemma BothClosed(d: State) returns (e: State)
    requires |d.wins| == MAXW && d.order == [0, 1] && d.wins[0].used && d.wins[1].used
    ensures Run(d, [DoNext, DoClose(0), DoClose(1)], e) && e.switching && e.order == []
  {
    var d3 := Next(d);
    CloseBoth(d3);
    var d4 := Close(d3, 0);
    e := Close(d4, 1);
    assert Run(e, [], e);
    RunBefore(d4, DoClose(1), [], e);
    RunBefore(d3, DoClose(0), [DoClose(1)], e);
    RunBefore(d, DoNext, [DoClose(0), DoClose(1)], e);
  }

  lemma RunBefore(d: State, a: Action, actions: seq<Action>, e: State)
    requires Enabled(d, a) && Run(Step(d, a), actions, e)
    ensures Run(d, [a] + actions, e)
  {
    assert ([a] + actions)[1..] == actions;
  }

  lemma OpenTwo(d: State)
    requires Inv(d) && d.order == []
    ensures var d2 := Step(Step(d, DoOpen(0)), DoOpen(1));
      |d2.wins| == MAXW && d2.order == [0, 1] && d2.wins[0].used && d2.wins[1].used
  {
    assert forall i :: 0 <= i < MAXW ==> i !in d.order && !d.wins[i].used;
    OpenPlaces(d, 0, 0);
    StepKeepsInv(d, DoOpen(0));
    OpenSecond(Step(d, DoOpen(0)));
  }

  lemma OpenSecond(d: State)
    requires Inv(d) && d.order == [0] && d.wins[0].kind == 0
    ensures var d2 := Step(d, DoOpen(1));
      |d2.wins| == MAXW && d2.order == [0, 1] && d2.wins[0].used && d2.wins[1].used
  {
    assert forall i :: 1 <= i < MAXW ==> i !in d.order && !d.wins[i].used;
    assert 0 in d.order;
    OpenPlaces(d, 1, 1);
  }

  lemma CloseBoth(d: State)
    requires |d.wins| == MAXW && d.order == [0, 1] && d.wins[0].used && d.wins[1].used
    ensures Close(d, 0).wins[1].used && Close(Close(d, 0), 1).order == []
  {
    RemoveFirst(0, 1);
  }

  lemma RemoveFirst(i: nat, j: nat)
    requires i != j
    ensures Remove([i, j], i) == [j] && Remove([j], j) == []
  {
  }

  predicate ShownAfter(d: State, p: nat, j: nat)
    requires p < |d.order| && j <= |d.order|
  {
    Shown(d, StepsAfter(p, j, |d.order|))
  }

  // Seeking stops at the first shown place from p on, if there is one within n steps.
  lemma {:induction false} SeekStops(d: State, p: nat, n: nat) returns (k: nat)
    requires p < |d.order| && n <= |d.order|
    ensures k <= n && Seek(d, p, n) == StepsAfter(p, k, |d.order|)
    ensures forall j :: 0 <= j < k ==> !ShownAfter(d, p, j)
    ensures k < n ==> ShownAfter(d, p, k)
    decreases n
  {
    k := 0;
    if n > 0 && !Shown(d, p) {
      var k' := SeekStops(d, After(p, |d.order|), n - 1);
      k := k' + 1;
      forall j | 0 <= j < k
        ensures !ShownAfter(d, p, j)
      {
        assert j > 0 ==> ShownAfter(d, p, j) == ShownAfter(d, After(p, |d.order|), j - 1);
      }
    }
  }

  // The remainder the program takes is the place after.
  lemma AfterIsRemainder(p: nat, n: nat)
    requires p < n
    ensures (p + 1) % n == After(p, n)
  {
    CyclicIsRemainder(p + 1, n);
  }

  predicate OrderInRange(d: State) {
    forall p :: 0 <= p < |d.order| ==> d.order[p] < |d.wins|
  }

  lemma InRange(d: State)
    requires Inv(d)
    ensures OrderInRange(d)
  {
  }

  lemma NextKeepsInv(d: State)
    requires Inv(d)
    ensures Inv(Next(d))
  {
  }

  // Whenever a window is shown, the switcher points at one after opening or moving on.
  lemma NextIsShown(d: State, q: nat)
    requires Inv(d) && |d.order| > 1 && Shown(d, q)
    ensures Next(d).switching && Shown(d, Next(d).pos)
  {
    var m := |d.order|;
    var start := Cyclic(if d.switching then d.pos + 1 else PlaceOf(d.order, d.focused, 0) + 1, m);
    var k := SeekStops(d, start, m);
    assert ShownAfter(d, start, if q >= start then q - start else q + m - start);
  }

  // The focused window is the top one, so the switcher always opens at the bottom of the order.
  lemma SwitcherOpensAtTheBottom(d: State)
    requires Inv(d) && |d.order| > 1 && !d.switching
    ensures Next(d).pos == Seek(d, 0, |d.order|)
    ensures Shown(d, 0) ==> Next(d).pos == 0
  {
    var p := PlaceOf(d.order, d.focused, 0);
    assert Cyclic(0, |d.order|) == 0;
    assert p == -1 || p == |d.order| - 1;
  }

  // Moving on changes nothing but what is pointed at; confirming brings that window to the front.
  lemma SwitcherChooses(d: State)
    requires Inv(d)
    ensures Next(d).(switching := d.switching, pos := d.pos) == d && (|d.order| <= 1 ==> Next(d) == d)
    ensures d.switching && d.pos < |d.order| ==>
      && Confirm(d).focused == d.order[d.pos] && !Confirm(d).switching
      && Confirm(d).order == Others(d.order, d.pos) + [d.order[d.pos]]
  {
    if d.switching && d.pos < |d.order| {
      RemoveAt(d.order, d.order[d.pos], d.pos);
    }
  }
}
