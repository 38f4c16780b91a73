// Line drawing (draw_line of gui.c).
module Bresenham {
  function Abs(x: int): nat { if x < 0 then -x else x }

  function Max(a: int, b: int): int { if a >= b then a else b }

  // How far the point i columns and j rows away lies from the line to (dx, dy), scaled by the
  // longer side: a row adds dx, a column takes dy away.
  function Deviation(dx: int, dy: int, i: nat, j: nat): int {
    if i > 0 then Deviation(dx, dy, i - 1, j) - dy
    else if j > 0 then Deviation(dx, dy, i, j - 1) + dx
    else 0
  }

  lemma {:induction false} DeviationIs(dx: int, dy: int, i: nat, j: nat)
    ensures Deviation(dx, dy, i, j) == dx * j - dy * i
  {
    if i > 0 {
      DeviationIs(dx, dy, i - 1, j);
      assert dy * i == dy * (i - 1) + dy;
    } else if j > 0 {
      DeviationIs(dx, dy, i, j - 1);
      assert dx * j == dx * (j - 1) + dx;
    }
  }

  // Within half a pixel of the ideal line, measured along the shorter side.
  predicate Close(dx: int, dy: int, i: nat, j: nat) {
    2 * Abs(Deviation(dx, dy, i, j)) <= Max(dx, dy)
  }

  // ----- the arithmetic of one round -----

  lemma Moves(dx: int, dy: int, i: nat, j: nat)
    ensures Deviation(dx, dy, i + 1, j) == Deviation(dx, dy, i, j) - dy
    ensures Deviation(dx, dy, i, j + 1) == Deviation(dx, dy, i, j) + dx
    ensures Deviation(dx, dy, i + 1, j + 1) == Deviation(dx, dy, i, j) + dx - dy
  {
    DeviationIs(dx, dy, i, j);
    DeviationIs(dx, dy, i, j + 1);
    assert dx * (j + 1) == dx * j + dx;
  }

  // Products of unequal factors differ by at least one multiple.
  lemma Apart(a: nat, j: int, b: int)
    ensures j > b ==> a * j >= a * b + a
    ensures j < b ==> a * j <= a * b - a
  {
    var k := j - b;
    assert a * j == a * b + a * k;
    if k > 0 {
      assert a * k >= a;
    } else if k < 0 {
      assert a * k <= 0 - a;
    }
  }

  // Along the longer side a, the shorter coordinate is within its range, and reaches its end.
  lemma Short(a: nat, b: nat, i: nat, j: nat)
    requires a > 0 && i <= a && 2 * Abs(Deviation(a, b, i, j)) <= a
    ensures j <= b && (i == a ==> j == b)
  {
    DeviationIs(a, b, i, j);
    Apart(a, j, b);
    Apart(b, i, a);
  }

  // On the diagonal the path has never left the line.
  lemma Diagonal(d: nat, i: nat, j: nat)
    requires Close(d, d, i, j)
    ensures Deviation(d, d, i, j) == 0
  {
    DeviationIs(d, d, i, j);
    Apart(d, j, i);
  }

  // One round, along the longer side x: x moves, and y moves if that keeps the point close.
  lemma RoundAlongX(dx: nat, dy: nat, i: nat, j: nat, err: int)
    requires dx >= dy && dx > 0 && Close(dx, dy, i, j) && err == Deviation(dx, dy, i, j) + dx - dy
    ensures 2 * err + dy > 0
    ensures if 2 * err < dx then Close(dx, dy, i + 1, j + 1) else Close(dx, dy, i + 1, j)
  {
    Moves(dx, dy, i, j);
    if dx == dy {
      Diagonal(dx, i, j);
    }
  }

  // One round along the longer side y.
  lemma RoundAlongY(dx: nat, dy: nat, i: nat, j: nat, err: int)
    requires dy > dx && Close(dx, dy, i, j) && err == Deviation(dx, dy, i, j) + dx - dy
    ensures 2 * err < dx
    ensures if 2 * err + dy > 0 then Close(dx, dy, i + 1, j + 1) else Close(dx, dy, i, j + 1)
  {
    Moves(dx, dy, i, j);
  }

  // A close point that is within the longer side is within the other, and the two ends meet.
  lemma NoOvershoot(dx: nat, dy: nat, i: nat, j: nat)
    requires Close(dx, dy, i, j) && (if dx >= dy then dx > 0 && i <= dx else j <= dy)
    ensures i <= dx && j <= dy && (if dx >= dy then i == dx ==> j == dy else j == dy ==> i == dx)
  {
    if dx >= dy {
      Short(dx, dy, i, j);
    } else {
      DeviationIs(dx, dy, i, j);
      DeviationIs(dy, dx, j, i);
      Short(dy, dx, j, i);
    }
  }

  // ----- the walk -----

  // i columns and j rows on the way to (dx, dy), with the error term of the algorithm.
  predicate Underway(dx: nat, dy: nat, i: nat, j: nat, err: int) {
    i <= dx && j <= dy && Close(dx, dy, i, j) && err == Deviation(dx, dy, i, j) + dx - dy
  }

  // One round from a point before the end.
  lemma Round(dx: nat, dy: nat, i: nat, j: nat, err: int)
    requires Underway(dx, dy, i, j, err) && (i != dx || j != dy)
    ensures var mx, my := 2 * err + dy > 0, 2 * err < dx;
      && (if dx >= dy then mx else my)
      && Underway(dx, dy, if mx then i + 1 else i, if my then j + 1 else j,
                  err - (if mx then dy else 0) + (if my then dx else 0))
  {
    NoOvershoot(dx, dy, i, j);
    Moves(dx, dy, i, j);
    var i', j' := if 2 * err + dy > 0 then i + 1 else i, if 2 * err < dx then j + 1 else j;
    if dx >= dy {
      RoundAlongX(dx, dy, i, j, err);
    } else {
      RoundAlongY(dx, dy, i, j, err);
    }
    NoOvershoot(dx, dy, i', j');
  }

  // The points of the walk so far, as columns and rows; (i, j) comes next.
  predicate Walk(dx: nat, dy: nat, steps: seq<(nat, nat)>, i: nat, j: nat) {
    var n := |steps|;
    if n == 0 then i == 0 && j == 0
    else
      var (a, b) := steps[n - 1];
      && a <= dx && b <= dy && Close(dx, dy, a, b) && n - 1 == (if dx >= dy then a else b)
      && a <= i <= a + 1 && b <= j <= b + 1 && (a != i || b != j)
      && Walk(dx, dy, steps[..n - 1], a, b)
  }

  predicate Walking(dx: nat, dy: nat, steps: seq<(nat, nat)>, i: nat, j: nat, err: int) {
    Underway(dx, dy, i, j, err) && |steps| == (if dx >= dy then i else j) && Walk(dx, dy, steps, i, j)
  }

  lemma WalkStarts(dx: nat, dy: nat)
    ensures Walking(dx, dy, [], 0, 0, dx - dy)
  {
  }

  lemma WalkOn(dx: nat, dy: nat, steps: seq<(nat, nat)>, i: nat, j: nat, err: int)
    requires Walking(dx, dy, steps, i, j, err) && (i != dx || j != dy)
    ensures var mx, my := 2 * err + dy > 0, 2 * err < dx;
      && Walking(dx, dy, steps + [(i, j)], if mx then i + 1 else i, if my then j + 1 else j,
                 err - (if mx then dy else 0) + (if my then dx else 0))
      && (mx || my) && (mx ==> i < dx) && (my ==> j < dy)
  {
    Round(dx, dy, i, j, err);
    assert (steps + [(i, j)])[..|steps|] == steps;
  }

  lemma {:induction false} AllAlong(dx: nat, dy: nat, steps: seq<(nat, nat)>, i: nat, j: nat, k: nat)
    requires Walk(dx, dy, steps, i, j) && k < |steps|
    ensures var (a, b), (a', b') := steps[k], (steps + [(i, j)])[k + 1];
      && a <= dx && b <= dy && Close(dx, dy, a, b) && k == (if dx >= dy then a else b)
      && a <= a' <= a + 1 && b <= b' <= b + 1 && (a != a' || b != b')
    ensures (steps + [(i, j)])[0] == (0, 0)
  {
    var n := |steps| - 1;
    if n > 0 {
      AllAlong(dx, dy, steps[..n], steps[n].0, steps[n].1, if k < n then k else 0);
      assert steps[..n] + [(steps[n].0, steps[n].1)] == steps;
    }
  }

  // ----- pixels -----

  type Pixel = (int, int)

  // n pixels from a towards b.
  function Along(a: int, b: int, n: nat): int { if a < b then a + n else a - n }

  function At(from: Pixel, to: Pixel, i: nat, j: nat): Pixel {
    (Along(from.0, to.0, i), Along(from.1, to.1, j))
  }

  // The k-th pixel of a line: between the ends, close to the line, k along the longer side.
  predicate OnLine(from: Pixel, to: Pixel, k: nat, p: Pixel) {
    var dx, dy, i, j := Abs(to.0 - from.0), Abs(to.1 - from.1), Abs(p.0 - from.0), Abs(p.1 - from.1);
    && p == At(from, to, i, j) && i <= dx && j <= dy
    && Close(dx, dy, i, j) && k == if dx >= dy then i else j
  }

  // From one pixel to the next, no coordinate moves by more than one.
  predicate Adjacent(p: Pixel, q: Pixel) {
    p != q && Abs(p.0 - q.0) <= 1 && Abs(p.1 - q.1) <= 1
  }

  predicate Shown(from: Pixel, to: Pixel, steps: seq<(nat, nat)>, pixels: seq<Pixel>) {
    |pixels| == |steps| && forall k :: 0 <= k < |steps| ==> pixels[k] == At(from, to, steps[k].0, steps[k].1)
  }

  predicate IsLine(from: Pixel, to: Pixel, line: seq<Pixel>) {
    && |line| == Max(Abs(to.0 - from.0), Abs(to.1 - from.1)) + 1
    && line[0] == from && line[|line| - 1] == to
    && (forall k :: 0 <= k < |line| ==> OnLine(from, to, k, line[k]))
    && (forall k :: 0 < k < |line| ==> Adjacent(line[k - 1], line[k]))
  }

  lemma StepIsShown(from: Pixel, to: Pixel, k: nat, i: nat, j: nat)
    requires var dx, dy := Abs(to.0 - from.0), Abs(to.1 - from.1);
      i <= dx && j <= dy && Close(dx, dy, i, j) && k == if dx >= dy then i else j
    ensures OnLine(from, to, k, At(from, to, i, j))
  {
    var p := At(from, to, i, j);
    assert Abs(p.0 - from.0) == i && Abs(p.1 - from.1) == j;
  }

  lemma WalkIsLine(from: Pixel, to: Pixel, steps: seq<(nat, nat)>, err: int, line: seq<Pixel>)
    requires var dx, dy := Abs(to.0 - from.0), Abs(to.1 - from.1);
      Walking(dx, dy, steps, dx, dy, err) && Shown(from, to, steps + [(dx, dy)], line)
    ensures IsLine(from, to, line)
  {
    var dx, dy := Abs(to.0 - from.0), Abs(to.1 - from.1);
    var all := steps + [(dx, dy)];
    forall k | 0 <= k < |line|
      ensures OnLine(from, to, k, line[k]) && (k + 1 < |line| ==> Adjacent(line[k], line[k + 1]))
    {
      if k < |steps| {
        AllAlong(dx, dy, steps, dx, dy, k);
      }
      StepIsShown(from, to, k, all[k].0, all[k].1);
    }
    if |steps| > 0 {
      AllAlong(dx, dy, steps, dx, dy, 0);
    }
    assert all[|steps|] == (dx, dy);
  }

  // The drawing has plotted `steps` and stands at p, i columns and j rows on.
  predicate Drawing(from: Pixel, to: Pixel, steps: seq<(nat, nat)>, i: nat, j: nat, err: int, p: Pixel, pixels: seq<Pixel>) {
    && Walking(Abs(to.0 - from.0), Abs(to.1 - from.1), steps, i, j, err)
    && p == At(from, to, i, j) && Shown(from, to, steps, pixels)
  }

  lemma DrawingStarts(from: Pixel, to: Pixel)
    ensures Drawing(from, to, [], 0, 0, Abs(to.0 - from.0) - Abs(to.1 - from.1), from, [])
  {
    WalkStarts(Abs(to.0 - from.0), Abs(to.1 - from.1));
  }

  lemma DrawingEnds(from: Pixel, to: Pixel, steps: seq<(nat, nat)>, i: nat, j: nat, err: int, pixels: seq<Pixel>)
    requires Drawing(from, to, steps, i, j, err, to, pixels)
    ensures IsLine(from, to, pixels + [to])
  {
    WalkIsLine(from, to, steps, err, pixels + [to]);
  }

  // One round of the loop, which moves along x if mx and along y if my.
  lemma DrawingGoesOn(from: Pixel, to: Pixel, steps: seq<(nat, nat)>, i: nat, j: nat, err: int, p: Pixel, pixels: seq<Pixel>,
                      mx: bool, my: bool, p': Pixel, err': int)
    requires Drawing(from, to, steps, i, j, err, p, pixels) && p != to
    requires var dx, dy := Abs(to.0 - from.0), Abs(to.1 - from.1);
      && mx == (2 * err + dy > 0) && my == (2 * err < dx)
      && err' == err - (if mx then dy else 0) + (if my then dx else 0)
    requires p'.0 == if mx then p.0 + (if from.0 < to.0 then 1 else -1) else p.0
    requires p'.1 == if my then p.1 + (if from.1 < to.1 then 1 else -1) else p.1
    ensures Drawing(from, to, steps + [(i, j)], if mx then i + 1 else i, if my then j + 1 else j, err', p', pixels + [p])
    ensures (mx || my) && (mx ==> i < Abs(to.0 - from.0)) && (my ==> j < Abs(to.1 - from.1))
  {
    NotThere(from, to, i, j);
    WalkOn(Abs(to.0 - from.0), Abs(to.1 - from.1), steps, i, j, err);
    OneFurther(from.0, to.0, i);
    OneFurther(from.1, to.1, j);
  }

  lemma NotThere(from: Pixel, to: Pixel, i: nat, j: nat)
    requires At(from, to, i, j) != to
    ensures i != Abs(to.0 - from.0) || j != Abs(to.1 - from.1)
  {
  }

  lemma OneFurther(a: int, b: int, n: nat)
    ensures Along(a, b, n + 1) == Along(a, b, n) + (if a < b then 1 else -1)
  {
  }

  // draw_line, with the pixels it plots in order.
  method DrawLine(x0: int, y0: int, x1: int, y1: int) returns (pixels: seq<Pixel>)
    ensures IsLine((x0, y0), (x1, y1), pixels)
  {
    var x, y := x0, y0;
    var dx: int := if x1 >= x0 then x1 - x0 else x0 - x1;
    var dy: int := if y1 >= y0 then y1 - y0 else y0 - y1;
    var sx := if x0 < x1 then 1 else -1;
    var sy := if y0 < y1 then 1 else -1;
    var err := dx - dy;
    pixels := [];
    ghost var i: nat, j: nat, steps: seq<(nat, nat)> := 0, 0, [];
    ghost var from, to := (x0, y0), (x1, y1);
    DrawingStarts(from, to);
    assert dx == Abs(to.0 - from.0) && dy == Abs(to.1 - from.1);
    while true
      invariant Drawing(from, to, steps, i, j, err, (x, y), pixels)
      decreases dx + dy - i - j
    {
      ghost var p, before, err0 := (x, y), pixels, err;
      pixels := pixels + [(x, y)];
      if x == x1 && y == y1 {
        assert p == to;
        DrawingEnds(from, to, steps, i, j, err, before);
        break;
      }
      assert p != to;
      ghost var mx, my;
      x, y, err, mx, my := NextPixel(x, y, err, dx, dy, sx, sy);
      DrawingGoesOn(from, to, steps, i, j, err0, p, before, mx, my, (x, y), err);
      steps, i, j := steps + [(i, j)], if mx then i + 1 else i, if my then j + 1 else j;
    }
  }

  // The moves of one round of draw_line.
  method NextPixel(x: int, y: int, err: int, dx: int, dy: int, sx: int, sy: int)
    returns (x': int, y': int, err': int, ghost mx: bool, ghost my: bool)
    ensures mx == (2 * err + dy > 0) && my == (2 * err < dx)
    ensures x' == (if mx then x + sx else x) && y' == (if my then y + sy else y)
    ensures err' == err - (if mx then dy else 0) + (if my then dx else 0)
  {
    x', y', err' := x, y, err;
    var e2 := 2 * err;
    mx, my := e2 > -dy, e2 < dx;
    if e2 > -dy {
      err' := err' - dy;
      x' := x' + sx;
    }
    if e2 < dx {
      err' := err' + dx;
      y' := y' + sy;
    }
  }

  // No other pixel of the same column is nearer: the plotted one is the ideal point rounded.
  lemma NearestIsPlotted(dx: nat, dy: nat, i: nat, j: nat, other: nat)
    requires dx >= dy && Close(dx, dy, i, j) && other != j
    ensures Abs(Deviation(dx, dy, i, other)) >= Abs(Deviation(dx, dy, i, j))
  {
    DeviationIs(dx, dy, i, j);
    DeviationIs(dx, dy, i, other);
    Apart(dx, other, j);
  }

  // And on a steep line no other pixel of the same row is nearer.
  lemma NearestIsPlottedSteep(dx: nat, dy: nat, i: nat, j: nat, other: nat)
    requires dy >= dx && Close(dx, dy, i, j) && other != i
    ensures Abs(Deviation(dx, dy, other, j)) >= Abs(Deviation(dx, dy, i, j))
  {
    DeviationIs(dx, dy, i, j);
    DeviationIs(dx, dy, other, j);
    Apart(dy, other, i);
  }
}
