/** The integer line of applications/lcd.c: one loop that adds each axis's length to an error
    term and moves a cell when the term exceeds the longer of the two. */
module Line {
  import opened Arithmetic

  type Coord = x: int | 0 <= x < 0x1_0000

  datatype Point = Point(row: int, col: int)

  function Abs(n: int): nat { if n < 0 then -n else n }

  /** `m` cells from `a` toward `b` */
  function Toward(a: int, b: int, m: nat): int { if b > a then a + m else if b < a then a - m else a }

  function Distance(x1: Coord, y1: Coord, x2: Coord, y2: Coord): nat {
    if Abs(x2 - x1) > Abs(y2 - y1) then Abs(x2 - x1) else Abs(y2 - y1)
  }

  /** Cells an axis of length `d` has moved after `t` steps: ceil(t * d / distance) - 1. */
  function Moves(d: nat, distance: nat, t: nat): nat
    requires d <= distance
  {
    if d == 0 || t == 0 then 0 else MovedBy(t * d, distance)
  }

  function MovedBy(n: nat, distance: nat): nat
    requires distance > 0
  {
    if n == 0 then 0 else (n - 1) / distance
  }

  function PointAt(x1: Coord, y1: Coord, x2: Coord, y2: Coord, t: nat): Point {
    var distance := Distance(x1, y1, x2, y2);
    Point(Toward(x1, x2, Moves(Abs(x2 - x1), distance, t)), Toward(y1, y2, Moves(Abs(y2 - y1), distance, t)))
  }

  // -------------------------------------------------------------- arithmetic

  /** The error term is what has been added and not yet moved. */
  ghost predicate Tracks(d: nat, distance: nat, t: nat, err: int, moved: nat) {
    d <= distance && moved == Moves(d, distance, t) && err == t * d - moved * distance &&
    (if d == 0 || t == 0 then err == 0 else 0 < err <= distance)
  }

  lemma Tracked(d: nat, distance: nat, t: nat, err: nat, moved: nat)
    requires 0 < d <= distance && t > 0 && 0 < err <= distance && t * d == moved * distance + err
    ensures Tracks(d, distance, t, err, moved)
  {
    DivMod(distance, moved, err - 1);
  }

  lemma TrackStep(d: nat, distance: nat, t: nat, err: int, moved: nat)
    requires Tracks(d, distance, t, err, moved)
    ensures if err + d > distance then Tracks(d, distance, t + 1, err + d - distance, moved + 1)
            else Tracks(d, distance, t + 1, err + d, moved)
  {
    if d > 0 {
      assert (t + 1) * d == t * d + d;
      if err + d > distance {
        assert (moved + 1) * distance == moved * distance + distance;
        Tracked(d, distance, t + 1, err + d - distance, moved + 1);
      } else {
        Tracked(d, distance, t + 1, err + d, moved);
      }
    } else {
      assert (t + 1) * d == 0;
    }
  }

  /** The error term and the cells moved after `t` steps of the loop. */
  function Walk(d: nat, distance: nat, t: nat): (r: (int, nat)) {
    if t == 0 then (0, 0)
    else
      var (err, moved) := Walk(d, distance, t - 1);
      if err + d > distance then (err + d - distance, moved + 1) else (err + d, moved)
  }

  lemma {:induction false} WalkTracks(d: nat, distance: nat, t: nat)
    requires d <= distance
    ensures Tracks(d, distance, t, Walk(d, distance, t).0, Walk(d, distance, t).1)
  {
    if t > 0 {
      WalkTracks(d, distance, t - 1);
      TrackStep(d, distance, t - 1, Walk(d, distance, t - 1).0, Walk(d, distance, t - 1).1);
    }
  }

  function WalkedTo(x1: Coord, y1: Coord, x2: Coord, y2: Coord, t: nat): Point {
    var distance := Distance(x1, y1, x2, y2);
    Point(Toward(x1, x2, Walk(Abs(x2 - x1), distance, t).1), Toward(y1, y2, Walk(Abs(y2 - y1), distance, t).1))
  }

  /** The closed form of a drawn point. */
  lemma WalkedIsPoint(x1: Coord, y1: Coord, x2: Coord, y2: Coord, t: nat)
    ensures WalkedTo(x1, y1, x2, y2, t) == PointAt(x1, y1, x2, y2, t)
  {
    WalkTracks(Abs(x2 - x1), Distance(x1, y1, x2, y2), t);
    WalkTracks(Abs(y2 - y1), Distance(x1, y1, x2, y2), t);
  }

  // --------------------------------------------------------------------- loop

  /** The loop counter is 16 bits wide: after `i` increments it holds i modulo 65536. */
  predicate GoesOn(distance: nat, i: nat) { i % 0x1_0000 <= distance + 1 }

  /** The loop ends exactly when the distance is at most 65533, and then after distance + 2
      rounds. */
  lemma EndsIff(distance: nat)
    ensures (exists i: nat :: !GoesOn(distance, i)) <==> distance <= 65533
    ensures distance <= 65533 ==> !GoesOn(distance, distance + 2) && forall i: nat :: i < distance + 2 ==> GoesOn(distance, i)
  {
    if distance <= 65533 {
      assert !GoesOn(distance, distance + 2);
    }
  }

  /** The loop of lcd_draw_line. */
  method Plot(x1: Coord, y1: Coord, x2: Coord, y2: Coord, deltaX: nat, deltaY: nat, incx: int, incy: int, distance: nat)
    returns (points: seq<Point>)
    requires distance == Distance(x1, y1, x2, y2) && deltaX == Abs(x2 - x1) && deltaY == Abs(y2 - y1)
    requires Toward(0, x2 - x1, 1) == incx && Toward(0, y2 - y1, 1) == incy
    ensures |points| == distance + 2
    ensures forall t :: 0 <= t < |points| ==> points[t] == WalkedTo(x1, y1, x2, y2, t)
  {
    var xerr, yerr := 0, 0;
    var row: int, col: int := x1, y1;
    points := [];
    var t := 0;
    ghost var mx: nat, my: nat := 0, 0;
    while t <= distance + 1
      invariant 0 <= t <= distance + 2 && |points| == t
      invariant (xerr, mx) == Walk(deltaX, distance, t) && (yerr, my) == Walk(deltaY, distance, t)
      invariant row == Toward(x1, x2, mx) && col == Toward(y1, y2, my)
      invariant forall k :: 0 <= k < t ==> points[k] == WalkedTo(x1, y1, x2, y2, k)
    {
      points := points + [Point(row, col)];
      xerr := xerr + deltaX;
      yerr := yerr + deltaY;
      if xerr > distance {
        xerr := xerr - distance;
        row := row + incx;
        mx := mx + 1;
      }
      if yerr > distance {
        yerr := yerr - distance;
        col := col + incy;
        my := my + 1;
      }
      t := t + 1;
    }
  }

  /** lcd_draw_line, with the points in the order they are drawn. */
  method DrawLine(x1: Coord, y1: Coord, x2: Coord, y2: Coord) returns (points: seq<Point>)
    requires Distance(x1, y1, x2, y2) <= 65533
    ensures |points| == Distance(x1, y1, x2, y2) + 2
    ensures forall t :: 0 <= t < |points| ==> points[t] == PointAt(x1, y1, x2, y2, t)
  {
    var deltaX, deltaY := x2 - x1, y2 - y1;
    var incx, incy;
    if deltaX > 0 {
      incx := 1;
    } else if deltaX == 0 {
      incx := 0;
    } else {
      incx := -1;
      deltaX := -deltaX;
    }
    if deltaY > 0 {
      incy := 1;
    } else if deltaY == 0 {
      incy := 0;
    } else {
      incy := -1;
      deltaY := -deltaY;
    }
    var distance := if deltaX > deltaY then deltaX else deltaY;
    points := Plot(x1, y1, x2, y2, deltaX, deltaY, incx, incy, distance);
    forall k | 0 <= k < |points| ensures WalkedTo(x1, y1, x2, y2, k) == PointAt(x1, y1, x2, y2, k) {
      WalkedIsPoint(x1, y1, x2, y2, k);
    }
  }

  // --------------------------------------------------------------------- laws

  /** An axis never passes its end, and is there after distance + 1 steps. */
  lemma MovesBounded(d: nat, distance: nat, t: nat)
    requires d <= distance && t <= distance + 1
    ensures Moves(d, distance, t) <= d
    ensures t == distance + 1 ==> Moves(d, distance, t) == d
  {
    WalkTracks(d, distance, t);
    var m := Moves(d, distance, t);
    MulMono(t, distance + 1, d);
    assert (distance + 1) * d == d * distance + d;
    if d > 0 && m > d {
      MulNext(d, m, distance);
    }
    if d > 0 && t == distance + 1 && m < d {
      MulNext(m, d, distance);
    }
  }

  /** The line starts at the first point and ends at the second. */
  lemma EndPoints(x1: Coord, y1: Coord, x2: Coord, y2: Coord)
    ensures PointAt(x1, y1, x2, y2, 0) == PointAt(x1, y1, x2, y2, 1) == Point(x1, y1)
    ensures PointAt(x1, y1, x2, y2, Distance(x1, y1, x2, y2) + 1) == Point(x2, y2)
  {
    var distance, dx, dy := Distance(x1, y1, x2, y2), Abs(x2 - x1), Abs(y2 - y1);
    MovesBounded(dx, distance, distance + 1);
    MovesBounded(dy, distance, distance + 1);
    if dx > 0 { DivMod(distance, 0, dx - 1); }
    if dy > 0 { DivMod(distance, 0, dy - 1); }
  }

  predicate Between(a: int, v: int, b: int) { a <= v <= b || b <= v <= a }

  /** Every point lies in the box the two points span. */
  lemma InBox(x1: Coord, y1: Coord, x2: Coord, y2: Coord, t: nat)
    requires t <= Distance(x1, y1, x2, y2) + 1
    ensures var p := PointAt(x1, y1, x2, y2, t); Between(x1, p.row, x2) && Between(y1, p.col, y2)
  {
    MovesBounded(Abs(x2 - x1), Distance(x1, y1, x2, y2), t);
    MovesBounded(Abs(y2 - y1), Distance(x1, y1, x2, y2), t);
  }

  lemma MovesNext(d: nat, distance: nat, t: nat)
    requires d <= distance
    ensures Moves(d, distance, t) <= Moves(d, distance, t + 1) <= Moves(d, distance, t) + 1
    ensures d == distance > 0 && t > 0 ==> Moves(d, distance, t) == t - 1
  {
    WalkTracks(d, distance, t);
    TrackStep(d, distance, t, Walk(d, distance, t).0, Moves(d, distance, t));
    if d == distance > 0 && t > 0 {
      assert t * d == (t - 1) * d + d;
      Tracked(d, distance, t, d, t - 1);
    }
  }

  /** Consecutive points touch, and from the second point on the longer axis moves one cell a
      step, so no row (or column) of the line is left out. */
  lemma Connected(x1: Coord, y1: Coord, x2: Coord, y2: Coord, t: nat)
    ensures var p, q := PointAt(x1, y1, x2, y2, t), PointAt(x1, y1, x2, y2, t + 1);
      && Abs(q.row - p.row) <= 1 && Abs(q.col - p.col) <= 1
      && (t > 0 && Abs(x2 - x1) == Distance(x1, y1, x2, y2) ==> q.row == Toward(p.row, q.row, 1) == Toward(x1, x2, t))
      && (t > 0 && Abs(y2 - y1) == Distance(x1, y1, x2, y2) ==> q.col == Toward(p.col, q.col, 1) == Toward(y1, y2, t))
  {
    var distance := Distance(x1, y1, x2, y2);
    MovesNext(Abs(x2 - x1), distance, t);
    MovesNext(Abs(y2 - y1), distance, t);
    MovesNext(Abs(x2 - x1), distance, t + 1);
    MovesNext(Abs(y2 - y1), distance, t + 1);
  }

  /** A drawn point is less than one cell off the ideal line, along the shorter axis: after t
      steps the longer axis has moved t - 1 cells and the shorter one less than a cell more or
      less than its share of them. */
  lemma CloseToLine(d: nat, distance: nat, t: nat)
    requires d <= distance && t > 0 && distance > 0
    ensures Abs(Moves(d, distance, t) * distance - (t - 1) * d) < distance
  {
    WalkTracks(d, distance, t);
    assert t * d == (t - 1) * d + d;
  }
}
