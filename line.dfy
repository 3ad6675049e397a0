/** drawLine (main.cpp:21-55): the error-accumulating line walk that writes
    white pixels into a bottom-up, three-bytes-per-pixel colour buffer.

    The loop of the source is `while (true)` and its only exit, the `break`
    of lines 43-44, sits in the `else` of `a.y == b.y` while testing
    `a.y == b.y` itself, so it can never fire: once the walk reaches the row
    of `b` it keeps stepping along that row forever. The model therefore
    runs the walk for a number of iterations chosen by the caller
    (DrawLine), proves that the exit is dead (Step), and gives the walk that
    stops at `b`, as a Bresenham line is meant to, as DrawSegment. */
module Line {
  import opened ScreenMath

  /** The loop state: the moving endpoint `a` and the error term `err`. */
  datatype Cursor = Cursor(x: int, y: int, err: int)

  /** What one pass of the loop body does: leave the loop, or go on. */
  datatype Outcome = Stop | Next(c: Cursor)

  function Abs(n: int): (r: int)
    ensures r >= 0 && (r == n || r == -n)
  {
    if n < 0 then -n else n
  }

  // The constants of lines 22-25, computed once from the original endpoints.
  function Dx(a: Point, b: Point): int { Abs(b.x - a.x) }
  function Dy(a: Point, b: Point): int { Abs(b.y - a.y) }
  function Sx(a: Point, b: Point): int { if a.x < b.x then 1 else -1 }
  function Sy(a: Point, b: Point): int { if a.y < b.y then 1 else -1 }

  /** The state on entry to the loop (lines 22-26). */
  function Start(a: Point, b: Point): Cursor
  {
    Cursor(a.x, a.y, Dx(a, b) - Dy(a, b))
  }

  /** The first byte of the pixel at `p` (line 30): rows are stored bottom-up. */
  function LineIndex(w: int, h: int, p: Point): int
  {
    ((h - 1 - p.y) * w + p.x) * 3
  }

  /** The bounds test of line 31, on the flat byte index only. */
  predicate InBounds(w: int, h: int, p: Point)
  {
    LineIndex(w, h, p) >= 0 && LineIndex(w, h, p) + 2 < w * h * 3
  }

  /** Byte `k` is one of the three bytes that line 32-34 write for pixel `p`. */
  predicate Lights(w: int, h: int, p: Point, k: int)
  {
    InBounds(w, h, p) && LineIndex(w, h, p) <= k <= LineIndex(w, h, p) + 2
  }

  /** Lines 36-53: one step of the walk from `a` toward `b`. The exit is
      never taken, every coordinate moves by 0 or by its step toward `b`,
      and on the row of `b` only `x` moves. */
  function Step(a: Point, b: Point, c: Cursor): (r: Outcome)
    ensures r.Next?
    ensures r.c.x == c.x || r.c.x == c.x + Sx(a, b)
    ensures r.c.y == c.y || r.c.y == c.y + Sy(a, b)
    ensures c.y == b.y ==> r.c.y == c.y && r.c.x == c.x + Sx(a, b)
  {
    var dx, dy, sx, sy := Dx(a, b), Dy(a, b), Sx(a, b), Sy(a, b);
    var e2 := 2 * c.err;
    if c.y == b.y then
      Next(Cursor(c.x + sx, c.y, c.err - dy))
    else if c.x == b.x && c.y == b.y then
      Stop
    else
      var (x1, err1) := if e2 > -dy then (c.x + sx, c.err - dy) else (c.x, c.err);
      var (y1, err2) := if e2 < dx then (c.y + sy, err1 + dx) else (c.y, err1);
      Next(Cursor(x1, y1, err2))
  }

  /** The state after `n` passes of the loop. */
  function LineAt(a: Point, b: Point, n: nat): Cursor
  {
    if n == 0 then Start(a, b) else Step(a, b, LineAt(a, b, n - 1)).c
  }

  /** The pixel written by pass `n` (counting from 0). */
  function Pos(a: Point, b: Point, n: nat): Point
  {
    Point(LineAt(a, b, n).x, LineAt(a, b, n).y)
  }

  /** Byte `k` has been written white by one of the first `n` passes. */
  ghost predicate LineLit(a: Point, b: Point, w: int, h: int, n: nat, k: int)
  {
    exists m: nat :: m < n && Lights(w, h, Pos(a, b, m), k)
  }

  lemma LineLitNext(a: Point, b: Point, w: int, h: int, n: nat, k: int)
    ensures LineLit(a, b, w, h, n + 1, k) <==> LineLit(a, b, w, h, n, k) || Lights(w, h, Pos(a, b, n), k)
  {
    if LineLit(a, b, w, h, n + 1, k) && !Lights(w, h, Pos(a, b, n), k) {
      var m: nat :| m < n + 1 && Lights(w, h, Pos(a, b, m), k);
      assert m < n;
    }
    if Lights(w, h, Pos(a, b, n), k) {
      assert n < n + 1;
    }
  }

  // ----- The walk as Bresenham's algorithm -----

  /** How far the walk has moved toward `b` along each axis. */
  function NX(a: Point, b: Point, c: Cursor): int { if a.x < b.x then c.x - a.x else a.x - c.x }
  function NY(a: Point, b: Point, c: Cursor): int { if a.y < b.y then c.y - a.y else a.y - c.y }

  /** The invariant of the walk: the error term measures how far the pixel
      lies from the ideal line, the walk has moved toward `b` on both axes,
      never past `b.y`, and not past `b.x` while it is still off `b`'s row. */
  ghost predicate Inv(a: Point, b: Point, c: Cursor)
  {
    var dx, dy, nx, ny := Dx(a, b), Dy(a, b), NX(a, b, c), NY(a, b, c);
    && c.err == dx - dy + dx * ny - dy * nx
    && 0 <= nx && 0 <= ny <= dy
    && (c.y != b.y ==> nx <= dx)
  }

  lemma MulSucc(p: int, q: int)
    ensures p * (q + 1) == p * q + p
  {
  }


  /** Moving one step toward `b` on an axis adds one to the distance walked on it. */
  lemma Walked(a: Point, b: Point, c: Cursor, c': Cursor)
    ensures c'.x == c.x + Sx(a, b) ==> NX(a, b, c') == NX(a, b, c) + 1
    ensures c'.x == c.x ==> NX(a, b, c') == NX(a, b, c)
    ensures c'.y == c.y + Sy(a, b) ==> NY(a, b, c') == NY(a, b, c) + 1
    ensures c'.y == c.y ==> NY(a, b, c') == NY(a, b, c)
  {
  }

  /** The step off `b`'s row, written out: `x` moves when `2 * err > -dy`,
      `y` when `2 * err < dx`, and each move corrects the error term. */
  lemma StepOffRow(a: Point, b: Point, c: Cursor)
    requires c.y != b.y
    ensures var c', e2 := Step(a, b, c).c, 2 * c.err;
            && c'.x == (if e2 > -Dy(a, b) then c.x + Sx(a, b) else c.x)
            && c'.y == (if e2 < Dx(a, b) then c.y + Sy(a, b) else c.y)
            && c'.err == c.err - (if e2 > -Dy(a, b) then Dy(a, b) else 0) + (if e2 < Dx(a, b) then Dx(a, b) else 0)
  {
  }

  lemma StepInvRow(a: Point, b: Point, c: Cursor)
    requires Inv(a, b, c) && c.y == b.y
    ensures Inv(a, b, Step(a, b, c).c)
    ensures NX(a, b, Step(a, b, c).c) == NX(a, b, c) + 1 && NY(a, b, Step(a, b, c).c) == NY(a, b, c)
  {
    var dx, dy, nx, ny := Dx(a, b), Dy(a, b), NX(a, b, c), NY(a, b, c);
    var c' := Step(a, b, c).c;
    Walked(a, b, c, c');
    assert c'.err == c.err - dy;
    MulSucc(dy, nx);
  }

  /** Off `b`'s row, `x` only moves while it is short of `b.x`. */
  lemma NoOvershoot(a: Point, b: Point, c: Cursor)
    requires Inv(a, b, c) && c.y != b.y && 2 * c.err > -Dy(a, b)
    ensures NX(a, b, c) < Dx(a, b)
  {
    var dx, dy, nx, ny := Dx(a, b), Dy(a, b), NX(a, b, c), NY(a, b, c);
    if nx == dx {
      MulBound(dx, ny, dy - 1);
    }
  }

  lemma StepInvOffRow(a: Point, b: Point, c: Cursor)
    requires Inv(a, b, c) && c.y != b.y
    ensures Inv(a, b, Step(a, b, c).c)
    ensures NX(a, b, Step(a, b, c).c) <= Dx(a, b)
    ensures NX(a, b, Step(a, b, c).c) + NY(a, b, Step(a, b, c).c) > NX(a, b, c) + NY(a, b, c)
  {
    var dx, dy, nx, ny := Dx(a, b), Dy(a, b), NX(a, b, c), NY(a, b, c);
    var c' := Step(a, b, c).c;
    StepOffRow(a, b, c);
    Walked(a, b, c, c');
    var e2 := 2 * c.err;
    assert ny < dy;
    var moveX, moveY := e2 > -dy, e2 < dx;
    var nx', ny' := nx + (if moveX then 1 else 0), ny + (if moveY then 1 else 0);
    assert NX(a, b, c') == nx' && NY(a, b, c') == ny';
    if moveX {
      NoOvershoot(a, b, c);
    }
    assert moveX || moveY;
    if moveX { MulSucc(dy, nx); }
    if moveY { MulSucc(dx, ny); }
  }

  /** One step keeps the invariant. Off `b`'s row each step moves at least
      one coordinate and does not carry `x` past `b.x`; on that row the walk
      moves one column further. */
  lemma StepInv(a: Point, b: Point, c: Cursor)
    requires Inv(a, b, c)
    ensures Inv(a, b, Step(a, b, c).c)
    ensures c.y != b.y ==> NX(a, b, Step(a, b, c).c) <= Dx(a, b)
    ensures c.y != b.y ==> NX(a, b, Step(a, b, c).c) + NY(a, b, Step(a, b, c).c) > NX(a, b, c) + NY(a, b, c)
    ensures c.y == b.y ==> NX(a, b, Step(a, b, c).c) == NX(a, b, c) + 1 && NY(a, b, Step(a, b, c).c) == NY(a, b, c)
  {
    if c.y == b.y {
      StepInvRow(a, b, c);
    } else {
      StepInvOffRow(a, b, c);
    }
  }

  /** Every state the walk reaches satisfies the invariant. */
  lemma {:induction false} InvAt(a: Point, b: Point, n: nat)
    ensures Inv(a, b, LineAt(a, b, n))
  {
    if n > 0 {
      InvAt(a, b, n - 1);
      StepInv(a, b, LineAt(a, b, n - 1));
    }
  }

  /** The distance still to go, in steps along the two axes. */
  ghost function ToGo(a: Point, b: Point, c: Cursor): int
  {
    (Dx(a, b) - NX(a, b, c)) + (Dy(a, b) - NY(a, b, c))
  }

  lemma AtEnd(a: Point, b: Point, c: Cursor)
    ensures NX(a, b, c) == Dx(a, b) && NY(a, b, c) == Dy(a, b) <==> c.x == b.x && c.y == b.y
  {
  }

  lemma {:induction false} ReachesFrom(a: Point, b: Point, m: nat)
    requires Inv(a, b, LineAt(a, b, m)) && NX(a, b, LineAt(a, b, m)) <= Dx(a, b)
    ensures exists n: nat :: m <= n <= m + ToGo(a, b, LineAt(a, b, m)) && Pos(a, b, n) == b
    decreases ToGo(a, b, LineAt(a, b, m))
  {
    var c := LineAt(a, b, m);
    AtEnd(a, b, c);
    if c.x == b.x && c.y == b.y {
      assert Pos(a, b, m) == b;
    } else {
      StepInv(a, b, c);
      assert LineAt(a, b, m + 1) == Step(a, b, c).c;
      ReachesFrom(a, b, m + 1);
    }
  }

  /** The walk passes through `b` within `dx + dy` steps. */
  lemma ReachesEnd(a: Point, b: Point)
    ensures exists n: nat :: n <= Dx(a, b) + Dy(a, b) && Pos(a, b, n) == b
  {
    InvAt(a, b, 0);
    ReachesFrom(a, b, 0);
  }

  /** Consecutive pixels of the walk are distinct 8-neighbours, each one
      step toward `b` (or none) on each axis: the walk is an 8-connected path. */
  lemma Connected(a: Point, b: Point, n: nat)
    ensures Pos(a, b, n + 1) != Pos(a, b, n)
    ensures Pos(a, b, n + 1).x - Pos(a, b, n).x in {0, Sx(a, b)}
    ensures Pos(a, b, n + 1).y - Pos(a, b, n).y in {0, Sy(a, b)}
  {
    InvAt(a, b, n);
    StepInv(a, b, LineAt(a, b, n));
  }

  /** As written, the walk does not stop at `b`: from there on it keeps
      stepping along `b`'s row, `k` columns past `b` after `k` more passes. */
  lemma {:induction false} RunsPastEnd(a: Point, b: Point, n: nat, k: nat)
    requires Pos(a, b, n) == b
    ensures Pos(a, b, n + k) == Point(b.x + k * Sx(a, b), b.y)
  {
    if k > 0 {
      RunsPastEnd(a, b, n, k - 1);
      assert LineAt(a, b, n + k) == Step(a, b, LineAt(a, b, n + k - 1)).c;
    }
  }

  /** The line from (100,100) to (400,400) on a 512 x 512 image: after `b`
      the walk lights (401,400), which lies inside the image but off the line. */
  lemma DiagonalOvershoots()
    ensures exists n: nat :: Pos(Point(100, 100), Point(400, 400), n) == Point(400, 400)
                        && Pos(Point(100, 100), Point(400, 400), n + 1) == Point(401, 400)
                        && InBounds(512, 512, Point(401, 400))
  {
    var a, b := Point(100, 100), Point(400, 400);
    ReachesEnd(a, b);
    var n: nat :| n <= Dx(a, b) + Dy(a, b) && Pos(a, b, n) == b;
    RunsPastEnd(a, b, n, 1);
  }

  /** On a diagonal (`dx == dy`) every step moves both coordinates and the
      error term stays 0. */
  lemma {:induction false} DiagonalAt(a: Point, b: Point, n: nat)
    requires Dx(a, b) == Dy(a, b) > 0 && n <= Dy(a, b)
    ensures LineAt(a, b, n) == Cursor(a.x + n * Sx(a, b), a.y + n * Sy(a, b), 0)
  {
    if n > 0 {
      DiagonalAt(a, b, n - 1);
    }
  }

  /** The corrected walk from (100,100) to (400,400) stops at its 301st
      pixel: `b` is first reached by pass 300. */
  lemma DiagonalLength()
    ensures Pos(Point(100, 100), Point(400, 400), 300) == Point(400, 400)
    ensures forall m: nat :: m < 300 ==> Pos(Point(100, 100), Point(400, 400), m) != Point(400, 400)
  {
    var a, b := Point(100, 100), Point(400, 400);
    DiagonalAt(a, b, 300);
    forall m: nat | m < 300
      ensures Pos(a, b, m) != b
    {
      DiagonalAt(a, b, m);
    }
  }

  // ----- The imperative walks -----

  /** Lines 30-35: the bounds-checked write of one white pixel. */
  method PlotWhite(w: nat, h: nat, p: Point, data: array<byte>)
    requires w * h * 3 <= data.Length
    modifies data
    ensures forall k :: 0 <= k < data.Length ==> data[k] == if Lights(w, h, p, k) then 255 else old(data[k])
  {
    var index := ((h - 1 - p.y) * w + p.x) * 3;
    if index >= 0 && index + 2 < w * h * 3 {
      data[index] := 255;
      data[index + 1] := 255;
      data[index + 2] := 255;
    }
  }

  /** drawLine as written, run for `steps` passes of its endless loop.
      It never leaves through its `break`, and afterwards exactly the bytes
      of the in-bounds pixels visited by those passes are white. */
  method DrawLine(a: Point, b: Point, w: nat, h: nat, data: array<byte>, steps: nat) returns (broke: bool)
    requires w * h * 3 <= data.Length
    modifies data
    ensures !broke
    ensures forall k :: 0 <= k < data.Length ==>
              data[k] == if LineLit(a, b, w, h, steps, k) then 255 else old(data[k])
  {
    var dx := Abs(b.x - a.x);
    var dy := Abs(b.y - a.y);
    var sx := if a.x < b.x then 1 else -1;
    var sy := if a.y < b.y then 1 else -1;
    var err := dx - dy;
    var x, y := a.x, a.y;
    broke := false;
    var n := 0;
    while n < steps && !broke
      invariant 0 <= n <= steps && !broke
      invariant LineAt(a, b, n) == Cursor(x, y, err)
      invariant forall k :: 0 <= k < data.Length ==>
                  data[k] == if LineLit(a, b, w, h, n, k) then 255 else old(data[k])
    {
      PlotWhite(w, h, Point(x, y), data);
      var e2 := 2 * err;
      if y == b.y {
        err := err - dy;
        x := x + sx;
      } else {
        if x == b.x && y == b.y {
          broke := true;
        } else {
          if e2 > -dy {
            err := err - dy;
            x := x + sx;
          }
          if e2 < dx {
            err := err + dx;
            y := y + sy;
          }
        }
      }
      forall k | 0 <= k < data.Length {
        LineLitNext(a, b, w, h, n, k);
      }
      n := n + 1;
    }
  }

  /** The walk with its exit test placed where it can fire, before the
      row test: it stops on reaching `b`, lights every in-bounds pixel of the
      path from `a` through `b` and nothing else, and a line whose endpoints
      coincide lights one pixel. */
  method DrawSegment(a: Point, b: Point, w: nat, h: nat, data: array<byte>) returns (count: nat)
    requires w * h * 3 <= data.Length
    modifies data
    ensures 1 <= count && Pos(a, b, count - 1) == b
    ensures forall m: nat :: m < count - 1 ==> Pos(a, b, m) != b
    ensures a == b ==> count == 1
    ensures forall k :: 0 <= k < data.Length ==>
              data[k] == if LineLit(a, b, w, h, count, k) then 255 else old(data[k])
  {
    var c := Start(a, b);
    count := 0;
    InvAt(a, b, 0);
    while true
      invariant LineAt(a, b, count) == c
      invariant Inv(a, b, c) && NX(a, b, c) <= Dx(a, b)
      invariant forall m: nat :: m < count ==> Pos(a, b, m) != b
      invariant forall k :: 0 <= k < data.Length ==>
                  data[k] == if LineLit(a, b, w, h, count, k) then 255 else old(data[k])
      decreases ToGo(a, b, c)
    {
      PlotWhite(w, h, Point(c.x, c.y), data);
      forall k | 0 <= k < data.Length {
        LineLitNext(a, b, w, h, count, k);
      }
      if c.x == b.x && c.y == b.y {
        count := count + 1;
        assert Pos(a, b, 0) == a;
        break;
      }
      StepInv(a, b, c);
      AtEnd(a, b, c);
      c := Step(a, b, c).c;
      count := count + 1;
    }
  }
}
