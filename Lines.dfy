/**
 * Rasterization primitives (src/line.rs): the integer Bresenham walk
 * between two projected vertices, the wireframe triangle made of three
 * such walks, and the filled triangle that tests every pixel of its
 * bounding box with signed-area barycentric weights.
 *
 * Positions are `f32` in the source and `real` here.  The walk works on
 * the `as i32` truncations of the endpoints and is exact integer code.
 * The filled triangle's lighting (normal interpolation, normalisation,
 * the dot product with the light and the scaled grey) is a parameter
 * `shade` of the barycentric weights.
 */
module Lines {
  import opened Wrappers
  import opened Arithmetic
  import opened Colors

  // ---------------------------------------------------------------------
  // Vertices and fragments
  // ---------------------------------------------------------------------

  datatype Vec3 = Vec3(x: real, y: real, z: real)

  /** The two fields of a vertex the rasterizer reads. */
  datatype Vertex = Vertex(transformedPosition: Vec3, transformedNormal: Vec3)

  /**
   * A fragment at integer pixel (x, y).  The depth is None where the
   * source's `f32` expression is not a finite number.
   */
  datatype Fragment = Fragment(x: int, y: int, color: Color, depth: Option<real>)

  /** The source's `as i32` cast of an integer value: saturating. */
  function SatI32(n: int): (r: i32)
    ensures -0x8000_0000 <= n < 0x8000_0000 ==> r == n
    ensures n < -0x8000_0000 ==> r == -0x8000_0000
    ensures n >= 0x8000_0000 ==> r == 0x7fff_ffff
  {
    if n < -0x8000_0000 then -0x8000_0000 else if n >= 0x8000_0000 then 0x7fff_ffff else n
  }

  /**
   * `f as i32`: within the i32 range the integer part, the fraction
   * dropped toward zero; outside it, the nearest end of the range.
   */
  function TruncToI32(f: real): (r: i32)
    ensures -0x8000_0000 as real <= f < 0x8000_0000 as real ==>
      (f >= 0.0 ==> r as real <= f < r as real + 1.0) &&
      (f < 0.0 ==> r as real - 1.0 < f <= r as real)
    ensures f <= -0x8000_0000 as real ==> r == -0x8000_0000
    ensures f >= 0x8000_0000 as real ==> r == 0x7fff_ffff
  {
    SatI32(if f >= 0.0 then f.Floor else -((-f).Floor))
  }

  // ---------------------------------------------------------------------
  // The Bresenham walk, as a function of its progress along each axis
  // ---------------------------------------------------------------------

  /** The integer endpoints of a walk. */
  datatype Walk = Walk(x0: int, y0: int, x1: int, y1: int)
  {
    function Dx(): nat { Abs(x1 - x0) }
    function Dy(): nat { Abs(y1 - y0) }
    function Sx(): int { if x0 < x1 then 1 else -1 }
    function Sy(): int { if y0 < y1 then 1 else -1 }
    /** `if dx > dy { dx / 2 } else { -dy / 2 }`, with Rust's division toward zero. */
    function InitialErr(): int { if Dx() > Dy() then Dx() / 2 else -(Dy() / 2) }
    /** The pixel reached after `px` steps along x and `py` steps along y. */
    function At(px: int, py: int): Pixel
    {
      Pixel(if x0 < x1 then x0 + px else x0 - px, if y0 < y1 then y0 + py else y0 - py)
    }
  }

  datatype Pixel = Pixel(x: int, y: int)

  /**
   * The state of the walk after `px` x-steps and `py` y-steps: the error
   * term is determined by them, and it stays in the window the x-major
   * (dx > dy) or y-major case keeps it in.
   */
  ghost predicate OnTrack(w: Walk, px: int, py: int, err: int)
  {
    var dx: int, dy: int := w.Dx(), w.Dy();
    0 <= px <= dx && 0 <= py <= dy &&
    err == ErrAt(w, px, py) &&
    if dx > dy then 0 <= err < dx else err <= 0 && (-dy < err || dy == 0)
  }

  /**
   * The error term after `px` x-steps and `py` y-steps: every x-step
   * subtracts dy and every y-step adds dx.
   */
  function ErrAt(w: Walk, px: nat, py: nat): int
  {
    if px > 0 then ErrAt(w, px - 1, py) - w.Dy()
    else if py > 0 then ErrAt(w, 0, py - 1) + w.Dx()
    else w.InitialErr()
  }

  /** The closed form of the error term. */
  lemma {:induction false} ErrAtClosed(w: Walk, px: nat, py: nat)
    ensures ErrAt(w, px, py) == w.InitialErr() + w.Dx() * py - w.Dy() * px
  {
    if px > 0 {
      ErrAtClosed(w, px - 1, py);
      assert w.Dy() * px == w.Dy() * (px - 1) + w.Dy();
    } else if py > 0 {
      ErrAtClosed(w, 0, py - 1);
      assert w.Dx() * py == w.Dx() * (py - 1) + w.Dx();
    }
  }

  function Remaining(w: Walk, px: int, py: int): int
  {
    (w.Dx() - px) + (w.Dy() - py)
  }

  /** One pass of the loop body: `e2 = err`, then the x update and the y update. */
  function Step(w: Walk, px: int, py: int, err: int): (int, int, int)
  {
    var dx: int, dy: int := w.Dx(), w.Dy();
    var (px1, err1) := if err > -dx then (px + 1, err - dy) else (px, err);
    if err < dy then (px1, py + 1, err1 + dx) else (px1, py, err1)
  }

  /** The walk starts on track. */
  lemma StartOnTrack(w: Walk)
    ensures OnTrack(w, 0, 0, w.InitialErr())
  {
  }

  /** The walk stops exactly when it has taken dx steps along x and dy along y. */
  lemma AtEndIff(w: Walk, px: int, py: int)
    ensures w.At(px, py) == Pixel(w.x1, w.y1) <==> px == w.Dx() && py == w.Dy()
  {
  }

  /**
   * In a walk's error window, `e0 + d * k - c * d` can only stay in the
   * window when `k == c`: the core of both end conditions.
   */
  lemma WindowForcesEqual(d: int, c: int, k: int, e0: int, err: int)
    requires d > 0
    requires -d < err - e0 < d
    requires err == e0 + d * k - c * d
    ensures k == c
  {
    assert d * (k - c) == err - e0;
    BelowFactor(d, k - c);
    BelowFactor(d, c - k);
  }

  /** On track, one coordinate at its target forces the other to its target too. */
  lemma EndTogether(w: Walk, px: int, py: int, err: int)
    requires OnTrack(w, px, py, err)
    ensures px == w.Dx() && w.Dx() > w.Dy() ==> py == w.Dy()
    ensures py == w.Dy() && w.Dx() <= w.Dy() ==> px == w.Dx()
  {
    var dx: int, dy: int, e0 := w.Dx(), w.Dy(), w.InitialErr();
    ErrAtClosed(w, px, py);
    if px == dx && dx > dy {
      WindowForcesEqual(dx, dy, py, e0, err);
    }
    if py == dy && dx <= dy && dy > 0 {
      WindowForcesEqual(dy, dx, px, -e0, -err);
    }
  }

  /**
   * A step that moves both coordinates of an x-major walk (`err < dy`)
   * leaves the y progress within its bound.
   */
  lemma DiagonalStepBound(dx: int, dy: int, e0: int, px: int, py: int, err: int)
    requires 0 <= dy <= dx && 0 <= e0 && 0 <= px < dx
    requires err == e0 + dx * py - dy * px
    requires err - dy + dx < dx
    ensures py + 1 <= dy
  {
    assert dx * (py + 1 - dy) == (err - dy + dx) - e0 + dy * (px + 1) - dy * dx;
    MulBounded(dy, px + 1, dx);
    BelowFactor(dx, py + 1 - dy);
  }

  /**
   * A step taken before the end keeps the walk on track and brings it
   * closer to the end: x-major walks move along x every step, y-major
   * walks along y.
   */
  lemma StepOnTrack(w: Walk, px: int, py: int, err: int)
    requires OnTrack(w, px, py, err)
    requires !(px == w.Dx() && py == w.Dy())
    ensures var (px', py', err') := Step(w, px, py, err);
      OnTrack(w, px', py', err') && 0 <= Remaining(w, px', py') < Remaining(w, px, py) &&
      px <= px' <= px + 1 && py <= py' <= py + 1
  {
    var dx: int, dy: int, e0 := w.Dx(), w.Dy(), w.InitialErr();
    EndTogether(w, px, py, err);
    ErrAtClosed(w, px, py);
    ErrAtClosed(w, px + 1, py);
    ErrAtClosed(w, px, py + 1);
    ErrAtClosed(w, px + 1, py + 1);
    assert dy * (px + 1) == dy * px + dy;
    assert dx * (py + 1) == dx * py + dx;
    if dx > dy {
      if err < dy {
        DiagonalStepBound(dx, dy, e0, px, py, err);
      }
    } else if err > -dx {
      DiagonalStepBound(dy, dx, -e0, py, px, -err);
    }
  }

  /** The pixels the walk visits from progress (px, py) on, the current one first. */
  function WalkFrom(w: Walk, px: int, py: int, err: int): (ps: seq<Pixel>)
    requires OnTrack(w, px, py, err)
    ensures |ps| > 0 && ps[0] == w.At(px, py)
    decreases Remaining(w, px, py)
  {
    if px == w.Dx() && py == w.Dy() then [w.At(px, py)]
    else
      StepOnTrack(w, px, py, err);
      var (px', py', err') := Step(w, px, py, err);
      [w.At(px, py)] + WalkFrom(w, px', py', err')
  }

  /** Whether the loop body's first test, `e2 > -dx`, moves x. */
  predicate MovesX(w: Walk, err: int) { err > -(w.Dx() as int) }

  /** Whether the loop body's second test, `e2 < dy`, moves y. */
  predicate MovesY(w: Walk, err: int) { err < w.Dy() }

  function NextPx(w: Walk, px: int, err: int): int { if MovesX(w, err) then px + 1 else px }

  function NextPy(w: Walk, py: int, err: int): int { if MovesY(w, err) then py + 1 else py }

  function NextErr(w: Walk, err: int): int
  {
    err - (if MovesX(w, err) then w.Dy() else 0) + (if MovesY(w, err) then w.Dx() else 0)
  }

  /**
   * One pass of `line`'s loop body, spelled out on the progress counters:
   * the walk continues with the pixel one x-step and/or one y-step away.
   */
  lemma LoopStep(w: Walk, px: int, py: int, err: int)
    requires OnTrack(w, px, py, err)
    requires !(px == w.Dx() && py == w.Dy())
    ensures var px', py' := NextPx(w, px, err), NextPy(w, py, err);
      OnTrack(w, px', py', NextErr(w, err)) &&
      Remaining(w, px', py') < Remaining(w, px, py) &&
      WalkFrom(w, px, py, err) == [w.At(px, py)] + WalkFrom(w, px', py', NextErr(w, err)) &&
      w.At(px', py') == Pixel(w.At(px, py).x + (if MovesX(w, err) then w.Sx() else 0),
                              w.At(px, py).y + (if MovesY(w, err) then w.Sy() else 0))
  {
    StepOnTrack(w, px, py, err);
  }

  lemma AppendAssociative<T>(a: seq<T>, b: seq<T>, c: seq<T>)
    ensures (a + b) + c == a + (b + c)
  {
  }

  /** The pixels of the whole walk from (x0, y0) to (x1, y1). */
  function WalkPixels(w: Walk): seq<Pixel>
  {
    StartOnTrack(w);
    WalkFrom(w, 0, 0, w.InitialErr())
  }

  /** The endpoints `line` walks between: the truncated projected positions. */
  function WalkOf(a: Vertex, b: Vertex): Walk
  {
    var start, end := a.transformedPosition, b.transformedPosition;
    Walk(TruncToI32(start.x), TruncToI32(start.y), TruncToI32(end.x), TruncToI32(end.y))
  }

  /**
   * `start.z + (end.z - start.z) * (x0 - start.x as i32) as f32 / (end.x - start.x)`:
   * None when the divisor is zero, where `f32` gives an infinity or NaN.
   */
  function LineDepth(start: Vec3, end: Vec3, x: int): (d: Option<real>)
    ensures d.None? <==> end.x == start.x
    ensures d.Some? && x == TruncToI32(start.x) ==> d.value == start.z
    ensures d.Some? && (x - TruncToI32(start.x)) as real == end.x - start.x ==> d.value == end.z
  {
    if end.x == start.x then None
    else
      var dx, dz, k := end.x - start.x, end.z - start.z, (x - TruncToI32(start.x)) as real;
      ScaleCancel(dz, dx);
      Some(start.z + dz * k / dx)
  }

  /** Scaling by a non-zero `d` and dividing by it again is the identity. */
  lemma ScaleCancel(v: real, d: real)
    requires d != 0.0
    ensures v * d / d == v
  {
    var q := v * d / d;
    assert q * d == v * d;
    assert (q - v) * d == 0.0;
  }

  /** The fragment `line(a, b)` pushes at pixel `p`. */
  function LineFragment(a: Vertex, b: Vertex, p: Pixel): Fragment
  {
    Fragment(p.x, p.y, Black, LineDepth(a.transformedPosition, b.transformedPosition, p.x))
  }

  function LineFragments(a: Vertex, b: Vertex, ps: seq<Pixel>): seq<Fragment>
  {
    seq(|ps|, i requires 0 <= i < |ps| => LineFragment(a, b, ps[i]))
  }

  lemma LineFragmentsAppend(a: Vertex, b: Vertex, ps: seq<Pixel>, p: Pixel)
    ensures LineFragments(a, b, ps + [p]) == LineFragments(a, b, ps) + [LineFragment(a, b, p)]
  {
    assert forall i :: 0 <= i < |ps| ==> (ps + [p])[i] == ps[i];
  }

  /** What `line(a, b)` returns. */
  function LineSpec(a: Vertex, b: Vertex): seq<Fragment>
  {
    LineFragments(a, b, WalkPixels(WalkOf(a, b)))
  }

  /** `p` lies in the box spanned by the walk's two endpoints. */
  predicate InWalkBox(w: Walk, p: Pixel)
  {
    Min(w.x0, w.x1) <= p.x <= Max(w.x0, w.x1) && Min(w.y0, w.y1) <= p.y <= Max(w.y0, w.y1)
  }

  /**
   * `q` follows `p` by one step of the walk: x moves by `sx` or stays,
   * y moves by `sy` or stays, and at least one of them moves.
   */
  predicate StepsTo(w: Walk, p: Pixel, q: Pixel)
  {
    (q.x == p.x || q.x == p.x + w.Sx()) && (q.y == p.y || q.y == p.y + w.Sy()) && p != q
  }

  /** The walk's length: one pixel per step along its major axis, plus the start. */
  function MajorSteps(w: Walk): nat
  {
    Max(w.Dx(), w.Dy())
  }

  lemma {:induction false} WalkFromEnds(w: Walk, px: int, py: int, err: int)
    requires OnTrack(w, px, py, err)
    ensures var ps := WalkFrom(w, px, py, err);
      |ps| == (if w.Dx() > w.Dy() then w.Dx() - px else w.Dy() - py) + 1 &&
      ps[|ps| - 1] == Pixel(w.x1, w.y1)
    decreases Remaining(w, px, py)
  {
    AtEndIff(w, px, py);
    if !(px == w.Dx() && py == w.Dy()) {
      LoopStep(w, px, py, err);
      WalkFromEnds(w, NextPx(w, px, err), NextPy(w, py, err), NextErr(w, err));
      assert w.Dx() > w.Dy() ==> MovesX(w, err);
      assert w.Dx() <= w.Dy() ==> MovesY(w, err);
    }
  }

  lemma {:induction false} WalkFromInBox(w: Walk, px: int, py: int, err: int)
    requires OnTrack(w, px, py, err)
    ensures var ps := WalkFrom(w, px, py, err);
      forall i :: 0 <= i < |ps| ==> InWalkBox(w, ps[i])
    decreases Remaining(w, px, py)
  {
    var ps := WalkFrom(w, px, py, err);
    AtEndIff(w, px, py);
    if !(px == w.Dx() && py == w.Dy()) {
      LoopStep(w, px, py, err);
      var px', py', err' := NextPx(w, px, err), NextPy(w, py, err), NextErr(w, err);
      WalkFromInBox(w, px', py', err');
      var rest := WalkFrom(w, px', py', err');
      forall i | 0 <= i < |ps|
        ensures InWalkBox(w, ps[i])
      {
        if i > 0 {
          assert ps[i] == rest[i - 1];
        }
      }
    }
  }

  lemma {:induction false} WalkFromSteps(w: Walk, px: int, py: int, err: int)
    requires OnTrack(w, px, py, err)
    ensures var ps := WalkFrom(w, px, py, err);
      forall i :: 0 <= i < |ps| - 1 ==> StepsTo(w, ps[i], ps[i + 1])
    decreases Remaining(w, px, py)
  {
    var ps := WalkFrom(w, px, py, err);
    AtEndIff(w, px, py);
    if !(px == w.Dx() && py == w.Dy()) {
      LoopStep(w, px, py, err);
      var px', py', err' := NextPx(w, px, err), NextPy(w, py, err), NextErr(w, err);
      WalkFromSteps(w, px', py', err');
      var rest := WalkFrom(w, px', py', err');
      assert StepsTo(w, ps[0], rest[0]) by {
        AtEndIff(w, px', py');
      }
      forall i | 0 <= i < |ps| - 1
        ensures StepsTo(w, ps[i], ps[i + 1])
      {
        if i > 0 {
          assert ps[i] == rest[i - 1] && ps[i + 1] == rest[i];
        }
      }
    }
  }

  /**
   * The pixels of `line(a, b)`: they start at the truncated start point,
   * end at the truncated end point, number one more than the longer of dx
   * and dy, stay inside the endpoints' box, and each step moves x, y or
   * both by one toward the end, so consecutive pixels are 8-connected.
   */
  lemma WalkPixelsFacts(w: Walk)
    ensures var ps := WalkPixels(w);
      |ps| == MajorSteps(w) + 1 &&
      ps[0] == Pixel(w.x0, w.y0) && ps[|ps| - 1] == Pixel(w.x1, w.y1) &&
      (forall i :: 0 <= i < |ps| ==> InWalkBox(w, ps[i])) &&
      (forall i :: 0 <= i < |ps| - 1 ==> StepsTo(w, ps[i], ps[i + 1]))
  {
    StartOnTrack(w);
    WalkFromEnds(w, 0, 0, w.InitialErr());
    WalkFromInBox(w, 0, 0, w.InitialErr());
    WalkFromSteps(w, 0, 0, w.InitialErr());
  }

  /** What `line(a, b)` promises about the fragments it returns. */
  lemma LineFacts(a: Vertex, b: Vertex)
    ensures var w, fs := WalkOf(a, b), LineSpec(a, b);
      |fs| == MajorSteps(w) + 1 &&
      fs[0].x == TruncToI32(a.transformedPosition.x) && fs[0].y == TruncToI32(a.transformedPosition.y) &&
      fs[|fs| - 1].x == TruncToI32(b.transformedPosition.x) && fs[|fs| - 1].y == TruncToI32(b.transformedPosition.y) &&
      (forall i :: 0 <= i < |fs| ==> fs[i].color == Black && InWalkBox(w, Pixel(fs[i].x, fs[i].y))) &&
      (forall i :: 0 <= i < |fs| - 1 ==> StepsTo(w, Pixel(fs[i].x, fs[i].y), Pixel(fs[i + 1].x, fs[i + 1].y)))
  {
    var w := WalkOf(a, b);
    WalkPixelsFacts(w);
    var ps := WalkPixels(w);
    assert forall i :: 0 <= i < |ps| ==> Pixel(LineSpec(a, b)[i].x, LineSpec(a, b)[i].y) == ps[i];
  }

  /** The part of `LineFacts` an outline needs: a side's length, its two ends and its colour. */
  lemma LineEnds(a: Vertex, b: Vertex)
    ensures |LineSpec(a, b)| == MajorSteps(WalkOf(a, b)) + 1
    ensures PositionOf(LineSpec(a, b)[0]) == VertexPixel(a)
    ensures PositionOf(LineSpec(a, b)[|LineSpec(a, b)| - 1]) == VertexPixel(b)
    ensures forall i :: 0 <= i < |LineSpec(a, b)| ==> LineSpec(a, b)[i].color == Black
  {
    LineFacts(a, b);
  }

  /**
   * `line`: Bresenham's walk from the truncated start to the truncated
   * end, one black fragment per visited pixel.
   */
  method Line(a: Vertex, b: Vertex) returns (fragments: seq<Fragment>)
    ensures fragments == LineSpec(a, b)
  {
    var start, end := a.transformedPosition, b.transformedPosition;
    var x0: int := TruncToI32(start.x);
    var y0: int := TruncToI32(start.y);
    var x1: int := TruncToI32(end.x);
    var y1: int := TruncToI32(end.y);
    var dx: int := Abs(x1 - x0);
    var dy: int := Abs(y1 - y0);
    var sx := if x0 < x1 then 1 else -1;
    var sy := if y0 < y1 then 1 else -1;
    var err := if dx > dy then dx / 2 else -(dy / 2);
    ghost var w := Walk(x0, y0, x1, y1);
    assert w == WalkOf(a, b);
    fragments := LineLoop(a, b, w, x0, y0, x1, y1, dx, dy, sx, sy, err);
  }

  /**
   * The `loop` of `line`: push the current pixel's fragment, stop at the
   * end point, otherwise take one step of the walk.
   */
  method LineLoop(a: Vertex, b: Vertex, ghost w: Walk, x0: int, y0: int, x1: int, y1: int,
                  dx: int, dy: int, sx: int, sy: int, err0: int) returns (fragments: seq<Fragment>)
    requires w == Walk(x0, y0, x1, y1)
    requires dx == w.Dx() && dy == w.Dy() && sx == w.Sx() && sy == w.Sy() && err0 == w.InitialErr()
    ensures fragments == LineFragments(a, b, WalkPixels(w))
  {
    fragments := [];
    ghost var all := WalkPixels(w);
    ghost var visited: seq<Pixel> := [];
    ghost var px, py := 0, 0;
    var x, y, err := x0, y0, err0;
    StartOnTrack(w);
    while true
      invariant OnTrack(w, px, py, err) && Pixel(x, y) == w.At(px, py)
      invariant visited + WalkFrom(w, px, py, err) == all
      invariant fragments == LineFragments(a, b, visited)
      decreases Remaining(w, px, py)
    {
      ghost var rest := WalkFrom(w, px, py, err);
      ghost var before := visited;
      LineFragmentsAppend(a, b, visited, Pixel(x, y));
      fragments := fragments + [LineFragment(a, b, Pixel(x, y))];
      visited := visited + [Pixel(x, y)];
      AtEndIff(w, px, py);
      if x == x1 && y == y1 {
        assert rest == [Pixel(x, y)];
        assert visited == all;
        break;
      }
      LoopStep(w, px, py, err);
      ghost var nerr := NextErr(w, err);
      ghost var npx := NextPx(w, px, err);
      ghost var npy := NextPy(w, py, err);
      ghost var after := WalkFrom(w, npx, npy, nerr);
      assert rest == [Pixel(x, y)] + after;
      var e2 := err;
      if e2 > -dx {
        err := err - dy;
        x := x + sx;
        px := px + 1;
      }
      if e2 < dy {
        err := err + dx;
        y := y + sy;
        py := py + 1;
      }
      assert px == npx && py == npy && err == nerr;
      AppendAssociative(before, [rest[0]], after);
      assert visited + WalkFrom(w, px, py, err) == all;
    }
  }

  // ---------------------------------------------------------------------
  // `_triangle`: the wireframe triangle
  // ---------------------------------------------------------------------

  /** The outline `_triangle(v1, v2, v3)` returns: the three sides in order. */
  function WireSpec(v1: Vertex, v2: Vertex, v3: Vertex): seq<Fragment>
  {
    LineSpec(v1, v2) + LineSpec(v2, v3) + LineSpec(v3, v1)
  }

  method WireTriangle(v1: Vertex, v2: Vertex, v3: Vertex) returns (fragments: seq<Fragment>)
    ensures fragments == WireSpec(v1, v2, v3)
  {
    fragments := [];
    var side := Line(v1, v2);
    fragments := fragments + side;
    side := Line(v2, v3);
    fragments := fragments + side;
    side := Line(v3, v1);
    fragments := fragments + side;
  }

  /** The pixel position of a fragment. */
  function PositionOf(f: Fragment): Pixel { Pixel(f.x, f.y) }

  /** The truncated screen position of a vertex. */
  function VertexPixel(v: Vertex): Pixel
  {
    Pixel(TruncToI32(v.transformedPosition.x), TruncToI32(v.transformedPosition.y))
  }

  /**
   * The outline is closed and black: each side starts at its first vertex
   * and ends at its second, so each side ends where the next one starts
   * and the last side ends where the first one starts.
   */
  lemma WireTriangleClosed(v1: Vertex, v2: Vertex, v3: Vertex)
    ensures var s1, s2, s3 := LineSpec(v1, v2), LineSpec(v2, v3), LineSpec(v3, v1);
      |s1| > 0 && |s2| > 0 && |s3| > 0 &&
      PositionOf(s1[0]) == VertexPixel(v1) && PositionOf(s1[|s1| - 1]) == VertexPixel(v2) &&
      PositionOf(s2[0]) == VertexPixel(v2) && PositionOf(s2[|s2| - 1]) == VertexPixel(v3) &&
      PositionOf(s3[0]) == VertexPixel(v3) && PositionOf(s3[|s3| - 1]) == VertexPixel(v1)
    ensures var fs := WireSpec(v1, v2, v3);
      |fs| == MajorSteps(WalkOf(v1, v2)) + MajorSteps(WalkOf(v2, v3)) + MajorSteps(WalkOf(v3, v1)) + 3 &&
      forall i :: 0 <= i < |fs| ==> fs[i].color == Black
  {
    LineEnds(v1, v2);
    LineEnds(v2, v3);
    LineEnds(v3, v1);
    var s1, s2, s3 := LineSpec(v1, v2), LineSpec(v2, v3), LineSpec(v3, v1);
    AllBlackAppend(s1, s2);
    AllBlackAppend(s1 + s2, s3);
  }

  predicate AllBlack(fs: seq<Fragment>)
  {
    forall i :: 0 <= i < |fs| ==> fs[i].color == Black
  }

  lemma AllBlackAppend(s: seq<Fragment>, t: seq<Fragment>)
    requires AllBlack(s) && AllBlack(t)
    ensures AllBlack(s + t)
  {
    forall i | 0 <= i < |s + t|
      ensures (s + t)[i].color == Black
    {
      if i >= |s| {
        assert (s + t)[i] == t[i - |s|];
      }
    }
  }

  // ---------------------------------------------------------------------
  // `triangle`: the filled triangle
  // ---------------------------------------------------------------------

  function RealMin(a: real, b: real): real { if a <= b then a else b }
  function RealMax(a: real, b: real): real { if a <= b then b else a }

  /** `f.ceil()` for a real `f`. */
  function Ceil(f: real): int { -((-f).Floor) }

  /** The pixel rectangle `calculate_bounding_box` returns; both ends inclusive. */
  datatype Box = Box(minX: i32, minY: i32, maxX: i32, maxY: i32)
  {
    predicate Contains(x: int, y: int) { minX <= x <= maxX && minY <= y <= maxY }
  }

  /** Floor of the smallest and ceiling of the largest coordinate, per axis, cast to i32. */
  function BoundingBox(a: Vec3, b: Vec3, c: Vec3): (box: Box)
    ensures box.minX <= box.maxX && box.minY <= box.maxY
  {
    Box(SatI32(RealMin(RealMin(a.x, b.x), c.x).Floor), SatI32(RealMin(RealMin(a.y, b.y), c.y).Floor),
        SatI32(Ceil(RealMax(RealMax(a.x, b.x), c.x))), SatI32(Ceil(RealMax(RealMax(a.y, b.y), c.y))))
  }

  /** A coordinate the i32 casts of the bounding box do not saturate. */
  predicate InI32Range(f: real) { -0x8000_0000 as real <= f <= 0x7fff_ffff as real }

  /**
   * Unless a coordinate is outside the i32 range, the box encloses the
   * three vertices and is less than one pixel larger than their extent
   * on each side.
   */
  lemma BoundingBoxEncloses(a: Vec3, b: Vec3, c: Vec3)
    requires InI32Range(a.x) && InI32Range(b.x) && InI32Range(c.x)
    requires InI32Range(a.y) && InI32Range(b.y) && InI32Range(c.y)
    ensures var box := BoundingBox(a, b, c);
      (forall v :: v in [a, b, c] ==>
        box.minX as real <= v.x <= box.maxX as real && box.minY as real <= v.y <= box.maxY as real) &&
      (exists v :: v in [a, b, c] && v.x < box.minX as real + 1.0) &&
      (exists v :: v in [a, b, c] && v.y < box.minY as real + 1.0) &&
      (exists v :: v in [a, b, c] && v.x > box.maxX as real - 1.0) &&
      (exists v :: v in [a, b, c] && v.y > box.maxY as real - 1.0)
  {
    var box := BoundingBox(a, b, c);
    var mx, my := RealMin(RealMin(a.x, b.x), c.x), RealMin(RealMin(a.y, b.y), c.y);
    var hx, hy := RealMax(RealMax(a.x, b.x), c.x), RealMax(RealMax(a.y, b.y), c.y);
    assert box.minX == mx.Floor && box.minY == my.Floor;
    assert box.maxX == Ceil(hx) && box.maxY == Ceil(hy);
    assert mx in {a.x, b.x, c.x} && my in {a.y, b.y, c.y} && hx in {a.x, b.x, c.x} && hy in {a.y, b.y, c.y};
  }

  /** `area_of_triangle`: twice the signed area of (a, b, c), from the x and y coordinates. */
  function Area(a: Vec3, b: Vec3, c: Vec3): (r: real)
    ensures (a.x == b.x && a.y == b.y) || (b.x == c.x && b.y == c.y) || (a.x == c.x && a.y == c.y) ==> r == 0.0
    ensures a.x == b.x == c.x || a.y == b.y == c.y ==> r == 0.0
  {
    (c.x - a.x) * (b.y - a.y) - (c.y - a.y) * (b.x - a.x)
  }

  /** Rotating the vertices keeps the signed area; swapping two negates it. */
  lemma AreaSymmetries(a: Vec3, b: Vec3, c: Vec3)
    ensures Area(b, c, a) == Area(a, b, c)
    ensures Area(a, c, b) == -Area(a, b, c)
  {
  }

  datatype Weights = Weights(w1: real, w2: real, w3: real)

  /**
   * `barycentric_coordinates`: each vertex's weight is the signed area of
   * the triangle with that vertex replaced by `p`, over the total.  A
   * zero total makes every `f32` weight NaN or infinite, so that no
   * weight can pass the interior test; the model returns None there.
   */
  function Barycentric(p: Vec3, a: Vec3, b: Vec3, c: Vec3): (r: Option<Weights>)
    ensures r.None? <==> Area(a, b, c) == 0.0
    ensures r.Some? ==> r.value.w1 + r.value.w2 + r.value.w3 == 1.0
  {
    var total := Area(a, b, c);
    if total == 0.0 then None
    else
      var x, y, z := Area(p, b, c), Area(a, p, c), Area(a, b, p);
      AreaSplit(p, a, b, c);
      assert x / total + y / total + z / total == (x + y + z) / total;
      Some(Weights(x / total, y / total, z / total))
  }

  /** The three sub-triangles a point cuts the triangle into add up to the whole. */
  lemma AreaSplit(p: Vec3, a: Vec3, b: Vec3, c: Vec3)
    ensures Area(p, b, c) + Area(a, p, c) + Area(a, b, p) == Area(a, b, c)
  {
  }

  /** The sub-areas weighted by the vertices' coordinates give the point scaled by the total area. */
  lemma AreaMoments(p: Vec3, a: Vec3, b: Vec3, c: Vec3)
    ensures Area(p, b, c) * a.x + Area(a, p, c) * b.x + Area(a, b, p) * c.x == Area(a, b, c) * p.x
    ensures Area(p, b, c) * a.y + Area(a, p, c) * b.y + Area(a, b, p) * c.y == Area(a, b, c) * p.y
  {
  }

  /**
   * The weights are the barycentric coordinates of `p`: the weighted sum
   * of the vertices gives back p's x and y.
   */
  lemma WeightsReconstructPoint(p: Vec3, a: Vec3, b: Vec3, c: Vec3)
    requires Barycentric(p, a, b, c).Some?
    ensures var w := Barycentric(p, a, b, c).value;
      w.w1 * a.x + w.w2 * b.x + w.w3 * c.x == p.x && w.w1 * a.y + w.w2 * b.y + w.w3 * c.y == p.y
  {
    var t := Area(a, b, c);
    AreaMoments(p, a, b, c);
    var x, y, z := Area(p, b, c), Area(a, p, c), Area(a, b, p);
    ScaledSum(x, y, z, t, a.x, b.x, c.x);
    ScaledSum(x, y, z, t, a.y, b.y, c.y);
  }

  lemma ScaledSum(x: real, y: real, z: real, t: real, u: real, v: real, w: real)
    requires t != 0.0
    ensures (x / t) * u + (y / t) * v + (z / t) * w == (x * u + y * v + z * w) / t
  {
  }

  /** A vertex has weight one for itself and zero for the other two. */
  lemma WeightsAtVertices(a: Vec3, b: Vec3, c: Vec3)
    requires Area(a, b, c) != 0.0
    ensures Barycentric(a, a, b, c) == Some(Weights(1.0, 0.0, 0.0))
    ensures Barycentric(b, a, b, c) == Some(Weights(0.0, 1.0, 0.0))
    ensures Barycentric(c, a, b, c) == Some(Weights(0.0, 0.0, 1.0))
  {
    var t := Area(a, b, c);
    assert Area(a, a, c) == 0.0 && Area(a, b, a) == 0.0;
    assert Area(a, b, b) == 0.0 && Area(b, b, c) == 0.0;
    assert Area(c, b, c) == 0.0 && Area(a, c, c) == 0.0;
    assert t / t == 1.0;
  }

  /**
   * Reversing the triangle's orientation (swapping b and c) or rotating
   * its vertices leaves each vertex's weight unchanged.
   */
  lemma WeightsFollowVertices(p: Vec3, a: Vec3, b: Vec3, c: Vec3)
    ensures Barycentric(p, a, c, b) ==
      (if Area(a, b, c) == 0.0 then None
       else var w := Barycentric(p, a, b, c).value; Some(Weights(w.w1, w.w3, w.w2)))
    ensures Barycentric(p, b, c, a) ==
      (if Area(a, b, c) == 0.0 then None
       else var w := Barycentric(p, a, b, c).value; Some(Weights(w.w2, w.w3, w.w1)))
  {
    AreaSymmetries(a, b, c);
    AreaSymmetries(p, b, c);
    AreaSymmetries(a, p, c);
    AreaSymmetries(a, b, p);
    AreaSymmetries(b, c, p);
    AreaSymmetries(c, a, p);
    AreaSymmetries(b, p, a);
    AreaSymmetries(p, c, a);
    var t := Area(a, b, c);
    if t != 0.0 {
      var x, y, z := Area(p, b, c), Area(a, p, c), Area(a, b, p);
      assert (-x) / (-t) == x / t && (-y) / (-t) == y / t && (-z) / (-t) == z / t;
    }
  }

  /** The interior test: all three weights in the closed interval [0, 1]. */
  predicate InUnit(w: Weights)
  {
    0.0 <= w.w1 <= 1.0 && 0.0 <= w.w2 <= 1.0 && 0.0 <= w.w3 <= 1.0
  }

  /** The point `triangle` tests for pixel (x, y). */
  function PixelPoint(x: int, y: int): Vec3 { Vec3(x as real, y as real, 0.0) }

  /** Whether `triangle(v1, v2, v3)` emits a fragment at (x, y). */
  predicate Covers(a: Vec3, b: Vec3, c: Vec3, x: int, y: int)
    ensures Covers(a, b, c, x, y) ==> Area(a, b, c) != 0.0
  {
    var ws := Barycentric(PixelPoint(x, y), a, b, c);
    ws.Some? && InUnit(ws.value)
  }

  /** The depth interpolated from the vertices' z with the weights. */
  function Depth(a: Vec3, b: Vec3, c: Vec3, w: Weights): real
  {
    a.z * w.w1 + b.z * w.w2 + c.z * w.w3
  }

  /** The fragment `triangle` pushes at a covered pixel: shaded and interpolated with the weights. */
  function CoveredFragment(a: Vec3, b: Vec3, c: Vec3, shade: Weights -> Color, x: int, y: int): Fragment
    requires Covers(a, b, c, x, y)
  {
    var w := Barycentric(PixelPoint(x, y), a, b, c).value;
    Fragment(x, y, shade(w), Some(Depth(a, b, c, w)))
  }

  /** The fragments `triangle` pushes for pixel (x, y): one if covered, none otherwise. */
  function PixelFragments(a: Vec3, b: Vec3, c: Vec3, shade: Weights -> Color, x: int, y: int): seq<Fragment>
  {
    if Covers(a, b, c, x, y) then [CoveredFragment(a, b, c, shade, x, y)] else []
  }

  /** What a scan emits for one pixel (x, y). */
  type Emitter = (int, int) -> seq<Fragment>

  /** Each pixel contributes at most one fragment, and only at that pixel. */
  ghost predicate EmitsAtPixel(emit: Emitter)
  {
    forall x, y :: |emit(x, y)| <= 1 && (|emit(x, y)| == 1 ==> emit(x, y)[0].x == x && emit(x, y)[0].y == y)
  }

  /** What a scan emits for the columns lo .. hi - 1 of row y, left to right. */
  function Scanline(emit: Emitter, y: int, lo: int, hi: int): seq<Fragment>
    decreases hi - lo
  {
    if hi <= lo then [] else Scanline(emit, y, lo, hi - 1) + emit(hi - 1, y)
  }

  /** What a scan emits for the rows lo .. hi - 1 of `box`, top to bottom. */
  function Scan(emit: Emitter, box: Box, lo: int, hi: int): seq<Fragment>
    decreases hi - lo
  {
    if hi <= lo then [] else Scan(emit, box, lo, hi - 1) + Scanline(emit, hi - 1, box.minX, box.maxX as int + 1)
  }

  /** The per-pixel step of `triangle`. */
  function PixelEmitter(a: Vec3, b: Vec3, c: Vec3, shade: Weights -> Color): Emitter
  {
    (x: int, y: int) => PixelFragments(a, b, c, shade, x, y)
  }

  /**
   * What `triangle` returns for the projected positions a, b and c, with
   * the lighting given by `shade`: the bounding box scanned row by row.
   */
  function TriangleSpec(a: Vec3, b: Vec3, c: Vec3, shade: Weights -> Color): seq<Fragment>
  {
    var box := BoundingBox(a, b, c);
    Scan(PixelEmitter(a, b, c, shade), box, box.minY, box.maxY as int + 1)
  }

  /** Row-major order of pixel positions: an earlier row, or the same row further left. */
  predicate RowMajorBefore(f: Fragment, g: Fragment)
  {
    f.y < g.y || (f.y == g.y && f.x < g.x)
  }

  /** Each fragment comes before the next in row-major order. */
  predicate RowMajorSorted(fs: seq<Fragment>)
  {
    forall i :: 0 < i < |fs| ==> RowMajorBefore(fs[i - 1], fs[i])
  }

  /** `f` is what `emit` gives for its pixel, and that pixel lies in [xlo, xhi) x [ylo, yhi). */
  predicate EmittedWithin(emit: Emitter, f: Fragment, xlo: int, xhi: int, ylo: int, yhi: int)
  {
    xlo <= f.x < xhi && ylo <= f.y < yhi && emit(f.x, f.y) == [f]
  }

  lemma {:induction false} ScanlineSound(emit: Emitter, y: int, lo: int, hi: int)
    requires EmitsAtPixel(emit)
    ensures forall f :: f in Scanline(emit, y, lo, hi) ==> EmittedWithin(emit, f, lo, hi, y, y + 1)
    decreases hi - lo
  {
    if lo < hi {
      ScanlineSound(emit, y, lo, hi - 1);
      var last := emit(hi - 1, y);
      assert Scanline(emit, y, lo, hi) == Scanline(emit, y, lo, hi - 1) + last;
      assert |last| == 1 ==> last == [last[0]];
    }
  }

  lemma {:induction false} ScanlineOrdered(emit: Emitter, y: int, lo: int, hi: int)
    requires EmitsAtPixel(emit)
    ensures RowMajorSorted(Scanline(emit, y, lo, hi))
    decreases hi - lo
  {
    if lo < hi {
      ScanlineOrdered(emit, y, lo, hi - 1);
      ScanlineSound(emit, y, lo, hi - 1);
      var front, last := Scanline(emit, y, lo, hi - 1), emit(hi - 1, y);
      var fs := front + last;
      assert Scanline(emit, y, lo, hi) == fs;
      forall i | 0 < i < |fs|
        ensures RowMajorBefore(fs[i - 1], fs[i])
      {
        if i < |front| {
          assert fs[i - 1] == front[i - 1] && fs[i] == front[i];
        } else {
          assert fs[i - 1] == front[i - 1] && fs[i] == last[0];
          assert front[i - 1] in front;
        }
      }
    }
  }

  lemma {:induction false} ScanlineComplete(emit: Emitter, y: int, lo: int, hi: int)
    ensures forall x :: lo <= x < hi && |emit(x, y)| > 0 ==> emit(x, y)[0] in Scanline(emit, y, lo, hi)
    decreases hi - lo
  {
    if lo < hi {
      ScanlineComplete(emit, y, lo, hi - 1);
    }
  }

  lemma {:induction false} ScanSound(emit: Emitter, box: Box, lo: int, hi: int)
    requires EmitsAtPixel(emit)
    ensures forall f :: f in Scan(emit, box, lo, hi) ==> EmittedWithin(emit, f, box.minX, box.maxX as int + 1, lo, hi)
    decreases hi - lo
  {
    if lo < hi {
      ScanSound(emit, box, lo, hi - 1);
      ScanlineSound(emit, hi - 1, box.minX, box.maxX as int + 1);
    }
  }

  lemma {:induction false} ScanOrdered(emit: Emitter, box: Box, lo: int, hi: int)
    requires EmitsAtPixel(emit)
    ensures RowMajorSorted(Scan(emit, box, lo, hi))
    decreases hi - lo
  {
    if lo < hi {
      ScanOrdered(emit, box, lo, hi - 1);
      ScanSound(emit, box, lo, hi - 1);
      ScanlineOrdered(emit, hi - 1, box.minX, box.maxX as int + 1);
      ScanlineSound(emit, hi - 1, box.minX, box.maxX as int + 1);
      var front, row := Scan(emit, box, lo, hi - 1), Scanline(emit, hi - 1, box.minX, box.maxX as int + 1);
      var fs := front + row;
      assert Scan(emit, box, lo, hi) == fs;
      forall i | 0 < i < |fs|
        ensures RowMajorBefore(fs[i - 1], fs[i])
      {
        if i < |front| {
          assert fs[i - 1] == front[i - 1] && fs[i] == front[i];
        } else if i > |front| {
          assert fs[i - 1] == row[i - 1 - |front|] && fs[i] == row[i - |front|];
        } else {
          assert fs[i - 1] == front[i - 1] && fs[i] == row[0];
          assert front[i - 1] in front && row[0] in row;
        }
      }
    }
  }

  lemma {:induction false} ScanComplete(emit: Emitter, box: Box, lo: int, hi: int)
    ensures forall x, y :: lo <= y < hi && box.minX <= x <= box.maxX && |emit(x, y)| > 0 ==>
      emit(x, y)[0] in Scan(emit, box, lo, hi)
    decreases hi - lo
  {
    if lo < hi {
      ScanComplete(emit, box, lo, hi - 1);
      ScanlineComplete(emit, hi - 1, box.minX, box.maxX as int + 1);
    }
  }

  /** The triangle's per-pixel step emits at most one fragment, at its own pixel. */
  lemma PixelEmitterAtPixel(a: Vec3, b: Vec3, c: Vec3, shade: Weights -> Color)
    ensures EmitsAtPixel(PixelEmitter(a, b, c, shade))
  {
  }

  /** A sequence ordered pair by adjacent pair is ordered for every pair, so no pixel repeats. */
  lemma {:induction false} RowMajorChain(fs: seq<Fragment>)
    requires RowMajorSorted(fs)
    ensures forall i, j :: 0 <= i < j < |fs| ==> RowMajorBefore(fs[i], fs[j])
  {
    if |fs| > 1 {
      var front := fs[..|fs| - 1];
      RowMajorChain(front);
      forall i, j | 0 <= i < j < |fs|
        ensures RowMajorBefore(fs[i], fs[j])
      {
        if j < |fs| - 1 {
          assert fs[i] == front[i] && fs[j] == front[j];
        } else if i < j - 1 {
          assert fs[i] == front[i] && fs[j - 1] == front[j - 1];
        }
      }
    }
  }

  /** A pixel's fragment list holds `f` exactly when the pixel is covered and `f` is its fragment. */
  lemma PixelFragmentsIs(a: Vec3, b: Vec3, c: Vec3, shade: Weights -> Color, x: int, y: int, f: Fragment)
    ensures PixelFragments(a, b, c, shade, x, y) == [f] <==>
      Covers(a, b, c, x, y) && f == CoveredFragment(a, b, c, shade, x, y)
  {
  }

  /** `triangle` emits a fragment at pixel (x, y). */
  ghost predicate CoveredFragmentIn(a: Vec3, b: Vec3, c: Vec3, shade: Weights -> Color, x: int, y: int)
  {
    exists f :: f in TriangleSpec(a, b, c, shade) && f.x == x && f.y == y
  }

  /**
   * What `triangle` promises: it emits exactly the covered pixels of its
   * bounding box, each once, in row-major order, each with the shade and
   * the interpolated depth of its weights.
   */
  lemma TriangleFacts(a: Vec3, b: Vec3, c: Vec3, shade: Weights -> Color)
    ensures forall f :: f in TriangleSpec(a, b, c, shade) ==>
      BoundingBox(a, b, c).Contains(f.x, f.y) && Covers(a, b, c, f.x, f.y) &&
      f == CoveredFragment(a, b, c, shade, f.x, f.y)
    ensures forall x, y :: BoundingBox(a, b, c).Contains(x, y) && Covers(a, b, c, x, y) ==>
      CoveredFragment(a, b, c, shade, x, y) in TriangleSpec(a, b, c, shade)
    ensures forall i, j :: 0 <= i < j < |TriangleSpec(a, b, c, shade)| ==>
      RowMajorBefore(TriangleSpec(a, b, c, shade)[i], TriangleSpec(a, b, c, shade)[j])
  {
    var box := BoundingBox(a, b, c);
    var emit := PixelEmitter(a, b, c, shade);
    var fs := TriangleSpec(a, b, c, shade);
    PixelEmitterAtPixel(a, b, c, shade);
    ScanSound(emit, box, box.minY, box.maxY as int + 1);
    ScanComplete(emit, box, box.minY, box.maxY as int + 1);
    ScanOrdered(emit, box, box.minY, box.maxY as int + 1);
    RowMajorChain(fs);
    forall f | f in fs
      ensures box.Contains(f.x, f.y) && Covers(a, b, c, f.x, f.y) && f == CoveredFragment(a, b, c, shade, f.x, f.y)
    {
      assert emit(f.x, f.y) == [f];
      PixelFragmentsIs(a, b, c, shade, f.x, f.y, f);
    }
    forall x, y | box.Contains(x, y) && Covers(a, b, c, x, y)
      ensures CoveredFragment(a, b, c, shade, x, y) in fs
    {
      assert emit(x, y) == [CoveredFragment(a, b, c, shade, x, y)];
    }
  }

  /** With weights summing to one, equal vertex depths interpolate to that depth. */
  lemma FlatDepth(a: Vec3, b: Vec3, c: Vec3, w: Weights)
    requires a.z == b.z == c.z && w.w1 + w.w2 + w.w3 == 1.0
    ensures Depth(a, b, c, w) == a.z
  {
    assert Depth(a, b, c, w) == a.z * (w.w1 + w.w2 + w.w3);
  }

  /** A triangle whose three vertices share one z yields that z as the depth of every fragment. */
  lemma FlatTriangleDepth(a: Vec3, b: Vec3, c: Vec3, shade: Weights -> Color)
    requires a.z == b.z == c.z
    ensures forall f :: f in TriangleSpec(a, b, c, shade) ==> f.depth == Some(a.z)
  {
    TriangleFacts(a, b, c, shade);
    forall f | f in TriangleSpec(a, b, c, shade)
      ensures f.depth == Some(a.z)
    {
      var p := PixelPoint(f.x, f.y);
      var w := Barycentric(p, a, b, c).value;
      assert f.depth == Some(Depth(a, b, c, w));
      FlatDepth(a, b, c, w);
    }
  }

  /** A triangle with zero area yields no fragments: no weight passes the interior test. */
  lemma DegenerateTriangleEmpty(a: Vec3, b: Vec3, c: Vec3, shade: Weights -> Color)
    requires Area(a, b, c) == 0.0
    ensures TriangleSpec(a, b, c, shade) == []
  {
    TriangleFacts(a, b, c, shade);
    var fs := TriangleSpec(a, b, c, shade);
    if fs != [] {
      FirstIsMember(fs);
      assert false;
    }
  }

  lemma FirstIsMember<T>(s: seq<T>)
    ensures s != [] ==> s[0] in s
  {
  }

  lemma ProductNonNegative(x: real, y: real)
    requires x >= 0.0 && y >= 0.0
    ensures x * y >= 0.0
  {
  }

  /** A weighted average with non-negative weights summing to one lies between the smallest and largest value. */
  lemma ConvexBetween(w: Weights, u: real, v: real, t: real)
    requires w.w1 >= 0.0 && w.w2 >= 0.0 && w.w3 >= 0.0 && w.w1 + w.w2 + w.w3 == 1.0
    ensures RealMin(RealMin(u, v), t) <= w.w1 * u + w.w2 * v + w.w3 * t <= RealMax(RealMax(u, v), t)
  {
    var m, h := RealMin(RealMin(u, v), t), RealMax(RealMax(u, v), t);
    assert m <= u && m <= v && m <= t && u <= h && v <= h && t <= h;
    ProductNonNegative(w.w1, u - m);
    ProductNonNegative(w.w2, v - m);
    ProductNonNegative(w.w3, t - m);
    ProductNonNegative(w.w1, h - u);
    ProductNonNegative(w.w2, h - v);
    ProductNonNegative(w.w3, h - t);
    assert w.w1 * u + w.w2 * v + w.w3 * t - m == w.w1 * (u - m) + w.w2 * (v - m) + w.w3 * (t - m);
    assert h - (w.w1 * u + w.w2 * v + w.w3 * t) == w.w1 * (h - u) + w.w2 * (h - v) + w.w3 * (h - t);
  }

  /** A weighted average of three coordinates lies between the box edges computed from them. */
  lemma AverageBetweenEdges(w: Weights, u: real, v: real, t: real, z: int)
    requires InI32Range(u) && InI32Range(v) && InI32Range(t)
    requires w.w1 >= 0.0 && w.w2 >= 0.0 && w.w3 >= 0.0 && w.w1 + w.w2 + w.w3 == 1.0
    requires w.w1 * u + w.w2 * v + w.w3 * t == z as real
    ensures SatI32(RealMin(RealMin(u, v), t).Floor) <= z <= SatI32(Ceil(RealMax(RealMax(u, v), t)))
  {
    ConvexBetween(w, u, v, t);
    var m, h := RealMin(RealMin(u, v), t), RealMax(RealMax(u, v), t);
    assert InI32Range(m) && InI32Range(h);
    assert m.Floor <= z <= Ceil(h);
  }

  /** A point with convex weights lies inside the bounding box. */
  lemma AverageInBox(a: Vec3, b: Vec3, c: Vec3, w: Weights, x: int, y: int)
    requires InI32Range(a.x) && InI32Range(b.x) && InI32Range(c.x)
    requires InI32Range(a.y) && InI32Range(b.y) && InI32Range(c.y)
    requires w.w1 >= 0.0 && w.w2 >= 0.0 && w.w3 >= 0.0 && w.w1 + w.w2 + w.w3 == 1.0
    requires w.w1 * a.x + w.w2 * b.x + w.w3 * c.x == x as real
    requires w.w1 * a.y + w.w2 * b.y + w.w3 * c.y == y as real
    ensures BoundingBox(a, b, c).Contains(x, y)
  {
    AverageBetweenEdges(w, a.x, b.x, c.x, x);
    AverageBetweenEdges(w, a.y, b.y, c.y, y);
  }

  /** Unless a vertex coordinate is outside the i32 range, every covered pixel lies in the bounding box. */
  lemma CoveredInBox(a: Vec3, b: Vec3, c: Vec3, x: int, y: int)
    requires InI32Range(a.x) && InI32Range(b.x) && InI32Range(c.x)
    requires InI32Range(a.y) && InI32Range(b.y) && InI32Range(c.y)
    requires Covers(a, b, c, x, y)
    ensures BoundingBox(a, b, c).Contains(x, y)
  {
    var w := CoveredWeights(a, b, c, x, y);
    AverageInBox(a, b, c, w, x, y);
  }

  /** A covered pixel is a convex combination of the vertices, with the weights `triangle` computes. */
  lemma CoveredWeights(a: Vec3, b: Vec3, c: Vec3, x: int, y: int) returns (w: Weights)
    requires Covers(a, b, c, x, y)
    ensures w.w1 >= 0.0 && w.w2 >= 0.0 && w.w3 >= 0.0 && w.w1 + w.w2 + w.w3 == 1.0
    ensures w.w1 * a.x + w.w2 * b.x + w.w3 * c.x == x as real
    ensures w.w1 * a.y + w.w2 * b.y + w.w3 * c.y == y as real
  {
    var p := PixelPoint(x, y);
    w := Barycentric(p, a, b, c).value;
    WeightsReconstructPoint(p, a, b, c);
  }

  /**
   * Unless a vertex coordinate is outside the i32 range, `triangle` emits
   * a fragment at exactly the covered pixels of the whole plane.
   */
  lemma TriangleCoversExactly(a: Vec3, b: Vec3, c: Vec3, shade: Weights -> Color)
    requires InI32Range(a.x) && InI32Range(b.x) && InI32Range(c.x)
    requires InI32Range(a.y) && InI32Range(b.y) && InI32Range(c.y)
    ensures forall x, y :: Covers(a, b, c, x, y) <==> CoveredFragmentIn(a, b, c, shade, x, y)
  {
    TriangleFacts(a, b, c, shade);
    forall x, y
      ensures Covers(a, b, c, x, y) <==> CoveredFragmentIn(a, b, c, shade, x, y)
    {
      if Covers(a, b, c, x, y) {
        CoveredInBox(a, b, c, x, y);
        assert CoveredFragment(a, b, c, shade, x, y) in TriangleSpec(a, b, c, shade);
      }
    }
  }

  /** `triangle`: every pixel of the bounding box, row by row, keeping the covered ones. */
  method Triangle(v1: Vertex, v2: Vertex, v3: Vertex, shade: Weights -> Color) returns (fragments: seq<Fragment>)
    ensures fragments == TriangleSpec(v1.transformedPosition, v2.transformedPosition, v3.transformedPosition, shade)
  {
    var a, b, c := v1.transformedPosition, v2.transformedPosition, v3.transformedPosition;
    var box := BoundingBox(a, b, c);
    fragments := TriangleRows(a, b, c, shade, box);
  }

  /** The outer loop of `triangle`: the rows minY ..= maxY of `box`. */
  method TriangleRows(a: Vec3, b: Vec3, c: Vec3, shade: Weights -> Color, box: Box) returns (fragments: seq<Fragment>)
    ensures fragments == Scan(PixelEmitter(a, b, c, shade), box, box.minY, box.maxY as int + 1)
  {
    ghost var emit := PixelEmitter(a, b, c, shade);
    fragments := [];
    var y: int := box.minY;
    while y <= box.maxY
      invariant box.minY <= y <= Max(box.minY, box.maxY as int + 1)
      invariant fragments == Scan(emit, box, box.minY, y)
    {
      var row := TriangleRow(a, b, c, shade, y, box.minX, box.maxX);
      assert Scan(emit, box, box.minY, y + 1) == fragments + row;
      fragments := fragments + row;
      y := y + 1;
    }
  }

  /** The inner loop of `triangle`: the columns lo ..= hi of row y. */
  method TriangleRow(a: Vec3, b: Vec3, c: Vec3, shade: Weights -> Color, y: int, lo: int, hi: int)
    returns (row: seq<Fragment>)
    ensures row == Scanline(PixelEmitter(a, b, c, shade), y, lo, hi + 1)
  {
    row := [];
    var x := lo;
    while x <= hi
      invariant lo <= x <= Max(lo, hi + 1)
      invariant row == Scanline(PixelEmitter(a, b, c, shade), y, lo, x)
    {
      assert Scanline(PixelEmitter(a, b, c, shade), y, lo, x + 1) == row + PixelFragments(a, b, c, shade, x, y);
      var point := PixelPoint(x, y);
      var ws := Barycentric(point, a, b, c);
      if ws.Some? && InUnit(ws.value) {
        var w := ws.value;
        var depth := Depth(a, b, c, w);
        row := row + [Fragment(x, y, shade(w), Some(depth))];
      }
      x := x + 1;
    }
  }
}
