/**
 * The frame buffer (src/framebuffer.rs): a width x height grid of packed
 * 0xRRGGBB pixels stored row by row, a background colour that `clear`
 * paints, and a current colour that `point` paints with.
 *
 * The buffer is a class over an array; the scanline polygon fill is
 * specified by pure functions (the crossings of each scanline, their
 * sorted order, the spans between pairs) that the method is proved to
 * follow pixel for pixel.
 */
module Framebuffers {
  import opened Wrappers
  import opened Arithmetic
  import opened Colors

  // ---------------------------------------------------------------------
  // Pixel addressing
  // ---------------------------------------------------------------------

  predicate InBounds(width: nat, height: nat, x: int, y: int)
  {
    0 <= x < width && 0 <= y < height
  }

  /** Row-major position of pixel (x, y): `width * y + x`. */
  function Index(width: nat, x: int, y: int): int
  {
    width * y + x
  }

  /** The column of buffer position `i`. */
  function Column(width: nat, i: int): int
  {
    if width == 0 then 0 else i % width
  }

  /** The row of buffer position `i`. */
  function Row(width: nat, i: int): int
  {
    if width == 0 then 0 else i / width
  }

  /** An in-bounds pixel has a position inside the buffer, and that position maps back to it. */
  lemma IndexOfPixel(width: nat, height: nat, x: int, y: int)
    requires InBounds(width, height, x, y)
    ensures 0 <= Index(width, x, y) < width * height
    ensures Column(width, Index(width, x, y)) == x && Row(width, Index(width, x, y)) == y
  {
    var i := width * y + x;
    var q, r := i / width, i % width;
    assert i == width * q + r;
    assert width * (y - q) == width * y - width * q;
    assert width * (y - q) == r - x;
    BelowFactor(width, y - q);
    BelowFactor(width, q - y);
    MulBounded(width, y + 1, height);
    assert width * (y + 1) == width * y + width;
  }

  /** Every buffer position belongs to exactly one in-bounds pixel. */
  lemma PixelOfIndex(width: nat, height: nat, i: int)
    requires 0 <= i < width * height
    ensures InBounds(width, height, Column(width, i), Row(width, i))
    ensures Index(width, Column(width, i), Row(width, i)) == i
  {
    assert width != 0;
    var q, r := i / width, i % width;
    assert i == width * q + r;
    DivNonNegative(i, width);
    assert width * (q - height + 1) == width * q - width * height + width;
    BelowFactor(width, q - height + 1);
  }

  /** Distinct in-bounds pixels occupy distinct buffer positions. */
  lemma IndexInjective(width: nat, height: nat, x1: int, y1: int, x2: int, y2: int)
    requires InBounds(width, height, x1, y1) && InBounds(width, height, x2, y2)
    ensures Index(width, x1, y1) == Index(width, x2, y2) <==> x1 == x2 && y1 == y2
  {
    IndexOfPixel(width, height, x1, y1);
    IndexOfPixel(width, height, x2, y2);
  }

  // ---------------------------------------------------------------------
  // The scanline fill, as functions
  // ---------------------------------------------------------------------

  /** A polygon vertex `[x, y]`. */
  datatype Vertex2 = Vertex2(x: int, y: int)

  /** `vertices.iter().map(|v| v[1]).min()` on a non-empty list. */
  function MinY(vs: seq<Vertex2>): (m: int)
    requires |vs| > 0
    ensures forall i :: 0 <= i < |vs| ==> m <= vs[i].y
    ensures exists i :: 0 <= i < |vs| && vs[i].y == m
  {
    if |vs| == 1 then vs[0].y
    else
      var rest := MinY(vs[1..]);
      assert exists i :: 1 <= i < |vs| && vs[i].y == rest by {
        var k :| 0 <= k < |vs| - 1 && vs[1..][k].y == rest;
        assert vs[k + 1].y == rest;
      }
      Min(vs[0].y, rest)
  }

  /** `vertices.iter().map(|v| v[1]).max()` on a non-empty list. */
  function MaxY(vs: seq<Vertex2>): (m: int)
    requires |vs| > 0
    ensures forall i :: 0 <= i < |vs| ==> vs[i].y <= m
    ensures exists i :: 0 <= i < |vs| && vs[i].y == m
  {
    if |vs| == 1 then vs[0].y
    else
      var rest := MaxY(vs[1..]);
      assert exists i :: 1 <= i < |vs| && vs[i].y == rest by {
        var k :| 0 <= k < |vs| - 1 && vs[1..][k].y == rest;
        assert vs[k + 1].y == rest;
      }
      Max(vs[0].y, rest)
  }

  /** Vertex `v` lies on a row strictly above scanline `y`: a smaller y, since y grows downward. */
  predicate Above(v: Vertex2, y: int)
  {
    v.y < y
  }

  /** The crossing test: exactly one end of the edge lies strictly before scanline `y`. */
  predicate Crosses(vi: Vertex2, vj: Vertex2, y: int)
    ensures Crosses(vi, vj, y) <==> Min(vi.y, vj.y) < y <= Max(vi.y, vj.y)
  {
    (vi.y < y && vj.y >= y) || (vj.y < y && vi.y >= y)
  }

  /**
   * The x where edge (vi, vj) meets scanline y:
   * `vi.x + (y - vi.y) * (vj.x - vi.x) / (vj.y - vi.y)` with Rust's
   * truncating division.  The crossing test rules out a horizontal edge,
   * so the divisor is never zero, and the result stays on the edge's
   * x-extent.
   */
  function Intersect(vi: Vertex2, vj: Vertex2, y: int): (x: int)
    requires Crosses(vi, vj, y)
    ensures Min(vi.x, vj.x) <= x <= Max(vi.x, vj.x)
  {
    TruncDivFraction(y - vi.y, vj.y - vi.y, vj.x - vi.x);
    vi.x + TruncDiv((y - vi.y) * (vj.x - vi.x), vj.y - vi.y)
  }

  /** The vertex that precedes vertex `i` around the polygon. */
  function Prev(vs: seq<Vertex2>, i: nat): nat
    requires i < |vs|
  {
    if i == 0 then |vs| - 1 else i - 1
  }

  /**
   * The unsorted `nodes` of scanline y after visiting vertices 0..n-1:
   * vertex i is paired with the vertex before it, cyclically.
   */
  function Crossings(vs: seq<Vertex2>, y: int, n: nat): (xs: seq<int>)
    requires 0 < |vs| && n <= |vs|
    ensures |xs| <= n
  {
    if n == 0 then []
    else
      var i := n - 1;
      Crossings(vs, y, i) + (if Crosses(vs[i], vs[Prev(vs, i)], y) then [Intersect(vs[i], vs[Prev(vs, i)], y)] else [])
  }

  lemma {:induction false} CrossingsParity(vs: seq<Vertex2>, y: int, n: nat)
    requires 0 < n <= |vs|
    ensures (|Crossings(vs, y, n)| % 2 == 0) <==>
            ((Above(vs[0], y) == Above(vs[|vs| - 1], y)) == (Above(vs[0], y) == Above(vs[n - 1], y)))
  {
    var i := n - 1;
    assert Crosses(vs[i], vs[Prev(vs, i)], y) <==> Above(vs[i], y) != Above(vs[Prev(vs, i)], y);
    if n > 1 {
      CrossingsParity(vs, y, n - 1);
    }
  }

  /**
   * A closed polygon crosses every scanline an even number of times, so
   * the sorted crossings always pair up and the "unpaired last crossing"
   * case of the span loop never arises.
   */
  lemma CrossingsEven(vs: seq<Vertex2>, y: int)
    requires |vs| > 0
    ensures |Crossings(vs, y, |vs|)| % 2 == 0
  {
    CrossingsParity(vs, y, |vs|);
  }

  /** Each element is at most the next one. */
  predicate Sorted(s: seq<int>)
  {
    forall i :: 0 < i < |s| ==> s[i - 1] <= s[i]
  }

  function Insert(x: int, s: seq<int>): (t: seq<int>)
    requires Sorted(s)
    ensures |t| == |s| + 1 && Sorted(t)
    ensures t[0] == if s == [] || x <= s[0] then x else s[0]
    ensures multiset(t) == multiset(s) + multiset{x}
  {
    if s == [] || x <= s[0] then [x] + s
    else
      var rest := Insert(x, s[1..]);
      assert s == [s[0]] + s[1..];
      [s[0]] + rest
  }

  /** `slice::sort` on the crossings: a sorted permutation. */
  function SortInts(s: seq<int>): (t: seq<int>)
    ensures Sorted(t) && multiset(t) == multiset(s) && |t| == |s|
  {
    if s == [] then []
    else
      assert s == [s[0]] + s[1..];
      Insert(s[0], SortInts(s[1..]))
  }

  /**
   * `x` lies in one of the inclusive spans [s[0], s[1]], [s[2], s[3]], ...;
   * an unpaired last entry starts no span.
   */
  predicate InSpans(s: seq<int>, x: int)
    decreases |s|
  {
    |s| >= 2 && (s[0] <= x <= s[1] || InSpans(s[2..], x))
  }

  /** `x` lies in the k-th span `[s[2k], s[2k+1]]`. */
  predicate InPair(s: seq<int>, k: nat, x: int)
  {
    2 * k + 1 < |s| && s[2 * k] <= x <= s[2 * k + 1]
  }

  /** `x` lies in some span `[s[2k], s[2k+1]]`. */
  ghost predicate BetweenPair(s: seq<int>, x: int)
  {
    exists k: nat :: InPair(s, k, x)
  }

  lemma {:induction false} InSpansIff(s: seq<int>, x: int)
    ensures InSpans(s, x) <==> BetweenPair(s, x)
    decreases |s|
  {
    if |s| >= 2 {
      InSpansIff(s[2..], x);
      if InSpans(s, x) {
        if s[0] <= x <= s[1] {
          assert InPair(s, 0, x);
        } else {
          var k: nat :| InPair(s[2..], k, x);
          assert InPair(s, k + 1, x);
        }
      }
      if exists k: nat :: InPair(s, k, x) {
        var k: nat :| InPair(s, k, x);
        if k > 0 {
          assert InPair(s[2..], k - 1, x);
        }
      }
    }
  }

  lemma {:induction false} InSpansExtend(s: seq<int>, n: nat, x: int)
    requires n % 2 == 0 && n + 2 <= |s|
    ensures InSpans(s[..n + 2], x) <==> InSpans(s[..n], x) || s[n] <= x <= s[n + 1]
  {
    if n > 0 {
      assert s[..n + 2][2..] == s[2..][..n];
      assert s[..n][2..] == s[2..][..n - 2];
      InSpansExtend(s[2..], n - 2, x);
    } else {
      assert s[..2][2..] == [];
    }
  }

  lemma {:induction false} InSpansWhole(s: seq<int>, n: nat, x: int)
    requires n % 2 == 0 && n <= |s| <= n + 1
    ensures InSpans(s[..n], x) <==> InSpans(s, x)
  {
    if n > 0 {
      assert s[..n][2..] == s[2..][..n - 2];
      InSpansWhole(s[2..], n - 2, x);
    }
  }

  /** Whether `fill_polygon(vs, _)` paints pixel (x, y). */
  predicate Filled(vs: seq<Vertex2>, x: int, y: int)
    requires |vs| > 0
    ensures Filled(vs, x, y) ==> |Crossings(vs, y, |vs|)| >= 2
  {
    MinY(vs) <= y <= MaxY(vs) && InSpans(SortInts(Crossings(vs, y, |vs|)), x)
  }

  /** Some scanline in [lo, hi) has at least two crossings, so paints a span. */
  ghost predicate SpansBetween(vs: seq<Vertex2>, lo: int, hi: int)
    requires |vs| > 0
  {
    exists y :: lo <= y < hi && |Crossings(vs, y, |vs|)| >= 2
  }

  /** Whether the fill visits any span at all, on screen or not. */
  ghost predicate PaintsSpan(vs: seq<Vertex2>)
    requires |vs| > 0
  {
    SpansBetween(vs, MinY(vs), MaxY(vs) + 1)
  }

  /** Widening the range of scanlines by one row adds exactly that row's spans. */
  lemma SpansBetweenStep(vs: seq<Vertex2>, lo: int, hi: int)
    requires |vs| > 0 && lo <= hi
    ensures SpansBetween(vs, lo, hi + 1) <==> SpansBetween(vs, lo, hi) || |Crossings(vs, hi, |vs|)| >= 2
    ensures !SpansBetween(vs, lo, lo)
  {
    if SpansBetween(vs, lo, hi + 1) && !SpansBetween(vs, lo, hi) {
      var w :| lo <= w < hi + 1 && |Crossings(vs, w, |vs|)| >= 2;
      assert w == hi;
    }
    if |Crossings(vs, hi, |vs|)| >= 2 {
      assert lo <= hi < hi + 1;
    }
  }

  /** The pixel (x, y) painted in row y lies between two crossings of that row, on the polygon's rows. */
  lemma FilledMeansBetweenCrossings(vs: seq<Vertex2>, x: int, y: int)
    requires |vs| > 0
    ensures Filled(vs, x, y) <==>
      MinY(vs) <= y <= MaxY(vs) && BetweenPair(SortInts(Crossings(vs, y, |vs|)), x)
  {
    InSpansIff(SortInts(Crossings(vs, y, |vs|)), x);
  }

  // ---------------------------------------------------------------------
  // The frame buffer object
  // ---------------------------------------------------------------------

  /** `vec![color.to_hex(); n]`: a fresh buffer of `n` pixels of one colour. */
  method SolidPixels(n: nat, color: Color) returns (pixels: array<u32>)
    ensures fresh(pixels) && pixels.Length == n
    ensures forall i :: 0 <= i < n ==> pixels[i] == ToHex(color)
  {
    var hex := ToHex(color);
    pixels := new u32[n](_ => hex);
  }

  /**
   * The `nodes` loop of `fill_polygon`: walks the polygon's edges (each
   * vertex with the one before it, the first with the last) and records
   * where each edge that crosses scanline y meets it.
   */
  method CollectCrossings(vertices: seq<Vertex2>, y: int) returns (nodes: seq<int>)
    requires |vertices| > 0
    ensures nodes == Crossings(vertices, y, |vertices|)
  {
    nodes := [];
    var j := |vertices| - 1;
    for i := 0 to |vertices|
      invariant j == if i == 0 then |vertices| - 1 else i - 1
      invariant nodes == Crossings(vertices, y, i)
    {
      var vi, vj := vertices[i], vertices[j];
      if (vi.y < y && vj.y >= y) || (vj.y < y && vi.y >= y) {
        nodes := nodes + [Intersect(vi, vj, y)];
      }
      j := i;
    }
  }

  class Framebuffer {
    const width: nat
    const height: nat
    /** The pixels, row by row.  The source's `Vec<u32>` is never resized. */
    const buffer: array<u32>
    var backgroundColor: Color
    var currentColor: Color

    ghost predicate Valid()
    {
      buffer.Length == width * height
    }

    /** `Framebuffer::new`: a black buffer with a black background and a white pen. */
    constructor (width: nat, height: nat)
      ensures this.width == width && this.height == height
      ensures Valid() && fresh(buffer)
      ensures backgroundColor == Black && currentColor == White
      ensures forall i :: 0 <= i < buffer.Length ==> buffer[i] == ToHex(backgroundColor)
    {
      var background := New(0, 0, 0);
      var pixels := SolidPixels(width * height, background);
      this.width := width;
      this.height := height;
      buffer := pixels;
      backgroundColor := background;
      currentColor := New(255, 255, 255);
    }

    /** `Framebuffer::clear`: every pixel becomes the background colour. */
    method Clear()
      requires Valid()
      modifies buffer
      ensures forall i :: 0 <= i < buffer.Length ==> buffer[i] == ToHex(backgroundColor)
    {
      var hex := ToHex(backgroundColor);
      forall i | 0 <= i < buffer.Length {
        buffer[i] := hex;
      }
    }

    /** `Framebuffer::get_point`: the pixel at (x, y), or None outside the buffer. */
    function GetPoint(x: int, y: int): (p: Option<u32>)
      requires Valid()
      reads buffer
      ensures p.Some? <==> InBounds(width, height, x, y)
      ensures p.Some? ==> 0 <= Index(width, x, y) < buffer.Length && p.value == buffer[Index(width, x, y)]
    {
      if x >= 0 && y >= 0 && x < width && y < height then
        IndexOfPixel(width, height, x, y);
        Some(buffer[width * y + x])
      else
        None
    }

    /** `Framebuffer::point`: paints (x, y) with the current colour; off-buffer writes are dropped. */
    method Point(x: int, y: int)
      requires Valid()
      modifies buffer
      ensures InBounds(width, height, x, y) ==>
        0 <= Index(width, x, y) < buffer.Length &&
        buffer[..] == old(buffer[..])[Index(width, x, y) := ToHex(currentColor)]
      ensures !InBounds(width, height, x, y) ==> buffer[..] == old(buffer[..])
      ensures GetPoint(x, y) == if InBounds(width, height, x, y) then Some(ToHex(currentColor)) else None
      ensures forall px, py :: px != x || py != y ==> GetPoint(px, py) == old(GetPoint(px, py))
    {
      if x >= 0 && y >= 0 && x < width && y < height {
        IndexOfPixel(width, height, x, y);
        var index := width * y + x;
        buffer[index] := ToHex(currentColor);
        forall px, py | px != x || py != y
          ensures GetPoint(px, py) == old(GetPoint(px, py))
        {
          if InBounds(width, height, px, py) {
            IndexInjective(width, height, x, y, px, py);
          }
        }
      }
    }

    /** `Framebuffer::set_background_color`: takes effect at the next `clear`. */
    method SetBackgroundColor(color: Color)
      modifies this
      ensures backgroundColor == color && currentColor == old(currentColor)
      ensures unchanged(buffer)
    {
      backgroundColor := color;
    }

    /** `Framebuffer::set_current_color`. */
    method SetCurrentColor(color: Color)
      modifies this
      ensures currentColor == color && backgroundColor == old(backgroundColor)
      ensures unchanged(buffer)
    {
      currentColor := color;
    }

    /**
     * One span of `fill_polygon`: `for x in from..=to { set_current_color;
     * point(x, y) }`.  Pixels of row y between `from` and `to` take the
     * fill colour; off-buffer ones are dropped.
     */
    method PaintSpan(from: int, to: int, y: int, fillColor: Color)
      requires Valid()
      modifies this, buffer
      ensures forall i :: 0 <= i < buffer.Length ==>
        buffer[i] == if Row(width, i) == y && from <= Column(width, i) <= to then ToHex(fillColor) else old(buffer[i])
      ensures currentColor == if from <= to then fillColor else old(currentColor)
      ensures backgroundColor == old(backgroundColor)
    {
      var x := from;
      while x <= to
        invariant x == from || from < x <= to + 1
        invariant backgroundColor == old(backgroundColor)
        invariant currentColor == if x > from then fillColor else old(currentColor)
        invariant forall i :: 0 <= i < buffer.Length ==>
          buffer[i] == if Row(width, i) == y && from <= Column(width, i) < x then ToHex(fillColor) else old(buffer[i])
      {
        SetCurrentColor(fillColor);
        Point(x, y);
        forall i | 0 <= i < buffer.Length
          ensures buffer[i] == if Row(width, i) == y && from <= Column(width, i) < x + 1 then ToHex(fillColor) else old(buffer[i])
        {
          PixelOfIndex(width, height, i);
          if InBounds(width, height, x, y) {
            IndexOfPixel(width, height, x, y);
          }
        }
        x := x + 1;
      }
    }

    /**
     * One scanline of `fill_polygon`: collect the crossings of row y,
     * sort them, and paint the span between each pair.
     */
    method FillRow(vertices: seq<Vertex2>, y: int, fillColor: Color)
      requires Valid()
      requires |vertices| > 0
      modifies this, buffer
      ensures forall i :: 0 <= i < buffer.Length ==>
        buffer[i] == if Row(width, i) == y && InSpans(SortInts(Crossings(vertices, y, |vertices|)), Column(width, i))
                     then ToHex(fillColor) else old(buffer[i])
      ensures currentColor == if |Crossings(vertices, y, |vertices|)| >= 2 then fillColor else old(currentColor)
      ensures backgroundColor == old(backgroundColor)
    {
      var crossings := CollectCrossings(vertices, y);
      var nodes := SortInts(crossings);
      // `for n in (0..len).step_by(2)` whose body runs only when `n + 1 < len`
      var n := 0;
      while n + 1 < |nodes|
        invariant n % 2 == 0 && n <= |nodes|
        invariant backgroundColor == old(backgroundColor)
        invariant currentColor == if n > 0 then fillColor else old(currentColor)
        invariant forall i :: 0 <= i < buffer.Length ==>
          buffer[i] == if Row(width, i) == y && InSpans(nodes[..n], Column(width, i)) then ToHex(fillColor) else old(buffer[i])
      {
        ghost var before := buffer[..];
        PaintSpan(nodes[n], nodes[n + 1], y, fillColor);
        forall i | 0 <= i < buffer.Length
          ensures buffer[i] == if Row(width, i) == y && InSpans(nodes[..n + 2], Column(width, i)) then ToHex(fillColor) else old(buffer[i])
        {
          var x := Column(width, i);
          InSpansExtend(nodes, n, x);
          assert buffer[i] == if Row(width, i) == y && nodes[n] <= x <= nodes[n + 1] then ToHex(fillColor) else before[i];
          assert before[i] == if Row(width, i) == y && InSpans(nodes[..n], x) then ToHex(fillColor) else old(buffer[i]);
        }
        n := n + 2;
      }
      forall i | 0 <= i < buffer.Length
        ensures InSpans(nodes[..n], Column(width, i)) <==> InSpans(nodes, Column(width, i))
      {
        InSpansWhole(nodes, n, Column(width, i));
      }
    }

    /**
     * `Framebuffer::fill_polygon`: even-odd scanline fill.  For each row
     * from the least to the greatest vertex y it collects the crossings,
     * sorts them and paints the inclusive spans between pairs, setting the
     * current colour to `fillColor` before every pixel.
     *
     * With no vertices, `vertices.len() - 1` wraps around in a release
     * build (a debug build panics there); the one pass, over y = 0, finds
     * no crossing without reading the wrapped index, so nothing changes.
     */
    method FillPolygon(vertices: seq<Vertex2>, fillColor: Color)
      requires Valid()
      modifies this, buffer
      ensures |vertices| == 0 ==> buffer[..] == old(buffer[..]) && currentColor == old(currentColor)
      ensures |vertices| > 0 ==> forall i :: 0 <= i < buffer.Length ==>
        buffer[i] == if Filled(vertices, Column(width, i), Row(width, i)) then ToHex(fillColor) else old(buffer[i])
      ensures |vertices| > 0 ==> currentColor == if PaintsSpan(vertices) then fillColor else old(currentColor)
      ensures backgroundColor == old(backgroundColor)
    {
      if |vertices| == 0 {
        return;
      }
      var minY := MinY(vertices);
      var maxY := MaxY(vertices);
      var y := minY;
      SpansBetweenStep(vertices, minY, minY);
      while y <= maxY
        invariant minY <= y <= maxY + 1
        invariant backgroundColor == old(backgroundColor)
        invariant currentColor == if SpansBetween(vertices, minY, y) then fillColor else old(currentColor)
        invariant forall i :: 0 <= i < buffer.Length ==>
          buffer[i] == if Row(width, i) < y && Filled(vertices, Column(width, i), Row(width, i)) then ToHex(fillColor) else old(buffer[i])
      {
        FillRow(vertices, y, fillColor);
        forall i | 0 <= i < buffer.Length
          ensures buffer[i] == if Row(width, i) < y + 1 && Filled(vertices, Column(width, i), Row(width, i)) then ToHex(fillColor) else old(buffer[i])
        {
          if Row(width, i) == y {
            assert Filled(vertices, Column(width, i), y) == InSpans(SortInts(Crossings(vertices, y, |vertices|)), Column(width, i));
          }
        }
        SpansBetweenStep(vertices, minY, y);
        y := y + 1;
      }
    }
  }
}
