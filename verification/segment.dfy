/**
  The line segment of src/geometry/line.rs: two `u32` screen vertices, the
  slope and y-intercept computed from them, and the rasterizer that walks
  the x range one column at a time and paints `data[x][y]`.

  Coordinates are `u32` but the slope and the walk use `as i32`, which
  reinterprets values of 2^31 and above as negative; the model keeps that
  wrap (Numeric.AsI32) and the lemmas about geometry assume coordinates
  below 2^31 (`Small`). Arithmetic overflow and out-of-range indexing panic
  in the source and are preconditions here.
 */
module Segment {
  import opened Numeric
  import opened Vectors
  import opened Float
  import opened Results

  /** A `Vector3<u32>` vertex; `z` is carried but never read. */
  datatype Vertex = Vertex(x: U32, y: U32, z: U32)

  /** `vertex0.x as i32 - vertex1.x as i32` */
  function Dx(v0: Vertex, v1: Vertex): int {
    AsI32(v0.x) - AsI32(v1.x)
  }

  /** `vertex0.y as i32 - vertex1.y as i32` */
  function Dy(v0: Vertex, v1: Vertex): int {
    AsI32(v0.y) - AsI32(v1.y)
  }

  /** Neither `i32` difference of `slope` overflows. */
  predicate Constructible(v0: Vertex, v1: Vertex) {
    InI32(Dx(v0, v1)) && InI32(Dy(v0, v1))
  }

  /** Both coordinates are below 2^31, so `as i32` keeps their value. */
  predicate Small(v: Vertex) {
    v.x < 0x8000_0000 && v.y < 0x8000_0000
  }

  /** `Line::slope(vertex0, vertex1)`, the quotient `dy / dx` of the `i32`
      differences as `f64`. It is finite exactly when the x coordinates
      differ, and then `slope * dx == dy`; a vertical segment has slope
      `+inf` when `vertex0.y as i32` is the greater, `-inf` when it is the
      smaller, and NaN when the two vertices coincide in x and y. The
      comparison is of the wrapped `i32` values, so a y coordinate at or
      above 2^31 counts as negative. */
  function SlopeOf(v0: Vertex, v1: Vertex): (m: F64)
    requires Constructible(v0, v1)
    ensures m.Finite? <==> v0.x != v1.x
    ensures m.Finite? ==> m.value * Dx(v0, v1) as real == Dy(v0, v1) as real
    ensures m == PosInf <==> v0.x == v1.x && AsI32(v0.y) > AsI32(v1.y)
    ensures m == NegInf <==> v0.x == v1.x && AsI32(v0.y) < AsI32(v1.y)
    ensures m == NaN <==> v0.x == v1.x && v0.y == v1.y
  {
    AsI32Injective(v0.x, v1.x);
    AsI32Injective(v0.y, v1.y);
    Div(Dy(v0, v1), Dx(v0, v1))
  }

  /** `Line::y_intercept(vertex0, vertex1)`: `y0 - x0 * slope` cast to
      `u32`. For a finite slope that is the truncated, saturated value of the
      real expression. A vertical segment yields `u32::MAX` when the slope is
      `-inf` and `x0 > 0` (the difference is `+inf`), and 0 otherwise (it is
      `-inf`, or NaN from `0 * inf` or from a NaN slope). */
  function YIntercept(v0: Vertex, v1: Vertex): (b: U32)
    requires Constructible(v0, v1)
    ensures SlopeOf(v0, v1).Finite? ==>
      Truncates(b, v0.y as real - v0.x as real * SlopeOf(v0, v1).value, U32_MAX)
    ensures v0.x == v1.x ==> b == (if AsI32(v0.y) < AsI32(v1.y) && v0.x > 0 then U32_MAX else 0)
  {
    var m := SlopeOf(v0, v1);
    InterceptCases(v0.y as real, v0.x as real, m);
    ToU32(Sub(Finite(v0.y as real), Mul(Finite(v0.x as real), m)))
  }

  /** `(y - x * m) as u32` for `x >= 0`: the truncated value for a finite
      `m`; for an infinite or NaN `m`, `u32::MAX` exactly when `m` is `-inf`
      and `x > 0`, and 0 otherwise. */
  lemma InterceptCases(y: real, x: real, m: F64)
    requires x >= 0.0
    ensures m.Finite? ==> Truncates(ToU32(Sub(Finite(y), Mul(Finite(x), m))), y - x * m.value, U32_MAX)
    ensures !m.Finite? ==>
      ToU32(Sub(Finite(y), Mul(Finite(x), m))) == if m == NegInf && x > 0.0 then U32_MAX else 0
  {
  }

  datatype Line = Line(vertex0: Vertex, vertex1: Vertex, slope: F64, yIntercept: U32, color: Color)

  /** What `Line::new` builds: the slope and intercept are those of its two
      vertices. No caller changes the public fields afterwards. */
  predicate WellFormed(l: Line) {
    && Constructible(l.vertex0, l.vertex1)
    && l.slope == SlopeOf(l.vertex0, l.vertex1)
    && l.yIntercept == YIntercept(l.vertex0, l.vertex1)
  }

  /** `Line::new(vertex0, vertex1, color)`: never fails, and the line it
      returns keeps the vertices and colour and is well formed. */
  function New(v0: Vertex, v1: Vertex, color: Color): (r: Result<Line>)
    requires Constructible(v0, v1)
    ensures r.Ok? && WellFormed(r.value)
    ensures r.value.vertex0 == v0 && r.value.vertex1 == v1 && r.value.color == color
  {
    Ok(Line(v0, v1, SlopeOf(v0, v1), YIntercept(v0, v1), color))
  }

  // ---------------------------------------------------------------------
  // Rasterizing

  /** `steps`, the signed x distance `x0 - x1` as `i32`. */
  function Steps(l: Line): int {
    Dx(l.vertex0, l.vertex1)
  }

  /** `steps.abs()`, the number of columns painted. */
  function Count(l: Line): nat {
    if Steps(l) < 0 then -Steps(l) else Steps(l)
  }

  /** The walk goes right from vertex0 when `vertex0.x < vertex1.x` (a `u32`
      comparison) and left otherwise. */
  predicate Ascending(l: Line) {
    l.vertex0.x < l.vertex1.x
  }

  /** The column of step `k`. */
  function X(l: Line, k: nat): int {
    if Ascending(l) then AsI32(l.vertex0.x) + k else AsI32(l.vertex0.x) - k
  }

  /** The row of step `k`, before the cast: measured from vertex0 when
      walking right, from vertex1 when walking left. */
  function Y(l: Line, k: nat): real
    requires l.slope.Finite?
  {
    if Ascending(l) then l.vertex0.y as real + k as real * l.slope.value
    else l.vertex1.y as real + (Steps(l) - k) as real * l.slope.value
  }

  /** The cell step `k` paints, `data[x as usize][y as usize]`. */
  function Cell(l: Line, k: nat): (int, nat)
    requires l.slope.Finite?
  {
    (X(l, k), SatUsize(Y(l, k)))
  }

  /** `render` runs to the end on `data` without panicking: `steps.abs()`
      does not overflow, no `i32` step overflows, and every cell it paints
      exists (a negative column would become a huge `usize`). */
  predicate Drawable(l: Line, data: Grid) {
    && WellFormed(l)
    && Steps(l) > -0x8000_0000
    && (Count(l) > 0 ==> l.slope.Finite?)
    && forall k :: 0 <= k < Count(l) ==>
      && InI32(X(l, k))
      && (!Ascending(l) ==> InI32(Steps(l) - k))
      && 0 <= X(l, k) < |data|
      && SatUsize(Y(l, k)) < |data[X(l, k)]|
  }

  /** One of the first `n` steps paints cell `(i, j)`. */
  predicate Painted(l: Line, n: nat, i: int, j: int) {
    exists k :: 0 <= k < n && l.slope.Finite? && Cell(l, k) == (i, j)
  }

  /** `render(&self, data)`: the cells of the `steps.abs()` steps take the
      line's colour and every other cell keeps its value. */
  method Render(l: Line, data: Grid) returns (out: Grid)
    requires Drawable(l, data)
    ensures SameShape(out, data)
    ensures forall i, j :: 0 <= i < |out| && 0 <= j < |out[i]| ==>
      out[i][j] == (if Painted(l, Count(l), i, j) then l.color else data[i][j])
  {
    var steps := AsI32(l.vertex0.x) - AsI32(l.vertex1.x);
    var count := if steps < 0 then -steps else steps;
    out := data;
    var index := 0;
    while index < count
      invariant 0 <= index <= count == Count(l)
      invariant SameShape(out, data)
      invariant forall i, j :: 0 <= i < |out| && 0 <= j < |out[i]| ==>
        out[i][j] == (if Painted(l, index, i, j) then l.color else data[i][j])
    {
      var x, row := StepCell(l, steps, index);
      ghost var before := out;
      out := out[x := out[x][row := l.color]];
      forall i, j | 0 <= i < |out| && 0 <= j < |out[i]|
        ensures out[i][j] == (if Painted(l, index + 1, i, j) then l.color else data[i][j])
      {
        PaintedExtend(l, index, i, j);
        if i != x || j != row {
          assert out[i][j] == before[i][j];
        }
      }
      index := index + 1;
    }
  }

  /** The body of `render`'s loop up to the write: the cell of step
      `index`, computed as the source does it. */
  method StepCell(l: Line, steps: int, index: nat) returns (x: int, row: nat)
    requires l.slope.Finite? && steps == Steps(l)
    ensures (x, row) == Cell(l, index)
  {
    var y: real;
    if l.vertex0.x < l.vertex1.x {
      x := AsI32(l.vertex0.x) + index;
      y := l.vertex0.y as real + index as real * l.slope.value;
      assert y == Y(l, index);
    } else {
      x := AsI32(l.vertex0.x) - index;
      y := l.vertex1.y as real + (steps - index) as real * l.slope.value;
      assert y == Y(l, index);
    }
    assert x == X(l, index);
    row := SatUsize(y);
  }

  /** Step `n` adds its own cell to those of the first `n` steps. */
  lemma PaintedExtend(l: Line, n: nat, i: int, j: int)
    ensures Painted(l, n + 1, i, j) <==> Painted(l, n, i, j) || (l.slope.Finite? && Cell(l, n) == (i, j))
  {
    if Painted(l, n + 1, i, j) && !(l.slope.Finite? && Cell(l, n) == (i, j)) {
      var k :| 0 <= k < n + 1 && l.slope.Finite? && Cell(l, k) == (i, j);
      assert k < n;
    }
  }

  // ---------------------------------------------------------------------
  // What the walk covers

  /** `as i32` is injective on `u32`. */
  lemma AsI32Injective(a: U32, b: U32)
    ensures AsI32(a) == AsI32(b) <==> a == b
  {
  }

  /** A segment paints nothing exactly when it is vertical. */
  lemma VerticalDrawsNothing(l: Line)
    ensures Count(l) == 0 <==> l.vertex0.x == l.vertex1.x
  {
    AsI32Injective(l.vertex0.x, l.vertex1.x);
  }

  /** For small coordinates the walk takes `|x0 - x1|` steps, and step `k`
      is `k` columns from vertex0 on the way to vertex1, which it never
      reaches: the last vertex's column is not painted. */
  lemma ColumnsTowardEnd(l: Line, k: nat)
    requires Small(l.vertex0) && Small(l.vertex1) && k < Count(l)
    ensures Count(l) == if l.vertex0.x < l.vertex1.x then l.vertex1.x - l.vertex0.x else l.vertex0.x - l.vertex1.x
    ensures l.vertex0.x < l.vertex1.x ==> l.vertex0.x <= X(l, k) < l.vertex1.x
    ensures l.vertex1.x < l.vertex0.x ==> l.vertex1.x < X(l, k) <= l.vertex0.x
    ensures X(l, k) - l.vertex0.x == k || l.vertex0.x - X(l, k) == k
  {
  }

  /** Every painted point lies on the line through the two vertices:
      `y == y0 + (x - x0) * slope`, whichever way the walk goes. */
  lemma CellsOnLine(l: Line, k: nat)
    requires WellFormed(l) && Small(l.vertex0) && Small(l.vertex1) && k < Count(l)
    ensures l.slope.Finite?
    ensures Y(l, k) == l.vertex0.y as real + (X(l, k) - l.vertex0.x) as real * l.slope.value
  {
    VerticalDrawsNothing(l);
    if !Ascending(l) {
      DescendingOnLine(l, k);
    }
  }

  /** CellsOnLine for a walk to the left, which measures from vertex1. */
  lemma DescendingOnLine(l: Line, k: nat)
    requires WellFormed(l) && Small(l.vertex0) && Small(l.vertex1) && l.slope.Finite?
    requires !Ascending(l) && k < Count(l)
    ensures Y(l, k) == l.vertex0.y as real + (X(l, k) - l.vertex0.x) as real * l.slope.value
  {
    var m := l.slope.value;
    var x0, x1 := l.vertex0.x, l.vertex1.x;
    var y0, y1 := l.vertex0.y as real, l.vertex1.y as real;
    assert Steps(l) == x0 - x1;
    var back: int := -(k as int);
    assert X(l, k) - x0 == back;
    var dx, dy := (x0 - x1) as real, y0 - y1;
    assert m * dx == dy;
    assert (Steps(l) - k) as real == dx - k as real;
    WalkBack(m, dx, dy, y1, k as real);
  }

  /** Walking back `k` steps from the far end along slope `m` lands where
      walking `-k` steps from the near end does. */
  lemma WalkBack(m: real, dx: real, dy: real, y1: real, k: real)
    requires m * dx == dy
    ensures y1 + (dx - k) * m == (y1 + dy) + -k * m
  {
    assert (dx - k) * m == m * dx - k * m;
  }

  /** The first painted point is vertex0 itself. */
  lemma FirstCellIsVertex0(l: Line)
    requires WellFormed(l) && Small(l.vertex0) && Small(l.vertex1) && Count(l) > 0
    ensures l.slope.Finite? && X(l, 0) == l.vertex0.x && Y(l, 0) == l.vertex0.y as real
  {
    CellsOnLine(l, 0);
  }

  /** At most one cell per column is painted. */
  lemma OneCellPerColumn(l: Line, n: nat, i: int, j1: int, j2: int)
    requires Painted(l, n, i, j1) && Painted(l, n, i, j2)
    ensures j1 == j2
  {
    var k1 :| 0 <= k1 < n && l.slope.Finite? && Cell(l, k1) == (i, j1);
    var k2 :| 0 <= k2 < n && l.slope.Finite? && Cell(l, k2) == (i, j2);
    assert X(l, k1) == X(l, k2);
  }

  /** No cell in the column of vertex1 is painted. */
  lemma EndColumnUnpainted(l: Line, j: int)
    requires Small(l.vertex0) && Small(l.vertex1)
    ensures !Painted(l, Count(l), l.vertex1.x, j)
  {
    forall k | 0 <= k < Count(l)
      ensures X(l, k) != l.vertex1.x
    {
      ColumnsTowardEnd(l, k);
    }
  }

  // ---------------------------------------------------------------------
  // Slope and intercept under swapping the vertices

  /** A non-vertical segment has the same slope in both directions. */
  lemma SlopeSymmetric(v0: Vertex, v1: Vertex)
    requires Constructible(v0, v1) && Constructible(v1, v0) && v0.x != v1.x
    ensures SlopeOf(v0, v1) == SlopeOf(v1, v0)
  {
    var a, b := SlopeOf(v0, v1), SlopeOf(v1, v0);
    var dx := Dx(v0, v1) as real;
    assert Dx(v1, v0) as real == -dx && Dy(v1, v0) == -Dy(v0, v1);
    assert (a.value - b.value) * dx == 0.0;
  }

  /** A vertical segment with distinct ends has opposite infinite slopes in
      the two directions. */
  lemma VerticalSlopeFlips(v0: Vertex, v1: Vertex)
    requires Constructible(v0, v1) && Constructible(v1, v0) && v0.x == v1.x && v0.y != v1.y
    ensures SlopeOf(v0, v1) == PosInf <==> SlopeOf(v1, v0) == NegInf
    ensures SlopeOf(v0, v1) == PosInf || SlopeOf(v0, v1) == NegInf
  {
    AsI32Injective(v0.y, v1.y);
  }

  /** For small coordinates and a non-vertical segment, both vertices give
      the same intercept: `y0 - x0 * m == y1 - x1 * m`. */
  lemma InterceptSymmetric(v0: Vertex, v1: Vertex)
    requires Small(v0) && Small(v1) && v0.x != v1.x
    requires Constructible(v0, v1) && Constructible(v1, v0)
    ensures YIntercept(v0, v1) == YIntercept(v1, v0)
  {
    FiniteIntercept(v0, v1);
    FiniteIntercept(v1, v0);
    InterceptsAgree(v0, v1);
  }

  /** `y0 - x0 * slope` in exact arithmetic, for a non-vertical segment. */
  function ExactIntercept(v0: Vertex, v1: Vertex): real
    requires Constructible(v0, v1) && v0.x != v1.x
  {
    v0.y as real - v0.x as real * SlopeOf(v0, v1).value
  }

  /** For a non-vertical segment the intercept is the exact one cast to `u32`. */
  lemma FiniteIntercept(v0: Vertex, v1: Vertex)
    requires Constructible(v0, v1) && v0.x != v1.x
    ensures YIntercept(v0, v1) == SatU32(ExactIntercept(v0, v1))
  {
  }

  /** The exact intercepts through either vertex agree. */
  lemma InterceptsAgree(v0: Vertex, v1: Vertex)
    requires Small(v0) && Small(v1) && v0.x != v1.x
    requires Constructible(v0, v1) && Constructible(v1, v0)
    ensures ExactIntercept(v0, v1) == ExactIntercept(v1, v0)
  {
    var m, n := SlopeOf(v0, v1).value, SlopeOf(v1, v0).value;
    var x0, y0, x1, y1 := v0.x as real, v0.y as real, v1.x as real, v1.y as real;
    assert n == m by {
      SlopeSymmetric(v0, v1);
    }
    var dx, dy := Dx(v0, v1) as real, Dy(v0, v1) as real;
    assert m * dx == dy;
    assert dx == x0 - x1 && dy == y0 - y1;
    SameIntercept(m, dx, dy, x0, y0, x1, y1);
  }

  lemma SameIntercept(m: real, dx: real, dy: real, x0: real, y0: real, x1: real, y1: real)
    requires m * dx == dy && dx == x0 - x1 && dy == y0 - y1
    ensures y0 - x0 * m == y1 - x1 * m
  {
    assert m * (x0 - x1) == x0 * m - x1 * m;
  }
}
