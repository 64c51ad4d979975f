/**
  The PNG framebuffer of src/render/png.rs: a `width` x `height` colour image
  (`image[row][column]`) and a depth buffer of `width * height` slots that
  starts at negative infinity. A pixel write is bounds-checked and then
  depth-tested (strictly nearer wins); finishing the image flips the rows and
  serialises them to RGB bytes.

  The state is an immutable value and every operation returns the next state.
  Arithmetic on `u32` follows a debug build, where overflow panics: the
  overflows become preconditions.
 */
module Framebuffer {
  import opened Numeric
  import opened Vectors

  /** An `f64` depth: the initial negative infinity, or a finite value. */
  datatype Depth = NegInf | Finite(z: real)

  /** `stored < z`, the depth test of `set_pixel`. */
  predicate Nearer(stored: Depth, z: real) {
    stored.NegInf? || stored.z < z
  }

  /** `a <= b` on depths. */
  predicate DepthLe(a: Depth, b: Depth) {
    a.NegInf? || (b.Finite? && a.z <= b.z)
  }

  datatype Png = Png(width: U32, height: U32, zindex: seq<Depth>, image: Grid)

  /** `g` has `h` rows of `w` pixels. */
  predicate Rectangular(g: Grid, w: nat, h: nat) {
    |g| == h && forall r :: 0 <= r < h ==> |g[r]| == w
  }

  /** What `new` establishes and every operation keeps. */
  predicate Valid(s: Png) {
    && s.width * s.height <= U32_MAX
    && |s.zindex| == s.width * s.height
    && Rectangular(s.image, s.width, s.height)
  }

  /** `PNG::new(width, height)`: every depth slot is negative infinity and
      every pixel black. The `u32` product `width * height` must not overflow. */
  function New(width: U32, height: U32): (s: Png)
    requires width * height <= U32_MAX
    ensures Valid(s) && s.width == width && s.height == height
    ensures forall i :: 0 <= i < |s.zindex| ==> s.zindex[i] == NegInf
    ensures forall r, c :: 0 <= r < height && 0 <= c < width ==> s.image[r][c] == Black
  {
    Png(width, height, seq(width * height, _ => NegInf), seq(height, _ => seq(width, _ => Black)))
  }

  /** `get_size` */
  function GetSize(s: Png): (U32, U32) {
    (s.width, s.height)
  }

  /** The bounds check of `set_pixel` passes: `0 <= x <= width - 1` and
      `0 <= y <= height - 1`. */
  predicate InBounds(s: Png, p: Vec3) {
    0.0 <= p.x <= (s.width - 1) as real && 0.0 <= p.y <= (s.height - 1) as real
  }

  /** The depth slot `set_pixel` uses: `(x + y * width) as usize`. */
  function Slot(width: U32, p: Vec3): nat {
    SatUsize(p.x + p.y * width as real)
  }

  /** The image cell `set_pixel` writes: `image[y as usize][x as usize]`. */
  function Row(p: Vec3): nat { SatUsize(p.y) }
  function Col(p: Vec3): nat { SatUsize(p.x) }

  /** The preconditions of `set_pixel`: `width - 1` must not underflow, and
      neither may `height - 1`, which is only evaluated when `x` is in range. */
  predicate CanSet(s: Png, p: Vec3) {
    && Valid(s)
    && s.width >= 1
    && (s.height >= 1 || p.x < 0.0 || p.x > (s.width - 1) as real)
  }

  /** For an in-bounds point the depth slot exists (so the source's
      `get(..).is_none()` guard never fires) and so does the image cell. */
  lemma SlotInRange(s: Png, p: Vec3)
    requires Valid(s) && InBounds(s, p)
    ensures Slot(s.width, p) < |s.zindex|
    ensures Row(p) < |s.image| && Col(p) < |s.image[Row(p)]|
  {
    var w, h := s.width, s.height;
    var slot, row, col := Slot(w, p), Row(p), Col(p);
    PointBelowArea(p.x, p.y, w, h);
    TruncatesBelow(slot, p.x + p.y * w as real, USIZE_MAX, w * h);
    TruncatesBelow(row, p.y, USIZE_MAX, h);
    TruncatesBelow(col, p.x, USIZE_MAX, w);
    assert |s.image[row]| == w;
  }

  /** `x + y * w` of a point of a `w` by `h` rectangle stays below `w * h`. */
  lemma PointBelowArea(x: real, y: real, w: nat, h: nat)
    requires 0.0 <= x <= w as real - 1.0 && 0.0 <= y <= h as real - 1.0
    ensures 0.0 <= x + y * w as real < (w * h) as real
  {
    var wr, hr := w as real, h as real;
    assert y * wr >= 0.0;
    var d := hr - 1.0 - y;
    assert d * wr >= 0.0;
    assert (hr - 1.0) * wr - y * wr == d * wr;
    assert (hr - 1.0) * wr == wr * hr - wr;
    assert (w * h) as real == wr * hr;
  }

  /** A cast of a value below `bound` stays below `bound`. */
  lemma TruncatesBelow(n: int, v: real, max: nat, bound: nat)
    requires Truncates(n, v, max) && 0.0 <= v < bound as real && bound <= max
    ensures n < bound
  {
  }

  /** The compare-and-write at the end of `set_pixel`, for a given slot and
      cell. */
  function Update(s: Png, slot: nat, row: nat, col: nat, z: real, color: Color): Png
    requires slot < |s.zindex| && row < |s.image| && col < |s.image[row]|
  {
    if Nearer(s.zindex[slot], z) then
      s.(zindex := s.zindex[slot := Finite(z)], image := s.image[row := s.image[row][col := color]])
    else s
  }

  /** `set_pixel(pixel, color)`. An out-of-bounds point changes nothing.
      Otherwise the depth test is strict: when the stored depth is below `z`
      the slot takes `z` and the cell takes the colour, else nothing changes.
      Only that one slot and one cell can change, no stored depth decreases,
      and the dimensions stay put. */
  function SetPixel(s: Png, p: Vec3, color: Color): (r: Png)
    requires CanSet(s, p)
    ensures Valid(r) && r.width == s.width && r.height == s.height
    ensures !InBounds(s, p) ==> r == s
    ensures InBounds(s, p) ==> Slot(s.width, p) < |s.zindex| && Row(p) < |s.image| && Col(p) < s.width
    ensures InBounds(s, p) && Nearer(s.zindex[Slot(s.width, p)], p.z) ==>
      r.zindex[Slot(s.width, p)] == Finite(p.z) && r.image[Row(p)][Col(p)] == color
    ensures InBounds(s, p) && !Nearer(s.zindex[Slot(s.width, p)], p.z) ==> r == s
    ensures forall i :: 0 <= i < |r.zindex| && i != Slot(s.width, p) ==> r.zindex[i] == s.zindex[i]
    ensures forall i :: 0 <= i < |r.zindex| ==> DepthLe(s.zindex[i], r.zindex[i])
    ensures forall i, j :: 0 <= i < |r.image| && 0 <= j < |r.image[i]| && (i != Row(p) || j != Col(p)) ==>
      r.image[i][j] == s.image[i][j]
  {
    if !InBounds(s, p) then s
    else
      var slot := Slot(s.width, p);
      SlotInRange(s, p);
      // `self.zindex.get(zindex).is_none()` cannot hold here (SlotInRange)
      if slot >= |s.zindex| then s
      else Update(s, slot, Row(p), Col(p), p.z, color)
  }

  /** In bounds, `set_pixel` is the compare-and-write at its slot and cell. */
  lemma SetPixelIsUpdate(s: Png, p: Vec3, color: Color)
    requires CanSet(s, p) && InBounds(s, p)
    ensures Slot(s.width, p) < |s.zindex| && Row(p) < |s.image| && Col(p) < |s.image[Row(p)]|
    ensures SetPixel(s, p, color) == Update(s, Slot(s.width, p), Row(p), Col(p), p.z, color)
  {
    SlotInRange(s, p);
  }

  /** Writing the same pixel twice in a row is the same as writing it once. */
  lemma SetPixelIdempotent(s: Png, p: Vec3, color: Color)
    requires CanSet(s, p)
    ensures SetPixel(SetPixel(s, p, color), p, color) == SetPixel(s, p, color)
  {
  }

  /** `get_size` is the same after any `set_pixel`. */
  lemma SetPixelKeepsSize(s: Png, p: Vec3, color: Color)
    requires CanSet(s, p)
    ensures GetSize(SetPixel(s, p, color)) == GetSize(s)
  {
  }

  /** A compare-and-write keeps the state valid and its dimensions. */
  lemma UpdateValid(s: Png, slot: nat, row: nat, col: nat, z: real, color: Color)
    requires Valid(s) && slot < |s.zindex| && row < |s.image| && col < |s.image[row]|
    ensures Valid(Update(s, slot, row, col, z, color))
    ensures Update(s, slot, row, col, z, color).width == s.width
    ensures Update(s, slot, row, col, z, color).height == s.height
  {
  }

  /** Two compare-and-writes commute when they touch different slots and
      different cells, or the same slot and cell with different depths. */
  lemma UpdatesCommute(s: Png, i: nat, r1: nat, c1: nat, z1: real, a: Color,
                       j: nat, r2: nat, c2: nat, z2: real, b: Color)
    requires i < |s.zindex| && r1 < |s.image| && c1 < |s.image[r1]|
    requires j < |s.zindex| && r2 < |s.image| && c2 < |s.image[r2]|
    requires (i != j && (r1 != r2 || c1 != c2)) || (i == j && r1 == r2 && c1 == c2 && z1 != z2)
    ensures Update(Update(s, i, r1, c1, z1, a), j, r2, c2, z2, b)
         == Update(Update(s, j, r2, c2, z2, b), i, r1, c1, z1, a)
  {
    var ab := Update(Update(s, i, r1, c1, z1, a), j, r2, c2, z2, b);
    var ba := Update(Update(s, j, r2, c2, z2, b), i, r1, c1, z1, a);
    assert ab.zindex == ba.zindex;
    assert |ab.image| == |ba.image|;
    forall r | 0 <= r < |ab.image|
      ensures ab.image[r] == ba.image[r]
    {
      assert |ab.image[r]| == |ba.image[r]|;
      forall c | 0 <= c < |ab.image[r]|
        ensures ab.image[r][c] == ba.image[r][c]
      {
      }
    }
  }

  // ---------------------------------------------------------------------
  // The depth slot of the written cell

  /** The row-major slot of the cell `set_pixel` writes,
      `(y as usize) * width + (x as usize)`. The slot `set_pixel` uses can
      differ from it: they agree whenever `y` is an integer, and differ
      exactly when `frac(x) + frac(y) * width >= 1` (SlotIsCellSlotIff). */
  function CellSlot(width: U32, p: Vec3): nat {
    RowStart(Row(p), width) + Col(p)
  }

  lemma CellSlotInRange(s: Png, p: Vec3)
    requires Valid(s) && InBounds(s, p)
    ensures CellSlot(s.width, p) < |s.zindex|
    ensures Row(p) < |s.image| && Col(p) < |s.image[Row(p)]|
  {
    SlotInRange(s, p);
    CellBelowArea(Row(p), Col(p), s.width, s.height);
  }

  /** The slot of a cell of a `w` by `h` grid is below `w * h`. */
  lemma CellBelowArea(row: nat, col: nat, w: nat, h: nat)
    requires row < h && col < w
    ensures RowStart(row, w) + col < w * h
  {
    RowStartMonotone(row, h, w);
    RowStartIsProduct(h, w);
  }

  /** Distinct cells have distinct slots. */
  lemma {:induction false} CellSlotInjective(r1: nat, c1: nat, r2: nat, c2: nat, w: nat)
    requires c1 < w && c2 < w && (r1 != r2 || c1 != c2)
    ensures RowStart(r1, w) + c1 != RowStart(r2, w) + c2
  {
    if r1 < r2 {
      RowStartMonotone(r1, r2, w);
    } else if r2 < r1 {
      RowStartMonotone(r2, r1, w);
    }
  }

  /** Every row-major slot with no depth yet belongs to a black cell: no
      cell has been coloured without its own slot taking a depth. */
  predicate Coherent(s: Png) {
    forall r, c :: 0 <= r < |s.image| && 0 <= c < |s.image[r]| && RowStart(r, s.width) + c < |s.zindex| ==>
      (s.zindex[RowStart(r, s.width) + c].NegInf? ==> s.image[r][c] == Black)
  }

  /** `set_pixel` with the depth slot taken from the written cell. The
      bounds check and the strict depth test are those of `set_pixel`; what
      differs is that the tested and stored depth is that of the cell the
      colour goes to. */
  function SetPixelCell(s: Png, p: Vec3, color: Color): (r: Png)
    requires CanSet(s, p)
    ensures Valid(r) && r.width == s.width && r.height == s.height
    ensures !InBounds(s, p) ==> r == s
    ensures InBounds(s, p) ==> CellSlot(s.width, p) < |s.zindex| && Row(p) < |s.image| && Col(p) < s.width
    ensures InBounds(s, p) && Nearer(s.zindex[CellSlot(s.width, p)], p.z) ==>
      r.zindex[CellSlot(s.width, p)] == Finite(p.z) && r.image[Row(p)][Col(p)] == color
    ensures InBounds(s, p) && !Nearer(s.zindex[CellSlot(s.width, p)], p.z) ==> r == s
    ensures forall i :: 0 <= i < |r.zindex| && i != CellSlot(s.width, p) ==> r.zindex[i] == s.zindex[i]
    ensures forall i, j :: 0 <= i < |r.image| && 0 <= j < |r.image[i]| && (i != Row(p) || j != Col(p)) ==>
      r.image[i][j] == s.image[i][j]
  {
    if !InBounds(s, p) then s
    else
      CellSlotInRange(s, p);
      Update(s, CellSlot(s.width, p), Row(p), Col(p), p.z, color)
  }

  lemma SetPixelCellIsUpdate(s: Png, p: Vec3, color: Color)
    requires CanSet(s, p) && InBounds(s, p)
    ensures CellSlot(s.width, p) < |s.zindex| && Row(p) < |s.image| && Col(p) < |s.image[Row(p)]|
    ensures SetPixelCell(s, p, color) == Update(s, CellSlot(s.width, p), Row(p), Col(p), p.z, color)
  {
    CellSlotInRange(s, p);
  }

  /** A new framebuffer is coherent, and so is every state SetPixelCell
      leaves behind. */
  lemma NewCoherent(width: U32, height: U32)
    requires width * height <= U32_MAX
    ensures Coherent(New(width, height))
  {
  }

  lemma SetPixelCellCoherent(s: Png, p: Vec3, color: Color)
    requires CanSet(s, p) && Coherent(s)
    ensures Coherent(SetPixelCell(s, p, color))
  {
    if InBounds(s, p) {
      var r := SetPixelCell(s, p, color);
      var w := s.width;
      forall row, c | 0 <= row < |r.image| && 0 <= c < |r.image[row]| && RowStart(row, w) + c < |r.zindex|
        ensures r.zindex[RowStart(row, w) + c].NegInf? ==> r.image[row][c] == Black
      {
        if row != Row(p) || c != Col(p) {
          CellSlotInjective(row, c, Row(p), Col(p), w);
        }
      }
    }
  }

  /** Writes with SetPixelCell commute unless both are in bounds and hit the
      same cell at the same depth, whatever their coordinates. */
  lemma SetPixelCellCommutes(s: Png, p: Vec3, c: Color, q: Vec3, d: Color)
    requires CanSet(s, p) && CanSet(s, q)
    requires InBounds(s, p) && InBounds(s, q) ==> Row(p) != Row(q) || Col(p) != Col(q) || p.z != q.z
    ensures SetPixelCell(SetPixelCell(s, p, c), q, d) == SetPixelCell(SetPixelCell(s, q, d), p, c)
  {
    if InBounds(s, p) && InBounds(s, q) {
      var i, j := CellSlot(s.width, p), CellSlot(s.width, q);
      SetPixelCellIsUpdate(s, p, c);
      SetPixelCellIsUpdate(s, q, d);
      var sp := Update(s, i, Row(p), Col(p), p.z, c);
      var sq := Update(s, j, Row(q), Col(q), q.z, d);
      UpdateValid(s, i, Row(p), Col(p), p.z, c);
      UpdateValid(s, j, Row(q), Col(q), q.z, d);
      SetPixelCellIsUpdate(sp, q, d);
      SetPixelCellIsUpdate(sq, p, c);
      if Row(p) != Row(q) || Col(p) != Col(q) {
        CellSlotInjective(Row(p), Col(p), Row(q), Col(q), s.width);
      }
      UpdatesCommute(s, i, Row(p), Col(p), p.z, c, j, Row(q), Col(q), q.z, d);
    }
  }

  /** Of two writes to one cell, the nearer decides the colour, whichever
      arrives first, as long as it beats the depth already stored there. */
  lemma NearerWriteWins(s: Png, p: Vec3, c: Color, q: Vec3, d: Color)
    requires CanSet(s, p) && InBounds(s, p) && Row(q) == Row(p) && Col(q) == Col(p) && q.z < p.z
    requires CellSlot(s.width, p) < |s.zindex| && Nearer(s.zindex[CellSlot(s.width, p)], p.z)
    ensures SetPixelCell(SetPixelCell(s, q, d), p, c).image[Row(p)][Col(p)] == c
    ensures SetPixelCell(SetPixelCell(s, p, c), q, d).image[Row(p)][Col(p)] == c
  {
    var i := CellSlot(s.width, p);
    assert CanSet(s, q);
    var sq := SetPixelCell(s, q, d);
    assert Nearer(sq.zindex[i], p.z);
    SetPixelCellCommutes(s, p, c, q, d);
  }

  // ---------------------------------------------------------------------
  // When the source's slot is the written cell's slot

  /** A point with integer coordinates, as the rasterizers produce. */
  predicate Integral(p: Vec3) {
    p.x == p.x.Floor as real && p.y == p.y.Floor as real
  }

  /** A point whose row coordinate `y` is an integer. */
  predicate IntegralRow(p: Vec3) {
    p.y == p.y.Floor as real
  }

  /** The fractional part of a coordinate. */
  function Frac(v: real): real {
    v - v.Floor as real
  }

  /** The slot `set_pixel` uses is the written cell's slot exactly when
      `frac(x) + frac(y) * width < 1`: the two agree whenever `y` is an
      integer, whatever `x` is, and differ once the fractional parts reach a
      whole slot. */
  lemma SlotIsCellSlotIff(s: Png, p: Vec3)
    requires Valid(s) && InBounds(s, p)
    ensures Slot(s.width, p) == CellSlot(s.width, p) <==> Frac(p.x) + Frac(p.y) * s.width as real < 1.0
  {
    SlotBounds(s, p);
    CellOffset(s, p);
  }

  /** Inside the image the `as usize` cast does not saturate: the slot
      `set_pixel` uses is the integer part of `x + y * width`. */
  lemma SlotBounds(s: Png, p: Vec3)
    requires Valid(s) && InBounds(s, p)
    ensures var sum := p.x + p.y * s.width as real;
      Slot(s.width, p) as real <= sum < Slot(s.width, p) as real + 1.0
  {
    var w, h := s.width, s.height;
    var sum := p.x + p.y * w as real;
    PointBelowArea(p.x, p.y, w, h);
    var area := w * h;
    assert area as real <= U32_MAX as real;
    assert 0.0 <= sum < (USIZE_MAX + 1) as real;
  }

  /** `x + y * width` exceeds the written cell's slot by the fractional
      parts `frac(x) + frac(y) * width`. */
  lemma CellOffset(s: Png, p: Vec3)
    requires InBounds(s, p)
    ensures p.x + p.y * s.width as real == CellSlot(s.width, p) as real + (Frac(p.x) + Frac(p.y) * s.width as real)
    ensures 0.0 <= Frac(p.x) + Frac(p.y) * s.width as real
  {
    assert Row(p) == p.y.Floor && Col(p) == p.x.Floor;
    RowStartIsProduct(Row(p), s.width);
    SplitSum(p.x, p.y, s.width, CellSlot(s.width, p));
  }

  /** `x + y * w` is `floor(y) * w + floor(x)` plus the fractional parts. */
  lemma SplitSum(x: real, y: real, w: nat, cell: int)
    requires cell == y.Floor * w + x.Floor
    ensures x + y * w as real == cell as real + (Frac(x) + Frac(y) * w as real)
    ensures 0.0 <= Frac(x) + Frac(y) * w as real
  {
    assert y * w as real == y.Floor as real * w as real + Frac(y) * w as real;
    assert (y.Floor * w) as real == y.Floor as real * w as real;
    assert 0.0 <= Frac(y) * w as real;
  }

  /** For points with an integer row the slot `set_pixel` uses is the cell's
      slot. */
  lemma IntegralSlot(s: Png, p: Vec3)
    requires Valid(s) && InBounds(s, p) && IntegralRow(p)
    ensures Slot(s.width, p) == CellSlot(s.width, p)
  {
    SlotIsCellSlotIff(s, p);
  }

  /** On points with an integer row `set_pixel` and SetPixelCell agree. */
  lemma SetPixelOnIntegral(s: Png, p: Vec3, color: Color)
    requires CanSet(s, p) && IntegralRow(p)
    ensures SetPixel(s, p, color) == SetPixelCell(s, p, color)
  {
    if InBounds(s, p) {
      IntegralSlot(s, p);
      SetPixelIsUpdate(s, p, color);
      SetPixelCellIsUpdate(s, p, color);
    }
  }

  /** Write-order invariance of `set_pixel` for integer points: two writes
      commute unless they hit the same pixel at the same depth. */
  lemma WriteOrderInvariance(s: Png, p: Vec3, c: Color, q: Vec3, d: Color)
    requires CanSet(s, p) && CanSet(s, q) && Integral(p) && Integral(q)
    requires p.x != q.x || p.y != q.y || p.z != q.z
    ensures SetPixel(SetPixel(s, p, c), q, d) == SetPixel(SetPixel(s, q, d), p, c)
  {
    var sp := SetPixelCell(s, p, c);
    var sq := SetPixelCell(s, q, d);
    assert SetPixel(SetPixel(s, p, c), q, d) == SetPixelCell(sp, q, d) by {
      SetPixelOnIntegral(s, p, c);
      SetPixelOnIntegral(sp, q, d);
    }
    assert SetPixel(SetPixel(s, q, d), p, c) == SetPixelCell(sq, p, c) by {
      SetPixelOnIntegral(s, q, d);
      SetPixelOnIntegral(sq, p, c);
    }
    if InBounds(s, p) && InBounds(s, q) && (p.x != q.x || p.y != q.y) {
      IntegralCellsDiffer(s, p, q);
    }
    SetPixelCellCommutes(s, p, c, q, d);
  }

  /** Distinct in-bounds integer points are distinct cells. */
  lemma IntegralCellsDiffer(s: Png, p: Vec3, q: Vec3)
    requires InBounds(s, p) && InBounds(s, q) && Integral(p) && Integral(q)
    requires p.x != q.x || p.y != q.y
    ensures Row(p) != Row(q) || Col(p) != Col(q)
  {
  }

  /** With a fractional row coordinate, `set_pixel` can store the depth in
      the slot of another cell: on a 2 x 2 image, the write at x = 0, y = 0.5
      colours cell (row 0, column 0) but fills the depth slot of cell
      (row 0, column 1), leaving the depth buffer and the image out of step,
      and a second write at x = 1, y = 0 then lands or not depending on the
      order of the two writes. */
  lemma SetPixelFractionalMismatch()
    ensures var s := New(2, 2);
            var p, q := Vec3(0.0, 0.5, 1.0), Vec3(1.0, 0.0, 0.0);
            && !Coherent(SetPixel(s, p, White))
            && SetPixel(SetPixel(s, p, White), q, White) != SetPixel(SetPixel(s, q, White), p, White)
  {
    var s := New(2, 2);
    var p, q := Vec3(0.0, 0.5, 1.0), Vec3(1.0, 0.0, 0.0);
    assert Slot(2, p) == 1 && Row(p) == 0 && Col(p) == 0;
    assert Slot(2, q) == 1 && Row(q) == 0 && Col(q) == 1;
    var sp := SetPixel(s, p, White);
    assert sp.zindex[0] == NegInf && sp.image[0][0] == White;
    var spq := SetPixel(sp, q, White);
    var sqp := SetPixel(SetPixel(s, q, White), p, White);
    assert spq.image[0][1] == Black;
    assert sqp.image[0][1] == White;
  }

  /** The same write breaks the z-buffer reading of the source's render
      pass: the slot of cell (row 0, column 1) takes depth 1 although no
      write lands on that cell, so it should still be at negative infinity. */
  lemma SetPixelsFractionalNotZBuffer()
    ensures var ws := [Write(Vec3(0.0, 0.5, 1.0), White)];
            && SetPixels(New(2, 2), ws).zindex[RowStart(0, 2) + 1] == Finite(1.0)
            && PixelAfter(2, 2, ws, 0, 1, NegInf, Black) == (NegInf, Black)
  {
    var s := New(2, 2);
    var p := Vec3(0.0, 0.5, 1.0);
    var ws := [Write(p, White)];
    assert Slot(2, p) == 1 && Row(p) == 0 && Col(p) == 0;
    assert SetPixels(s, ws) == SetPixels(SetPixel(s, p, White), ws[1..]);
    assert !Hits(2, 2, ws[0], 0, 1);
  }

  /** A pixel write: where and in which colour. */
  datatype Write = Write(p: Vec3, color: Color)

  /** A render pass: `set_pixel` applied to each write in turn. Whatever the
      writes are, the dimensions stay put and no stored depth decreases. */
  function SetPixels(s: Png, ws: seq<Write>): (r: Png)
    requires Valid(s) && s.width >= 1 && s.height >= 1
    ensures Valid(r) && r.width == s.width && r.height == s.height
    ensures forall i :: 0 <= i < |s.zindex| ==> DepthLe(s.zindex[i], r.zindex[i])
    decreases |ws|
  {
    if |ws| == 0 then s
    else
      var s1 := SetPixel(s, ws[0].p, ws[0].color);
      var r := SetPixels(s1, ws[1..]);
      assert forall i :: 0 <= i < |s.zindex| ==> DepthLe(s1.zindex[i], r.zindex[i]);
      r
  }

  /** `get_size` never changes over a render pass. */
  lemma SizeNeverChanges(s: Png, ws: seq<Write>)
    requires Valid(s) && s.width >= 1 && s.height >= 1
    ensures GetSize(SetPixels(s, ws)) == GetSize(s)
  {
  }

  /** A render pass with the corrected write. */
  function SetPixelsCell(s: Png, ws: seq<Write>): (r: Png)
    requires Valid(s) && s.width >= 1 && s.height >= 1
    ensures Valid(r) && r.width == s.width && r.height == s.height
    decreases |ws|
  {
    if |ws| == 0 then s else SetPixelsCell(SetPixelCell(s, ws[0].p, ws[0].color), ws[1..])
  }

  /** When every write has an integer row, a render pass with `set_pixel` is
      one with the corrected write. */
  lemma {:induction false} SetPixelsOnIntegral(s: Png, ws: seq<Write>)
    requires Valid(s) && s.width >= 1 && s.height >= 1
    requires forall i :: 0 <= i < |ws| ==> IntegralRow(ws[i].p)
    ensures SetPixels(s, ws) == SetPixelsCell(s, ws)
    decreases |ws|
  {
    if |ws| > 0 {
      assert IntegralRow(ws[0].p);
      SetPixelOnIntegral(s, ws[0].p, ws[0].color);
      SetPixelsOnIntegral(SetPixel(s, ws[0].p, ws[0].color), ws[1..]);
    }
  }

  /** A corrected render pass keeps every unwritten slot's cell black. */
  lemma {:induction false} SetPixelsCoherent(s: Png, ws: seq<Write>)
    requires Valid(s) && s.width >= 1 && s.height >= 1 && Coherent(s)
    ensures Coherent(SetPixelsCell(s, ws))
    decreases |ws|
  {
    if |ws| > 0 {
      SetPixelCellCoherent(s, ws[0].p, ws[0].color);
      SetPixelsCoherent(SetPixelCell(s, ws[0].p, ws[0].color), ws[1..]);
    }
  }

  // ---------------------------------------------------------------------
  // The depth buffer, pixel by pixel

  /** Write `wr` passes the bounds check of a `width` x `height` framebuffer
      and lands on cell (`r`, `c`). */
  predicate Hits(width: U32, height: U32, wr: Write, r: nat, c: nat) {
    && 0.0 <= wr.p.x <= (width - 1) as real && 0.0 <= wr.p.y <= (height - 1) as real
    && Row(wr.p) == r && Col(wr.p) == c
  }

  /** What a z-buffer makes of one pixel, from its depth `d` and colour
      `col`: only the writes that land on it count, and each one that is
      strictly nearer replaces both. */
  function PixelAfter(width: U32, height: U32, ws: seq<Write>, r: nat, c: nat, d: Depth, col: Color): (Depth, Color)
    decreases |ws|
  {
    if |ws| == 0 then (d, col)
    else if Hits(width, height, ws[0], r, c) && Nearer(d, ws[0].p.z) then
      PixelAfter(width, height, ws[1..], r, c, Finite(ws[0].p.z), ws[0].color)
    else PixelAfter(width, height, ws[1..], r, c, d, col)
  }

  /** A pixel ends at the greatest of its initial depth and the depths of
      the writes landing on it. If that is its initial depth it keeps its
      colour; otherwise it has the colour of a write at that depth. */
  lemma {:induction false} PixelAfterNearest(width: U32, height: U32, ws: seq<Write>, r: nat, c: nat, d: Depth, col: Color)
    ensures var (e, k) := PixelAfter(width, height, ws, r, c, d, col);
      && DepthLe(d, e)
      && (forall i :: 0 <= i < |ws| && Hits(width, height, ws[i], r, c) ==> DepthLe(Finite(ws[i].p.z), e))
      && (e == d ==> k == col)
      && (e != d ==> exists i :: 0 <= i < |ws| && Hits(width, height, ws[i], r, c) &&
                      e == Finite(ws[i].p.z) && k == ws[i].color)
    decreases |ws|
  {
    if |ws| > 0 {
      var w := ws[0];
      var rest := ws[1..];
      var hit := Hits(width, height, w, r, c) && Nearer(d, w.p.z);
      var d1, col1 := if hit then Finite(w.p.z) else d, if hit then w.color else col;
      PixelAfterNearest(width, height, rest, r, c, d1, col1);
      var (e, k) := PixelAfter(width, height, ws, r, c, d, col);
      assert (e, k) == PixelAfter(width, height, rest, r, c, d1, col1);
      forall i | 0 < i < |ws| && Hits(width, height, ws[i], r, c)
        ensures DepthLe(Finite(ws[i].p.z), e)
      {
        assert ws[i] == rest[i - 1];
      }
      if e != d1 {
        var j :| 0 <= j < |rest| && Hits(width, height, rest[j], r, c) && e == Finite(rest[j].p.z) && k == rest[j].color;
        assert rest[j] == ws[j + 1];
      }
    }
  }

  /** The corrected render pass is a z-buffer: every pixel's depth and
      colour are what PixelAfter makes of the writes that land on it. */
  lemma {:induction false} SetPixelsCellPixel(s: Png, ws: seq<Write>, r: nat, c: nat)
    requires Valid(s) && s.width >= 1 && s.height >= 1 && r < s.height && c < s.width
    ensures RowStart(r, s.width) + c < |s.zindex|
    ensures var t := SetPixelsCell(s, ws);
      (t.zindex[RowStart(r, s.width) + c], t.image[r][c])
        == PixelAfter(s.width, s.height, ws, r, c, s.zindex[RowStart(r, s.width) + c], s.image[r][c])
    decreases |ws|
  {
    var w := s.width;
    var slot := RowStart(r, w) + c;
    CellBelowArea(r, c, w, s.height);
    if |ws| > 0 {
      var p := ws[0].p;
      var s1 := SetPixelCell(s, p, ws[0].color);
      PixelStep(s, p, ws[0].color, r, c);
      SetPixelsCellPixel(s1, ws[1..], r, c);
    }
  }

  /** One corrected write, seen from cell (`r`, `c`): it changes the cell
      and its slot exactly when it lands there and is strictly nearer. */
  lemma PixelStep(s: Png, p: Vec3, color: Color, r: nat, c: nat)
    requires Valid(s) && s.width >= 1 && s.height >= 1 && r < s.height && c < s.width
    ensures RowStart(r, s.width) + c < |s.zindex|
    ensures var t := SetPixelCell(s, p, color);
      var slot := RowStart(r, s.width) + c;
      (t.zindex[slot], t.image[r][c])
        == if Hits(s.width, s.height, Write(p, color), r, c) && Nearer(s.zindex[slot], p.z)
           then (Finite(p.z), color) else (s.zindex[slot], s.image[r][c])
  {
    CellBelowArea(r, c, s.width, s.height);
    if InBounds(s, p) && (Row(p) != r || Col(p) != c) {
      CellSlotInRange(s, p);
      CellSlotInjective(r, c, Row(p), Col(p), s.width);
    }
  }

  /** On writes with integer rows, the source's render pass is the z-buffer
      too: each pixel ends as PixelAfter makes it from its own depth and
      colour. */
  lemma SetPixelsIntegralPixel(s: Png, ws: seq<Write>, r: nat, c: nat)
    requires Valid(s) && s.width >= 1 && s.height >= 1 && r < s.height && c < s.width
    requires forall i :: 0 <= i < |ws| ==> IntegralRow(ws[i].p)
    ensures RowStart(r, s.width) + c < |s.zindex|
    ensures var t := SetPixels(s, ws);
      (t.zindex[RowStart(r, s.width) + c], t.image[r][c])
        == PixelAfter(s.width, s.height, ws, r, c, s.zindex[RowStart(r, s.width) + c], s.image[r][c])
  {
    SetPixelsOnIntegral(s, ws);
    SetPixelsCellPixel(s, ws, r, c);
  }

  /** Hence `set_pixel` on points with integer rows builds the z-buffer
      image: from a new framebuffer, each pixel ends with the depth and
      colour of the nearest write landing on it, or black at negative
      infinity. */
  lemma IntegralZBuffer(width: U32, height: U32, ws: seq<Write>, r: nat, c: nat)
    requires width * height <= U32_MAX && r < height && c < width
    requires forall i :: 0 <= i < |ws| ==> IntegralRow(ws[i].p)
    ensures RowStart(r, width) + c < width * height
    ensures var t := SetPixels(New(width, height), ws);
      (t.zindex[RowStart(r, width) + c], t.image[r][c])
        == PixelAfter(width, height, ws, r, c, NegInf, Black)
  {
    var s := New(width, height);
    CellBelowArea(r, c, width, height);
    assert s.zindex[RowStart(r, width) + c] == NegInf && s.image[r][c] == Black;
    SetPixelsIntegralPixel(s, ws, r, c);
  }

  // ---------------------------------------------------------------------
  // Finishing the image

  /** `data.reverse()` */
  function Reverse<T>(xs: seq<T>): (r: seq<T>)
    ensures |r| == |xs|
    ensures forall i :: 0 <= i < |xs| ==> r[i] == xs[|xs| - 1 - i]
  {
    if |xs| == 0 then [] else Reverse(xs[1..]) + [xs[0]]
  }

  lemma ReverseTwice<T>(xs: seq<T>)
    ensures Reverse(Reverse(xs)) == xs
  {
  }

  /** The bytes of one row, three per pixel. */
  function RowBytes(row: seq<Color>): (r: seq<Byte>)
    ensures |r| == 3 * |row|
    ensures forall c, k :: 0 <= c < |row| && 0 <= k < 3 ==> r[3 * c + k] == row[c].Channel(k)
  {
    if |row| == 0 then []
    else
      var tail := RowBytes(row[1..]);
      var r := [row[0].c0, row[0].c1, row[0].c2] + tail;
      forall c, k | 1 <= c < |row| && 0 <= k < 3
        ensures r[3 * c + k] == row[c].Channel(k)
      {
        assert r[3 * c + k] == tail[3 * (c - 1) + k];
        assert row[1..][c - 1] == row[c];
      }
      r
  }

  /** The bytes of the rows, in order. */
  function GridBytes(rows: Grid): seq<Byte> {
    if |rows| == 0 then [] else RowBytes(rows[0]) + GridBytes(rows[1..])
  }

  /** `flatten(&mut image)`: reverses the rows in place and returns their
      bytes. Returns the byte buffer and the reversed image. */
  function Flatten(image: Grid): (r: (seq<Byte>, Grid))
    ensures |r.1| == |image|
    ensures forall i :: 0 <= i < |image| ==> r.1[i] == image[|image| - 1 - i]
  {
    var flipped := Reverse(image);
    (GridBytes(flipped), flipped)
  }

  /** `bytes[i] == v`, with `i` in range. */
  predicate HasAt(bytes: seq<Byte>, i: int, v: Byte) {
    0 <= i < |bytes| && bytes[i] == v
  }

  /** `r * w`: where row `r` starts in a row-major layout with rows of `w`
      pixels. Written recursively so the layout proofs stay linear;
      RowStartIsProduct relates it to the product. */
  function RowStart(r: nat, w: nat): nat {
    if r == 0 then 0 else RowStart(r - 1, w) + w
  }

  lemma {:induction false} RowStartIsProduct(r: nat, w: nat)
    ensures RowStart(r, w) == r * w
  {
    if r > 0 {
      RowStartIsProduct(r - 1, w);
      assert (r - 1) * w + w == r * w;
    }
  }

  /** Every pixel of an earlier row comes before the start of a later row. */
  lemma {:induction false} RowStartMonotone(r1: nat, r2: nat, w: nat)
    requires r1 < r2
    ensures RowStart(r1, w) + w <= RowStart(r2, w)
    decreases r2
  {
    if r1 + 1 < r2 {
      RowStartMonotone(r1, r2 - 1, w);
    }
  }

  /** `n * w == w + (n - 1) * w`, peeling a row off the front. */
  lemma {:induction false} RowStartFromFront(n: nat, w: nat)
    requires n > 0
    ensures RowStart(n, w) == w + RowStart(n - 1, w)
  {
    if n > 1 {
      RowStartFromFront(n - 1, w);
    }
  }

  /** For rows of `w` pixels, byte `3 * (r * w + c) + k` is channel `k` of
      pixel `c` of row `r`. */
  lemma {:induction false} GridBytesLayout(rows: Grid, w: nat)
    requires forall r :: 0 <= r < |rows| ==> |rows[r]| == w
    ensures |GridBytes(rows)| == 3 * RowStart(|rows|, w)
    ensures forall r, c, k :: 0 <= r < |rows| && 0 <= c < w && 0 <= k < 3 ==>
      HasAt(GridBytes(rows), 3 * (RowStart(r, w) + c) + k, rows[r][c].Channel(k))
  {
    GridBytesLength(rows, w);
    forall r, c, k | 0 <= r < |rows| && 0 <= c < w && 0 <= k < 3
      ensures HasAt(GridBytes(rows), 3 * (RowStart(r, w) + c) + k, rows[r][c].Channel(k))
    {
      GridByteAt(rows, w, r, c, k);
    }
  }

  lemma {:induction false} GridBytesLength(rows: Grid, w: nat)
    requires forall r :: 0 <= r < |rows| ==> |rows[r]| == w
    ensures |GridBytes(rows)| == 3 * RowStart(|rows|, w)
  {
    if |rows| > 0 {
      GridBytesLength(rows[1..], w);
      RowStartFromFront(|rows|, w);
    }
  }

  lemma {:induction false} GridByteAt(rows: Grid, w: nat, r: nat, c: nat, k: nat)
    requires forall i :: 0 <= i < |rows| ==> |rows[i]| == w
    requires r < |rows| && c < w && k < 3
    ensures 3 * (RowStart(r, w) + c) + k < |GridBytes(rows)|
    ensures GridBytes(rows)[3 * (RowStart(r, w) + c) + k] == rows[r][c].Channel(k)
    decreases r
  {
    GridBytesLength(rows, w);
    RowStartMonotone(r, |rows|, w);
    var tail := rows[1..];
    if r > 0 {
      GridByteAt(tail, w, r - 1, c, k);
      RowStartFromFront(r, w);
      assert |RowBytes(rows[0])| == 3 * w;
      assert tail[r - 1] == rows[r];
    }
  }

  /** The buffer `flatten` hands to the encoder: `3 * w * h` bytes, with
      channel `k` of pixel `c` of row `r` at `3 * ((h - 1 - r) * w + c) + k`,
      i.e. the rows bottom-up. */
  lemma {:induction false} FlattenLayout(image: Grid, w: nat, h: nat)
    requires Rectangular(image, w, h)
    ensures |Flatten(image).0| == 3 * RowStart(h, w)
    ensures forall r, c, k :: 0 <= r < h && 0 <= c < w && 0 <= k < 3 ==>
      HasAt(Flatten(image).0, 3 * (RowStart(h - 1 - r, w) + c) + k, image[r][c].Channel(k))
  {
    var flipped := Reverse(image);
    GridBytesLayout(flipped, w);
    forall r, c, k | 0 <= r < h && 0 <= c < w && 0 <= k < 3
      ensures HasAt(Flatten(image).0, 3 * (RowStart(h - 1 - r, w) + c) + k, image[r][c].Channel(k))
    {
      assert flipped[h - 1 - r] == image[r];
      GridByteAt(flipped, w, h - 1 - r, c, k);
    }
  }

  /** Flattening twice restores the original row order, so a second call
      hands the encoder the bytes of the rows top-down (laid out as in
      GridBytesLayout) instead of bottom-up. */
  lemma FlattenTwice(image: Grid)
    ensures Flatten(Flatten(image).1) == (GridBytes(image), image)
  {
    ReverseTwice(image);
  }

  /** `render(&mut self)` without the file and the encoder: the bytes passed
      to the encoder and the state left behind, whose image rows are now in
      reverse order. The buffer holds `3 * width * height` bytes, with
      channel `k` of pixel `c` of row `r` at
      `3 * ((height - 1 - r) * width + c) + k`. */
  function Render(s: Png): (r: (seq<Byte>, Png))
    requires Valid(s)
    ensures Valid(r.1) && r.1.width == s.width && r.1.height == s.height && r.1.zindex == s.zindex
    ensures forall row :: 0 <= row < s.height ==> r.1.image[row] == s.image[s.height - 1 - row]
    ensures |r.0| == 3 * RowStart(s.height, s.width)
    ensures forall row, c, k :: 0 <= row < s.height && 0 <= c < s.width && 0 <= k < 3 ==>
      HasAt(r.0, 3 * (RowStart(s.height - 1 - row, s.width) + c) + k, s.image[row][c].Channel(k))
  {
    FlattenLayout(s.image, s.width, s.height);
    var f := Flatten(s.image);
    assert Rectangular(f.1, s.width, s.height);
    (f.0, s.(image := f.1))
  }
}
