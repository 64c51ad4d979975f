/**
  Wireframe drawing of a loaded model, `Object::render` (src/model/obj.rs):
  every face is drawn as its three edges, corner `k` to corner `(k + 1) % 3`,
  each a white Segment.Line between the screen positions of the two
  vertices. Only the vertex index of a corner is read; texture and normal
  indices are carried but unused.

  A vertex coordinate `c` in [-1, 1] maps to `(c + 1) * (size - 1) / 2`,
  then to `u32` with Rust's saturating `as`; `z` is always 0. Face indices
  are 1-based: `index - 1` underflows (a panic) for index 0, and the vertex
  lookup panics past the end, so both are preconditions.
 */
module ObjRender {
  import opened Numeric
  import opened Vectors
  import opened ObjParse
  import Segment

  /** An `Object`: its faces and its vertices. */
  datatype Object = Object(faces: seq<Face>, vertices: seq<Vec3>)

  /** `(c + 1.0) * (size as f64 - 1.0) / 2.0`. */
  function MapCoord(c: real, size: U32): real {
    (c + 1.0) * (size as real - 1.0) / 2.0
  }

  /** The screen vertex of a model vertex: both coordinates mapped and cast
      to `u32`, depth 0. */
  function ScreenVertex(v: Vec3, width: U32, height: U32): Segment.Vertex {
    Segment.Vertex(SatU32(MapCoord(v.x, width)), SatU32(MapCoord(v.y, height)), 0)
  }

  /** Every corner of every face names an existing vertex (1-based). */
  predicate IndicesResolve(obj: Object) {
    forall i, k :: 0 <= i < |obj.faces| && 0 <= k < 3 ==>
      1 <= obj.faces[i].At(k).vertex <= |obj.vertices|
  }

  /** The number of edges drawn: three per face. */
  function EdgeCount(obj: Object): nat {
    3 * |obj.faces|
  }

  /** `self.vertices[(face[k][0] - 1) as usize]` for corner `k` of face `i`. */
  function CornerVertex(obj: Object, i: nat, k: nat): Vec3
    requires IndicesResolve(obj) && i < |obj.faces| && k < 3
  {
    obj.vertices[obj.faces[i].At(k).vertex - 1]
  }

  /** The screen ends of edge `e`: corner `e % 3` of face `e / 3` to the
      next corner of the same face. */
  function EdgeEnds(obj: Object, width: U32, height: U32, e: nat): (Segment.Vertex, Segment.Vertex)
    requires IndicesResolve(obj) && e < EdgeCount(obj)
  {
    var i, k := e / 3, e % 3;
    (ScreenVertex(CornerVertex(obj, i, k), width, height),
     ScreenVertex(CornerVertex(obj, i, (k + 1) % 3), width, height))
  }

  /** The `i32` arithmetic of `Line::slope` does not overflow for edge `e`. */
  predicate EdgeConstructible(obj: Object, width: U32, height: U32, e: nat)
    requires IndicesResolve(obj) && e < EdgeCount(obj)
  {
    var (v0, v1) := EdgeEnds(obj, width, height, e);
    Segment.Constructible(v0, v1)
  }

  /** `Line::new(vertex0, vertex1, [255, 255, 255]).unwrap()` for edge `e`. */
  function EdgeLine(obj: Object, width: U32, height: U32, e: nat): (l: Segment.Line)
    requires IndicesResolve(obj) && e < EdgeCount(obj) && EdgeConstructible(obj, width, height, e)
    ensures Segment.WellFormed(l) && l.color == White
    ensures (l.vertex0, l.vertex1) == EdgeEnds(obj, width, height, e)
  {
    var (v0, v1) := EdgeEnds(obj, width, height, e);
    Segment.New(v0, v1, White).value
  }

  /** `render` runs to the end on `image`: every index resolves and every
      edge can be built and drawn without a panic. */
  predicate Renderable(obj: Object, width: U32, height: U32, image: Grid) {
    && IndicesResolve(obj)
    && forall e :: 0 <= e < EdgeCount(obj) ==>
      && EdgeConstructible(obj, width, height, e)
      && Segment.Drawable(EdgeLine(obj, width, height, e), image)
  }

  /** One of the first `n` edges paints cell `(i, j)`. */
  predicate Covered(obj: Object, width: U32, height: U32, n: nat, i: int, j: int)
    requires n <= EdgeCount(obj)
    requires IndicesResolve(obj)
    requires forall e :: 0 <= e < n ==> EdgeConstructible(obj, width, height, e)
  {
    exists e :: 0 <= e < n &&
      var l := EdgeLine(obj, width, height, e);
      Segment.Painted(l, Segment.Count(l), i, j)
  }

  /** Edge `n` adds its own cells to those of the first `n` edges. */
  lemma CoveredExtend(obj: Object, width: U32, height: U32, n: nat, i: int, j: int)
    requires n < EdgeCount(obj) && IndicesResolve(obj)
    requires forall e :: 0 <= e <= n ==> EdgeConstructible(obj, width, height, e)
    ensures Covered(obj, width, height, n + 1, i, j) <==>
      || Covered(obj, width, height, n, i, j)
      || var l := EdgeLine(obj, width, height, n); Segment.Painted(l, Segment.Count(l), i, j)
  {
    if Covered(obj, width, height, n + 1, i, j) && !Covered(obj, width, height, n, i, j) {
      var e :| 0 <= e < n + 1 &&
        var l := EdgeLine(obj, width, height, e);
        Segment.Painted(l, Segment.Count(l), i, j);
      assert e == n;
    }
  }

  /** Lines 93-104 of the inner loop: the two model vertices of the edge
      and their screen positions. */
  method ScreenEnds(obj: Object, width: U32, height: U32, w: real, h: real, f: nat, index: nat)
      returns (vertex0: Segment.Vertex, vertex1: Segment.Vertex)
    requires IndicesResolve(obj) && f < |obj.faces| && index < 3
    requires w == width as real - 1.0 && h == height as real - 1.0
    ensures vertex0 == ScreenVertex(obj.vertices[obj.faces[f].At(index).vertex - 1], width, height)
    ensures vertex1 == ScreenVertex(obj.vertices[obj.faces[f].At((index + 1) % 3).vertex - 1], width, height)
  {
    var face := obj.faces[f];
    var v0 := obj.vertices[face.At(index).vertex - 1];
    var v1 := obj.vertices[face.At((index + 1) % 3).vertex - 1];
    var x0 := (v0.x + 1.0) * w / 2.0;
    var y0 := (v0.y + 1.0) * h / 2.0;
    var x1 := (v1.x + 1.0) * w / 2.0;
    var y1 := (v1.y + 1.0) * h / 2.0;
    vertex0 := Segment.Vertex(SatU32(x0), SatU32(y0), 0);
    vertex1 := Segment.Vertex(SatU32(x1), SatU32(y1), 0);
    assert x0 == MapCoord(v0.x, width) && y0 == MapCoord(v0.y, height);
    assert x1 == MapCoord(v1.x, width) && y1 == MapCoord(v1.y, height);
  }

  /** Edge `3 * f + index` joins corner `index` of face `f` to the next
      corner, and `render` can build and draw it. */
  lemma EdgeOfCorner(obj: Object, width: U32, height: U32, image: Grid, f: nat, index: nat)
    requires Renderable(obj, width, height, image) && f < |obj.faces| && index < 3
    ensures 3 * f + index < EdgeCount(obj)
    ensures EdgeEnds(obj, width, height, 3 * f + index)
         == (ScreenVertex(obj.vertices[obj.faces[f].At(index).vertex - 1], width, height),
             ScreenVertex(obj.vertices[obj.faces[f].At((index + 1) % 3).vertex - 1], width, height))
    ensures EdgeConstructible(obj, width, height, 3 * f + index)
    ensures var l := EdgeLine(obj, width, height, 3 * f + index);
      && Segment.Drawable(l, image)
      && l == Segment.New(l.vertex0, l.vertex1, White).value
  {
    var e := 3 * f + index;
    assert e / 3 == f && e % 3 == index;
    assert e < EdgeCount(obj);
    assert EdgeConstructible(obj, width, height, e) && Segment.Drawable(EdgeLine(obj, width, height, e), image);
  }

  /** Drawing edge `e` over the first `e` edges gives the first `e + 1`. */
  lemma DrawnExtend(obj: Object, width: U32, height: U32, base: Grid, out: Grid, next: Grid, e: nat)
    requires Renderable(obj, width, height, base) && e < EdgeCount(obj)
    requires DrawnUpTo(obj, width, height, e, base, out)
    requires SameShape(next, out)
    requires var l := EdgeLine(obj, width, height, e);
      forall i, j :: 0 <= i < |next| && 0 <= j < |next[i]| ==>
        next[i][j] == (if Segment.Painted(l, Segment.Count(l), i, j) then l.color else out[i][j])
    ensures DrawnUpTo(obj, width, height, e + 1, base, next)
  {
    forall i, j | 0 <= i < |next| && 0 <= j < |next[i]|
      ensures next[i][j] == if Covered(obj, width, height, e + 1, i, j) then White else base[i][j]
    {
      CoveredExtend(obj, width, height, e, i, j);
    }
  }

  /** Whether a line can be drawn depends only on the shape of the grid. */
  lemma DrawableOnShape(l: Segment.Line, a: Grid, b: Grid)
    requires Segment.Drawable(l, a) && SameShape(a, b)
    ensures Segment.Drawable(l, b)
  {
  }

  /** `image` with the first `n` edges drawn over `base`. */
  predicate DrawnUpTo(obj: Object, width: U32, height: U32, n: nat, base: Grid, image: Grid)
    requires n <= EdgeCount(obj) && Renderable(obj, width, height, base)
  {
    && SameShape(image, base)
    && forall i, j :: 0 <= i < |image| && 0 <= j < |image[i]| ==>
      image[i][j] == if Covered(obj, width, height, n, i, j) then White else base[i][j]
  }

  /** `Object::render(image, width, height)`: a cell ends white when an edge
      of some face passes through it, and keeps its value otherwise; the
      grid keeps its shape. */
  method Render(obj: Object, image: Grid, width: U32, height: U32) returns (out: Grid)
    requires Renderable(obj, width, height, image)
    ensures SameShape(out, image)
    ensures forall i, j :: 0 <= i < |out| && 0 <= j < |out[i]| ==>
      out[i][j] == if Covered(obj, width, height, EdgeCount(obj), i, j) then White else image[i][j]
  {
    var h := height as real - 1.0;
    var w := width as real - 1.0;
    out := image;
    for f := 0 to |obj.faces|
      invariant DrawnUpTo(obj, width, height, 3 * f, image, out)
    {
      for index := 0 to 3
        invariant DrawnUpTo(obj, width, height, 3 * f + index, image, out)
      {
        out := DrawEdge(obj, width, height, w, h, f, index, image, out);
      }
    }
    assert DrawnUpTo(obj, width, height, EdgeCount(obj), image, out);
  }

  /** One pass of the inner loop: corner `index` of face `f` joined to the
      next corner, drawn over `out`. */
  method DrawEdge(obj: Object, width: U32, height: U32, w: real, h: real, f: nat, index: nat,
                  base: Grid, out: Grid) returns (next: Grid)
    requires Renderable(obj, width, height, base)
    requires w == width as real - 1.0 && h == height as real - 1.0
    requires f < |obj.faces| && index < 3
    requires DrawnUpTo(obj, width, height, 3 * f + index, base, out)
    ensures DrawnUpTo(obj, width, height, 3 * f + index + 1, base, next)
  {
    var vertex0, vertex1 := ScreenEnds(obj, width, height, w, h, f, index);
    EdgeOfCorner(obj, width, height, base, f, index);
    var line := Segment.New(vertex0, vertex1, White).value;
    DrawableOnShape(line, base, out);
    next := Segment.Render(line, out);
    DrawnExtend(obj, width, height, base, out, next, 3 * f + index);
  }

  // ---------------------------------------------------------------------
  // Properties of the drawing

  /** The edges of a face close up: each one ends where the next begins,
      and the third returns to the first corner. */
  lemma FaceEdgesClose(obj: Object, width: U32, height: U32, i: nat, k: nat)
    requires IndicesResolve(obj) && i < |obj.faces| && k < 3
    ensures EdgeEnds(obj, width, height, 3 * i + k).1
         == EdgeEnds(obj, width, height, 3 * i + (k + 1) % 3).0
  {
    assert (3 * i + k) / 3 == i && (3 * i + k) % 3 == k;
    assert (3 * i + (k + 1) % 3) / 3 == i && (3 * i + (k + 1) % 3) % 3 == (k + 1) % 3;
  }

  /** Faces with the same vertex indices draw the same edges: texture and
      normal indices play no part. */
  lemma EdgesIgnoreTextureAndNormal(a: Object, b: Object, width: U32, height: U32, e: nat)
    requires a.vertices == b.vertices && |a.faces| == |b.faces|
    requires forall i, k :: 0 <= i < |a.faces| && 0 <= k < 3 ==>
      a.faces[i].At(k).vertex == b.faces[i].At(k).vertex
    requires IndicesResolve(a) && e < EdgeCount(a)
    ensures IndicesResolve(b) && e < EdgeCount(b)
    ensures EdgeEnds(a, width, height, e) == EdgeEnds(b, width, height, e)
  {
  }

  /** The ends of the model's [-1, 1] range map to the first and the last
      pixel, and the range maps in order. */
  lemma MapCoordRange(size: U32, c: real, d: real)
    requires size >= 1
    ensures MapCoord(-1.0, size) == 0.0
    ensures MapCoord(1.0, size) == size as real - 1.0
    ensures c <= d ==> MapCoord(c, size) <= MapCoord(d, size)
  {
    if c <= d {
      var half := (size as real - 1.0) / 2.0;
      assert (d + 1.0) * half - (c + 1.0) * half == (d - c) * half >= 0.0;
    }
  }

  /** A vertex inside the model's [-1, 1] square lands on a pixel of a
      `width` by `height` image. */
  lemma ScreenVertexInImage(v: Vec3, width: U32, height: U32)
    requires width >= 1 && height >= 1
    requires -1.0 <= v.x <= 1.0 && -1.0 <= v.y <= 1.0
    ensures ScreenVertex(v, width, height).x < width
    ensures ScreenVertex(v, width, height).y < height
  {
    MapCoordRange(width, -1.0, v.x);
    MapCoordRange(width, v.x, 1.0);
    MapCoordRange(height, -1.0, v.y);
    MapCoordRange(height, v.y, 1.0);
  }

  /** Drawing a model with no faces leaves the image as it is. */
  lemma NoFacesNoEdges(obj: Object, width: U32, height: U32, i: int, j: int)
    requires |obj.faces| == 0
    ensures !Covered(obj, width, height, EdgeCount(obj), i, j)
  {
  }
}
