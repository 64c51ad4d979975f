/** The value types the renderer passes around: `[u8; 3]` colours and
    `Vector3<f64>` points. */
module Vectors {
  import opened Numeric

  /** An `[u8; 3]` colour; `Channel(k)` is `color[k]`. */
  datatype Color = Color(c0: Byte, c1: Byte, c2: Byte) {
    function Channel(k: nat): Byte
      requires k < 3
    {
      if k == 0 then c0 else if k == 1 then c1 else c2
    }
  }

  const Black: Color := Color(0, 0, 0)
  const White: Color := Color(255, 255, 255)

  /** A `Vector3<f64>`, with the floats read as exact reals. */
  datatype Vec3 = Vec3(x: real, y: real, z: real)

  /** A grid of colours as the source holds it, `Vec<Vec<[u8; 3]>>`. */
  type Grid = seq<seq<Color>>

  /** Two grids have the same number of rows and each row the same length. */
  predicate SameShape(a: Grid, b: Grid) {
    |a| == |b| && forall i :: 0 <= i < |a| ==> |a[i]| == |b[i]|
  }
}
