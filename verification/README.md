# cpuengine core, modelled in Dafny

A model of the rendering core of `cpuengine`, a small CPU software rasterizer
written in Rust. The model covers the following parts:

- **The PNG framebuffer** (`src/render/png.rs`): a `width` x `height` RGB
  image with a depth buffer of `width * height` slots that starts at negative
  infinity. `set_pixel` checks bounds and keeps a write only if it is
  strictly nearer. `flatten` reverses the rows and serialises them to bytes
  for the encoder.
- **The line segment** (`src/geometry/line.rs`): slope and y-intercept of
  two `u32` vertices, and the column-by-column rasterizer that paints
  `data[x][y]`.
- **The bounding box** `minmax` (`src/geometry/common.rs`) and its unit test.
- **Intensity shading**: `color` in `src/render/common.rs` scales each
  channel. The older `color` in `src/common/render.rs` scales channel 0
  into all three.
- **The OBJ model** (`src/model/obj.rs`): `parse_faces`, which splits the
  file into lines and searches each one for the face pattern
  `f \s+ D/D/D \s+ D/D/D \s+ D/D/D`. Also `render`, which draws every face
  as three white segments.

Modelling conventions:

- Rust's `f64` is an exact `real`. A float-to-unsigned `as` cast is
  truncation toward zero followed by saturation (`Numeric.SatTrunc`).
- The slope and intercept of a segment can be infinite or NaN, so they use
  a small IEEE value type (`Float.F64`) with the infinities and NaN.
- `u32 as i32` is the two's-complement reinterpretation (`Numeric.AsI32`).
- The source is a debug build, so an integer overflow or an out-of-range
  index panics. Each such panic is a precondition of the member where it
  would happen.
- State is immutable: `set_pixel` returns the next framebuffer, the two
  line-drawing `render` methods return the new grid, and
  `Framebuffer.Render` returns the encoder's bytes and the next framebuffer.

`Object::render` only draws wireframes, three `Line`s per face. The depth
slot `set_pixel` tests, `(x + y * width) as usize`, can differ from the
written cell's row-major slot: they agree whenever `y` is an integer, and
differ exactly when `frac(x) + frac(y) * width >= 1`; see Findings.

## Model

| member | source | states |
|---|---|---|
| Numeric.AsI32 | src/geometry/line.rs:30 | `u32 as i32` yields the one `i32` that equals `v` or `v - 2^32` (same bits, two's complement) |
| Numeric.SatTrunc | src/render/png.rs:34 | a float-to-unsigned `as` cast: 0 below zero, the type's maximum at or above max + 1, otherwise the integer part |
| Numeric.SatU8 | src/render/common.rs:17-19 | `as u8` of a float saturates to [0, 255] and truncates in between |
| Numeric.SatU32 | src/model/obj.rs:103-104 | `as u32` of a float saturates to [0, u32::MAX] and truncates in between |
| Numeric.SatUsize | src/render/png.rs:34 | `as usize` of a float saturates and truncates |
| Numeric.SatTruncMonotone | src/render/common.rs:17-19 | a saturating cast preserves the order of its arguments |
| Float.Sub | src/geometry/line.rs:51 | IEEE subtraction: the exact difference of finite values; NaN from a NaN operand or from an infinity minus itself; an infinity minus anything else is that infinity; a finite value minus an infinity is the opposite infinity |
| Float.Mul | src/geometry/line.rs:51 | IEEE multiplication: the exact product of finite values; NaN from a NaN operand or from an infinity times zero; otherwise an infinity factor gives an infinity whose sign is the product of the signs |
| Float.MulCommutes | src/geometry/line.rs:51 | the product does not depend on the order of the factors, infinities and NaN included |
| Float.Div | src/geometry/line.rs:47 | integer quotient as `f64`: finite exactly when the divisor is non-zero, and then quotient times divisor is the dividend; `+inf`, `-inf`, NaN for positive, negative, zero dividends over zero |
| Float.ToU32 | src/geometry/line.rs:51 | `f64 as u32`: saturating truncation of a finite value, `u32::MAX` for `+inf`, 0 for `-inf` and NaN |
| Shading.ScaleChannel | src/render/common.rs:17 | a scaled channel is the saturated, truncated product of the intensity and the channel |
| Shading.Scale | src/render/common.rs:15-21 | channel k of the result is channel k of the input scaled by the intensity, for each of the three channels |
| Shading.ScaleChannelwise | src/render/common.rs:15-21 | output channel k depends on input channel k alone |
| Shading.ScaleByOne | src/render/common.rs:15-21 | intensity 1 returns the colour unchanged |
| Shading.ScaleByNonPositive | src/render/common.rs:15-21 | an intensity of 0 or below gives black |
| Shading.ScaleDarkens | src/render/common.rs:15-21 | an intensity in [0, 1] never raises a channel |
| Shading.ScaleMonotone | src/render/common.rs:15-21 | every channel grows with the intensity |
| Shading.ChannelMonotone | src/render/common.rs:17 | one scaled channel grows with the intensity |
| LegacyShading.ScaleGrey | src/common/render.rs:1-7 | the result is grey, and its channels are channel 0 scaled by the intensity |
| LegacyShading.ScaleGreyIgnoresOtherChannels | src/common/render.rs:3-5 | inputs that agree in channel 0 give the same result |
| LegacyShading.ScaleGreyEndpoints | src/common/render.rs:1-7 | intensity 0 gives black; intensity 1 copies channel 0 into all three |
| LegacyShading.GreyInputsAgree | src/common/render.rs:1-7 | on a grey input the older `color` and the current one agree at every intensity |
| LegacyShading.AgreeAtFullIntensityIffGrey | src/common/render.rs:1-7 | at intensity 1 the two variants agree if and only if the input is grey |
| LegacyShading.AgreementWithoutGrey | src/common/render.rs:1-7 | at intensity 0 they agree on the non-grey colour (10, 20, 30), so agreement alone does not mean a grey input |
| BoundingBox.Scan | src/geometry/common.rs:7-26 | the loop widens the running box: it ends up containing the starting box and every point, and each component is a starting one or one of a point |
| BoundingBox.MinMax | src/geometry/common.rs:3-29 | every point lies between min and max component-wise, and each of the six components is attained by some point |
| BoundingBox.MinMaxSingle | src/geometry/common.rs:3-29 | one point is its own bounding box |
| BoundingBox.MinMaxUnique | src/geometry/common.rs:3-29 | any pair that bounds the points and whose components are all attained is the result of `minmax` |
| BoundingBox.MinMaxExample | src/geometry/common.rs:36-53 | on the five points of the unit test, min is (8, 6, 7) and max is (50, 93, 64) |
| Framebuffer.New | src/render/png.rs:17-24 | a new framebuffer is valid, has the given size, every depth is negative infinity and every pixel is black |
| Framebuffer.SlotInRange | src/render/png.rs:27-38 | a point that passes the bounds check has an existing depth slot, so the `get(..).is_none()` return never fires, and an existing image cell |
| Framebuffer.SetPixel | src/render/png.rs:26-44 | out of bounds nothing changes; otherwise a strictly nearer depth replaces the slot's depth and colours the cell, else nothing changes; no other slot or cell changes, no depth decreases, and the size is kept |
| Framebuffer.SetPixelIdempotent | src/render/png.rs:26-44 | writing the same pixel twice in a row equals writing it once |
| Framebuffer.SetPixelKeepsSize | src/render/png.rs:56-58 | `get_size` is unchanged by `set_pixel` |
| Framebuffer.UpdateValid | src/render/png.rs:40-43 | a compare-and-write keeps the framebuffer valid and its dimensions |
| Framebuffer.UpdatesCommute | src/render/png.rs:40-43 | two compare-and-writes commute when they touch different slots and cells, or the same slot and cell at different depths |
| Framebuffer.CellSlotInRange | src/render/png.rs:27-42 | an in-bounds point's row-major cell slot exists |
| Framebuffer.SetPixelCell | src/render/png.rs:26-44 | the corrected write: the same bounds check and strict depth test, with the depth slot taken from the cell the colour goes to |
| Framebuffer.NewCoherent | src/render/png.rs:21-22 | in a new framebuffer every row-major slot without a depth belongs to a black pixel |
| Framebuffer.SetPixelCellCoherent | src/render/png.rs:40-42 | after the corrected write, every row-major slot without a depth still belongs to a black pixel: no pixel is coloured without its own slot taking a depth |
| Framebuffer.SetPixelCellCommutes | src/render/png.rs:26-44 | corrected writes commute unless both hit the same cell at the same depth |
| Framebuffer.NearerWriteWins | src/render/png.rs:40-43 | of two writes to one cell, the nearer one's colour remains whichever comes first, when it beats the stored depth |
| Framebuffer.SlotIsCellSlotIff | src/render/png.rs:34-42 | for an in-bounds point, the slot `set_pixel` uses is the written cell's row-major slot exactly when `frac(x) + frac(y) * width < 1` |
| Framebuffer.SlotBounds | src/render/png.rs:34 | inside the image the `as usize` cast does not saturate: the slot is the integer part of `x + y * width` |
| Framebuffer.CellOffset | src/render/png.rs:34-42 | `x + y * width` is the written cell's slot plus `frac(x) + frac(y) * width` |
| Framebuffer.IntegralSlot | src/render/png.rs:34-42 | when `y` is an integer, whatever `x` is, the slot `set_pixel` uses is the cell's row-major slot |
| Framebuffer.SetPixelOnIntegral | src/render/png.rs:26-44 | on points with an integer `y`, `set_pixel` and the corrected write are equal |
| Framebuffer.WriteOrderInvariance | src/render/png.rs:26-44 | on integer points two `set_pixel` calls commute unless they are the same point at the same depth |
| Framebuffer.IntegralCellsDiffer | src/render/png.rs:42 | distinct in-bounds integer points write distinct cells |
| Framebuffer.SetPixelFractionalMismatch | src/render/png.rs:34-42 | on a 2 x 2 image, the write at x = 0, y = 0.5 colours cell (row 0, column 0) but leaves that cell's slot empty; together with the write at x = 1, y = 0 the outcome depends on the order |
| Framebuffer.SetPixelsFractionalNotZBuffer | src/render/png.rs:34-42 | after that single write, the slot of cell (row 0, column 1) holds depth 1 although no write lands on that cell, so a z-buffer would still hold negative infinity there |
| Framebuffer.SetPixels | src/render/png.rs:26-44 | `set_pixel` applied to each write in turn: whatever the writes, the framebuffer stays valid, keeps its size, and no stored depth decreases |
| Framebuffer.SizeNeverChanges | src/render/png.rs:56-58 | `get_size` is the same after any sequence of writes |
| Framebuffer.SetPixelsCell | src/render/png.rs:26-44 | a sequence of corrected writes keeps the framebuffer valid and its size |
| Framebuffer.SetPixelsOnIntegral | src/render/png.rs:26-44 | when every write has an integer `y`, the source's pass and the corrected pass give the same framebuffer |
| Framebuffer.SetPixelsCoherent | src/render/png.rs:40-42 | after any sequence of corrected writes, every row-major slot without a depth still belongs to a black pixel |
| Framebuffer.PixelAfterNearest | src/render/png.rs:40-43 | under the strict depth test a pixel ends at the greatest of its initial depth and the depths of the writes landing on it; if that is its initial depth it keeps its colour, otherwise it has the colour of a write landing on it at that depth |
| Framebuffer.PixelStep | src/render/png.rs:26-44 | one corrected write changes a given pixel's depth and colour exactly when it passes the bounds check, lands on that pixel and is strictly nearer, and then sets them to its own depth and colour |
| Framebuffer.SetPixelsCellPixel | src/render/png.rs:26-44 | the corrected pass is a per-pixel z-buffer: each pixel's depth and colour depend only on the writes landing on it, in order |
| Framebuffer.SetPixelsIntegralPixel | src/render/png.rs:26-44 | when every write has an integer `y`, the source's pass leaves each pixel with the depth and colour the per-pixel z-buffer makes of its own starting depth and colour and the writes landing on it |
| Framebuffer.IntegralZBuffer | src/render/png.rs:17-44 | from a new framebuffer, the source's pass over writes with integer `y` leaves every pixel with the depth and colour of the per-pixel z-buffer started at negative infinity and black |
| Framebuffer.Reverse | src/render/png.rs:64 | the reversed rows: same length, element i is element n-1-i |
| Framebuffer.ReverseTwice | src/render/png.rs:64 | reversing twice restores the rows |
| Framebuffer.RowBytes | src/render/png.rs:67-71 | a row serialises to three bytes per pixel, byte 3c+k being channel k of pixel c |
| Framebuffer.GridBytesLayout | src/render/png.rs:66-72 | for rows of w pixels, byte 3(rw+c)+k is channel k of pixel c of row r, and there are 3wh bytes |
| Framebuffer.Flatten | src/render/png.rs:61-75 | the image is left with its rows in reverse order |
| Framebuffer.FlattenLayout | src/render/png.rs:61-75 | the flattened buffer has 3wh bytes with channel k of pixel c of row r at 3((h-1-r)w+c)+k, the rows bottom-up |
| Framebuffer.FlattenTwice | src/render/png.rs:61-75 | a second `flatten` restores the row order and returns the rows top-down |
| Framebuffer.Render | src/render/png.rs:46-54 | the bytes handed to the encoder are the rows bottom-up, 3 * width * height of them; afterwards the image rows are reversed and the depth buffer and size are untouched |
| Segment.SlopeOf | src/geometry/line.rs:46-48 | finite exactly when the x coordinates differ, and then slope times dx is dy; a vertical segment is `+inf` when `vertex0.y as i32 > vertex1.y as i32`, `-inf` when less (the wrapped values, so y at or above 2^31 counts as negative), NaN when the vertices coincide in x and y |
| Segment.YIntercept | src/geometry/line.rs:50-52 | for a finite slope, the cast of `y0 - x0 * slope`; for a vertical segment, `u32::MAX` when the slope is `-inf` and `x0 > 0`, else 0 |
| Segment.InterceptCases | src/geometry/line.rs:51 | the `f64` expression cast to `u32` for every kind of slope: finite, infinite or NaN |
| Segment.New | src/geometry/line.rs:14-27 | never fails; keeps the vertices and colour; slope and intercept are those of the vertices |
| Segment.Render | src/geometry/line.rs:29-44 | the grid keeps its shape; a cell takes the line's colour exactly when one of the `steps.abs()` steps paints it, and keeps its value otherwise |
| Segment.StepCell | src/geometry/line.rs:32-42 | the column and row one loop iteration writes are the step's cell |
| Segment.PaintedExtend | src/geometry/line.rs:31-43 | one more step paints its own cell besides those already painted |
| Segment.AsI32Injective | src/geometry/line.rs:30 | `as i32` maps distinct `u32` values to distinct `i32` values |
| Segment.VerticalDrawsNothing | src/geometry/line.rs:30-31 | the walk has no steps exactly when the segment is vertical |
| Segment.ColumnsTowardEnd | src/geometry/line.rs:30-40 | for coordinates below 2^31 there are `|x0 - x1|` steps; step k is k columns from vertex0 toward vertex1, never reaching vertex1's column |
| Segment.CellsOnLine | src/geometry/line.rs:31-42 | every step's row value is `y0 + (x - x0) * slope`, in both walking directions |
| Segment.DescendingOnLine | src/geometry/line.rs:37-39 | the leftward walk, measured from vertex1, lies on the line through vertex0 |
| Segment.FirstCellIsVertex0 | src/geometry/line.rs:34-36 | the first step is at vertex0 itself |
| Segment.OneCellPerColumn | src/geometry/line.rs:31-42 | at most one cell per column is painted |
| Segment.EndColumnUnpainted | src/geometry/line.rs:31-40 | no cell in vertex1's column is painted |
| Segment.SlopeSymmetric | src/geometry/line.rs:46-48 | a non-vertical segment has the same slope in both directions |
| Segment.VerticalSlopeFlips | src/geometry/line.rs:46-48 | a vertical segment with distinct ends has an infinite slope, of opposite sign in the two directions |
| Segment.InterceptSymmetric | src/geometry/line.rs:50-52 | for a non-vertical segment with coordinates below 2^31, both vertex orders give the same intercept |
| Segment.FiniteIntercept | src/geometry/line.rs:50-52 | for a non-vertical segment the intercept is the exact `y0 - x0 * slope` cast to `u32` |
| Segment.InterceptsAgree | src/geometry/line.rs:50-52 | the exact intercepts through either vertex are equal |
| ObjParse.TripleAt | src/model/obj.rs:34 | what it finds is a `D/D/D` at the position, three non-empty digit runs, ending where no further digit follows |
| ObjParse.SpacesAt | src/model/obj.rs:34 | what it finds is a non-empty maximal run of white space |
| ObjParse.MatchAt | src/model/obj.rs:33-34 | what it finds is a match of the face pattern at the start position |
| ObjParse.RecogniseSound | src/model/obj.rs:34 | the recogniser's result is a match of the pattern at the start position |
| ObjParse.RecogniseComplete | src/model/obj.rs:34 | every match of the pattern at a position is what the recogniser returns there |
| ObjParse.MatchAtComplete | src/model/obj.rs:34 | every match of the pattern at a position is what MatchAt returns there, so there is at most one |
| ObjParse.FirstMatch | src/model/obj.rs:37 | the leftmost match at or after a position; none only when no match starts there or later |
| ObjParse.OnlyMatchAt | src/model/obj.rs:37 | the match found at a position is the only one starting there |
| ObjParse.NoMatchAt | src/model/obj.rs:37 | when nothing is found at a position, no match starts there |
| ObjParse.Captures | src/model/obj.rs:37-41 | `captures`: a match of the pattern, with no match starting earlier and no other one starting at the same place; none only when the line contains no match |
| ObjParse.ParseU32 | src/model/obj.rs:45 | a digit string parses to its decimal value when that fits in `u32`, and to an overflow error otherwise |
| ObjParse.ValueShow | src/model/obj.rs:45 | the value of a number's decimal text is the number |
| ObjParse.ValueLeadingZero | src/model/obj.rs:45 | a leading zero does not change the value, so `007` parses as 7 |
| ObjParse.ParseShow | src/model/obj.rs:45-57 | a number's text parses back to the number exactly when it fits in `u32` |
| ObjParse.ToFace | src/model/obj.rs:43-59 | the face exists exactly when all nine groups fit in `u32`, and then its k-th number is the value of group k, in reading order |
| ObjParse.NewlineFrom | src/model/obj.rs:35 | the position of the first `'\n'` at or after a position, or the end |
| ObjParse.Lines | src/model/obj.rs:35 | `str::lines` yields no more lines than the text has characters |
| ObjParse.LinesOfTerminated | src/model/obj.rs:35 | splitting lines that each end in `'\n'` (and contain neither `'\n'` nor a final `'\r'`) gives them back |
| ObjParse.LinesCons | src/model/obj.rs:35 | such a line in front of more text comes out first, followed by the lines of the rest |
| ObjParse.LineFaces | src/model/obj.rs:36-59 | a line yields no face when it holds no match; it fails exactly when its leftmost match has a group beyond `u32`; otherwise it yields exactly the one face whose numbers are that match's groups |
| ObjParse.Both | src/model/obj.rs:43-62 | two parse results combine to both face lists in order, or fail when either fails |
| ObjParse.ParseFaceLines | src/model/obj.rs:35-62 | the loop over lines succeeds exactly when every line does, with at most one face per line |
| ObjParse.ParseFaces | src/model/obj.rs:31-63 | `parse_faces` succeeds exactly when every line's leftmost match has nine groups that fit in `u32` |
| ObjParse.MatchedFacesAppend | src/model/obj.rs:35-62 | the faces of the matched lines of two blocks of lines are those of the first block followed by those of the second |
| ObjParse.ParseFaceLinesFaces | src/model/obj.rs:35-62 | a successful loop over lines returns, in line order, the face of each line's leftmost match, and nothing for lines without one |
| ObjParse.ParseFacesContents | src/model/obj.rs:31-63 | on success, `parse_faces` returns the faces of the leftmost matches of `lines()`, in line order |
| ObjParse.MatchedFacesAt | src/model/obj.rs:35-59 | the face of line i comes right after the faces of the lines before it |
| ObjParse.ParseFacesLineAt | src/model/obj.rs:31-63 | on success, each matching line's face is in the result, at the index equal to the number of faces from earlier lines |
| ObjParse.ParseFaceLinesAppend | src/model/obj.rs:35-62 | the faces of two blocks of lines are those of the first followed by those of the second |
| ObjParse.FaceLines | src/model/obj.rs:36 | one face line `f v/t/n v/t/n v/t/n` per face, in order |
| ObjParse.FaceLineMatches | src/model/obj.rs:34 | a written face line is one match of the pattern, from the first character to the last, whose groups are the face's numbers |
| ObjParse.CapturesFaceLine | src/model/obj.rs:34-41 | searching a face line finds exactly that whole-line match |
| ObjParse.ToFaceGroups | src/model/obj.rs:43-59 | the groups of a written face convert back to the face |
| ObjParse.LineFacesOfFaceLine | src/model/obj.rs:36-59 | the line of one face yields exactly that face |
| ObjParse.ParseFaceLinesOfFaces | src/model/obj.rs:35-62 | the lines written for a list of faces parse back to the list |
| ObjParse.ParseFacesRoundTrip | src/model/obj.rs:31-63 | the text of newline-terminated face lines parses back to the faces |
| ObjRender.EdgeLine | src/model/obj.rs:105 | each edge's line is well formed, white, and runs between the edge's screen ends |
| ObjRender.CoveredExtend | src/model/obj.rs:91-107 | drawing one more edge adds exactly that edge's painted cells |
| ObjRender.ScreenEnds | src/model/obj.rs:93-104 | the loop body's two screen vertices are corners `index` and `(index + 1) % 3` of the face, mapped and cast to `u32`, depth 0 |
| ObjRender.EdgeOfCorner | src/model/obj.rs:93-105 | edge `3f + index` joins corner `index` of face `f` to the next corner, and can be built and drawn |
| ObjRender.DrawnExtend | src/model/obj.rs:106 | drawing edge `e` over the first `e` edges gives the first `e + 1` |
| ObjRender.Render | src/model/obj.rs:88-109 | the grid keeps its shape; a cell becomes white exactly when an edge of some face passes through it, and keeps its value otherwise |
| ObjRender.DrawEdge | src/model/obj.rs:93-106 | one pass of the inner loop extends the drawing by one edge |
| ObjRender.FaceEdgesClose | src/model/obj.rs:92-94 | each edge of a face ends where the next one begins, and the third returns to the first corner |
| ObjRender.EdgesIgnoreTextureAndNormal | src/model/obj.rs:93-94 | faces with the same vertex indices draw the same edges, whatever their texture and normal indices |
| ObjRender.MapCoordRange | src/model/obj.rs:99-102 | -1 maps to pixel 0, 1 maps to the last pixel, and the mapping keeps order |
| ObjRender.ScreenVertexInImage | src/model/obj.rs:99-104 | a vertex in the [-1, 1] square lands on a pixel of a `width` x `height` image |
| ObjRender.NoFacesNoEdges | src/model/obj.rs:91 | a model with no faces covers no cell |

## Left out

- File I/O and the PNG encoder (`src/render/png.rs:47-53`): `Render` returns
  the byte buffer the encoder would receive.
- `Object::new` reads a file and calls `parse_vertices`. Both are out of the
  model: file I/O, and floating-point text parsing (`str::parse::<f64>`). An
  `Object` is built directly from its faces and vertices.
- `Line::intersect` only prints its operands; output is not modelled.
- The regex engine is modelled only for the one pattern `parse_faces` uses.
  `\d` is read as the ASCII digits, whereas the `regex` crate's Unicode
  `\d` also matches other decimal digits, whose `parse::<u32>` would fail.
  `Regex::new` on a constant pattern is taken to succeed.
- IEEE rounding: every float operation is exact, so results that differ only
  by rounding are not modelled. NaN and the infinities are modelled where the
  source produces them from finite inputs (slope and intercept). Non-finite
  inputs are not representable: pixel coordinates, depths, intensities and
  vertex coordinates are finite reals, so a NaN or infinite value from
  `parse_vertices` (such as `1e999`) is not modelled.
- Release-build wrap-around: overflow and out-of-range indexing are
  preconditions, as in a debug build that would panic.
- `src/render/base.rs` (the `Renderer` trait), `src/geometry/triangle.rs`,
  `src/lib.rs` and `src/main.rs` are not part of this model. `Framebuffer`
  implements the trait's three operations directly.
- Framebuffer.GetSize: no contract of its own; SetPixelKeepsSize and
  SizeNeverChanges state what `get_size` promises.
- Framebuffer.SetPixels: it folds the source's `set_pixel`, so its z-buffer
  property is proved only for writes with an integer `y` (IntegralZBuffer).
  With a fractional `y` it can fail (SetPixelsFractionalNotZBuffer); see
  Findings.
- BoundingBox.MinMax: requires a non-empty input, since the source indexes
  `vectors[0]` and panics on an empty slice.
- Segment.ColumnsTowardEnd, Segment.CellsOnLine, Segment.DescendingOnLine,
  Segment.FirstCellIsVertex0, Segment.EndColumnUnpainted,
  Segment.InterceptSymmetric and Segment.InterceptsAgree: stated only for
  coordinates below 2^31. Above that, `as i32` wraps and the walk no
  longer follows the geometric segment. Render itself covers all inputs.
- ObjParse.Lines: its own contract is only a length bound. Its content is
  pinned by LinesOfTerminated and LinesCons, and the general line split is
  given by its definition.
- ObjParse.ParseFaceLines: its own contract gives success and a count bound.
  Its content is given by ParseFaceLinesFaces, ParseFaceLinesAppend and
  ParseFaceLinesOfFaces.

## Findings

| source | as written | input that shows it | evidently intended | confidence | as-written member | corrected member |
|---|---|---|---|---|---|---|
| src/render/png.rs:34-42 | the depth slot is `(x + y * width) as usize`, but the colour goes to `image[y as usize][x as usize]`; these can be different pixels: they agree whenever `y` is an integer and differ exactly when `frac(x) + frac(y) * width >= 1` | 2 x 2 framebuffer, write at x = 0, y = 0.5, depth 1: cell (row 0, column 0) is coloured, but slot 1, the slot of cell (row 0, column 1), gets the depth; a later write at x = 1, y = 0, depth 0, which lands on cell (row 0, column 1), is then dropped in one order and kept in the other | test and store the depth of the cell that is written, slot `(y as usize) * width + (x as usize)` | not executed | Framebuffer.SetPixelFractionalMismatch, Framebuffer.SetPixelsFractionalNotZBuffer | Framebuffer.SetPixelCell (with SetPixelCellCoherent, SetPixelCellCommutes, SetPixelsCellPixel, and IntegralZBuffer for writes with integer `y`; SlotIsCellSlotIff gives the exact condition) |
