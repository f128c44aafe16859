# A verified model of a software rasterizer's core

This project models four files of a Rust CPU rasterizer and proves properties of them in Dafny:

- **src/color.rs**: the RGB colour type. It covers:
  - clamping construction;
  - packing into and out of a 24-bit integer;
  - parsing of `#rrggbb` strings;
  - the `+` and `-` operators;
  - the blend modes.
- **src/framebuffer.rs**: the frame buffer. It is a packed-pixel array with a background colour and a pen ("current") colour. The model covers:
  - point writes and reads;
  - clearing;
  - the even-odd scanline polygon fill.
- **src/line.rs**: the rasterization primitives:
  - the integer Bresenham `line`;
  - the wireframe `_triangle`;
  - the filled `triangle`, which uses a bounding box and signed-area barycentric weights.
- **src/autopilot.rs**: the autopilot record with `new`, `start` and `stop`.

Modules:

| module | file | models |
|---|---|---|
| `Wrappers` | Wrappers.dfy | `Option` and `Result` |
| `Arithmetic` | Arithmetic.dfy | Rust's truncating integer division and the non-linear facts the other modules need |
| `Colors` | Colors.dfy | src/color.rs, as pure functions |
| `Framebuffers` | Framebuffers.dfy | src/framebuffer.rs, as a class over a pixel `array` |
| `Lines` | Lines.dfy | src/line.rs, as methods with loops proved against recursive specification functions |
| `Autopilots` | Autopilots.dfy | src/autopilot.rs, as a class with value-level transition functions |

In `Colors`, Rust's fixed-width integers are `int` subset types, so every intermediate `u16`, `i16` or `i32` is checked to fit. `Lines` and `Framebuffers` compute on unbounded integers, and the `i32` and `isize` overflows they do not model are listed under "Left out". Signed `/` is truncating division. `f32` values are `real`. Where the `f32` computation is not a finite number (a division by zero), the model returns `None`.

Behaviour of the code that the model keeps:

- `point(x, y)` writes without a depth test, and `clear` resets only the colour buffer.
- `from_hex_str` returns `Err(String)`. It removes any number of leading `#`s, measures the length in UTF-8 bytes and, through `from_str_radix`, accepts one leading `+`.
- `line` always emits black fragments. Its depth is interpolated along x only, so a vertical line has no finite depth.
- `triangle` does not guard a zero-area triangle. Its `f32` weights become NaN or infinite, so no pixel passes the interior test. The model returns no weights there, with the same result: no fragments.

`blend_multiply` and `blend_with` compute in `f32`, and the model uses the exact integer quotient instead. For byte inputs the two agree:
- `blend_with` takes halves of integers below 256, which `f32` represents exactly.
- `blend_multiply` divides a product below 2^16 by 255. The exact quotient is either an integer or at least 1/255 away from one, which is far more than the `f32` rounding error. Truncation therefore gives the same integer.

## Model

| member | source | states |
|---|---|---|
| Colors.Clamp | src/color.rs:15-17 | `clamp(0, 255)` gives the byte nearest the input, and leaves values in range unchanged |
| Colors.New | src/color.rs:13-19 | in-range channels are kept; a channel below 0 becomes 0 and one above 255 becomes 255 |
| Colors.ToHex | src/color.rs:41-43 | the packed value fits in 24 bits |
| Colors.FromHexToHex | src/color.rs:21-26 | `from_hex(c.to_hex()) == c` for every colour |
| Colors.FromHex | src/color.rs:21-26 | packing the result again gives the input without its top byte: bits 16-23 are red, 8-15 green and 0-7 blue |
| Colors.ToHexInjective | src/color.rs:41-43 | two colours pack to the same integer exactly when they are equal |
| Colors.TrimStartHashes | src/color.rs:29 | `trim_start_matches('#')` removes exactly the leading run of `#`s and keeps the rest as a suffix |
| Colors.TrimLeadingHashes | src/color.rs:29 | any number of `#`s before a text not starting with `#` are all removed |
| Colors.Utf8Len | src/color.rs:31 | the byte length is at least the character count, and equals it exactly for ASCII text |
| Colors.HexDigitValue | src/color.rs:35 | an accepted digit is an ASCII character with a value below 16 |
| Colors.ParseHexDigits | src/color.rs:35 | parsing succeeds exactly when every character is a hex digit, with a value below 16^length |
| Colors.ParseHexDigitsInverse | src/color.rs:35 | parsing the k-digit hex form of n < 16^k gives back n |
| Colors.SignedHexTextIsAscii | src/color.rs:31-35 | the texts `from_str_radix` accepts are ASCII, so their byte length is their character count |
| Colors.FromStrRadix16 | src/color.rs:35-36 | an accepted text is a hex digit or a `+`, followed by hex digits only, and its value is below 16^length |
| Colors.FromStrRadix16Accepts | src/color.rs:35-36 | for texts of at most 8 characters, `from_str_radix(_, 16)` succeeds exactly on an optional `+` followed by hex digits |
| Colors.FromHexStr | src/color.rs:28-39 | success only when the text after the `#`s is 6 characters of signed hex; every failure carries the length error or the parse error |
| Colors.FromHexStrAccepts | src/color.rs:28-39 | `from_hex_str` succeeds exactly on 6-byte signed-hex text after the `#`s; the wrong length gives the length error, otherwise the parse error |
| Colors.FromHexStrRoundTrip | src/color.rs:28-43 | any number of `#`s followed by the 6 hex digits of `c.to_hex()` parse back to `c` |
| Colors.IsBlack | src/color.rs:60-62 | true exactly for the black colour |
| Colors.IsEqual | src/color.rs:108-110 | true exactly when the colours are equal |
| Colors.BlendNormal | src/color.rs:64-66 | a non-black blend replaces the base, and a black one leaves the base |
| Colors.BlendNormalLayers | src/color.rs:64-66 | black is transparent; layering is associative; repeating a layer changes nothing |
| Colors.BlendAdd | src/color.rs:76-82 | equals the `+` operator, and no channel is darker than either input's |
| Colors.Plus | src/color.rs:119-128 | each channel is at least the larger input, and is their exact sum whenever it is below 255 |
| Colors.BlendAddIsSaturatingSum | src/color.rs:76-82 | `blend_add` equals the saturating `+` operator (lines 119-128) and is the per-channel sum capped at 255 |
| Colors.BlendAddLaws | src/color.rs:76-82 | commutative and associative; black is the identity and white absorbs |
| Colors.BlendSubtract | src/color.rs:84-90 | equals the `-` operator, and no channel exceeds the base's |
| Colors.Minus | src/color.rs:141-150 | each channel is at most the left operand's, and is the exact difference whenever it is above 0 |
| Colors.BlendSubtractIsFlooredDifference | src/color.rs:84-90 | `blend_subtract` equals the `-` operator (lines 141-150) and is the per-channel difference floored at 0 |
| Colors.BlendSubtractLaws | src/color.rs:84-90 | subtracting a colour from itself gives black; black is a right identity and a left zero; adding the blend back never goes below the base |
| Colors.ScreenChannelBounds | src/color.rs:94-96 | a screened channel lies between the larger input and 255; it is symmetric, with 0 as identity and 255 absorbing |
| Colors.BlendScreen | src/color.rs:92-98 | no channel is darker than either input's |
| Colors.BlendScreenLaws | src/color.rs:92-98 | screen never darkens either input; it is commutative, with black as identity and white absorbing |
| Colors.MultiplyChannelBounds | src/color.rs:70-72 | a multiplied channel lies between 0 and the smaller input; it is symmetric, with 255 as identity and 0 absorbing |
| Colors.BlendMultiply | src/color.rs:68-74 | no channel is brighter than either input's |
| Colors.BlendMultiplyLaws | src/color.rs:68-74 | multiply never brightens either input; it is commutative, with white as identity and black absorbing |
| Colors.BlendWith | src/color.rs:100-106 | each channel lies between the two inputs' channels |
| Colors.BlendWithLaws | src/color.rs:100-106 | each channel lies between the two inputs' channels; the blend is symmetric and idempotent |
| Framebuffers.IndexOfPixel | src/framebuffer.rs:51-52 | an in-bounds pixel's index `width*y + x` lies in the buffer and decodes back to (x, y) |
| Framebuffers.PixelOfIndex | src/framebuffer.rs:51-52 | every buffer index is the index of exactly one in-bounds pixel |
| Framebuffers.IndexInjective | src/framebuffer.rs:51-52 | distinct in-bounds pixels have distinct indices |
| Framebuffers.MinY | src/framebuffer.rs:79 | the least vertex y: no vertex is lower, and some vertex attains it |
| Framebuffers.MaxY | src/framebuffer.rs:80 | the greatest vertex y: no vertex is higher, and some vertex attains it |
| Framebuffers.Crosses | src/framebuffer.rs:88 | an edge crosses scanline y exactly when y lies above its lower end and at or below its upper end, so a horizontal edge never crosses |
| Framebuffers.Intersect | src/framebuffer.rs:89 | for a crossing edge, the truncated intersection lies within the edge's x extent |
| Framebuffers.Crossings | src/framebuffer.rs:83-93 | each visited edge adds at most one crossing |
| Framebuffers.CrossingsParity | src/framebuffer.rs:82-93 | after n edges, the crossing count is even exactly when vertex n-1 is on the same side of the scanline as the closing vertex |
| Framebuffers.CrossingsEven | src/framebuffer.rs:82-93 | every scanline meets the closed polygon an even number of times, so the crossings pair up |
| Framebuffers.Insert | src/framebuffer.rs:94 | inserting into a sorted sequence keeps it sorted and adds exactly that element |
| Framebuffers.SortInts | src/framebuffer.rs:94 | `sort()` returns a sorted permutation of its input |
| Framebuffers.InSpansIff | src/framebuffer.rs:95-101 | the span walk paints x exactly when x lies between some pair `nodes[2k]`, `nodes[2k+1]` |
| Framebuffers.InSpansExtend | src/framebuffer.rs:95-101 | one more step of two adds exactly the span between those two crossings |
| Framebuffers.InSpansWhole | src/framebuffer.rs:95-101 | an odd crossing left over at the end paints nothing |
| Framebuffers.SpansBetweenStep | src/framebuffer.rs:82-103 | one more scanline adds a painted span exactly when it has two crossings |
| Framebuffers.Filled | src/framebuffer.rs:78-104 | a painted pixel's row has at least two crossings |
| Framebuffers.FilledMeansBetweenCrossings | src/framebuffer.rs:78-104 | `fill_polygon` paints (x, y) exactly when y is within the vertices' rows and x lies between a pair of sorted crossings |
| Framebuffers.SolidPixels | src/framebuffer.rs:22 | `vec![hex; n]`: n pixels, all the given colour |
| Framebuffers.CollectCrossings | src/framebuffer.rs:83-93 | the loop with the trailing index `j` collects the crossings of every edge (vertex j, vertex i) in order |
| Framebuffers.Framebuffer.constructor | src/framebuffer.rs:18-31 | a `width*height` buffer of the black background, with a white pen |
| Framebuffers.Framebuffer.Clear | src/framebuffer.rs:45-48 | every pixel takes the background colour |
| Framebuffers.Framebuffer.GetPoint | src/framebuffer.rs:65-72 | Some(pixel) exactly for in-bounds coordinates, None otherwise |
| Framebuffers.Framebuffer.Point | src/framebuffer.rs:50-55 | an in-bounds write sets that one pixel to the pen colour; out-of-bounds writes change nothing; every other pixel reads as before |
| Framebuffers.Framebuffer.SetBackgroundColor | src/framebuffer.rs:57-59 | only the background colour changes |
| Framebuffers.Framebuffer.SetCurrentColor | src/framebuffer.rs:61-63 | only the pen colour changes |
| Framebuffers.Framebuffer.PaintSpan | src/framebuffer.rs:97-100 | the pixels from..=to of row y take the fill colour and all others keep theirs; the pen ends as the fill colour when the span is non-empty |
| Framebuffers.Framebuffer.FillRow | src/framebuffer.rs:83-102 | row y is painted exactly on the spans between paired sorted crossings |
| Framebuffers.Framebuffer.FillPolygon | src/framebuffer.rs:78-104 | exactly the `Filled` pixels take the fill colour and all others keep theirs; the pen changes only if some span was visited; with no vertices nothing changes |
| Lines.SatI32 | src/line.rs:99-102 | an integer cast to i32 is kept inside the i32 range and saturates outside it |
| Lines.TruncToI32 | src/line.rs:14-17 | within the i32 range, `f as i32` drops the fraction toward zero; outside it, the result is the nearer end of the range |
| Lines.StartOnTrack | src/line.rs:19-25 | the initial `err` lies in the window the walk keeps |
| Lines.ErrAtClosed | src/line.rs:25-41 | after px steps in x and py steps in y, `err` is `err0 + dx*py - dy*px` |
| Lines.AtEndIff | src/line.rs:31 | the loop stops exactly when dx steps in x and dy steps in y are done |
| Lines.EndTogether | src/line.rs:31-41 | within the error window, reaching the target on one axis forces reaching it on the other |
| Lines.StepOnTrack | src/line.rs:33-41 | one loop body keeps the error window and never overshoots either endpoint |
| Lines.LineDepth | src/line.rs:28 | there is no finite depth exactly when the endpoints share x; the start column gets the start's z, and the column at the endpoints' x distance gets the end's z |
| Lines.LoopStep | src/line.rs:27-42 | one loop pass pushes the current pixel and continues the walk from the next progress |
| Lines.WalkFrom | src/line.rs:27-42 | the rest of the walk is non-empty and starts at the current pixel |
| Lines.WalkFromEnds | src/line.rs:27-42 | the rest of the walk ends at (x1, y1), with one pixel per remaining step on the major axis |
| Lines.WalkFromInBox | src/line.rs:27-42 | every pixel of the walk lies in the endpoints' box |
| Lines.WalkFromSteps | src/line.rs:33-41 | each pixel follows the previous one by moving x by sx, y by sy, or both |
| Lines.WalkPixelsFacts | src/line.rs:14-42 | the walk runs from (x0, y0) to (x1, y1) in max(dx, dy) + 1 eight-connected pixels inside the box |
| Lines.LineFacts | src/line.rs:8-45 | `line(a, b)` emits black fragments from a's truncated position to b's, 8-connected, of length max(dx, dy) + 1, inside the endpoints' box |
| Lines.Line | src/line.rs:8-45 | returns the fragments of the Bresenham walk between the truncated endpoints, each with its x-interpolated depth |
| Lines.LineLoop | src/line.rs:27-42 | the loop pushes the fragment of every pixel of the walk, in order |
| Lines.WireTriangle | src/line.rs:47-56 | the outline is `line(v1,v2) ++ line(v2,v3) ++ line(v3,v1)` |
| Lines.WireTriangleClosed | src/line.rs:47-56 | each side ends where the next one starts, the last side ends at v1's pixel, the outline is black and its length is the sum of the sides' lengths |
| Lines.BoundingBox | src/line.rs:98-105 | on each axis the box's minimum is at most its maximum |
| Lines.BoundingBoxEncloses | src/line.rs:98-105 | inside the i32 range, the box contains all three vertices and is less than one pixel wider than them on each side |
| Lines.Area | src/line.rs:122-124 | the signed area is zero when two vertices coincide or all three share an x or a y |
| Lines.AreaSymmetries | src/line.rs:122-124 | the signed area is unchanged by rotating the vertices and negated by swapping two |
| Lines.AreaSplit | src/line.rs:109-113 | the three sub-areas that p cuts the triangle into sum to the total area |
| Lines.AreaMoments | src/line.rs:109-113 | the sub-areas weighted by the vertex coordinates give p scaled by the total area |
| Lines.Barycentric | src/line.rs:107-120 | weights exist exactly when the area is non-zero, and then they sum to 1 |
| Lines.WeightsReconstructPoint | src/line.rs:107-120 | the weighted sum of the vertices' x and y is the point's x and y |
| Lines.WeightsAtVertices | src/line.rs:107-120 | each vertex has weight 1 for itself and 0 for the other two |
| Lines.WeightsFollowVertices | src/line.rs:107-120 | reversing the orientation or rotating the vertices keeps every vertex's weight |
| Lines.Covers | src/line.rs:75-77 | a pixel can pass the interior test only for a triangle of non-zero area |
| Lines.ScanlineSound | src/line.rs:68-92 | every fragment of a row scan is its pixel's emission, at a column of the range |
| Lines.ScanlineOrdered | src/line.rs:68-92 | a row scan emits left to right |
| Lines.ScanlineComplete | src/line.rs:68-92 | every pixel of the range that emits has its fragment in the row |
| Lines.ScanSound | src/line.rs:67-93 | every fragment of the box scan is its pixel's emission, inside the box |
| Lines.ScanOrdered | src/line.rs:67-93 | the box scan emits in row-major order |
| Lines.ScanComplete | src/line.rs:67-93 | every pixel of the box that emits has its fragment in the scan |
| Lines.PixelEmitterAtPixel | src/line.rs:69-91 | each pixel emits at most one fragment, at that pixel |
| Lines.RowMajorChain | src/line.rs:67-93 | adjacent row-major order gives order between every pair, so no pixel is emitted twice |
| Lines.PixelFragmentsIs | src/line.rs:72-91 | a pixel emits f exactly when it passes the [0,1] test and f carries its shade and interpolated depth |
| Lines.TriangleFacts | src/line.rs:58-96 | `triangle` emits exactly the covered pixels of its box, each once, in row-major order, with shade and depth from the weights |
| Lines.FlatDepth | src/line.rs:88 | with weights summing to 1, equal vertex depths interpolate to that depth |
| Lines.FlatTriangleDepth | src/line.rs:58-96 | a triangle with one z everywhere gives every fragment that depth |
| Lines.DegenerateTriangleEmpty | src/line.rs:58-96 | a zero-area triangle emits no fragments |
| Lines.CoveredWeights | src/line.rs:72-77 | a pixel that passes the interior test is a convex combination of the vertices, with the weights `barycentric_coordinates` returns |
| Lines.CoveredInBox | src/line.rs:64-77 | inside the i32 range, every pixel that passes the interior test lies in the bounding box |
| Lines.TriangleCoversExactly | src/line.rs:58-96 | inside the i32 range, `triangle` emits a fragment at exactly the covered pixels of the whole plane |
| Lines.Triangle | src/line.rs:58-96 | returns the row-major scan of the bounding box with the covered pixels' fragments |
| Lines.TriangleRows | src/line.rs:67-93 | the outer loop appends the rows minY..=maxY in order |
| Lines.TriangleRow | src/line.rs:68-92 | the inner loop appends the covered pixels of columns minX..=maxX in order |
| Autopilots.StopResets | src/autopilot.rs:11-32 | a new autopilot is idle, and `stop` returns any state to the initial one |
| Autopilots.StopIdempotent | src/autopilot.rs:27-32 | stopping twice is the same as stopping once |
| Autopilots.StartForgetsHistory | src/autopilot.rs:20-25 | `start` yields active, keys [A, W] and zero counters, whatever the state before |
| Autopilots.StartStopRoundTrip | src/autopilot.rs:20-32 | `stop` after `start` gives back the initial state |
| Autopilots.Autopilot.constructor | src/autopilot.rs:11-18 | inactive, no keys, zero progress and distance |
| Autopilots.Autopilot.Start | src/autopilot.rs:20-25 | the whole new state is the started state |
| Autopilots.Autopilot.Stop | src/autopilot.rs:27-32 | the whole new state is the stopped state |

## Left out

- `Color::lerp`, `Color::to_f32` and `impl Display for Color`: floating-point scaling and formatting, which no modelled operation uses.
- `impl Mul<f32> for Color`: `triangle` scales its grey by the light intensity with it (src/line.rs:86). That is part of the lighting behind the `shade` parameter of Lines.Triangle.
- `Framebuffer::draw_background`: it depends on the camera's pitch and on `lerp` over floats.
- `Framebuffer::save_as_bmp`: file output.
- `get_width`, `get_height` and `get_buffer`: plain getters. The model's fields are readable directly.
- Framebuffers.Framebuffer.constructor: `width * height` is unbounded, so `usize` overflow is not modelled.
- Framebuffers.Framebuffer.Point: `isize` coordinates are unbounded, so overflow of `width * y` is not modelled.
- Framebuffers.Framebuffer.FillPolygon: on an empty vertex list the model follows a release build, where `len() - 1` wraps and nothing is drawn. A debug build panics on that subtraction, and the model does not capture the panic.
- Framebuffers.Framebuffer.FillPolygon: `isize` overflow in the intersection formula is not modelled.
- Framebuffers.Framebuffer.FillPolygon: the single source function is split into one method per loop: `FillRow`, `CollectCrossings` and `PaintSpan`.
- Lines.Line: `f as i32` on NaN, and `i32` overflow of `x1 - x0`, of the steps or of `x0 - start.x as i32` in the depth, are not modelled.
- Lines.Line: the `as f32` conversion of fragment coordinates is not modelled. Coordinates stay integers.
- Lines.Line: depth arithmetic is exact on reals, and a non-finite depth is `None`.
- Lines.Line: the loop is a separate method, `LineLoop`.
- Lines.Triangle: lighting is the parameter `shade` of the barycentric weights, because it uses nalgebra floating-point operations. These are the interpolated normal, `normalize`, `dot` with the light, and `Color * intensity`.
- Lines.Triangle: `f32` rounding of areas and weights is not modelled. Rounding can change which pixels pass the closed [0,1] test near edges and for nearly degenerate triangles.
- Lines.Triangle: the `as f32` conversion of fragment coordinates (src/line.rs:90) is not modelled. Coordinates stay integers.
- Lines.Triangle: NaN vertex coordinates are not modelled. In `calculate_bounding_box`, `f32::min` and `f32::max` skip a NaN operand, and `NaN as i32` is 0.
- Lines.Triangle: the two loops are the methods `TriangleRows` and `TriangleRow`. Each row is appended whole, which gives the same sequence as pushing pixel by pixel.
- Lines.BoundingBoxEncloses, Lines.CoveredInBox, Lines.TriangleCoversExactly: stated only for vertex coordinates inside the i32 range. Outside it, the saturating casts can cut the box short.
- src/vertex.rs and src/fragment.rs are not part of this model. Only the vertex fields `triangle` and `line` read, and the fragment fields they set, are modelled.
- Autopilots: `Key` comes from the window library and is modelled by the keys the program reads. `clear()` keeps the vector's capacity, which is not observable.
