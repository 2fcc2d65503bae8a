# Ray caster: nearest-hit selection and frame traversal

This project models the renderer of a small Rust ray caster. The ray caster
draws a bear face made of spheres. The model covers two functions of
`src/main.rs`:

- `cast_ray` tests one ray against every sphere of the scene in array order.
  It keeps the nearest hit in a running z-buffer, which starts at +infinity.
  A later hit replaces the nearest one only when it is strictly nearer, so
  the first sphere wins ties. The result is the flat green background
  (120, 180, 130) when nothing was hit. Otherwise it is the winner's diffuse
  colour, with no lighting.
- `render` visits every pixel of the frame, rows from the top and each row
  from the left. For each pixel it builds the camera ray, casts it, sets the
  framebuffer's current colour to the result and plots the pixel.

Files:

- `scene.dfy` (module `Scene`): colours, materials, vectors, hit records and
  spheres. `Depth` is a distance or +infinity. `Below` is the floating-point
  `<` on distances, so a hit record at +infinity is never adopted, exactly
  as with `f32`.
- `nearest.dfy` (module `Nearest`): the selection rule stated without the
  loop. `IsNearest` means "the first hit of least distance". `Shade` is the
  colour a ray with these hit records gets. Lemmas about it cover misses,
  ties, dropping non-hitting records and reordering.
- `framebuffer.dfy` (module `Frame`): the framebuffer as a class with a
  `width x height` grid of colours and a current colour. `RowMajor` is the
  order in which the nested loops of `render` visit the pixels.
- `renderer.dfy` (module `Renderer`): `CastRay` and `Render` as methods with
  loops, proved against `Shade` and `RowMajor`. Also the mapping from pixel
  to normalized screen coordinates, over exact reals.

Abstract parameters:

- `object.ray_intersect` is a function parameter `rayIntersect` from a
  sphere, an origin and a direction to a hit record.
- The camera's `basis_change` is a field of `Camera`.
- `normalize` is a function parameter.
- `tan(fov / 2)` is the real parameter `perspectiveScale`.

## Model

| member | source | states |
|---|---|---|
| `Scene.Below` | src/main.rs:24 | The `tmp.distance < zbuffer` test on distances. Only a finite distance is ever below anything, and every finite distance is below +infinity. NaN is not modelled. |
| `Scene.BelowIsStrictTotalOrder` | src/main.rs:24 | `Below` is irreflexive and transitive, and any two distinct distances are comparable. |
| `Scene.EmptyIsSentinel` | src/main.rs:19-20 | `Empty`, the constant for `Intersect::empty()`, reports no intersection, has a zero normal and lies at +infinity. Every finite distance is below it, and it is below nothing. |
| `Renderer.CastRay` | src/main.rs:18-37 | The returned colour is `Shade` of the objects' hit records. With no intersecting object it is the background (120, 180, 130). With a hit it is the diffuse colour of the first hit of least distance. The loop invariant: after k objects, a hit has been adopted iff one of them hit; then the z-buffer is the adopted hit's distance and that hit is the prefix's first nearest; otherwise the z-buffer is +infinity. |
| `Nearest.NearestExists` | src/main.rs:22-28 | Whenever some record hits, a first hit of least distance exists. |
| `Nearest.NearestIndex` | src/main.rs:22-28 | The chosen index is a hit. No hit is nearer than it. Every hit before it is strictly farther, because the comparison is a strict `<`. |
| `Nearest.NearestUnique` | src/main.rs:24 | The strict comparison picks one winner: two "first nearest" indices are equal. |
| `Nearest.AnyHitExtended` | src/main.rs:22-28 | After one more object, some hit has been seen iff one was seen before or the new object hits. |
| `Nearest.Shade` | src/main.rs:30-36 | The reference colour of a ray: the background when no record hits, else the diffuse colour of the record `NearestIndex` picks. No ensures; its properties are the lemmas below. |
| `Nearest.ShadeOfMiss` | src/main.rs:30-32 | If no record reports an intersection, the colour is exactly the background. |
| `Nearest.ShadeOfHit` | src/main.rs:30-36 | If some record hits, the colour is the diffuse colour of the first hit of least distance. |
| `Nearest.ShadeCons` | src/main.rs:22-28 | Putting a record x first: a miss changes nothing; a hit no farther than every later hit wins; otherwise the colour of the rest stays. |
| `Nearest.OnlyHits` | src/main.rs:24 | The filtered list holds exactly the hitting records of the input. |
| `Nearest.ShadeIgnoresMisses` | src/main.rs:24 | Dropping every non-hitting record leaves the colour unchanged. |
| `Nearest.SameHitsSameShade` | src/main.rs:22-28 | Two lists with the same hits in the same order give the same colour, so adding, removing or moving misses changes nothing. |
| `Nearest.ShadeOrderIndependent` | src/main.rs:22-28 | If no two hits are at the same distance, any rearrangement of the records gives the same colour. |
| `Nearest.NearerWinsWhenListedSecond` | src/main.rs:22-27 | With the farther sphere listed first, the nearer one's colour still wins. |
| `Renderer.HitsAlong` | src/main.rs:22-23 | Ensures only the length (one record per object); the body is the definition: record i is `ray_intersect` of object i, in slice order. |
| `Renderer.WinnerIsObjectMaterial` | src/main.rs:34-36 | If `ray_intersect` copies the sphere's material into its hits, a ray that hits gets the diffuse colour of a sphere it hits. |
| `Renderer.ScreenX` | src/main.rs:48 | For a column x < width, 2x/width - 1 lies in [-1, 1), and column 0 maps to -1. |
| `Renderer.ScreenY` | src/main.rs:49 | For a row y < height, 1 - 2y/height lies in (-1, 1], and row 0 maps to 1, the top of the screen. |
| `Renderer.ScreenMappingMonotone` | src/main.rs:48-49 | Columns further right map strictly further right. Rows further down map strictly further down (the y flip). |
| `Renderer.CameraRay` | src/main.rs:48-54 | The camera-space ray of pixel (x, y) before `normalize`. Its z is -1. Its x is at most aspect ratio times the perspective scale in magnitude, and its y at most the perspective scale. Column 0 reaches the left edge and row 0 the top edge. |
| `Renderer.RayDirection` | src/main.rs:54-55 | The world-space direction of pixel (x, y)'s ray: `basis_change(normalize(CameraRay(..)))`. No ensures; the body is the definition of those two lines. |
| `Renderer.PixelColor` | src/main.rs:55-57 | The reference colour of pixel (x, y): `Shade` of the hit records along its ray from the eye. No ensures; this is the specification `Render` is proved against. |
| `Renderer.Render` | src/main.rs:39-63 | Afterwards every pixel (x, y) of the grid holds the colour `cast_ray` gives for its ray. The sequence of `point` calls is exactly `RowMajor(width, height)`, and in it each pixel of the grid occurs exactly once and no other pixel occurs. The current colour is the last pixel's, or unchanged for an empty frame. |
| `Renderer.RenderRow` | src/main.rs:47-61 | One pass of the inner loop: each pixel of row y gets its ray's colour. The `point` calls are the row's pixels, left to right. The current colour is the row's last pixel's. Other rows are untouched. |
| `Frame.Row` | src/main.rs:47 | Ensures only the length n; the body is the definition: the pixels (0, y) to (n - 1, y), left to right. |
| `Frame.RowCounts` | src/main.rs:47 | Each pixel (x, y) with x < n occurs exactly once in `Row(y, n)`, and no other pixel occurs. |
| `Frame.RowMajorVisitsEachOnce` | src/main.rs:46-47 | The visiting order has width*height entries. It contains exactly the grid's pixels. It is strictly increasing in row-major order (row first, then column). So no pixel is visited twice: each grid pixel occurs exactly once (multiset count 1), every other pixel never. |
| `Frame.Framebuffer.constructor` | src/main.rs:72 | A fresh width x height frame with every pixel and the current colour set to the fill colour. |
| `Frame.Framebuffer.SetCurrentColor` | src/main.rs:59 | The current colour becomes the given colour. |
| `Frame.Framebuffer.Point` | src/main.rs:60 | Writes the current colour at (x, y) and no other pixel. It records the call in `plotted`. |

## Left out

- `main` (window creation, key polling, camera orbit on arrow keys, pushing the buffer to the window, the 16 ms sleep): this is I/O and timing.
- The hard-coded bear-face scene: it is data. Any list of spheres can be passed to `CastRay` and `Render`.
- Sphere ray intersection (`sphere.rs`): this is floating-point geometry with a square root. It is the abstract parameter `rayIntersect`. The model does not assume its contract (nearest positive distance, material copied from the sphere), except where `WinnerIsObjectMaterial` names the material part.
- The camera (`camera.rs`), `normalize` and `tan`: these are floating-point linear algebra and trigonometry. They are the abstract `Camera.basisChange`, the parameter `normalize` and the real `perspectiveScale`.
- `Color::to_hex` and the packed-integer pixel buffer: the model stores colours as triples in a 2-D array indexed by (x, y). It does not state any memory index formula.
- `framebuffer.rs` is not part of this model. `Framebuffer.Point` leaves the frame unchanged for a position outside it. `render` never makes such a call. The constructor's initial fill colour is a parameter.
- `ray_intersect.rs` is not part of this model. The material of `Intersect::empty` is taken to be black. `cast_ray` never reads it.
- `f32` arithmetic: exact reals replace rounding, and NaN distances are not modelled.
- Loop structure: the inner `for x` loop of `render` is the separate method `RenderRow` here, to keep each proof small. The loop itself is unchanged.
