# A verified model of the ray tracer's discrete core

This project models, in Dafny, the parts of the Rust ray tracer in
`ray_tracer/src/main.rs` that can be stated exactly. It proves properties of
each part. The parts are:

- **The pixel buffer.** `ImageBuffer::new` allocates a row-major buffer of
  `w*h` black pixels. `get_index` is its bounds-checked index, which fails
  with `OutsideImageBuffer`.
- **The plain-PPM ("P3") writer `save_as_ppm_file`.** `Ppm.PpmText` is a pure
  function giving the text the writer emits. `Ppm.SaveAsPpm`, `WriteRow` and
  `WritePixel` mirror the writer's nested loops and are proved to append
  exactly that text. The file handle is replaced by the growing string.
- **An independent reader for that text.** `PpmReading.ReadPpm` splits the
  text into whitespace-separated tokens and parses them. The round trip
  `ReadPpm(PpmText(img)) == Some(img)` shows that the emitted text determines
  the buffer: its header, its `w*h` triples and their bottom-up row order.
- **The sphere intersection `Sphere::hit`.** `Spheres.Hit` is a function.
  `Spheres.SphereHit` is the source's version, which fills in a default
  `HitRecord` field by field.
- **The nearest-hit scan `HitableList::hit`.** `Hitables.Scan` is a left fold.
  `Hitables.HitList` is the source's loop over the list, updating
  `closest_so_far`.
- **The materials.** This covers `Metal::new` and the `scatter` of `Metal` and
  `Lambertian`. The attenuation out-parameter is a second result of
  `Materials.Scatter`.
- **The recursive colour `get_color`.** `Integrator.GetColor` is the
  recursive function, bounded by depth 50; `Integrator.SceneHit` is the scene
  query it makes and `Integrator.Bounce` the ray it recurses on.

`Vec3` is a triple of reals with exact arithmetic. The source's `f64`
rounding is not modelled. `HitableList` is its `list` field, a
`seq<Sphere>`. Three things become function-valued parameters:

- The square root in `Sphere::hit` becomes `sqrt`.
- The sky gradient `get_color` returns on a miss becomes `sky`.
- The random vector `random_in_unit_sphere()` drawn by a scatter becomes
  `noise`. In `get_color` it is `noise(depth)`.

Three details of the code are kept as written:

- `Metal::new` clamps `fuzz` only from above. There is no lower clamp to 0.
- `get_color` queries the interval `(0.001, f64::MAX)`; the upper end is the largest finite `f64`, not infinity.
- Every interval test is strict at both ends.

Modules, one per file:

| module | file | contents |
|---|---|---|
| `Wrappers` | wrappers.dfy | `Option` |
| `Errors` | errors.dfy | `RayTracerError` (only `OutsideImageBuffer`) and `Result` |
| `Image` | image.dfy | `Pixel`, `ImageBuffer` |
| `Numerals` | numerals.dfy | decimal `to_string` of `usize`/`u8`, decimal parsing, whitespace tokens |
| `Ppm` | ppm.dfy | the PPM writer; `PpmText` is the text it emits |
| `PpmReading` | ppm_reading.dfy | the reader and the round trip |
| `Vectors` | vectors.dfy | `Vec3` and its operators |
| `Rays` | rays.dfy | `Ray`, `point_at_parameter` (`PointAt`), `reflect` (`Reflect`) |
| `Materials` | materials.dfy | `Material`, `HitRecord`, `Metal::new`, `scatter` |
| `Spheres` | spheres.dfy | `Sphere`, `Sphere::hit` |
| `Hitables` | hitables.dfy | `HitableList::hit` |
| `Integrator` | integrator.dfy | `get_color` (`GetColor`) |

## Model

| member | source | states |
|---|---|---|
| Image.ImageBuffer.GetIndex | ray_tracer/src/main.rs:64-71 | `Ok` exactly when `x < w` and `y < h`. Its value is then `y*w + x`, which is below `w*h`. Otherwise the result is `Err(OutsideImageBuffer)`. |
| Image.New | ray_tracer/src/main.rs:57-63 | Stores `w` and `h`. Allocates exactly `w*h` pixels, all black. |
| Image.NewIsBlack | ray_tracer/src/main.rs:57-63 | Every in-range coordinate of a new buffer holds the black pixel. |
| Image.GetIndexInjective | ray_tracer/src/main.rs:64-71 | Distinct in-range coordinates get distinct indices. |
| Image.GetIndexSurjective | ray_tracer/src/main.rs:64-71 | Every position of a well-formed buffer is the index of `(i % w, i / w)`. |
| Numerals.ToDecimal | ray_tracer/src/main.rs:91-93 | The decimal text of `n` is never empty. It has one character below 10, at most two below 100 and at most three below 1000. |
| Numerals.NoLeadingZero | ray_tracer/src/main.rs:80 | The decimal text starts with `0` only for `n == 0`, so the header's `w` and `h` have no leading zero, as `to_string` prints them. |
| Numerals.DecimalDigits | ray_tracer/src/main.rs:91-93 | The decimal text consists of digits only. |
| Numerals.ParseToDecimal | ray_tracer/src/main.rs:80 | Parsing the decimal text of `n` gives back `n`, so `to_string` loses nothing. |
| Numerals.Spaces | ray_tracer/src/main.rs:96 | The padding has exactly the requested number of characters. |
| Numerals.ByteText | ray_tracer/src/main.rs:91-93 | A `u8` prints as one to three characters, all digits, whose value parses back below 256. |
| Ppm.PixelText | ray_tracer/src/main.rs:91-93 | The `"r g b"` text has between 5 and 11 characters. |
| Ppm.PixelField | ray_tracer/src/main.rs:91-96 | The padded field is exactly 12 characters long. |
| Ppm.PixelFieldLayout | ray_tracer/src/main.rs:91-96 | The field is the `"r g b"` text followed only by spaces. The text is shorter than 12, so `12 - len` never underflows. |
| Ppm.FormatPixel | ray_tracer/src/main.rs:91-96 | The source's string building, with the padding count held in a `nat`, yields exactly the 12-character field. |
| Ppm.WritePixel | ray_tracer/src/main.rs:89-100 | Appends the field of pixel `(x, y)`, plus one `"\n"` exactly when `y % 8 == 7`. |
| Ppm.WriteRow | ray_tracer/src/main.rs:88-102 | Appends the cells of image row `y` from left to right, then the row's newline. |
| Ppm.SaveAsPpm | ray_tracer/src/main.rs:72-105 | The loops write exactly `PpmText(img)`: the header, then rows `h-1` down to `0`. |
| Ppm.CellsLength | ray_tracer/src/main.rs:91-100 | Every pixel takes 12 characters of its row, or 13 in rows with `y % 8 == 7`. |
| Ppm.RowLength | ray_tracer/src/main.rs:88-102 | A row is `stride*w + 1` characters long. |
| Ppm.FieldAt | ray_tracer/src/main.rs:91-100 | In a run of cells, pixel `x`'s 12-character field starts at offset `stride*x`. In rows with `y % 8 == 7` a newline follows it. |
| Ppm.RowFieldAt | ray_tracer/src/main.rs:88-100 | Pixel `(x, y)`'s field sits at offset `stride*x` of row `y`'s text. In rows with `y % 8 == 7` a newline follows it. |
| Ppm.FieldHasNoNewline | ray_tracer/src/main.rs:91-96 | A pixel field contains no newline. |
| Ppm.CellsNewlines | ray_tracer/src/main.rs:97-100 | The cells of a row hold one newline per pixel when `y % 8 == 7`, and none otherwise. |
| Ppm.RowNewlines | ray_tracer/src/main.rs:97-102 | Every row ends in `"\n"`. It holds `w + 1` newlines when `y % 8 == 7` and exactly one otherwise. No other extra newline is written. |
| Ppm.EmittedRow | ray_tracer/src/main.rs:87-90 | The `k`-th row written is image row `h-1-k`. |
| PpmReading.HeaderTokensOf | ray_tracer/src/main.rs:77-84 | The header ends in whitespace. Its tokens are `"P3"`, the decimal `w`, the decimal `h` and `"255"`. |
| PpmReading.CellTokens | ray_tracer/src/main.rs:91-100 | A pixel's cell ends in whitespace. Its tokens are the pixel's three decimals. |
| PpmReading.RowTokens | ray_tracer/src/main.rs:88-102 | A row ends in a newline. Its tokens are the decimals of its pixels, from left to right. |
| PpmReading.BodyTokensOf | ray_tracer/src/main.rs:87-104 | The body's tokens are the decimals of the pixels in the order written. |
| PpmReading.PpmTokens | ray_tracer/src/main.rs:72-105 | The whole text's tokens are the header tokens followed by every written pixel's three decimals. |
| PpmReading.EmittedLength | ray_tracer/src/main.rs:87-104 | After `k` rows, exactly `k*w` pixels have been written, so `w*h` triples in total. |
| PpmReading.EmittedAt | ray_tracer/src/main.rs:87-90 | Pixel `x` of the `j`-th written row is image pixel `(x, h-1-j)`. |
| PpmReading.SlotPixel | ray_tracer/src/main.rs:87-90 | The buffer's pixel `i` is written at position `(h-1-i/w)*w + i%w`. |
| PpmReading.PixelRead | ray_tracer/src/main.rs:87-97 | The reader recovers each buffer pixel from the three tokens at its written position. |
| PpmReading.ReadSavedPpm | ray_tracer/src/main.rs:72-105 | Reading back the text the writer emits yields the original buffer: same `w`, `h` and pixels. |
| Rays.PointAt | ray_tracer/src/main.rs:282-284 | Over exact arithmetic, the point minus the origin is `t` times the direction. At `t == 0` the point is the origin. |
| Rays.ReflectFlipsNormal | ray_tracer/src/main.rs:287-289 | Over exact arithmetic and against a unit normal, reflection negates the component along the normal. |
| Rays.ReflectKeepsTangent | ray_tracer/src/main.rs:287-289 | Over exact arithmetic, reflection keeps every component orthogonal to the normal. |
| Rays.ReflectInvolution | ray_tracer/src/main.rs:287-289 | Over exact arithmetic, reflecting twice in the same unit normal gives the vector back. |
| Materials.DefaultHitRecordIsEmpty | ray_tracer/src/main.rs:299-308 | The default record has `t == 0`, zero `p` and `normal`, and no material. |
| Materials.NewMetal | ray_tracer/src/main.rs:200-214 | Keeps the albedo. Keeps `fuzz` when `fuzz < 1.0` and stores `1.0` otherwise, so the stored fuzz is at most 1. There is no lower clamp. |
| Materials.NewMetalIdempotent | ray_tracer/src/main.rs:200-214 | Rebuilding a metal from a built metal's fields changes nothing. |
| Materials.Scattered | ray_tracer/src/main.rs:217-240 | A scattered ray starts at the hit point. Lambertian always scatters. Metal scatters exactly when the fuzzed mirror direction has a positive dot product with the normal, and then the scattered direction has one too. |
| Materials.Scatter | ray_tracer/src/main.rs:217-240 | Writes the material's albedo to the attenuation and returns the scattered ray, if any. |
| Materials.LambertianDirection | ray_tracer/src/main.rs:234-240 | Over exact arithmetic, the Lambertian direction is `normal + noise`. |
| Materials.MirrorScattersIncoming | ray_tracer/src/main.rs:217-227 | Over exact arithmetic, with `fuzz == 0` and a unit normal, a metal scatters exactly the rays arriving against the normal. |
| Spheres.Hit | ray_tracer/src/main.rs:117-143 | `None` when the discriminant is negative. Otherwise `Some` exactly when a root lies strictly inside `(tMin, tMax)`. The `-sqrt` root is preferred. The record carries that `t`, `p = point_at_parameter(t)`, `normal = (p - center) / radius` and the sphere's material. |
| Spheres.SphereHit | ray_tracer/src/main.rs:117-143 | Filling a default record field by field gives exactly `Hit`. |
| Spheres.QuadraticRoot | ray_tracer/src/main.rs:119-135 | Both candidate roots solve `a t^2 + 2 b t + c = 0` when `sqrt` is a true square root. |
| Spheres.DistanceAlongRay | ray_tracer/src/main.rs:118-121 | Over exact arithmetic, the squared distance from the centre of `point_at_parameter(t)` is `a t^2 + 2 b t + c + r^2`. |
| Spheres.RootOnSphere | ray_tracer/src/main.rs:118-135 | Over exact arithmetic and with a true square root, at either root the ray's point lies on the sphere's surface. |
| Spheres.HitIsOnSphere | ray_tracer/src/main.rs:117-143 | With a true square root, a reported hit point lies on the surface and the reported normal has unit length. |
| Spheres.UnitNormal | ray_tracer/src/main.rs:132 | Over exact arithmetic, a surface offset divided by the radius has unit length. |
| Spheres.NearBeforeFar | ray_tracer/src/main.rs:128-135 | With a non-negative square root, the first root tried is never beyond the second. |
| Spheres.HitIsNearest | ray_tracer/src/main.rs:117-143 | With a non-negative square root, a reported hit is no further than either root inside the interval. |
| Hitables.Scan | ray_tracer/src/main.rs:151-162 | `closest_so_far` ends at most `tMax`. With no result it stays `tMax`. With a result it equals the result's `t`, which lies strictly inside `(tMin, tMax)`, and the record carries a material. |
| Hitables.HitList | ray_tracer/src/main.rs:151-162 | The loop over the spheres returns exactly the fold's result. |
| Hitables.ClosestNeverIncreases | ray_tracer/src/main.rs:153-160 | Scanning more spheres never raises `closest_so_far`. |
| Hitables.ScanMissesAll | ray_tracer/src/main.rs:151-162 | The result is `None` exactly when every sphere, tested alone on `(tMin, tMax)`, misses. |
| Hitables.ScanIsNearest | ray_tracer/src/main.rs:151-162 | If some sphere alone is hit at `t`, the scan reports a hit no further than `t`. |
| Hitables.AcceptedDecrease | ray_tracer/src/main.rs:154-160 | Accepted hits come in strictly decreasing order, all inside `(tMin, tMax)`. The result is the last one accepted. With none accepted there is no result. |
| Hitables.ScanSource | ray_tracer/src/main.rs:154-159 | The reported record is one sphere's record, at one of that sphere's two roots, with its material. |
| Integrator.SceneHit | ray_tracer/src/main.rs:248-252 | The scene hit lies inside `(0.001, f64::MAX)` and always carries a material, so the `unwrap` never fails. |
| Integrator.DepthBounded | ray_tracer/src/main.rs:247-260 | Each recursive call is one level deeper. Starting from depth `d <= 50`, there are at most `51 - d` calls and none goes beyond depth 50. |
| Integrator.ColorCases | ray_tracer/src/main.rs:247-265 | On a miss the colour is the sky. On a hit with no bounce it is black. Otherwise it is the albedo times the colour of the bounce, one level deeper. |
| Integrator.ColorAtMaxDepth | ray_tracer/src/main.rs:254-259 | At depth 50 or more nothing recurses, and the colour is the sky or black. |
| Integrator.EmptySceneIsSky | ray_tracer/src/main.rs:261-265 | An empty scene shows only the sky. |
| Integrator.ColorInUnitCube | ray_tracer/src/main.rs:247-265 | With albedos and sky colours in `[0, 1]` per channel, every returned colour is in `[0, 1]` per channel. |

## Left out

- Floating-point rounding, NaN and infinities. `Vec3` arithmetic is exact
  over the reals, so identities such as `LambertianDirection` hold only in
  the model.
- `Spheres.Hit`: a zero direction (`a == 0`) returns `None`. This is the
  IEEE result: both roots are NaN or infinite, and every strict test fails.
- The square root, the sky-gradient formula (`unit_vector` and the blend,
  `main.rs:262-264`) and `random_in_unit_sphere` are parameters, not
  definitions. `random_in_unit_sphere`'s rejection loop may not terminate.
- `get_color` draws at most one random vector per call: one on a hit, through
  `scatter`, and none on a miss. The model indexes these by depth
  (`noise(depth)`), which is enough because one evaluation makes at most one
  call per depth.
- `HitMin` is the real `0.001`, not the nearest `f64`.
- `f64::MAX` is its exact value.
- The `i64` depth cannot overflow, because it only grows while below 50.
- `Spheres.Radius` excludes a zero radius, where the source divides by zero.
- `Pixel::from_float` and `From<Vec3> for Pixel`: float-to-`u8` casts.
  Pixels are taken as given bytes.
- `Camera`, `random_from_0_to_1`, `main`'s render loop and the hard-coded
  scene are orchestration and sampling.
- `HitableList::new` and `push_back` only build the scene list.
- File creation and writes in `save_as_ppm_file`, and the `IOError` variant
  of `error_handler.rs`, are I/O. The text is returned instead of written,
  and short writes are not modelled.
- `ImageBuffer` sizes are unbounded naturals. The `usize` overflow of
  `width*height` is not modelled.
- `ray_tracer/src/vectors.rs` (`length`, `unit_vector`, `gamma2_on_color`,
  `Display`) is not part of this model beyond the component-wise operators
  in `Vectors`.
